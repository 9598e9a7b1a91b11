/**
 * The RP2040 tweaks of SVD-Loader.py, after section 2.1.2 (Atomic Register
 * Access) of the RP2040 Datasheet: every peripheral register in the window
 * 0x40000000 up to 0xd0000000 has three aliases, 0x1000 (atomic xor),
 * 0x2000 (atomic bitmask set) and 0x3000 (atomic bitmask clear) above it, and
 * a few peripherals get the structure name of their kind. For any other
 * device the script leaves the tables empty and the condition false.
 */
module Rp2040 {

  const AliasWindowStart: int := 0x4000_0000
  const AliasWindowEnd: int := 0xd000_0000

  /** The tweaks apply when the SVD names the device "RP2040". */
  predicate IsRp2040(deviceName: string)
  {
    deviceName == "RP2040"
  }

  /** One entry of address_extras with its address_extras_comments text. */
  datatype AtomicAlias = AtomicAlias(suffix: string, offset: nat, comment: string)

  /** address_extras_cond: true for an address inside the alias window of an
      RP2040, and false for every address of any other device. */
  predicate ExtrasCond(rp2040: bool, addr: int)
  {
    rp2040 && AliasWindowStart <= addr < AliasWindowEnd
  }

  /** address_extras with its comments, in the order xor, set, clr; empty for
      a device other than the RP2040. */
  function AddressExtras(rp2040: bool): (extras: seq<AtomicAlias>)
    ensures !rp2040 ==> extras == []
    ensures rp2040 ==> |extras| == 3
    ensures forall k :: 0 <= k < |extras| ==> extras[k].offset == (k + 1) * 0x1000
    ensures forall k :: 0 <= k < |extras| ==> |extras[k].suffix| == 3 && |extras[k].comment| > 0
    ensures forall k, l :: 0 <= k < l < |extras| ==> extras[k].suffix != extras[l].suffix
  {
    if rp2040 then
      [ AtomicAlias("xor", 0x1000, "Note: atomic xor on write"),
        AtomicAlias("set", 0x2000, "Note: atomic bitmask set on write"),
        AtomicAlias("clr", 0x3000, "Note: atomic bitmask clear on write") ]
    else []
  }

  /** The extras that apply at address addr: the table when the condition
      holds there, none otherwise. */
  function ExtrasAt(rp2040: bool, addr: int): (extras: seq<AtomicAlias>)
    ensures extras == [] || extras == AddressExtras(rp2040)
    ensures |extras| > 0 <==> ExtrasCond(rp2040, addr)
  {
    if ExtrasCond(rp2040, addr) then AddressExtras(rp2040) else []
  }

  /** peripheral_name_aliases of an RP2040. */
  const NameAliases: map<string, string> :=
    map["PLL_SYS" := "PLL", "UART0" := "UART", "SPI0" := "SPI", "I2C0" := "I2C", "PIO0" := "PIO"]

  /** The structure name for a peripheral: `aliases.get(name, name)`, where
      the aliases are empty for a device other than the RP2040. */
  function StructName(rp2040: bool, name: string): (n: string)
    ensures !rp2040 ==> n == name
    ensures rp2040 && name !in NameAliases ==> n == name
  {
    if rp2040 && name in NameAliases then NameAliases[name] else name
  }

  /** Only the five listed peripherals are renamed, each to its kind. */
  lemma StructNameRenames(rp2040: bool, name: string)
    ensures StructName(rp2040, name) != name <==>
      rp2040 && (name == "PLL_SYS" || name == "UART0" || name == "SPI0" || name == "I2C0" || name == "PIO0")
    ensures rp2040 && name == "UART0" ==> StructName(rp2040, name) == "UART"
  {
  }
}
