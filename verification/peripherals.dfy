/**
 * Register sizing in SVD-Loader.py: the device-wide default register size,
 * calculate_peripheral_size (the extent of a peripheral's registers), and the
 * choice of the primitive type that gen_struct places at each register's
 * offset. Register sizes are in bits; offsets, extents and field lengths in
 * bytes. The script runs under Jython 2.7, where `/` on integers floors; all
 * the operands here are naturals, so Dafny's `/` computes the same value.
 */
module Peripherals {
  import opened Wrappers
  import opened Numbers

  /** Python truthiness of an optional number: present and not zero. */
  predicate Truthy(v: Option<nat>)
  {
    v.Some? && v.value != 0
  }

  /** `device.size or device.width or 32`: the first truthy one of the
      device's size and width, and 32 when neither is. */
  function DefaultRegisterSize(size: Option<nat>, width: Option<nat>): (bits: nat)
    ensures bits > 0
    ensures Truthy(size) ==> bits == size.value
    ensures !Truthy(size) && Truthy(width) ==> bits == width.value
    ensures bits == 32 || Some(bits) == size || Some(bits) == width
  {
    if Truthy(size) then size.value
    else if Truthy(width) then width.value
    else 32
  }

  /** A register as the SVD parser gives it: its offset in the peripheral
      (address_offset) and its own size in bits (_size), which may be absent. */
  datatype Register = Register(name: string, description: string, addressOffset: nat, size: Option<nat>)

  /** The register's size in bits: its own size when truthy, the default
      otherwise. */
  function RegisterSize(r: Register, default: nat): (bits: nat)
    ensures Truthy(r.size) ==> bits == r.size.value
    ensures !Truthy(r.size) ==> bits == default
  {
    if Truthy(r.size) then r.size.value else default
  }

  /** `register_size / 8`: the register's width in bytes, rounded down. */
  function ByteWidth(r: Register, default: nat): nat
  {
    RegisterSize(r, default) / 8
  }

  /** The first byte after the register: `address_offset + register_size / 8`. */
  function Extent(r: Register, default: nat): nat
  {
    r.addressOffset + ByteWidth(r, default)
  }

  /** The largest extent of the registers, 0 for none, as a fold from the left
      in the order calculate_peripheral_size visits them. */
  function MaxExtent(regs: seq<Register>, default: nat): nat
  {
    if |regs| == 0 then 0
    else Max(MaxExtent(regs[..|regs| - 1], default), Extent(regs[|regs| - 1], default))
  }

  /** MaxExtent is the maximum: 0 without registers, otherwise no smaller than
      any register's extent and equal to one of them. */
  lemma {:induction false} MaxExtentIsMaximum(regs: seq<Register>, default: nat)
    ensures |regs| == 0 ==> MaxExtent(regs, default) == 0
    ensures forall k :: 0 <= k < |regs| ==> Extent(regs[k], default) <= MaxExtent(regs, default)
    ensures |regs| > 0 ==> exists k :: 0 <= k < |regs| && MaxExtent(regs, default) == Extent(regs[k], default)
  {
    if |regs| > 0 {
      var init := regs[..|regs| - 1];
      MaxExtentIsMaximum(init, default);
      forall k | 0 <= k < |regs| - 1 ensures Extent(regs[k], default) <= MaxExtent(regs, default) {
        assert regs[k] == init[k];
      }
      if |init| > 0 && MaxExtent(regs, default) == MaxExtent(init, default) {
        var k :| 0 <= k < |init| && MaxExtent(init, default) == Extent(init[k], default);
        assert regs[k] == init[k];
      }
    }
  }

  /** calculate_peripheral_size: the running maximum of the registers'
      extents, starting from 0. */
  method CalculatePeripheralSize(registers: seq<Register>, default: nat) returns (size: nat)
    ensures size == MaxExtent(registers, default)
    ensures |registers| == 0 ==> size == 0
    ensures forall k :: 0 <= k < |registers| ==> Extent(registers[k], default) <= size
    ensures |registers| > 0 ==> exists k :: 0 <= k < |registers| && size == Extent(registers[k], default)
  {
    size := 0;
    var i := 0;
    while i < |registers|
      invariant 0 <= i <= |registers|
      invariant size == MaxExtent(registers[..i], default)
      invariant forall k :: 0 <= k < i ==> Extent(registers[k], default) <= size
      invariant i == 0 ==> size == 0
      invariant i > 0 ==> exists k :: 0 <= k < i && size == Extent(registers[k], default)
    {
      var register := registers[i];
      var registerSize := if !Truthy(register.size) then default else register.size.value;
      assert registers[..i + 1][..i] == registers[..i];
      size := Max(size, register.addressOffset + registerSize / 8);
      i := i + 1;
    }
    assert registers[..i] == registers;
  }

  // ---------------------------------------------------------------------------
  // The field gen_struct puts at each register

  /** The four primitive data types gen_struct chooses from. */
  datatype FieldType = Byte | UnsignedShort | UnsignedInt | UnsignedLongLong
  {
    /** The type's own size in bytes. */
    function Size(): nat
    {
      match this
      case Byte => 1
      case UnsignedShort => 2
      case UnsignedInt => 4
      case UnsignedLongLong => 8
    }
  }

  /** The type for a register `byteWidth` bytes wide: a byte, an unsigned
      short or an unsigned long long for 1, 2 and 8 bytes, and an unsigned int
      for every other width. */
  function FieldTypeFor(byteWidth: nat): (t: FieldType)
    ensures t == Byte <==> byteWidth == 1
    ensures t == UnsignedShort <==> byteWidth == 2
    ensures t == UnsignedLongLong <==> byteWidth == 8
    ensures t == UnsignedInt <==> byteWidth != 1 && byteWidth != 2 && byteWidth != 8
  {
    if byteWidth == 1 then Byte
    else if byteWidth == 2 then UnsignedShort
    else if byteWidth == 8 then UnsignedLongLong
    else UnsignedInt
  }

  /** The chosen type is exactly as wide as the field for the widths 1, 2, 4
      and 8 bytes and only for those; every other width gets a 4-byte type. */
  lemma FieldTypeFitsWidth(byteWidth: nat)
    ensures FieldTypeFor(byteWidth).Size() == byteWidth <==>
      byteWidth == 1 || byteWidth == 2 || byteWidth == 4 || byteWidth == 8
    ensures byteWidth != 1 && byteWidth != 2 && byteWidth != 8 ==> FieldTypeFor(byteWidth).Size() == 4
  {
  }

  /** Choosing the type for a primitive type's own size gives that type back. */
  lemma FieldTypeForSize(t: FieldType)
    ensures FieldTypeFor(t.Size()) == t
  {
  }

  /** One component of the peripheral's structure: the register's name and
      description, at its offset, with its byte width as length. */
  datatype Field = Field(name: string, description: string, offset: nat, fieldType: FieldType, length: nat)
  {
    /** The first byte after the field. */
    function End(): nat { offset + length }
  }

  /** The field gen_struct puts at the register. */
  function FieldFor(r: Register, default: nat): (f: Field)
    ensures f.offset == r.addressOffset && f.length == ByteWidth(r, default)
    ensures f.fieldType == FieldTypeFor(f.length)
    ensures f.End() == Extent(r, default)
    ensures f.name == r.name && f.description == r.description
  {
    var width := ByteWidth(r, default);
    Field(r.name, r.description, r.addressOffset, FieldTypeFor(width), width)
  }

  /** The fields of a fresh structure, one per register, in register order. */
  function StructFields(regs: seq<Register>, default: nat): (fields: seq<Field>)
    ensures |fields| == |regs|
    ensures forall k :: 0 <= k < |regs| ==> fields[k] == FieldFor(regs[k], default)
  {
    seq(|regs|, k requires 0 <= k < |regs| => FieldFor(regs[k], default))
  }

  /** Every field lies inside the structure's length as calculate_peripheral_size
      computes it, and the last byte of some field is the structure's last. */
  lemma FieldsFitPeripheralSize(regs: seq<Register>, default: nat)
    ensures forall f :: f in StructFields(regs, default) ==> f.End() <= MaxExtent(regs, default)
    ensures |regs| > 0 ==> exists f :: f in StructFields(regs, default) && f.End() == MaxExtent(regs, default)
  {
    var fields := StructFields(regs, default);
    MaxExtentIsMaximum(regs, default);
    forall f | f in fields ensures f.End() <= MaxExtent(regs, default) {
      var k :| 0 <= k < |fields| && fields[k] == f;
    }
    if |regs| > 0 {
      var k :| 0 <= k < |regs| && MaxExtent(regs, default) == Extent(regs[k], default);
      assert fields[k] in fields;
    }
  }
}
