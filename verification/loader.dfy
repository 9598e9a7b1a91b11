/**
 * The script body of SVD-Loader.py around the core: the device as the SVD
 * parser describes it, the memory regions built from the peripherals' address
 * blocks and merged by reduce_memory_regions, the memory blocks created for
 * the merged regions, and the structures laid over the peripherals. Every call
 * into Ghidra becomes a record of what the call is asked to create
 * (MemoryBlock, Placement); the parser's objects become plain records.
 */
module Loader {
  import opened Wrappers
  import opened Regions
  import Peripherals
  import opened Rp2040
  import MemoryRegions

  /** A peripheral's addressBlock: its offset from the base and its size. */
  datatype AddressBlock = AddressBlock(offset: nat, size: nat)

  /** A peripheral as the parser gives it; derivedFrom is the name of the
      peripheral its SVD entry is derived from, if any. */
  datatype Peripheral = Peripheral(
    name: string,
    baseAddress: nat,
    addressBlock: AddressBlock,
    registers: seq<Peripherals.Register>,
    derivedFrom: Option<string>)

  datatype Device = Device(name: string, size: Option<nat>, width: Option<nat>, peripherals: seq<Peripheral>)

  /** What the script reads off the device before the three phases. */
  datatype Config = Config(rp2040: bool, defaultRegisterSize: nat)

  function ConfigOf(d: Device): (cfg: Config)
    ensures cfg.rp2040 <==> d.name == "RP2040"
    ensures cfg.defaultRegisterSize > 0
    ensures cfg.defaultRegisterSize == 32 || Some(cfg.defaultRegisterSize) == d.size || Some(cfg.defaultRegisterSize) == d.width
  {
    Config(IsRp2040(d.name), Peripherals.DefaultRegisterSize(d.size, d.width))
  }

  /** Why the script stops before creating any memory block: the MemoryRegion
      constructor's assertion fails for a peripheral whose block claims no
      byte, or reduce_memory_regions indexes an empty list. */
  datatype LoadError = EmptyAddressBlock(peripheral: string) | NoPeripherals

  // ---------------------------------------------------------------------------
  // Memory regions

  /** The region a peripheral claims: from its base address up to the base
      plus the block's offset plus the block's size, named after it. */
  function PeripheralRegion(p: Peripheral): (r: Region)
    ensures r.start == p.baseAddress
    ensures r.Length() == p.addressBlock.offset + p.addressBlock.size
    ensures r.nameParts == [p.name]
  {
    Region(p.baseAddress, p.baseAddress + p.addressBlock.offset + p.addressBlock.size, [p.name])
  }

  /** The block claims at least one byte, so the constructor's assertion holds. */
  predicate Claims(p: Peripheral)
  {
    p.addressBlock.offset + p.addressBlock.size > 0
  }

  function PeripheralRegions(ps: seq<Peripheral>): (rs: seq<Region>)
    ensures |rs| == |ps|
    ensures forall k :: 0 <= k < |ps| ==> rs[k] == PeripheralRegion(ps[k])
  {
    seq(|ps|, k requires 0 <= k < |ps| => PeripheralRegion(ps[k]))
  }

  function Names(ps: seq<Peripheral>): (names: seq<string>)
    ensures |names| == |ps|
    ensures forall k :: 0 <= k < |ps| ==> names[k] == ps[k].name
  {
    seq(|ps|, k requires 0 <= k < |ps| => ps[k].name)
  }

  /** The name of the first peripheral, in list order, whose block claims no
      byte. */
  function FirstEmptyBlock(ps: seq<Peripheral>): Option<string>
  {
    if |ps| == 0 then None
    else match FirstEmptyBlock(ps[..|ps| - 1])
      case Some(name) => Some(name)
      case None => if Claims(ps[|ps| - 1]) then None else Some(ps[|ps| - 1].name)
  }

  /** FirstEmptyBlock finds nothing exactly when every block claims a byte,
      and otherwise names a peripheral that claims none after only ones that
      do. */
  lemma {:induction false} FirstEmptyBlockFinds(ps: seq<Peripheral>)
    ensures FirstEmptyBlock(ps).None? <==> forall k :: 0 <= k < |ps| ==> Claims(ps[k])
    ensures FirstEmptyBlock(ps).Some? ==>
      exists k :: 0 <= k < |ps| && ps[k].name == FirstEmptyBlock(ps).value && !Claims(ps[k]) && (forall l :: 0 <= l < k ==> Claims(ps[l]))
  {
    if |ps| > 0 {
      var init := ps[..|ps| - 1];
      FirstEmptyBlockFinds(init);
      if FirstEmptyBlock(init).Some? {
        var k :| 0 <= k < |init| && init[k].name == FirstEmptyBlock(init).value && !Claims(init[k]) &&
          forall l :: 0 <= l < k ==> Claims(init[l]);
        assert ps[k] == init[k];
        forall l | 0 <= l < k ensures Claims(ps[l]) {
          assert ps[l] == init[l];
        }
      } else {
        forall k | 0 <= k < |ps| - 1 ensures Claims(ps[k]) {
          assert ps[k] == init[k];
        }
      }
    }
  }

  /** Once found in a prefix, the first empty block stays the one found. */
  lemma {:induction false} FirstEmptyBlockPrefix(ps: seq<Peripheral>, i: nat)
    requires i <= |ps| && FirstEmptyBlock(ps[..i]).Some?
    ensures FirstEmptyBlock(ps) == FirstEmptyBlock(ps[..i])
    decreases |ps| - i
  {
    if i < |ps| {
      assert ps[..i + 1][..i] == ps[..i];
      FirstEmptyBlockPrefix(ps, i + 1);
    } else {
      assert ps[..i] == ps;
    }
  }

  /** Lines 150-157 of the script as a value: the regions of all peripherals,
      merged, or the error that stops the script. */
  function MemoryRegionsOf(ps: seq<Peripheral>): Result<seq<Region>, LoadError>
  {
    match FirstEmptyBlock(ps)
    case Some(name) => Err(EmptyAddressBlock(name))
    case None => if |ps| == 0 then Err(NoPeripherals) else Ok(Reduce(PeripheralRegions(ps)))
  }

  /** The script gets past the merge exactly when there are peripherals and
      every block claims a byte; the merged regions are then separated, claim
      exactly the addresses some peripheral's block claims, and keep every
      peripheral's name once, in order of start address. */
  lemma MemoryRegionsOfMerges(ps: seq<Peripheral>)
    ensures MemoryRegionsOf(ps).Ok? <==> |ps| > 0 && forall k :: 0 <= k < |ps| ==> Claims(ps[k])
    ensures |ps| == 0 ==> MemoryRegionsOf(ps) == Err(NoPeripherals)
    ensures MemoryRegionsOf(ps).Ok? ==> var rs := MemoryRegionsOf(ps).value;
      && 0 < |rs| <= |ps| && AllValid(rs) && Separated(rs)
      && (forall x :: Covered(rs, x) <==>
            exists k :: 0 <= k < |ps| && ps[k].baseAddress <= x < ps[k].baseAddress + ps[k].addressBlock.offset + ps[k].addressBlock.size)
      && multiset(AllParts(rs)) == multiset(Names(ps))
      && AllParts(rs) == AllParts(SortByStart(PeripheralRegions(ps)))
  {
    FirstEmptyBlockFinds(ps);
    if MemoryRegionsOf(ps).Ok? {
      var s := PeripheralRegions(ps);
      assert AllValid(s);
      ReduceShape(s);
      ReduceCoverage(s);
      ReduceNames(s);
      AllPartsOfSingletons(ps);
      PeripheralRegionsCover(ps);
    }
  }

  /** The unmerged regions claim exactly the addresses of the peripherals'
      blocks. */
  lemma PeripheralRegionsCover(ps: seq<Peripheral>)
    ensures forall x :: Covered(PeripheralRegions(ps), x) <==>
      exists k :: 0 <= k < |ps| && ps[k].baseAddress <= x < ps[k].baseAddress + ps[k].addressBlock.offset + ps[k].addressBlock.size
  {
    var s := PeripheralRegions(ps);
    forall x ensures Covered(s, x) <==>
      exists k :: 0 <= k < |ps| && ps[k].baseAddress <= x < ps[k].baseAddress + ps[k].addressBlock.offset + ps[k].addressBlock.size
    {
      if Covered(s, x) {
        var k :| 0 <= k < |s| && s[k].Contains(x);
      }
      if exists k :: 0 <= k < |ps| && ps[k].baseAddress <= x < ps[k].baseAddress + ps[k].addressBlock.offset + ps[k].addressBlock.size {
        var k :| 0 <= k < |ps| && ps[k].baseAddress <= x < ps[k].baseAddress + ps[k].addressBlock.offset + ps[k].addressBlock.size;
        assert s[k].Contains(x);
      }
    }
  }

  /** The name parts of the unmerged regions are the peripherals' names. */
  lemma {:induction false} AllPartsOfSingletons(ps: seq<Peripheral>)
    ensures AllParts(PeripheralRegions(ps)) == Names(ps)
  {
    if |ps| > 0 {
      var init := ps[..|ps| - 1];
      AllPartsOfSingletons(init);
      assert PeripheralRegions(ps)[..|ps| - 1] == PeripheralRegions(init);
      assert Names(ps) == Names(init) + [ps[|ps| - 1].name];
    }
  }

  /** The loop of lines 151-156: one new MemoryRegion object per peripheral,
      in order, stopping at the first block that claims no byte. */
  method NewMemoryRegions(ps: seq<Peripheral>) returns (res: Result<seq<MemoryRegions.MemoryRegion>, LoadError>)
    ensures res.Err? <==> FirstEmptyBlock(ps).Some?
    ensures res.Err? ==> res.error == EmptyAddressBlock(FirstEmptyBlock(ps).value)
    ensures res.Ok? ==> |res.value| == |ps| && MemoryRegions.Distinct(res.value)
    ensures res.Ok? ==> forall k :: 0 <= k < |ps| ==> fresh(res.value[k]) && res.value[k].Value() == PeripheralRegion(ps[k])
  {
    var objs: seq<MemoryRegions.MemoryRegion> := [];
    var i := 0;
    while i < |ps|
      invariant 0 <= i <= |ps| && |objs| == i
      invariant FirstEmptyBlock(ps[..i]) == None
      invariant forall k :: 0 <= k < i ==> fresh(objs[k]) && objs[k].Value() == PeripheralRegion(ps[k])
      invariant MemoryRegions.Distinct(objs)
    {
      var peripheral := ps[i];
      var start := peripheral.baseAddress;
      var length := peripheral.addressBlock.offset + peripheral.addressBlock.size;
      var end := peripheral.baseAddress + length;
      assert ps[..i + 1][..i] == ps[..i];
      if !(start < end) {
        FirstEmptyBlockPrefix(ps, i + 1);
        return Err(EmptyAddressBlock(peripheral.name));
      }
      var region := new MemoryRegions.MemoryRegion(peripheral.name, start, end, []);
      objs := objs + [region];
      i := i + 1;
    }
    assert ps[..i] == ps;
    res := Ok(objs);
  }

  /** Lines 150-157: the regions of all peripherals, merged by
      reduce_memory_regions. */
  method GenerateMemoryRegions(ps: seq<Peripheral>) returns (res: Result<seq<MemoryRegions.MemoryRegion>, LoadError>)
    ensures res.Err? <==> MemoryRegionsOf(ps).Err?
    ensures res.Err? ==> res.error == MemoryRegionsOf(ps).error
    ensures res.Ok? ==> MemoryRegions.Values(res.value) == MemoryRegionsOf(ps).value
  {
    var built := NewMemoryRegions(ps);
    if built.Err? {
      return Err(built.error);
    }
    var objs := built.value;
    if |objs| == 0 {
      return Err(NoPeripherals);
    }
    var regions := new MemoryRegions.MemoryRegion[|objs|](k requires 0 <= k < |objs| => objs[k]);
    assert regions[..] == objs;
    FirstEmptyBlockFinds(ps);
    assert forall k :: 0 <= k < regions.Length ==> regions[k].Valid();
    assert MemoryRegions.Values(objs) == PeripheralRegions(ps);
    var merged := MemoryRegions.ReduceMemoryRegions(regions);
    res := Ok(merged);
  }

  // ---------------------------------------------------------------------------
  // Memory blocks

  /** One add_block call: the uninitialized, volatile, read-write block it
      asks Ghidra to create. */
  datatype MemoryBlock = MemoryBlock(name: string, start: int, length: int, comment: string)
  {
    predicate Contains(x: int)
    {
      start <= x < start + length
    }
  }

  /** The alias blocks of a block: `name + "_" + suffix`, at the alias's
      offset above start, as long as the block, with the alias's comment. */
  function AliasBlocks(name: string, start: int, length: int, extras: seq<AtomicAlias>): seq<MemoryBlock>
  {
    seq(|extras|, k requires 0 <= k < |extras| =>
      MemoryBlock(name + "_" + extras[k].suffix, start + extras[k].offset, length, extras[k].comment))
  }

  /** The blocks of one merged region (lines 178-184): the region itself,
      then its aliases when the condition holds at its start. */
  function RegionBlocks(rp2040: bool, r: Region): seq<MemoryBlock>
  {
    [MemoryBlock(r.Name(), r.start, r.Length(), "")] + AliasBlocks(r.Name(), r.start, r.Length(), ExtrasAt(rp2040, r.start))
  }

  /** The blocks of all merged regions, in order. */
  function MemoryBlocks(rp2040: bool, rs: seq<Region>): seq<MemoryBlock>
  {
    if |rs| == 0 then [] else MemoryBlocks(rp2040, rs[..|rs| - 1]) + RegionBlocks(rp2040, rs[|rs| - 1])
  }

  /** A region gets one block of its own name, start and length; on an RP2040
      with the region in the alias window it gets three more, k * 0x1000
      above it, as long as it, named with the suffixes xor, set and clr. */
  lemma RegionBlocksShape(rp2040: bool, r: Region)
    ensures var blocks := RegionBlocks(rp2040, r);
      && |blocks| == (if ExtrasCond(rp2040, r.start) then 4 else 1)
      && blocks[0] == MemoryBlock(r.Name(), r.start, r.Length(), "")
      && (forall k :: 0 <= k < |blocks| ==> blocks[k].start == r.start + k * 0x1000 && blocks[k].length == r.Length())
      && (|blocks| == 4 ==>
            blocks[1].name == r.Name() + "_xor" && blocks[2].name == r.Name() + "_set" && blocks[3].name == r.Name() + "_clr")
  {
    var blocks := RegionBlocks(rp2040, r);
    var extras := ExtrasAt(rp2040, r.start);
    forall k | 1 <= k < |blocks| ensures blocks[k].start == r.start + k * 0x1000 {
      assert blocks[k] == AliasBlocks(r.Name(), r.start, r.Length(), extras)[k - 1];
    }
  }

  /** The blocks of a region no longer than 0x1000 bytes never overlap one
      another, so its aliases cannot conflict with it or with each other. */
  lemma RegionBlocksDisjoint(rp2040: bool, r: Region)
    requires 0 < r.Length() <= 0x1000
    ensures var blocks := RegionBlocks(rp2040, r);
      forall k, l :: 0 <= k < l < |blocks| ==> blocks[k].start + blocks[k].length <= blocks[l].start
  {
    RegionBlocksShape(rp2040, r);
  }

  /** On a device other than the RP2040 the blocks are the merged regions,
      one each, in order. */
  lemma {:induction false} MemoryBlocksOtherDevice(rs: seq<Region>)
    ensures MemoryBlocks(false, rs) == seq(|rs|, k requires 0 <= k < |rs| => MemoryBlock(rs[k].Name(), rs[k].start, rs[k].Length(), ""))
  {
    if |rs| > 0 {
      var init := rs[..|rs| - 1];
      MemoryBlocksOtherDevice(init);
      assert RegionBlocks(false, rs[|rs| - 1]) == [MemoryBlock(rs[|rs| - 1].Name(), rs[|rs| - 1].start, rs[|rs| - 1].Length(), "")];
    }
  }

  /** The add_block calls for one merged region (lines 178-184). */
  method AddRegionBlocks(rp2040: bool, r: MemoryRegions.MemoryRegion) returns (blocks: seq<MemoryBlock>)
    ensures blocks == RegionBlocks(rp2040, r.Value())
  {
    var length := r.end - r.start;
    var name := Join(r.nameParts);
    blocks := [MemoryBlock(name, r.start, length, "")];
    if ExtrasCond(rp2040, r.start) {
      var extras := AddressExtras(rp2040);
      var j := 0;
      while j < |extras|
        invariant 0 <= j <= |extras|
        invariant blocks == [MemoryBlock(name, r.start, length, "")] + AliasBlocks(name, r.start, length, extras[..j])
      {
        var alias := extras[j];
        assert AliasBlocks(name, r.start, length, extras[..j + 1]) ==
          AliasBlocks(name, r.start, length, extras[..j]) + [MemoryBlock(name + "_" + alias.suffix, r.start + alias.offset, length, alias.comment)];
        blocks := blocks + [MemoryBlock(name + "_" + alias.suffix, r.start + alias.offset, length, alias.comment)];
        j := j + 1;
      }
      assert extras[..j] == extras;
    }
  }

  /** Lines 161-184: the blocks of every merged region, in order. */
  method GenerateMemoryBlocks(rp2040: bool, regions: seq<MemoryRegions.MemoryRegion>) returns (blocks: seq<MemoryBlock>)
    ensures blocks == MemoryBlocks(rp2040, MemoryRegions.Values(regions))
  {
    ghost var rs := MemoryRegions.Values(regions);
    blocks := [];
    var i := 0;
    while i < |regions|
      invariant 0 <= i <= |regions|
      invariant blocks == MemoryBlocks(rp2040, rs[..i])
    {
      var more := AddRegionBlocks(rp2040, regions[i]);
      assert rs[..i + 1][..i] == rs[..i];
      blocks := blocks + more;
      i := i + 1;
    }
    assert rs[..i] == rs;
  }

  // ---------------------------------------------------------------------------
  // Peripheral structures

  /** A StructureDataType: its name, its length in bytes, and the components
      gen_struct asks replaceAtOffset to put into it, in order. */
  datatype Struct = Struct(name: string, length: nat, fields: seq<Peripherals.Field>)

  /** A structure laid at an address under a label (createLabel and createData). */
  datatype Placement = Placement(symbol: string, address: int, struct: Struct)

  /** A label and address gen_struct is called with. */
  datatype Target = Target(symbol: string, address: int)

  /** What the loop over the peripherals carries: the placements made so far
      and peripherals_cache. */
  datatype State = State(placements: seq<Placement>, cache: map<string, Struct>)

  /** The structure gen_struct builds for p when it reuses none: named after
      p (or its kind, on an RP2040), length bytes long, a field per register. */
  function NewStruct(cfg: Config, p: Peripheral, length: nat): Struct
  {
    Struct(StructName(cfg.rp2040, p.name), length, Peripherals.StructFields(p.registers, cfg.defaultRegisterSize))
  }

  /** The structure a fresh gen_struct gives p: as long as
      calculate_peripheral_size says. */
  function BuiltStruct(cfg: Config, p: Peripheral): Struct
  {
    NewStruct(cfg, p, Peripherals.MaxExtent(p.registers, cfg.defaultRegisterSize))
  }

  /** The structure gen_struct uses for p: the cached structure of the
      peripheral p derives from, when there is one, and a new one otherwise. */
  function ChooseStruct(cfg: Config, cache: map<string, Struct>, p: Peripheral, length: nat): Struct
  {
    if p.derivedFrom.Some? && p.derivedFrom.value in cache then cache[p.derivedFrom.value]
    else NewStruct(cfg, p, length)
  }

  /** One gen_struct call: place the chosen structure and cache it under p's
      name. */
  function GenStruct(cfg: Config, st: State, p: Peripheral, t: Target, length: nat): State
  {
    var s := ChooseStruct(cfg, st.cache, p, length);
    State(st.placements + [Placement(t.symbol, t.address, s)], st.cache[p.name := s])
  }

  /** The calls of lines 249-253: p's own name at its base address, then one
      per alias where the condition holds at the base address. */
  function Targets(cfg: Config, p: Peripheral): seq<Target>
  {
    var extras := ExtrasAt(cfg.rp2040, p.baseAddress);
    [Target(p.name, p.baseAddress)] +
      seq(|extras|, k requires 0 <= k < |extras| => Target(p.name + "_" + extras[k].suffix, p.baseAddress + extras[k].offset))
  }

  /** The gen_struct calls for p, in order. */
  function GenCalls(cfg: Config, st: State, p: Peripheral, length: nat, ts: seq<Target>): State
  {
    if |ts| == 0 then st
    else GenStruct(cfg, GenCalls(cfg, st, p, length, ts[..|ts| - 1]), p, ts[|ts| - 1], length)
  }

  /** One pass of the loop of lines 190-253: nothing for a peripheral without
      registers. */
  function GenPeripheral(cfg: Config, st: State, p: Peripheral): State
  {
    if |p.registers| == 0 then st
    else GenCalls(cfg, st, p, Peripherals.MaxExtent(p.registers, cfg.defaultRegisterSize), Targets(cfg, p))
  }

  /** The loop of lines 190-253 over the peripherals, from an empty cache. */
  function Generate(cfg: Config, ps: seq<Peripheral>): State
  {
    if |ps| == 0 then State([], map[])
    else GenPeripheral(cfg, Generate(cfg, ps[..|ps| - 1]), ps[|ps| - 1])
  }

  /** The same structure at every target. */
  function Place(ts: seq<Target>, s: Struct): (pls: seq<Placement>)
    ensures |pls| == |ts|
    ensures forall k :: 0 <= k < |ts| ==> pls[k] == Placement(ts[k].symbol, ts[k].address, s)
  {
    seq(|ts|, k requires 0 <= k < |ts| => Placement(ts[k].symbol, ts[k].address, s))
  }

  /** All calls for one peripheral share one structure, the one the first
      call chooses: caching it under p's name never changes what a later call
      of the same peripheral reuses. */
  lemma {:induction false} GenCallsShare(cfg: Config, st: State, p: Peripheral, length: nat, ts: seq<Target>)
    requires |ts| > 0
    ensures var s := ChooseStruct(cfg, st.cache, p, length);
      GenCalls(cfg, st, p, length, ts) == State(st.placements + Place(ts, s), st.cache[p.name := s])
  {
    var s := ChooseStruct(cfg, st.cache, p, length);
    var init := ts[..|ts| - 1];
    if |init| == 0 {
      assert GenCalls(cfg, st, p, length, init) == st;
      assert Place(ts, s) == [Placement(ts[0].symbol, ts[0].address, s)];
    } else {
      GenCallsShare(cfg, st, p, length, init);
      var mid := GenCalls(cfg, st, p, length, init);
      assert ChooseStruct(cfg, mid.cache, p, length) == s;
      assert Place(ts, s) == Place(init, s) + [Placement(ts[|ts| - 1].symbol, ts[|ts| - 1].address, s)];
      assert mid.cache[p.name := s] == st.cache[p.name := s];
    }
  }

  /** A peripheral with registers gets the structure of the peripheral it
      derives from, when that one was cached, and otherwise one built from its
      own registers and sized by calculate_peripheral_size; the same structure
      at its base address and at every alias, cached under its name. */
  lemma GenPeripheralShares(cfg: Config, st: State, p: Peripheral)
    requires |p.registers| > 0
    ensures var s := ChooseStruct(cfg, st.cache, p, Peripherals.MaxExtent(p.registers, cfg.defaultRegisterSize));
      && (s == BuiltStruct(cfg, p) || (p.derivedFrom.Some? && p.derivedFrom.value in st.cache && s == st.cache[p.derivedFrom.value]))
      && GenPeripheral(cfg, st, p) == State(st.placements + Place(Targets(cfg, p), s), st.cache[p.name := s])
  {
    GenCallsShare(cfg, st, p, Peripherals.MaxExtent(p.registers, cfg.defaultRegisterSize), Targets(cfg, p));
  }

  /** Every structure placed or cached is one built afresh for some
      peripheral of ps that has registers. */
  ghost predicate BuiltFrom(cfg: Config, ps: seq<Peripheral>, st: State)
  {
    && (forall pl :: pl in st.placements ==> exists q :: q in ps && |q.registers| > 0 && pl.struct == BuiltStruct(cfg, q))
    && (forall name :: name in st.cache ==> exists q :: q in ps && |q.registers| > 0 && st.cache[name] == BuiltStruct(cfg, q))
  }

  /** A peripheral of ps keeps BuiltFrom, and caches under its own name when
      it has registers. */
  lemma GenPeripheralBuilds(cfg: Config, ps: seq<Peripheral>, st: State, p: Peripheral)
    requires BuiltFrom(cfg, ps, st) && p in ps
    ensures BuiltFrom(cfg, ps, GenPeripheral(cfg, st, p))
    ensures forall name :: name in GenPeripheral(cfg, st, p).cache <==>
      name in st.cache || (|p.registers| > 0 && name == p.name)
  {
    if |p.registers| > 0 {
      var s := ChooseStruct(cfg, st.cache, p, Peripherals.MaxExtent(p.registers, cfg.defaultRegisterSize));
      var after := State(st.placements + Place(Targets(cfg, p), s), st.cache[p.name := s]);
      assert GenPeripheral(cfg, st, p) == after by {
        GenPeripheralShares(cfg, st, p);
      }
      assert BuiltFrom(cfg, ps, after) by {
        GenPeripheralShares(cfg, st, p);
        assert exists q :: q in ps && |q.registers| > 0 && s == BuiltStruct(cfg, q);
        BuiltFromAdd(cfg, ps, st, Place(Targets(cfg, p), s), p.name, s);
      }
    }
  }

  /** Placing and caching a structure built from a peripheral of ps keeps
      BuiltFrom. */
  lemma BuiltFromAdd(cfg: Config, ps: seq<Peripheral>, st: State, pls: seq<Placement>, name: string, s: Struct)
    requires BuiltFrom(cfg, ps, st)
    requires exists q :: q in ps && |q.registers| > 0 && s == BuiltStruct(cfg, q)
    requires forall pl :: pl in pls ==> pl.struct == s
    ensures BuiltFrom(cfg, ps, State(st.placements + pls, st.cache[name := s]))
  {
    forall pl | pl in st.placements + pls
      ensures exists q :: q in ps && |q.registers| > 0 && pl.struct == BuiltStruct(cfg, q)
    {
      if pl in pls {
        assert pl.struct == s;
      }
    }
  }

  /** BuiltFrom holds for any list that contains the peripherals. */
  lemma BuiltFromWiden(cfg: Config, init: seq<Peripheral>, ps: seq<Peripheral>, st: State)
    requires BuiltFrom(cfg, init, st)
    requires forall q :: q in init ==> q in ps
    ensures BuiltFrom(cfg, ps, st)
  {
  }

  /** The cache holds exactly the peripherals with registers, by name, and
      every placed structure was built from one of them. */
  lemma {:induction false} GenerateBuilds(cfg: Config, ps: seq<Peripheral>)
    ensures BuiltFrom(cfg, ps, Generate(cfg, ps))
    ensures forall name :: name in Generate(cfg, ps).cache <==> exists q :: q in ps && |q.registers| > 0 && q.name == name
  {
    if |ps| > 0 {
      var init := ps[..|ps| - 1];
      var p := ps[|ps| - 1];
      GenerateBuilds(cfg, init);
      assert ps == init + [p];
      BuiltFromWiden(cfg, init, ps, Generate(cfg, init));
      GenPeripheralBuilds(cfg, ps, Generate(cfg, init), p);
    }
  }

  /** Every placed structure's fields lie inside the structure. */
  lemma PlacementsFit(cfg: Config, ps: seq<Peripheral>)
    ensures forall pl, f :: pl in Generate(cfg, ps).placements && f in pl.struct.fields ==> f.End() <= pl.struct.length
  {
    GenerateBuilds(cfg, ps);
    forall pl, f | pl in Generate(cfg, ps).placements && f in pl.struct.fields ensures f.End() <= pl.struct.length {
      var q :| q in ps && |q.registers| > 0 && pl.struct == BuiltStruct(cfg, q);
      Peripherals.FieldsFitPeripheralSize(q.registers, cfg.defaultRegisterSize);
    }
  }

  /** The peripherals that have registers, in order: the ones the loop does
      not skip. */
  function WithRegisters(ps: seq<Peripheral>): seq<Peripheral>
  {
    if |ps| == 0 then []
    else WithRegisters(ps[..|ps| - 1]) + (if |ps[|ps| - 1].registers| > 0 then [ps[|ps| - 1]] else [])
  }

  /** gen_struct is called once at the peripheral's base address under its
      own name and, on an RP2040 with the base in the alias window, three more
      times, k * 0x1000 above it, under the name with _xor, _set and _clr. */
  lemma TargetsShape(cfg: Config, p: Peripheral)
    ensures var ts := Targets(cfg, p);
      && |ts| == (if ExtrasCond(cfg.rp2040, p.baseAddress) then 4 else 1)
      && ts[0] == Target(p.name, p.baseAddress)
      && (forall k :: 0 <= k < |ts| ==> ts[k].address == p.baseAddress + k * 0x1000)
      && (|ts| == 4 ==> ts[1].symbol == p.name + "_xor" && ts[2].symbol == p.name + "_set" && ts[3].symbol == p.name + "_clr")
  {
    var ts := Targets(cfg, p);
    var extras := ExtrasAt(cfg.rp2040, p.baseAddress);
    forall k | 1 <= k < |ts| ensures ts[k].address == p.baseAddress + k * 0x1000 {
      assert ts[k] == Target(p.name + "_" + extras[k - 1].suffix, p.baseAddress + extras[k - 1].offset);
    }
  }

  /** On a device other than the RP2040 each peripheral with registers gets
      exactly one structure, under its own name at its base address, in
      order; peripherals without registers get none. */
  lemma {:induction false} OtherDevicePlacements(cfg: Config, ps: seq<Peripheral>)
    requires !cfg.rp2040
    ensures var pls := Generate(cfg, ps).placements; var w := WithRegisters(ps);
      && |pls| == |w|
      && forall k :: 0 <= k < |w| ==> pls[k].symbol == w[k].name && pls[k].address == w[k].baseAddress
  {
    if |ps| > 0 {
      var init := ps[..|ps| - 1];
      var p := ps[|ps| - 1];
      OtherDevicePlacements(cfg, init);
      if |p.registers| > 0 {
        var st := Generate(cfg, init);
        GenPeripheralShares(cfg, st, p);
        assert Targets(cfg, p) == [Target(p.name, p.baseAddress)];
      }
    }
  }

  /** Lines 214-234: a new structure for the peripheral, with the field
      type for each register chosen from its byte width. */
  method BuildStruct(cfg: Config, p: Peripheral, length: nat) returns (s: Struct)
    ensures s == NewStruct(cfg, p, length)
  {
    var fields: seq<Peripherals.Field> := [];
    var i := 0;
    while i < |p.registers|
      invariant 0 <= i <= |p.registers| && |fields| == i
      invariant forall k :: 0 <= k < i ==> fields[k] == Peripherals.FieldFor(p.registers[k], cfg.defaultRegisterSize)
    {
      var register := p.registers[i];
      var registerSize := if !Peripherals.Truthy(register.size) then cfg.defaultRegisterSize else register.size.value;
      var rType := Peripherals.UnsignedInt;
      var rs := registerSize / 8;
      if rs == 1 {
        rType := Peripherals.Byte;
      } else if rs == 2 {
        rType := Peripherals.UnsignedShort;
      } else if rs == 8 {
        rType := Peripherals.UnsignedLongLong;
      }
      fields := fields + [Peripherals.Field(register.name, register.description, register.addressOffset, rType, registerSize / 8)];
      i := i + 1;
    }
    s := Struct(StructName(cfg.rp2040, p.name), length, fields);
  }

  /** gen_struct (lines 203-236): reuse the cached structure of the
      peripheral p derives from or build one, place it, and cache it under
      p's name. */
  method GenStructCall(cfg: Config, placements: seq<Placement>, cache: map<string, Struct>,
                       p: Peripheral, symbol: string, start: int, length: nat)
    returns (placements': seq<Placement>, cache': map<string, Struct>)
    ensures State(placements', cache') == GenStruct(cfg, State(placements, cache), p, Target(symbol, start), length)
  {
    var peripheralStruct;
    if p.derivedFrom.Some? && p.derivedFrom.value in cache {
      peripheralStruct := cache[p.derivedFrom.value];
    } else {
      peripheralStruct := BuildStruct(cfg, p, length);
    }
    cache' := cache[p.name := peripheralStruct];
    placements' := placements + [Placement(symbol, start, peripheralStruct)];
  }

  /** The calls for one peripheral with registers (lines 201 and 249-253). */
  method GenPeripheralCalls(cfg: Config, placements: seq<Placement>, cache: map<string, Struct>, p: Peripheral)
    returns (placements': seq<Placement>, cache': map<string, Struct>)
    requires |p.registers| > 0
    ensures State(placements', cache') == GenPeripheral(cfg, State(placements, cache), p)
  {
    ghost var st := State(placements, cache);
    ghost var ts := Targets(cfg, p);
    var length := Peripherals.CalculatePeripheralSize(p.registers, cfg.defaultRegisterSize);
    GenCallsStep(cfg, st, p, length, ts, 0);
    placements', cache' := GenStructCall(cfg, placements, cache, p, p.name, p.baseAddress, length);
    if ExtrasCond(cfg.rp2040, p.baseAddress) {
      var extras := AddressExtras(cfg.rp2040);
      forall k | 0 <= k < |extras|
        ensures ts[k + 1] == Target(p.name + "_" + extras[k].suffix, p.baseAddress + extras[k].offset)
      {
        TargetAt(cfg, p, k);
      }
      placements', cache' := GenAliasCalls(cfg, st, p, length, extras, ts, placements', cache');
    } else {
      assert ts[..1] == ts;
    }
  }

  /** The calls of lines 251-253, one per alias, after the one at p's own
      name: ts are the targets of all the calls. */
  method GenAliasCalls(cfg: Config, ghost st: State, p: Peripheral, length: nat, extras: seq<AtomicAlias>,
                       ghost ts: seq<Target>, placements: seq<Placement>, cache: map<string, Struct>)
    returns (placements': seq<Placement>, cache': map<string, Struct>)
    requires |ts| == |extras| + 1
    requires forall k :: 0 <= k < |extras| ==>
      ts[k + 1] == Target(p.name + "_" + extras[k].suffix, p.baseAddress + extras[k].offset)
    requires State(placements, cache) == GenCalls(cfg, st, p, length, ts[..1])
    ensures State(placements', cache') == GenCalls(cfg, st, p, length, ts)
  {
    placements', cache' := placements, cache;
    var j := 0;
    while j < |extras|
      invariant 0 <= j <= |extras|
      invariant State(placements', cache') == GenCalls(cfg, st, p, length, ts[..j + 1])
    {
      var alias := extras[j];
      GenCallsStep(cfg, st, p, length, ts, j + 1);
      placements', cache' := GenStructCall(cfg, placements', cache', p, p.name + "_" + alias.suffix, p.baseAddress + alias.offset, length);
      j := j + 1;
    }
    assert ts[..|ts|] == ts;
  }

  /** The gen_struct calls for the first j + 1 targets are those for the first
      j and then the call for target j. */
  lemma GenCallsStep(cfg: Config, st: State, p: Peripheral, length: nat, ts: seq<Target>, j: nat)
    requires j < |ts|
    ensures j == 0 ==> GenCalls(cfg, st, p, length, ts[..j]) == st
    ensures GenCalls(cfg, st, p, length, ts[..j + 1]) == GenStruct(cfg, GenCalls(cfg, st, p, length, ts[..j]), p, ts[j], length)
  {
    assert ts[..j + 1][..j] == ts[..j];
  }

  /** The target after p's own name, j places on, is its j-th alias. */
  lemma TargetAt(cfg: Config, p: Peripheral, j: nat)
    requires ExtrasCond(cfg.rp2040, p.baseAddress) && j < |AddressExtras(cfg.rp2040)|
    ensures var alias := AddressExtras(cfg.rp2040)[j];
      |Targets(cfg, p)| == |AddressExtras(cfg.rp2040)| + 1 &&
      Targets(cfg, p)[j + 1] == Target(p.name + "_" + alias.suffix, p.baseAddress + alias.offset)
  {
  }

  /** Lines 189-253: the structures of all peripherals with registers, with
      peripherals_cache starting empty. */
  method GeneratePeripherals(cfg: Config, ps: seq<Peripheral>) returns (placements: seq<Placement>, cache: map<string, Struct>)
    ensures State(placements, cache) == Generate(cfg, ps)
  {
    placements := [];
    cache := map[];
    var i := 0;
    while i < |ps|
      invariant 0 <= i <= |ps|
      invariant State(placements, cache) == Generate(cfg, ps[..i])
    {
      var peripheral := ps[i];
      assert ps[..i + 1][..i] == ps[..i];
      if |peripheral.registers| == 0 {
        i := i + 1;
        continue;
      }
      placements, cache := GenPeripheralCalls(cfg, placements, cache, peripheral);
      i := i + 1;
    }
    assert ps[..i] == ps;
  }

  // ---------------------------------------------------------------------------
  // The whole script

  /** Everything the script asks Ghidra to create for a device. */
  datatype Plan = Plan(blocks: seq<MemoryBlock>, placements: seq<Placement>)

  /** The script's three phases as a value: stop at the merge's error, or the
      memory blocks of the merged regions and the structures. */
  function LoadPlan(d: Device): Result<Plan, LoadError>
  {
    var cfg := ConfigOf(d);
    match MemoryRegionsOf(d.peripherals)
    case Err(e) => Err(e)
    case Ok(rs) => Ok(Plan(MemoryBlocks(cfg.rp2040, rs), Generate(cfg, d.peripherals).placements))
  }

  /** The script stops before creating any memory block or structure exactly
      when the device has no peripherals or a block that claims no byte;
      otherwise it creates its own block for each merged region and places
      only structures whose fields fit. */
  lemma LoadPlanOutcome(d: Device)
    ensures LoadPlan(d).Ok? <==> |d.peripherals| > 0 && forall k :: 0 <= k < |d.peripherals| ==> Claims(d.peripherals[k])
    ensures LoadPlan(d).Ok? ==> |LoadPlan(d).value.blocks| >= |MemoryRegionsOf(d.peripherals).value|
    ensures LoadPlan(d).Ok? ==> var rs := MemoryRegionsOf(d.peripherals).value;
      forall k :: 0 <= k < |rs| ==> MemoryBlock(rs[k].Name(), rs[k].start, rs[k].Length(), "") in LoadPlan(d).value.blocks
    ensures LoadPlan(d).Ok? ==> forall pl, f :: pl in LoadPlan(d).value.placements && f in pl.struct.fields ==> f.End() <= pl.struct.length
  {
    MemoryRegionsOfMerges(d.peripherals);
    PlacementsFit(ConfigOf(d), d.peripherals);
    if LoadPlan(d).Ok? {
      MemoryBlocksHoldOwn(ConfigOf(d).rp2040, MemoryRegionsOf(d.peripherals).value);
    }
  }

  /** Every region gets its own block (line 180), whatever its aliases. */
  lemma {:induction false} MemoryBlocksHoldOwn(rp2040: bool, rs: seq<Region>)
    ensures |MemoryBlocks(rp2040, rs)| >= |rs|
    ensures forall k :: 0 <= k < |rs| ==>
      MemoryBlock(rs[k].Name(), rs[k].start, rs[k].Length(), "") in MemoryBlocks(rp2040, rs)
  {
    if |rs| > 0 {
      var init := rs[..|rs| - 1];
      MemoryBlocksHoldOwn(rp2040, init);
      forall k | 0 <= k < |rs|
        ensures MemoryBlock(rs[k].Name(), rs[k].start, rs[k].Length(), "") in MemoryBlocks(rp2040, rs)
      {
        if k < |init| {
          assert rs[k] == init[k];
        } else {
          assert RegionBlocks(rp2040, rs[k])[0] == MemoryBlock(rs[k].Name(), rs[k].start, rs[k].Length(), "");
        }
      }
    }
  }

  /** The script after the SVD file is parsed (lines 95-253). */
  method Load(d: Device) returns (res: Result<Plan, LoadError>)
    ensures res == LoadPlan(d)
  {
    var defaultRegisterSize := Peripherals.DefaultRegisterSize(d.size, d.width);
    var cfg := Config(IsRp2040(d.name), defaultRegisterSize);
    var regions := GenerateMemoryRegions(d.peripherals);
    if regions.Err? {
      return Err(regions.error);
    }
    var blocks := GenerateMemoryBlocks(cfg.rp2040, regions.value);
    var placements, cache := GeneratePeripherals(cfg, d.peripherals);
    res := Ok(Plan(blocks, placements));
  }
}
