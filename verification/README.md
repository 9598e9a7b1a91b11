# SVD-Loader, modelled in Dafny

SVD-Loader.py is a Ghidra script. It reads a CMSIS-SVD description of a
microcontroller and gives the program being analysed three things:

- one uninitialized, volatile memory block per merged peripheral region;
- for each peripheral that has registers, a label and a structure data type at
  its base address. The structure is either a new one with a field per
  register, or the structure already made for the peripheral it is derived
  from (the script keeps those in `peripherals_cache`);
- nothing for a peripheral without registers.

On an RP2040 it does two more things, following the chip's atomic register
access aliases:

- it repeats every block and every structure at the atomic xor, set and clear
  aliases, 0x1000, 0x2000 and 0x3000 above the original, for addresses from
  0x40000000 up to 0xd0000000;
- it names a few structures after their kind (PLL_SYS becomes PLL, UART0
  becomes UART, and so on).

The model has one module per part of the script:

- `Regions` (regions.dfy) holds the value layer of the region merge:
  - a region is the half-open range `[start, end)` with its list of name parts;
  - `SortByStart` is the stable sort by start;
  - `Sweep` fuses each region into the last result region when they overlap or
    touch, and appends it otherwise;
  - `Reduce` is the sort followed by the sweep.

  The lemmas prove the merge's promises. The result is valid and separated by
  gaps, so it is sorted and free of overlaps. It claims exactly the addresses of
  the input. Every input region lies inside exactly one result region. No name
  part is lost or added.
- `MemoryRegions` (memory_region.dfy) holds the objects the script changes in
  place:
  - `class MemoryRegion`, with `combine_with` and `combine_from`;
  - `reduce_memory_regions`, which sorts the caller's list in place (an
    insertion sort on an array) and then grows the last result object in place.

  Every method is proved against the functions of `Regions` through `Value()`.
  Every object of the caller's list that is not returned keeps its own value,
  the object that grows is the first of each run of merged regions in sorted
  order, and the list stays sorted by start after the merged objects grow.
- `Peripherals` (peripherals.dfy) covers register sizing:
  - the device default register size, `size or width or 32`;
  - `calculate_peripheral_size`, a loop proved to return the maximum register
    extent;
  - the choice of field type from a register's byte width;
  - the field gen_struct puts at each register.
- `Rp2040` (rp2040.dfy) holds the alias condition, the alias table with its
  comments, and the structure-name aliases.
- `Loader` (loader.dfy) covers the script body after parsing:
  - the regions built from the peripherals' address blocks, and the errors that
    stop the script;
  - the memory blocks of the merged regions;
  - the gen_struct calls with `peripherals_cache`;
  - the whole run as `Load`, proved equal to the value `LoadPlan`.

  Every Ghidra call becomes a record of what it is asked to create.

Python's `/` on the script's natural-number operands is floor division under
Jython 2.7, which is what Dafny's `/` computes on naturals. Addresses and sizes
are unbounded integers.

## Model

| member | source | states |
|---|---|---|
| Regions.Join | SVD-Loader.py:36-38 | definition of "_".join; JoinAppend and NameOfCombination state how it splits |
| Regions.Region.Name | SVD-Loader.py:36-38 | definition of the name property; NameOfCombination states the name of a combination |
| Regions.Region.Lt | SVD-Loader.py:43-44 | definition of __lt__, by start only; SortByStartSorted and SortPrefixStep state the order the sort gives |
| Regions.Region.Overlaps | SVD-Loader.py:57-62 | definition of overlaps; OverlapsSymmetric, OverlapsIffShareOrTouch and OverlapsIffCombinationExact state what it means |
| Regions.SortByStart | SVD-Loader.py:68 | definition of list.sort() as a stable insertion sort; SortByStartPermutes, SortByStartSorted, SortByStartAllValid and SortByStartAllParts state its properties |
| Regions.Reduce | SVD-Loader.py:67-78 | definition of reduce_memory_regions on values; ReduceShape, ReduceCoverage, ReduceContainsEachOnce and ReduceNames state its properties |
| Regions.Region.Length | SVD-Loader.py:40-41 | the length of a valid region is positive, and every address it contains lies less than the length above its start |
| Regions.Region.CombineWith | SVD-Loader.py:46-50 | the combination starts at the smaller start and ends at the larger end, and its name parts are this region's followed by the other's |
| Regions.NameOfCombination | SVD-Loader.py:36-50 | the name of a combined region is the two names joined with "_" |
| Regions.OverlapsSymmetric | SVD-Loader.py:57-62 | overlaps is symmetric |
| Regions.OverlapsIffShareOrTouch | SVD-Loader.py:57-62 | two valid regions overlap exactly when they share an address or one ends where the other starts |
| Regions.OverlapsIffCombinationExact | SVD-Loader.py:46-62 | two valid regions overlap exactly when their combination claims no address outside the two |
| Regions.Insert | SVD-Loader.py:68 | inserting into a list adds exactly one element |
| Regions.SortByStartPermutes | SVD-Loader.py:68 | the sort only reorders: same multiset of regions, same length |
| Regions.SortByStartSorted | SVD-Loader.py:43-44 | the sorted list is ordered by start |
| Regions.SortByStartAllValid | SVD-Loader.py:68 | sorting keeps every region valid |
| Regions.SortByStartAllParts | SVD-Loader.py:68 | sorting keeps the multiset of name parts |
| Regions.InsertKeepsSorted | SVD-Loader.py:43-44 | inserting into a sorted list keeps it sorted |
| Regions.SortPrefixStep | SVD-Loader.py:68 | the next region of a stable sort lands after the regions that start no later than it and before those that start later |
| Regions.Step | SVD-Loader.py:72-75 | one pass of the merge loop keeps every result region but the last and adds at most one region |
| Regions.Sweep | SVD-Loader.py:70-76 | the merge loop returns at least one and at most as many regions as it was given |
| Regions.SweepShape | SVD-Loader.py:70-76 | over sorted valid regions the loop returns valid regions, each ending strictly before the next starts |
| Regions.StepShape | SVD-Loader.py:72-75 | one pass keeps the result valid and separated when the next region starts no earlier than the last result region |
| Regions.SweepCoverage | SVD-Loader.py:70-76 | the merge loop claims exactly the addresses the sorted regions claim |
| Regions.SweepContainsEach | SVD-Loader.py:70-76 | every region the loop sees lies within some result region |
| Regions.SweepAllParts | SVD-Loader.py:70-76 | the merge loop keeps every name part, in order |
| Regions.StepAllParts | SVD-Loader.py:72-75 | one pass appends the new region's name parts after all earlier ones |
| Regions.SeparatedOrderedAll | SVD-Loader.py:70-76 | in a separated list of valid regions every earlier region ends before every later one starts |
| Regions.OpensRunIffSeparate | SVD-Loader.py:71-75 | a region after the first opens a result region, rather than growing the last one, exactly when it does not overlap the last result region so far |
| Regions.SweepLastHolds | SVD-Loader.py:71-75 | the last result region of the sweep holds the last region swept, whether it was folded in or appended |
| Regions.TieNeverOpens | SVD-Loader.py:67-76 | in any list of valid regions, a region with the same start as the one before it never opens a result region, so it is folded into the run the earlier one belongs to |
| Regions.TieOpensFirst | SVD-Loader.py:67-76 | of two regions with the same start the sort keeps the first first, and only the first opens a result region, so the first is the one that grows |
| Regions.ReduceShape | SVD-Loader.py:67-78 | the merge returns no more regions than given; they are valid, separated, strictly increasing in start and pairwise non-overlapping |
| Regions.ReduceCoverage | SVD-Loader.py:67-78 | the merged regions claim exactly the addresses the given regions claim |
| Regions.ReduceContainsEachOnce | SVD-Loader.py:67-78 | every given region lies within exactly one merged region |
| Regions.WithinAtMostOne | SVD-Loader.py:70-76 | a valid region lies within at most one region of a separated list |
| Regions.ReduceNames | SVD-Loader.py:67-78 | the merged name parts are those of the sorted list in order, and the same multiset as the given ones |
| MemoryRegions.MemoryRegion.constructor | SVD-Loader.py:26-34 | the new object has the given start and end, the given name parts when there are any and otherwise the single name, and is valid; the caller must have start < end |
| MemoryRegions.MemoryRegion.CombineWith | SVD-Loader.py:46-50 | returns a fresh valid object standing for the combination; neither operand changes |
| MemoryRegions.MemoryRegion.CombineFrom | SVD-Loader.py:52-55 | only this object changes, and it then stands for its old combination with the other |
| MemoryRegions.PermutationKeepsDistinct | SVD-Loader.py:68 | reordering a list of distinct objects leaves them distinct, and every object of the reordered list was in the old one |
| MemoryRegions.InsertLast | SVD-Loader.py:68 | the inner loop of the in-place sort moves a[i] down to the first place after the earlier regions that start no later, shifting the rest up by one |
| MemoryRegions.SortRegions | SVD-Loader.py:68 | after the in-place sort the array stands for the stable sort by start of its old values, and holds the same objects |
| MemoryRegions.GrowLast | SVD-Loader.py:72-73 | growing the last result object changes the list's values in the last place only, to the combination |
| MemoryRegions.SweepStep | SVD-Loader.py:71-75 | one pass of the loop keeps the loop invariant: distinct result objects among those seen, standing for the sweep so far, with every other object unchanged; the region joins the result exactly when it opens a result region |
| MemoryRegions.MergeStep | SVD-Loader.py:72-73 | an overlapping region is folded into the last result object, whose value becomes one sweep step further; objects outside the result keep their values, over sorted regions no object's start moves, and the region opens no result region |
| MemoryRegions.AppendStep | SVD-Loader.py:74-75 | a separate region is appended unchanged, the list's value becomes one sweep step further, the objects outside the result keep their values, and the region opens a result region |
| MemoryRegions.SweepRegions | SVD-Loader.py:70-76 | over a list sorted by start, the loop leaves the list's order alone and returns distinct objects of the list standing for the sweep of the list's old values; objects outside the result keep their values, every object keeps its start, and the objects returned are exactly those that open a result region |
| MemoryRegions.ReduceMemoryRegions | SVD-Loader.py:67-78 | reduce_memory_regions returns objects of the list standing for the merge of the old values; the list holds the same objects, each valid, each object outside the result stands for its place in the sorted old values, every object, merged or not, has the start of its place in the sorted old values, so the list is left sorted by start, and the objects returned are exactly those that open a result region of the sorted values, so of regions tying on start the first grows; every object ends at the place of its own old value in the sorted old values, and every object that is not returned still has its own old value |
| Peripherals.DefaultRegisterSize | SVD-Loader.py:100 | the default register size is the size when truthy, else the width when truthy, else 32; always positive |
| Peripherals.RegisterSize | SVD-Loader.py:83 | a register's size is its own when truthy and the default otherwise |
| Peripherals.MaxExtent | SVD-Loader.py:80-85 | definition of the size as a fold of max over the register extents; MaxExtentIsMaximum and CalculatePeripheralSize state that it is the maximum |
| Peripherals.MaxExtentIsMaximum | SVD-Loader.py:80-85 | the fold of register extents is 0 without registers, at least every register's extent, and equal to one of them |
| Peripherals.CalculatePeripheralSize | SVD-Loader.py:80-85 | calculate_peripheral_size returns 0 without registers; otherwise a value no smaller than any offset + size / 8 and equal to one of them |
| Peripherals.FieldTypeFor | SVD-Loader.py:224-231 | byte exactly for width 1, unsigned short exactly for 2, unsigned long long exactly for 8, unsigned int for every other width |
| Peripherals.FieldTypeFitsWidth | SVD-Loader.py:224-231 | the chosen type is exactly as wide as the register for widths 1, 2, 4 and 8 only; any other width gets a 4-byte type |
| Peripherals.FieldTypeForSize | SVD-Loader.py:224-231 | choosing a type for a primitive type's own size gives that type back |
| Peripherals.FieldFor | SVD-Loader.py:222-234 | the field sits at the register's offset, is register_size / 8 long, has the type chosen from that width, and ends at the register's extent |
| Peripherals.StructFields | SVD-Loader.py:221-234 | definition of a fresh structure's fields, one per register in register order; FieldsFitPeripheralSize states that they fit |
| Peripherals.FieldsFitPeripheralSize | SVD-Loader.py:201-234 | every field of a fresh structure ends within the length calculate_peripheral_size gives, and some field ends exactly there |
| Rp2040.AddressExtras | SVD-Loader.py:121-126 | no aliases for another device; on an RP2040 three, at (k + 1) * 0x1000, with distinct three-letter suffixes and a comment each |
| Rp2040.ExtrasCond | SVD-Loader.py:114-120 | definition of address_extras_cond, the window test on an RP2040 and false otherwise; ExtrasAt, RegionBlocksShape and TargetsShape state its effect |
| Rp2040.ExtrasAt | SVD-Loader.py:114-120 | the aliases that apply at an address are the table when the condition holds and none otherwise |
| Rp2040.StructName | SVD-Loader.py:214 | a name is kept on another device and for every name outside the alias table |
| Rp2040.StructNameRenames | SVD-Loader.py:127-133 | a structure name differs from the peripheral's exactly for PLL_SYS, UART0, SPI0, I2C0 and PIO0 on an RP2040 |
| Loader.ConfigOf | SVD-Loader.py:99-118 | the tweaks are on exactly for the device named RP2040, and the default register size is positive and one of 32, size and width |
| Loader.PeripheralRegion | SVD-Loader.py:152-156 | a peripheral's region starts at its base, is block offset + block size long, and carries the peripheral's name |
| Loader.PeripheralRegions | SVD-Loader.py:150-156 | definition of the unmerged regions, one per peripheral in order; PeripheralRegionsCover and AllPartsOfSingletons state what they claim and carry |
| Loader.MemoryRegionsOf | SVD-Loader.py:150-157 | definition of the region phase on values; FirstEmptyBlockFinds and MemoryRegionsOfMerges state its outcome |
| Loader.FirstEmptyBlockFinds | SVD-Loader.py:150-156 | the first peripheral whose block claims no byte is found exactly when one exists, and every peripheral before it claims a byte |
| Loader.MemoryRegionsOfMerges | SVD-Loader.py:150-157 | the region phase succeeds exactly when there are peripherals and every block claims a byte; the merged regions are then no more than the peripherals, valid, separated, claim exactly the peripherals' address ranges, and carry the peripheral names once each, in the order of the regions sorted by start |
| Loader.PeripheralRegionsCover | SVD-Loader.py:150-156 | the unmerged regions claim exactly the peripherals' address ranges |
| Loader.AllPartsOfSingletons | SVD-Loader.py:150-156 | the name parts of the unmerged regions are the peripherals' names in order |
| Loader.NewMemoryRegions | SVD-Loader.py:150-156 | the loop creates one fresh distinct object per peripheral standing for its region, or stops at the first block that claims no byte |
| Loader.GenerateMemoryRegions | SVD-Loader.py:150-157 | the region phase fails exactly when the value model does, with the same error, and otherwise returns objects standing for the merged regions |
| Loader.RegionBlocks | SVD-Loader.py:178-184 | definition of one region's add_block calls; RegionBlocksShape and RegionBlocksDisjoint state their layout |
| Loader.MemoryBlocks | SVD-Loader.py:161-184 | definition of the block phase on values; MemoryBlocksHoldOwn and MemoryBlocksOtherDevice state which blocks it makes |
| Loader.RegionBlocksShape | SVD-Loader.py:178-184 | a region gets its own block, and on an RP2040 inside the window three more k * 0x1000 above it, as long as it, named with _xor, _set and _clr |
| Loader.RegionBlocksDisjoint | SVD-Loader.py:178-184 | the blocks of a region no longer than 0x1000 bytes do not overlap one another |
| Loader.MemoryBlocksOtherDevice | SVD-Loader.py:161-184 | on another device the blocks are exactly the merged regions, one each, in order |
| Loader.MemoryBlocksHoldOwn | SVD-Loader.py:161-184 | every merged region's own block, with its name, start and length, is among the blocks, so there are at least as many blocks as regions |
| Loader.AddRegionBlocks | SVD-Loader.py:178-184 | the add_block calls for one region are its block and then its alias blocks |
| Loader.GenerateMemoryBlocks | SVD-Loader.py:161-184 | the block phase makes the blocks of every merged region, in order |
| Loader.Place | SVD-Loader.py:242-243 | definition of the placements of one structure, one per target with its label and address; GenCallsShare states that they are what the calls make |
| Loader.ChooseStruct | SVD-Loader.py:207-214 | definition of the reuse test: the cached structure of the parent when cached, else a new one; GenPeripheralShares states the choice |
| Loader.GenStruct | SVD-Loader.py:203-247 | definition of one gen_struct call on values; GenStructCall is proved equal to it and GenCallsShare states what a run of calls does |
| Loader.Targets | SVD-Loader.py:249-253 | definition of the gen_struct call targets of one peripheral; TargetsShape states their layout |
| Loader.GenPeripheral | SVD-Loader.py:190-253 | definition of one pass of the peripheral loop; GenPeripheralShares and GenPeripheralBuilds state its effect |
| Loader.Generate | SVD-Loader.py:189-253 | definition of the peripheral loop from an empty cache; GenerateBuilds, PlacementsFit and OtherDevicePlacements state its properties |
| Loader.GenCallsShare | SVD-Loader.py:207-236 | all gen_struct calls for one peripheral place the structure the first call chooses, and cache it under the peripheral's name |
| Loader.GenPeripheralShares | SVD-Loader.py:201-253 | a peripheral with registers gets the cached structure of the peripheral it derives from, or one built from its registers and sized by calculate_peripheral_size, at its base and every alias |
| Loader.GenPeripheralBuilds | SVD-Loader.py:189-253 | one loop pass keeps every placed and cached structure built from some peripheral with registers, and adds only the peripheral's own name to the cache |
| Loader.GenerateBuilds | SVD-Loader.py:189-253 | after the loop the cache holds exactly the names of the peripherals with registers, and every placed or cached structure was built from one of them |
| Loader.PlacementsFit | SVD-Loader.py:201-234 | every field of every placed structure lies within the structure's length |
| Loader.TargetsShape | SVD-Loader.py:249-253 | gen_struct is called at the base under the peripheral's name, and on an RP2040 inside the window three more times k * 0x1000 above it under the name with _xor, _set and _clr |
| Loader.OtherDevicePlacements | SVD-Loader.py:189-253 | on another device each peripheral with registers gets exactly one structure, under its name at its base, in order; peripherals without registers get none |
| Loader.BuildStruct | SVD-Loader.py:214-234 | the loop over the registers builds the structure named by the alias lookup with one field per register |
| Loader.GenStructCall | SVD-Loader.py:203-236 | one gen_struct call reuses or builds the structure, places it, and caches it under the peripheral's name |
| Loader.GenPeripheralCalls | SVD-Loader.py:201-253 | the calls for one peripheral with registers give the state the value model gives |
| Loader.GenAliasCalls | SVD-Loader.py:251-253 | the alias calls extend the first call's state to that of all the peripheral's calls |
| Loader.GeneratePeripherals | SVD-Loader.py:189-253 | the structure phase, from an empty cache, gives the state the value model gives |
| Loader.LoadPlan | SVD-Loader.py:95-253 | definition of the script after parsing as a value; LoadPlanOutcome states its outcome and Load is proved equal to it |
| Loader.LoadPlanOutcome | SVD-Loader.py:147-253 | the script stops before creating any memory block or structure exactly when there are no peripherals or a block claims no byte; otherwise it creates each merged region's own block, and every placed structure's fields fit |
| Loader.Load | SVD-Loader.py:95-253 | the script after parsing produces exactly the plan of the value model |

## Left out

- The SVD file dialog and the parser (lines 88-97): the device, its peripherals and their registers are plain records given as input.
- Every Ghidra call (lines 136-143, 164-176, 238-247): the memory blocks, labels and structures are recorded as what the script asks to create, not created. Block permissions are not recorded.
- The semantics of `StructureDataType.replaceAtOffset`: a structure records the components it is asked to place, in order, and not how Ghidra resolves overlapping or out-of-range components.
- The try/except around host calls: in the script a failed call is printed and the run goes on; the model records every call.
- All printed output, including the warning for a CPU type not starting with "CM" (lines 103-105).
- The exit on a device that is not little-endian (lines 107-110).
- The iteration order of `address_extras`: a Python dictionary's order is not fixed under Jython 2.7, and the model uses xor, set, clr.
- A peripheral without an address block (the script fails on `None` at line 153).
- MemoryRegions.SortRegions: the sort is stated on values and on the multiset of objects, so of two objects with equal start, end and name parts it does not fix which comes first; ReduceMemoryRegions places every object at the place of its own old value in the sorted values, which fixes every other order.
- MemoryRegions.ReduceMemoryRegions: requires the list's objects to be distinct, because a list holding one object twice lets combine_from change an object still waiting in the list; the script always passes fresh objects.
- MemoryRegions.MemoryRegion.constructor: the name_parts list is copied as a value, so the Python aliasing of a list passed to the constructor is not modelled; the script never passes one.
