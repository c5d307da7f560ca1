# Verified models of TF-A Tests components

TF-A Tests is a bare-metal framework that exercises Arm Trusted Firmware. This project models
the parts of it whose correctness is not visible from any one function, and proves what they are
for. The command for the whole project is `dafny verify dfyconfig.toml`.

**Translation tables** (`Xlat*.dfy`, from `lib/xlat_tables_v2`, the build with dynamic regions). A
sorted list of memory regions is compiled into a multi-level VMSAv8-64 page table by a recursive
mapper; a recursive unmapper, sub-table reference counts, a failure rollback, a table walker and a
break-before-make attribute changer work on the same tables. The class `XlatCtx` holds the list, the
tables and the counts. Its invariant says that the tables agree with the list: every entry of every
table in use shows what the first region containing its addresses says. Every operation keeps it, so
walking the tables always gives the answer of the simple list. Every write goes to a log that only
grows; in it no valid descriptor is ever overwritten before it was made invalid and the address it
was written for was invalidated in the TLBs. `XlatLevels` keeps the reason for every sub-table, and
`XlatBlocks` derives from it how large the blocks are that map each address.

**Device trees** (`Fdt*.dfy`, from `lib/libfdt`). A blob is a byte buffer; `FdtTokens` reads a
structure block as tokens, `FdtTree` reads tokens as stored pieces (fillers, properties naming a
strings offset, nodes) and pieces as a tree of named properties and nodes. Each layer is determined by
the one below. The class `Fdt` reads and edits a blob in place with block moves, the class `Writer`
builds one sequentially, `FdtPath` writes the path of a node and looks paths up. Each byte operation is
proved to be a tree operation.

An overlay goes through three passes here. `FdtPhandle`, `FdtAdjust` and `FdtFixups` shift its node handles
past the highest one of the base and correct its references to its own nodes, all in place (`FdtInplace`;
`FdtAlike` says what in-place writes keep); `FdtListed` says which references those are. `FdtApply` merges a node of one blob into a node of another and is
proved to compute the recursive union of `FdtOverlay`; `FdtMerged` says what that union holds, and `FdtRemerge`
when merging again changes nothing.

**The fuzzer's allocator** (`Smc*.dfy`, from `smc_fuzz`). First fit with power-of-two alignment and
immediate coalescing over two tables and two stacks of retired entries. The invariant is a chain: free
block, allocation, free block, and so on, tiling the arena.

**The fuzzer's constraints** (`Constraint*.dfy`, from `smc_fuzz`). Calls accumulate constraints on the bit
fields of a register; generation draws one constraint for each field, a value in it, and puts the
values together with shifts made of small shifts.

**Smaller protocols and algorithms**: the counting event protocol as an interleaved step machine
(`Events`), the power-state odometer (`PowerStates`), the breadth-first power-domain tree (`Topology`),
Schrage's generator (`Rand`) and the overlapping copy (in `FdtBytes`). `Numbers`, `Bits` and `Wrappers` hold
the arithmetic, the bitwise operations and the option type the others share.

## What the proofs found

- Undoing a failed dynamic add can leave a sub-table that is out of use, has count zero and still holds
  a table descriptor. `XlatStale.FailedAddLeavesStale` gets there from a new context with one call each of
  `Init` and `AddDynamic`. It happens exactly when the failed add left a count in a sub-table whose parent has
  none and is met by no region left in the list (`XlatInvariant.Tidy`, at `XlatContext.XlatCtx.Rollback` and
  `XlatContext.XlatCtx.RemoveDynamic`), which never is the case with base level 1 or more.
- Moving past a property token makes progress on every byte string except where the length field is
  0xFFFFFFF4, whose size wraps around to nothing (`FdtRead.TagAtProgress`).
- In `smcfree` the second relinking test adds the freed entry's size where each entry's own size would be
  expected. It makes no difference in any reachable state (`SmcChain.FreedSizeIsHarmless`). Both sweeps
  for empty neighbours find nothing (`SmcChain.NothingToSweep`), and the allocation table can never be the
  one to fill up, so error 2 and the queue-overflow exits are unreachable (`SmcMalloc.Arena.Take`,
  `SmcMalloc.Arena.FreeAt`).
- Asked for the path of an offset past the root's closing token, `fdt_get_path` walks on at depth -1 and looks
  for a slash in front of its buffer. That is exactly the case of a rooted tree and an offset not before the end
  of its root (`FdtPath.GetPath`; `FdtPath.WildInput` is the smallest block).
- Looking up the path that `fdt_get_path` wrote gives the node back exactly when no node on the way is nameless
  or comes after a sibling that would be taken for it (`FdtPath.PathAndBack`).
- An overlay handle shifted past the base's highest handle differs from all of the base's exactly when it was
  not 0 or the base has none (`FdtPhandle.ApartFromBase`).
- A local fix-up offset of 0xFFFFFFFC or more passes the bound where its end, which wraps around 32 bits, is at most
  the length of the property, and then names no byte of it (`FdtFixups.FixCell`).
- A word of the local fix-ups that is itself one of the references they list is read after it was raised, if its turn
  comes later. When no reference is such a word, exactly the references named at the start are raised
  (`FdtListed.FixTrace`, `FdtListed.InertPoints`).
- Merging an overlay twice is merging it once when no overlay node shadows one that comes before it where both
  can land. Of two siblings the order decides: `a` before `a@0` fails, `a@0` before `a` does not
  (`FdtRemerge.MergeTwice`, `FdtRemerge.OrderDecides`).
- A range constraint gives values inside it exactly when its ends are in order (`Constraint.RangeAdmits`).
- Iterating over a domain from a CPU that lies before it can yield CPUs outside it, exactly when a present one is
  on the way (`Topology.Tree.NextCpu`).

## Model

| member | source | states |
|---|---|---|
| `XlatDescriptor.DecodeEncode` | lib/xlat_tables_v2/xlat_tables_core.c:105-211 | a written block or page descriptor reads back to its address, its type and its attributes, execute-never forced for device or writable memory and never half set |
| `XlatDescriptor.DescriptorBits` | lib/xlat_tables_v2/xlat_tables_core.c:105-211 | every bit of a descriptor: access flag always set, shareability inner for ordinary memory and outer otherwise, user access, guarded and execute-never bits exactly for their attributes in each regime, and no bit beside the fields and the address |
| `XlatDescriptor.ChangeIsExact` | lib/xlat_tables_v2/xlat_tables_utils.c:531-562 | an accepted attribute change installs exactly the requested write, execute-never and user bits and keeps memory type and security state |
| `XlatSteps.MapAction` | lib/xlat_tables_v2/xlat_tables_core.c:418-543 | a block is written exactly over an invalid entry inside the region, aligned and within its granularity, never at level 0; a table is created exactly where that fails; recursion happens exactly on table entries and leaves are kept |
| `XlatSteps.UnmapAction` | lib/xlat_tables_v2/xlat_tables_core.c:277-333 | an entry is erased exactly when it is a leaf, and then the region covers it |
| `XlatSteps.MapAsserts` | lib/xlat_tables_v2/xlat_tables_core.c:418-543 | whenever the mapper reaches an entry under the invariant, the descriptor types its assertions demand hold |
| `XlatSteps.UnmapAsserts` | lib/xlat_tables_v2/xlat_tables_core.c:277-333 | the same for the unmapper, and an erased leaf is claimed by no other region |
| `XlatTables.SlotUnique` | lib/xlat_tables_v2/xlat_tables_core.c:551-648 | entries that hold no table never overlap, so at most one describes any address |
| `XlatInvariant.CleanIffTidy` | lib/xlat_tables_v2/xlat_tables_core.c:992-1021 | with only the remaining regions left, the sub-tables given up are empty if and only if no leaked count sits below a sub-table that nothing else holds |
| `XlatTrace.Install` | lib/xlat_tables_v2/xlat_tables_core.c:587-603 | a valid write to an entry no TLB remembers keeps the trace break-before-make |
| `XlatTrace.Break` | lib/xlat_tables_v2/xlat_tables_core.c:370-394 | an invalid write followed by the invalidation of the address its valid writes were for leaves no TLB copy and keeps the trace break-before-make |
| `XlatTrace.FollowsInstall` | lib/xlat_tables_v2/xlat_tables_core.c:587-603 | a valid descriptor written for the entry's own address over an invalid one keeps the tables the replay of a break-before-make log |
| `XlatTrace.FollowsBreak` | lib/xlat_tables_v2/xlat_tables_core.c:370-394 | so does an invalid descriptor followed by the invalidation of the entry's own address |
| `XlatRegions.InsertOK` | lib/xlat_tables_v2/xlat_tables_core.c:801-838 | inserting at the place the scan finds keeps the list ordered by end address then size and its members compatible; removing undoes it |
| `XlatRegions.RemoveOK` | lib/xlat_tables_v2/xlat_tables_core.c:1109-1110 | removing keeps order and compatibility; inserting undoes it |
| `XlatRegions.ListInner` | lib/xlat_tables_v2/xlat_tables_core.c:777-809 | in list order a region follows everything it contains, so an outer region is mapped around an inner one |
| `XlatRegions.DynamicApart` | lib/xlat_tables_v2/xlat_tables_core.c:716-747 | a dynamic region overlaps nothing else in the list |
| `XlatRegions.CompatibleMeans` | lib/xlat_tables_v2/xlat_tables_core.c:693-748 | two regions may stand in one list if and only if they share no virtual and no physical address, or are static, one inside the other and not the same area, with every shared virtual address mapped alike |
| `XlatRegions.ListShares` | lib/xlat_tables_v2/xlat_tables_core.c:693-748 | any two regions of a list are such a pair |
| `XlatRegions.Absorb` | lib/xlat_tables_v2/xlat_tables_core.c:1199-1215 | tables that show a region over the others are tables for the list with that region in it |
| `XlatRegions.Extract` | lib/xlat_tables_v2/xlat_tables_core.c:1097-1110 | and the other way round for a region apart from the others |
| `XlatRegions.FailureIsPartial` | lib/xlat_tables_v2/xlat_tables_core.c:992-1021 | a mapping that stopped half way is a complete mapping of the part before the stop, with known leftover counts |
| `XlatContext.XlatCtx.constructor` | lib/xlat_tables_v2/xlat_tables_core.c:1136-1164 | a new context is valid and has no region |
| `XlatContext.XlatCtx.Install` | lib/xlat_tables_v2/xlat_tables_core.c:587-603 | only that entry changes, the log grows by exactly this write for the entry's own address, and the tables stay its replay |
| `XlatContext.XlatCtx.Break` | lib/xlat_tables_v2/xlat_tables_core.c:370-394 | the same for an invalidation: the log grows by the write and the invalidation of the entry's own address |
| `XlatContext.XlatCtx.GetEmpty` | lib/xlat_tables_v2/xlat_tables_core.c:57-64 | a sub-table with count zero, or none exists |
| `XlatContext.XlatCtx.MapRegion` | lib/xlat_tables_v2/xlat_tables_core.c:551-648 | the window already shown grows to the end of the region or table with counts right, or it stops exactly where no sub-table is free, everything before shown |
| `XlatContext.XlatCtx.MapEntry` | lib/xlat_tables_v2/xlat_tables_core.c:579-637 | one entry handled: the window moves past it, or the whole call fails for want of a table |
| `XlatContext.XlatCtx.MapSubtable` | lib/xlat_tables_v2/xlat_tables_core.c:605-631 | the recursion into a sub-table moves the window past its entry or fails |
| `XlatContext.XlatCtx.LinkTable` | lib/xlat_tables_v2/xlat_tables_core.c:593-603 | a free sub-table, empty, is linked below the entry, or none is free and nothing changes |
| `XlatContext.XlatCtx.UnmapRegion` | lib/xlat_tables_v2/xlat_tables_core.c:338-410 | the window of the region shrinks from the front to nothing, counts drop, and sub-tables unlinked have count zero; entries outside the region are untouched |
| `XlatContext.XlatCtx.UnmapEntry` | lib/xlat_tables_v2/xlat_tables_core.c:361-398 | one entry of that loop |
| `XlatContext.XlatCtx.CheckRegion` | lib/xlat_tables_v2/xlat_tables_core.c:659-752 | each status code exactly when its reason holds, spelled out in numbers, wrap-around checks included; refused for overlap exactly when it shares an address with a listed region other than as a static one nested and mapped alike |
| `XlatContext.XlatCtx.Clashes` | lib/xlat_tables_v2/xlat_tables_core.c:699-748 | the overlap test of two regions is exactly that condition, address by address |
| `XlatContext.XlatCtx.Position` | lib/xlat_tables_v2/xlat_tables_core.c:801-809 | the scan finds a place that keeps the list ordered |
| `XlatContext.XlatCtx.Enlist` | lib/xlat_tables_v2/xlat_tables_core.c:826-843 | the list gains the region and the maxima stay the true maxima |
| `XlatContext.XlatCtx.AddStatic` | lib/xlat_tables_v2/xlat_tables_core.c:754-844 | accepted exactly when addable; otherwise nothing changes |
| `XlatContext.XlatCtx.Init` | lib/xlat_tables_v2/xlat_tables_core.c:1168-1224 | the tables agree with the whole list and unused tables are empty; it fails only with every sub-table in use and a region to map |
| `XlatContext.XlatCtx.ClearTables` | lib/xlat_tables_v2/xlat_tables_core.c:1186-1197 | every entry invalid, every count zero |
| `XlatContext.XlatCtx.MapAll` | lib/xlat_tables_v2/xlat_tables_core.c:1199-1215 | mapping the list in order makes the tables agree with it |
| `XlatContext.XlatCtx.MapDynamic` | lib/xlat_tables_v2/xlat_tables_core.c:983-1021 | the tables agree with the longer list, or after the rollback again with the old one, and then the mapper had stopped at an address that needed a table with none free |
| `XlatContext.XlatCtx.Rollback` | lib/xlat_tables_v2/xlat_tables_core.c:992-1021 | undoing a partial mapping restores the translation of every address, states exactly which counts are left raised, and leaves sub-tables out of use empty if and only if the context is tidy |
| `XlatContext.XlatCtx.AddDynamic` | lib/xlat_tables_v2/xlat_tables_core.c:932-1038 | success exactly inserts the region and keeps the whole invariant; each rejection has its exact status and changes nothing; out of memory means the mapper stopped where it needed a table with none free, and keeps list, maxima and translation, with base level 1 or more the whole invariant; the log only grows |
| `XlatContext.XlatCtx.AddChecked` | lib/xlat_tables_v2/xlat_tables_core.c:951-1037 | the same for a region that passed the checks |
| `XlatContext.XlatCtx.RemoveDynamic` | lib/xlat_tables_v2/xlat_tables_core.c:1066-1134 | the exact region goes from list and tables with maxima recomputed, or each error exactly for its reason, size 0 included, with nothing changed; the whole invariant holds after if and only if the context was tidy |
| `XlatContext.XlatCtx.UnmapAt` | lib/xlat_tables_v2/xlat_tables_core.c:1097-1107 | the tables agree with the list without that region |
| `XlatContext.XlatCtx.Highest` | lib/xlat_tables_v2/xlat_tables_core.c:1112-1131 | the recomputed maxima are the true ones |
| `XlatContext.XlatCtx.CountsAreExact` | lib/xlat_tables_v2/xlat_tables_core.c:67-88 | while no add has failed, a sub-table's count is the number of regions that meet its span |
| `XlatContext.XlatCtx.ZeroCountIsFree` | lib/xlat_tables_v2/xlat_tables_core.c:57-64 | a sub-table with count zero is empty and no table in use points at it, so a reused one carries no stale mapping |
| `XlatBlocks.LeafWithinGranularity` | lib/xlat_tables_v2/xlat_tables_core.c:470-497 | every block or page in use lies inside a listed region at its offset, is aligned in both address spaces and spans at most the region's granularity |
| `XlatBlocks.RefinedOnlyWhereNeeded` | lib/xlat_tables_v2/xlat_tables_core.c:418-543 | while no add has failed, an address is mapped below a level only because some region meets the block of that level around it and cannot be mapped by it |
| `XlatBlocks.SingleRegionLevel` | lib/xlat_tables_v2/xlat_tables_core.c:418-543 | with one region listed, each address is mapped at the least level from the base at which the block around it fits in the region, is aligned and within its granularity |
| `XlatBlocks.StoppedOnlyWhereNeeded` | lib/xlat_tables_v2/xlat_tables_core.c:593-600 | an add out of tables had stopped, with every sub-table in use, at an invalid entry that the region meets and cannot be mapped by as one block |
| `XlatStale.FailedAddLeavesStale` | lib/xlat_tables_v2/xlat_tables_core.c:992-1021 | a new context, initialised, to which adding one region fails and leaves a sub-table out of use with count zero that still holds a table descriptor |
| `XlatContext.XlatCtx.FindEntry` | lib/xlat_tables_v2/xlat_tables_utils.c:261-323 | the walk finds an entry exactly when some region contains the address, with the address and attributes of the first such region; outside the space it looks at the address modulo the base table's reach |
| `XlatContext.XlatCtx.ChangeAttributes` | lib/xlat_tables_v2/xlat_tables_utils.c:428-573 | accepted exactly when aligned, non-empty, not writable and executable, and every page is a level 3 page that may be executable; a rejection writes nothing; the invariant is kept with only those pages changed |
| `XlatContext.XlatCtx.CheckPages` | lib/xlat_tables_v2/xlat_tables_utils.c:470-516 | the first pass accepts exactly when every page can be changed |
| `XlatContext.XlatCtx.RewritePages` | lib/xlat_tables_v2/xlat_tables_utils.c:518-567 | the second pass changes exactly those pages |
| `XlatContext.XlatCtx.ChangePage` | lib/xlat_tables_v2/xlat_tables_utils.c:521-567 | one page rewritten by break, invalidate and make keeps the invariant and every other page |
| `XlatWalk.ChangePagesAt` | lib/xlat_tables_v2/xlat_tables_utils.c:518-567 | after the pass each page of the range shows what was requested of it and every other address what it showed before |
| `FdtBytes.Memcpy` | lib/libc/memcpy.c:9-18 | a forward copy equals a copy through a temporary when no source byte is overwritten before it is read |
| `FdtBytes.Memmove` | lib/libc/memmove.c:9-31 | the one unsigned comparison always picks a direction that copies as through a temporary |
| `FdtTokens.LexesUnique` | lib/libfdt/fdt.c:153-205 | the bytes of a structure block determine its tokens |
| `FdtTree.ParseUnique` | lib/libfdt/fdt.c:153-205 | and so what the block holds |
| `FdtTree.PathOf` | lib/libfdt/fdt.c:207-216 | every node-opening token belongs to a node of the tree |
| `FdtTree.ItemsPut` | lib/libfdt/fdt_rw.c:83-95 | replacing a stored piece anywhere replaces exactly the item it stands for |
| `FdtRead.ReadTag` | lib/libfdt/fdt.c:153-205 | on any bytes it returns what the specification of a token read says, truncation and bad tags included |
| `FdtRead.TagAtToken` | lib/libfdt/fdt.c:153-205 | at a token boundary that is the token and the next boundary |
| `FdtRead.TagAtMeans` | lib/libfdt/fdt.c:153-205 | what is read at any offset of any bytes, tag by tag, with both errors exactly for their reasons |
| `FdtRead.TagAtProgress` | lib/libfdt/fdt.c:153-205 | it moves forward on any bytes, except at an aligned property whose length field is 0xFFFFFFF4 |
| `FdtRead.FindString` | lib/libfdt/fdt.c:295-305 | the first place a terminated copy of a string starts, or there is none |
| `FdtBlob.Fdt.Open` | lib/libfdt/fdt_rw.c:13-40 | a buffer with ordered blocks that parses is a valid blob for its tree |
| `FdtBlob.Fdt.CheckNodeOffset` | lib/libfdt/fdt.c:207-216 | the start of the body exactly when an aligned offset holds a node-opening token |
| `FdtBlob.Fdt.NextNode` | lib/libfdt/fdt.c:227-265 | the next node with its relative depth, the end of the starting node, not found, or a bad offset |
| `FdtWalk.VisitsAll` | lib/libfdt/fdt.c:227-265 | on every block a walk from before the root visits every node of the first root once, parents first, with its true depth, and nothing else |
| `FdtBlob.Fdt.NodeEnd` | lib/libfdt/fdt_wip.c:73-81 | where hopping from node to node leaves the starting node |
| `FdtWalk.NodeCloses` | lib/libfdt/fdt_wip.c:73-81 | that is right after the node's own closing token |
| `FdtBlob.Fdt.GetName` | lib/libfdt/fdt_ro.c:298-334 | the name stored in the opening token, or a bad offset |
| `FdtBlob.Fdt.SubnodeOffset` | lib/libfdt/fdt_ro.c:223-240 | where hopping from node to node first finds a matching name one level down |
| `FdtWalk.NodeSeeks` | lib/libfdt/fdt_ro.c:223-240 | that is the first child whose name matches, unit address optional |
| `FdtWalk.NameEqMeans` | lib/libfdt/fdt_ro.c:13-32 | a name matches exactly when it is the stored one or, without a unit address, the stored one up to its unit address |
| `FdtWalk.FirstChildIs` | lib/libfdt/fdt_ro.c:223-240 | the search gives the first child that matches, or none does |
| `FdtWalk.FindPropIs` | lib/libfdt/fdt_ro.c:392-420 | the search gives the first property of that name before any child, or there is none |
| `FdtBlob.Fdt.StringEq` | lib/libfdt/fdt_ro.c:34-110 | true exactly when a terminated string at the offset is that name; offsets outside the block or unterminated never match |
| `FdtBlob.Fdt.NextProp` | lib/libfdt/fdt_ro.c:199-221 | the next property before any child, fillers skipped |
| `FdtBlob.Fdt.GetProperty` | lib/libfdt/fdt_ro.c:392-420 | the first property of that name before any child, with its length, or not found |
| `FdtBlob.Fdt.Splice` | lib/libfdt/fdt_rw.c:54-68 | each error exactly for its reason; otherwise everything behind moves and the rest stays |
| `FdtBlob.Fdt.SpliceStruct` | lib/libfdt/fdt_rw.c:83-95 | the structure block keeps what is before and behind the splice, the strings are the same, the blocks stay ordered |
| `FdtBlob.Fdt.FindAddString` | lib/libfdt/fdt_rw.c:105-153 | an offset whose name is that name; the strings grow at the end only when it was not there; no room exactly when it does not fit |
| `FdtBlob.Fdt.ResizeProperty` | lib/libfdt/fdt_rw.c:184-200 | that property gets the new value, in place in the tree, exactly when there is room |
| `FdtBlob.Fdt.AddProperty` | lib/libfdt/fdt_rw.c:202-233 | the property is put first in the body, or for lack of room tree and strings are as before |
| `FdtBlob.Fdt.SetProperty` | lib/libfdt/fdt_rw.c:258-289 | the tree becomes the old tree with that property set in that node, the node keeping its offset; bad offsets and lack of space exactly for their reasons, and then nothing changes |
| `FdtMeaning.ValueSet` | lib/libfdt/fdt_rw.c:276-289 | setting a property sets that one and no other |
| `FdtBlob.Fdt.DelProperty` | lib/libfdt/fdt_rw.c:318-331 | the tree becomes the old tree without the first property of that name, or not found and unchanged |
| `FdtMeaning.ValueDel` | lib/libfdt/fdt_rw.c:318-331 | deleting leaves every other property, and one of that name only when it was there twice |
| `FdtBlob.Fdt.AddSubnode` | lib/libfdt/fdt_rw.c:333-377 | the tree gains an empty child right after the properties, at the offset returned; exists and no space exactly for their reasons, and then nothing changes |
| `FdtBlob.Fdt.DelNode` | lib/libfdt/fdt_rw.c:379-391 | the tree becomes the old tree without that node, or the offset is bad and nothing changes |
| `FdtBlob.Fdt.NopNode` | lib/libfdt/fdt_wip.c:51-94 | overwriting with fillers makes the same tree as deleting |
| `FdtWriter.Writer.constructor` | lib/libfdt/fdt_sw.c:109-146 | an empty writer for the buffer, in the reservation state |
| `FdtWriter.Writer.AddReserve` | lib/libfdt/fdt_sw.c:185-203 | one more reservation recorded, or each error exactly for its reason and nothing changed |
| `FdtWriter.Writer.FinishReserves` | lib/libfdt/fdt_sw.c:205-214 | the terminator is written and building starts |
| `FdtWriter.Writer.BeginNode` | lib/libfdt/fdt_sw.c:216-231 | the call is recorded in the bytes, or each error exactly for its reason |
| `FdtWriter.Writer.EndNode` | lib/libfdt/fdt_sw.c:233-245 | the same for closing a node |
| `FdtWriter.Writer.AddString` | lib/libfdt/fdt_sw.c:247-262 | the string is put in front of the others and every recorded name still reads the same |
| `FdtWriter.Writer.PlaceName` | lib/libfdt/fdt_sw.c:273-301 | a place counted back from the end of the buffer that holds the name, shared when names are de-duplicated |
| `FdtWriter.Writer.AddProperty` | lib/libfdt/fdt_sw.c:290-332 | the call is recorded, or for lack of room the strings are as before |
| `FdtWriter.Writer.SettleNames` | lib/libfdt/fdt_sw.c:354-370 | the walk adds the size of the strings block to every property's name offset and changes nothing else |
| `FdtWriter.Writer.Finish` | lib/libfdt/fdt_sw.c:334-381 | the blob records all the calls with every name offset counted from the start of the moved strings block |
| `FdtWriter.Writer.RoundTrip` | lib/libfdt/fdt_sw.c:216-381 | the calls that write a tree leave a blob that parses back to that tree, with or without de-duplication |
| `FdtWriter.Writer.ReadReserves` | lib/libfdt/fdt_ro.c:158-197 | the reservations read back are those written before the first of size zero, so all of them exactly when none has size zero |
| `FdtWriter.NumReserves` | lib/libfdt/fdt_ro.c:187-197 | the index of the first reservation of size zero, or truncated exactly when there is none before the end of the blob |
| `FdtWriter.GetReserve` | lib/libfdt/fdt_ro.c:158-185 | a reservation exactly when it lies inside the blob |
| `FdtApply.ApplyNode` | lib/libfdt/fdt_overlay.c:556-601 | the target body becomes the recursive union with the overlay node read from its own blob, overlay properties winning, in place in the tree, the target keeping its offset throughout; no space only when the union could outgrow the blob, and no other error |
| `FdtApply.ApplyProps` | lib/libfdt/fdt_overlay.c:562-577 | the properties of the overlay node are set in the target one by one, as the union sets them |
| `FdtApply.ApplyChildren` | lib/libfdt/fdt_overlay.c:579-598 | its children are merged one by one, as the union merges them |
| `FdtApply.ApplyChild` | lib/libfdt/fdt_overlay.c:579-598 | one overlay child is merged into the first matching child, added when there is none |
| `FdtMerged.MergedValue` | lib/libfdt/fdt_overlay.c:556-601 | after the whole merge every property has the last value the overlay gives it, or the value it had |
| `FdtMerged.UnmatchedKept` | lib/libfdt/fdt_overlay.c:556-601 | children that no overlay node matches are kept as they are and in order, and no other child appears |
| `FdtOverlay.MergeAbsorbs` | lib/libfdt/fdt_overlay.c:556-601 | after the merge looking up any overlay node or property finds what the overlay said |
| `FdtRemerge.MergeTwice` | lib/libfdt/fdt_overlay.c:556-601 | merging the same overlay again changes nothing on any base, however often a property is named, when no overlay node shadows an earlier one where both can land |
| `FdtRemerge.OrderDecides` | lib/libfdt/fdt_overlay.c:556-601 | of two sibling names in one order, merging twice is merging once on every base if and only if the second does not shadow the first |
| `FdtRemerge.ShadowFails` | lib/libfdt/fdt_overlay.c:556-601 | for every pair of names the second of which shadows the first, the overlay and base for which merging again does change something |
| `FdtRemerge.ApartIsCalm` | lib/libfdt/fdt_overlay.c:556-601 | siblings that cannot be taken for each other never shadow |
| `FdtRemerge.MergeIs` | lib/libfdt/fdt_overlay.c:556-601 | the merge is its edits one after the other: set a property at a path, make the nodes on the way |
| `FdtOverlay.AbsorbedMerge` | lib/libfdt/fdt_overlay.c:556-601 | merging into a tree that already holds what the overlay says changes nothing |
| `FdtPath.GetPath` | lib/libfdt/fdt_ro.c:540-590 | the terminated path of the node at an offset if the buffer holds it, a bad offset exactly when there is no node, no space otherwise; it reads in front of its buffer exactly for offsets past the end of the root |
| `FdtPath.WildInput` | lib/libfdt/fdt_ro.c:540-590 | the smallest block and offset for which it does |
| `FdtPath.PathOffset` | lib/libfdt/fdt_ro.c:248-296 | the node an absolute path leads to, component by component to the first matching child, repeated slashes skipped, or not found |
| `FdtPath.ResolveFinds` | lib/libfdt/fdt_ro.c:248-296 | a path leads where its components do, each to the first child that matches, however many slashes part them, and nowhere exactly when no child matches |
| `FdtPath.Splits` | lib/libfdt/fdt_ro.c:248-296 | every absolute path is made of such components |
| `FdtPath.PathRoundTrip` | lib/libfdt/fdt_ro.c:248-296 | the text of a node's path leads to that node if and only if no node on the way is nameless or comes after a sibling taken for it |
| `FdtPath.PathAndBack` | lib/libfdt/fdt_ro.c:540-590 | writing a node's path into a buffer and looking it up again gives the node back under the same condition |
| `FdtInplace.SetInplacePartial` | lib/libfdt/fdt_wip.c:13-32 | those bytes of that property's value change and nothing else in the tree; no space and not found exactly for their reasons |
| `FdtInplace.FirstSubnode` | lib/libfdt/fdt.c:266-275 | the first child, or not found exactly when there is none |
| `FdtInplace.NextSubnode` | lib/libfdt/fdt.c:277-293 | the next child of the same parent, or not found exactly when there is none |
| `FdtAdjust.GetPhandle` | lib/libfdt/fdt_ro.c:506-521 | the word in the first handle property when it has four bytes, else that in the second when it has, else 0 |
| `FdtAdjust.FindMaxPhandle` | lib/libfdt/fdt_ro.c:112-138 | no node of the blob has a higher handle and some node has this one, or it is 0 |
| `FdtAdjust.AddOffset` | lib/libfdt/fdt_overlay.c:116-139 | one handle raised in place, or bad length, or no handles left exactly on 32-bit overflow or the reserved value |
| `FdtAdjust.AdjustPhandles` | lib/libfdt/fdt_overlay.c:156-177 | the node's body becomes the shifted body, in place, or the shift's error; lengths and offsets stay |
| `FdtPhandle.ShiftedHandle` | lib/libfdt/fdt_overlay.c:156-177 | after the shift every node's handle is its old one plus the shift, below the reserved value, and a node without one still has none |
| `FdtPhandle.ShiftRaises` | lib/libfdt/fdt_overlay.c:156-177 | in every node exactly the handle properties are raised and every other entry is the same |
| `FdtPhandle.ShiftFails` | lib/libfdt/fdt_overlay.c:116-139 | it fails only at a handle of the wrong length, or one that overflows or becomes the reserved value, with the error for that reason |
| `FdtPhandle.ApartFromBase` | lib/libfdt/fdt_overlay.c:829-847 | shifted by the base's highest handle, a handle differs from all of the base's if and only if it was not 0 or the base has none |
| `FdtPhandle.ApartFromEachOther` | lib/libfdt/fdt_overlay.c:156-177 | two shifted handles are equal if and only if they were equal before |
| `FdtPhandle.ListedOnce` | lib/libfdt/fdt_overlay.c:253-282 | a reference listed once, and overlapped by no other listed one, is raised exactly once on 32 bits |
| `FdtPhandle.UnlistedKept` | lib/libfdt/fdt_overlay.c:253-282 | a word no listed reference overlaps stays |
| `FdtPhandle.ReferencesKept` | lib/libfdt/fdt_overlay.c:220-342 | after shift and fix-ups a reference listed once names a node if and only if it did before |
| `FdtFixups.FixCell` | lib/libfdt/fdt_overlay.c:253-282 | one reference raised in place, bad overlay exactly when its end is past the property, and the offsets whose end wraps around told apart |
| `FdtFixups.UpdateReferences` | lib/libfdt/fdt_overlay.c:220-305 | the references of the walk over the fix-up tree are raised in place, or its first error is returned; `FdtListed` says which those are |
| `FdtFixups.LocalReferences` | lib/libfdt/fdt_overlay.c:324-342 | the same from the local fix-ups of the overlay, nothing when it has none |
| `FdtFixups.AdjustOverlay` | lib/libfdt/fdt_overlay.c:829-847 | the overlay's root body becomes the prepared body for the base's highest handle, or its error |
| `FdtFixups.PreparedApart` | lib/libfdt/fdt_overlay.c:829-847 | in the prepared overlay a node whose handle no fix-up lists has its old handle raised past every handle of the base, except 0 onto a base that has handles |
| `FdtFixups.PreparedReferences` | lib/libfdt/fdt_overlay.c:829-847 | and a reference listed once names a node if and only if it did in the overlay as it came |
| `FdtListed.WordsAre` | lib/libfdt/fdt_overlay.c:220-305 | the words of a fix-up tree, listed node by node, are every word of every property at every depth, each once |
| `FdtListed.FixTrace` | lib/libfdt/fdt_overlay.c:220-305 | the walk corrects one reference for each word of the fix-up tree, at every depth: in the node of the same path by first matching names, the first property of the same name, at the offset the word holds when it is reached; or it stops at an entry without counterpart, a list that is not words, or an offset outside the property, the references of the words before it corrected |
| `FdtListed.PreparedCorrects` | lib/libfdt/fdt_overlay.c:829-847 | a prepared overlay is the shifted one with exactly those references raised, and every node and property of its fix-up tree has its counterpart |
| `FdtListed.PreparedStops` | lib/libfdt/fdt_overlay.c:829-847 | an overlay that cannot be prepared has a handle that cannot be raised, or a fix-up entry that stops the walk, with the error for that reason |
| `FdtListed.InertPoints` | lib/libfdt/fdt_overlay.c:253-282 | when no reference is itself a word of the fix-up tree, each offset is the one the tree held at the start |
| `FdtListed.RaisedOnce` | lib/libfdt/fdt_overlay.c:220-342 | then a reference that one word names, with no other named one overlapping it, is raised exactly once |
| `FdtListed.OthersStay` | lib/libfdt/fdt_overlay.c:220-342 | and a word that no named reference overlaps stays |
| `SmcChain.PriorityEncoder` | smc_fuzz/src/smcmalloc.c:25-49 | the top set bit and whether it is the only one, for every number below 2^21 |
| `SmcChain.Alignment` | smc_fuzz/src/smcmalloc.c:69-85 | the least power of two not below the size |
| `SmcChain.SplitFront` | smc_fuzz/src/smcmalloc.c:122-188 | an allocation at a block's front keeps the chain, with an empty block before it |
| `SmcChain.SplitMid` | smc_fuzz/src/smcmalloc.c:189-232 | an allocation inside a block keeps the chain |
| `SmcChain.MergeKeeps` | smc_fuzz/src/smcmalloc.c:383-459 | freeing merges three spans and keeps the chain |
| `SmcChain.FreedSizeIsHarmless` | smc_fuzz/src/smcmalloc.c:448-458 | comparing with the freed entry's size instead of each entry's own never makes a difference |
| `SmcChain.NothingToSweep` | smc_fuzz/src/smcmalloc.c:168-188 | no valid block starts where a non-empty one ends, so sweeping for empty neighbours finds none |
| `SmcChain.LiveApart` | smc_fuzz/src/smcmalloc.c:56-258 | live allocations never overlap, come in address order and stay inside the arena |
| `SmcChain.FreeApart` | smc_fuzz/src/smcmalloc.c:367-474 | free blocks overlap no allocation and never touch each other |
| `SmcChain.BytesConserved` | smc_fuzz/src/smcmalloc.c:56-474 | free and live bytes always add up to the arena |
| `SmcChain.AllFreed` | smc_fuzz/src/smcmalloc.c:367-474 | with nothing live, one valid block covers the whole arena, whatever the order of frees |
| `SmcChain.FailsOnlyWithoutRoom` | smc_fuzz/src/smcmalloc.c:86-100 | some block has room exactly when some aligned address is clear of everything live |
| `SmcMalloc.Arena.constructor` | smc_fuzz/src/randsmcmod.c:427-447 | one block, nothing live |
| `SmcMalloc.Arena.TakeAlloc` | smc_fuzz/src/smcmalloc.c:103-115 | the last retired entry, or the next new one |
| `SmcMalloc.Arena.TakeBlock` | smc_fuzz/src/smcmalloc.c:123-130 | the same for blocks |
| `SmcMalloc.Arena.Take` | smc_fuzz/src/smcmalloc.c:101-253 | one live allocation is added and no other moves; error 3 exactly when the block table is full, error 2 never |
| `SmcMalloc.Arena.Malloc` | smc_fuzz/src/smcmalloc.c:56-258 | the first fit at the least power of two not below the size, disjoint from everything live; it fails only when no aligned placement exists at all |
| `SmcMalloc.Arena.Free` | smc_fuzz/src/smcmalloc.c:367-474 | exactly the allocation at that address goes and no other moves; unknown addresses change nothing; the stacks never overflow |
| `SmcMalloc.Arena.FreeAt` | smc_fuzz/src/smcmalloc.c:383-459 | the same for one table entry |
| `ConstraintBits.ShiftLeft` | smc_fuzz/src/constraint.c:39-60 | shifts by at most 16 make the product with the power of two cut to 64 bits, for every amount up to 64; beyond it panics |
| `ConstraintBits.ShiftRight` | smc_fuzz/src/constraint.c:65-86 | and the quotient by the power of two |
| `Constraint.Field.SetConstraint` | smc_fuzz/src/constraint.c:92-398 | the list becomes the new constraint, the list with it added once, or stays, by mode; panics exactly for bad types, modes and short vectors, and then nothing changes |
| `Constraint.RunHolds` | smc_fuzz/src/constraint.c:92-398 | after any calls the list is the distinct constraints since the last exclusive call, in order of first appearance |
| `Constraint.RangeAdmits` | smc_fuzz/src/constraint.c:497-515 | a drawn value is inside the range if and only if its ends are in order |
| `Constraint.RangeReaches` | smc_fuzz/src/constraint.c:497-515 | every value of an ordered range has a draw that gives it |
| `Constraint.Field.Pick` | smc_fuzz/src/constraint.c:447-535 | the answer of the constraint the first draw selects, or the default's |
| `Constraint.DrawGives` | smc_fuzz/src/constraint.c:476-535 | every draw selects the entry of the list at its remainder: its value, its low end plus the second draw modulo its span, or the vector entry at the second draw's remainder; a panic exactly when a number of that entry does not fit the field |
| `Constraint.EveryValueDrawn` | smc_fuzz/src/constraint.c:476-535 | every value that some fitting constraint admits comes from some pair of draws, and with ordered ranges no other value does |
| `Constraint.Generate` | smc_fuzz/src/constraint.c:436-538 | with fields that do not overlap every field read back from the register is what its draws give and every bit outside the fields is clear; panics exactly when some drawn constraint does not fit its field |
| `Constraint.Field.GetGenerated` | smc_fuzz/src/constraint.c:933-945 | the bits of the field, read back from the register |
| `Events.StepInv` | lib/events/events.c:22-90 | every step of every CPU keeps receipts at most sends, the count their difference on 32 bits, the lock exclusive and no wake-up lost |
| `Events.EveryRun` | lib/events/events.c:22-90 | on every interleaving of any number of CPUs there are no more receipts than sends, the count is their difference if and only if that is below 2^32, and no CPU sleeps past an event unless some sender still has its signal to issue |
| `Events.NothingInvented` | lib/events/events.c:22-90 | on every run the events sent are those the calls asked for less what sends still on their way will raise, and in a quiet state all of them |
| `Events.QuietMeansServed` | lib/events/events.c:55-90 | when no CPU can move the lock is free, every send is over, and if any waiter remains, with fewer than 2^32 events outstanding, every event sent was received |
| `PowerStates.SetNext` | plat/common/plat_state_id.c:53-96 | the index array becomes the next combination, higher levels untouched |
| `PowerStates.AdvanceRank` | plat/common/plat_state_id.c:73-95 | the next combination has the next place, and from the last place it is all levels unused |
| `PowerStates.RankUnrank` | plat/common/plat_state_id.c:53-96 | the place determines the combination |
| `PowerStates.UnrankRank` | plat/common/plat_state_id.c:53-96 | every place is some combination's |
| `PowerStates.VisitsEachOnce` | plat/common/plat_state_id.c:53-96 | counting from all levels unused visits every combination exactly once and then starts over |
| `PowerStates.PstateVars` | plat/common/plat_state_id.c:115-159 | the identifiers of the levels in use or-ed into one 32-bit word, which is the composite identifier when each fits its field, the greatest power-down flag and the highest level in use; valid exactly when depths do not grow upwards |
| `PowerStates.CompositeInjective` | plat/common/plat_state_id.c:132-158 | different combinations have different composite identifiers, even with different numbers of levels |
| `Topology.Tree.Populate` | plat/common/plat_topology.c:224-294 | every node has the parent and level the breadth-first description says, levels start where recorded, CPUs know themselves |
| `Topology.Tree.MakeLevel` | plat/common/plat_topology.c:244-290 | the same for one level |
| `Topology.Tree.ParentIsAbove` | plat/common/plat_topology.c:224-294 | every node below the top has its parent one level up and before it |
| `Topology.AncestorOrder` | plat/common/plat_topology.c:162-173 | ancestors keep the order of CPUs, so the CPUs of a domain are consecutive |
| `Topology.Tree.Ancestors` | plat/common/plat_topology.c:162-173 | the domains above a CPU, one for each level |
| `Topology.Tree.UpdateLimits` | plat/common/plat_topology.c:187-215 | every domain's range holds exactly the CPUs below it, whatever the child counts |
| `Topology.Tree.NextCpu` | plat/common/plat_topology.c:128-156 | from none, or from a CPU of the domain, the least present CPU of the domain after it, so iterating yields each once, in order; it leaves the domain exactly when started before it with a present CPU on the way |
| `Rand.Generator.Next` | lib/libc/rand.c:45-59 | for every 32-bit state the step is 16807 times it modulo 2^31 - 1, zero taken as 123459876, with no intermediate value outside a signed int |
| `Rand.Schrage` | lib/libc/rand.c:53-58 | the split computation is the modular product |
| `Rand.StepPermutes` | lib/libc/rand.c:45-59 | each step can be undone, so it permutes the numbers below the modulus and keeps zero apart |
| `Rand.AfterIsPower` | lib/libc/rand.c:45-59 | k steps from a seed in range give the seed times 16807^k modulo 2^31 - 1, never zero |

## Left out

- XlatContext.XlatCtx.AddDynamic: running out of tables is stated as the exhausted pool at the address where the mapper stops, not as a count of free tables before the call.
- XlatContext.XlatCtx.ChangeAttributes: asks that the range lies in the address space, where the source walks whatever it is given.
- XlatContext.XlatCtx.CheckPages: the same.
- XlatContext.XlatCtx.FindEntry: its attributes are a record; `XlatDescriptor` relates the record to the 64 bits.
- XlatContext.XlatCtx.AddChecked: inserts the region after mapping it rather than before, so that a failure has nothing to take out of the list.
- FdtBlob.Fdt.Open: the header is a set of fields rather than forty bytes, and its magic, version and block-order checks are preconditions.
- FdtBlob.Fdt.SetProperty: an offset that reads as a node must be a node's, as the library asks of its callers, not one inside a property value that happens to look like one; every other offset is refused as the source refuses it.
- FdtBlob.Fdt.NextNode: the same.
- FdtBlob.Fdt.NodeEnd: the same.
- FdtBlob.Fdt.GetName: the same.
- FdtBlob.Fdt.SubnodeOffset: the same.
- FdtBlob.Fdt.GetProperty: the same.
- FdtBlob.Fdt.DelProperty: the same.
- FdtBlob.Fdt.DelNode: the same.
- FdtBlob.Fdt.NopNode: the same.
- FdtBlob.Fdt.AddSubnode: the same, and it takes no negative parent offset.
- FdtWriter.Writer.constructor: asks for a buffer that holds a header, where the source returns no-space.
- FdtPath.GetPath: asks that no node name holds a slash; what happens in front of the buffer is told apart and not modelled.
- FdtPath.PathOffset: takes absolute paths; a path that starts with an alias is not modelled.
- FdtPath.PathAndBack: asks for a nameless root and a buffer that holds the path.
- FdtFixups.FixCell: the word is read after the bound is checked, where the source reads it before, and an offset whose end wraps around is told apart by its own result instead of written.
- FdtListed.RaisedOnce: asks that no reference is itself a word of the fix-up tree; without that, `FdtListed.FixTrace` gives each offset as it is when its word is reached.
- XlatBlocks.RefinedOnlyWhereNeeded: asks that no add has failed; a failed one can leave sub-tables in use that no listed region needs.
- FdtApply.ApplyNode: asks that the two blobs share no memory.
- FdtAdjust.AdjustPhandles: asks for a node; a blob without a root is refused in `FdtFixups.AdjustOverlay`.
- SmcMalloc.Arena.Malloc: on failure the source also returns the address in entry 0 of the allocation table; here it returns nothing beside the error code.
- Constraint.Field.Pick: asks for ranges whose span is not 2^64, for which the source divides by zero.
- Constraint.Generate: the random draws are parameters, and the fields are those of one register.
- PowerStates.PstateVars: asks that the fields of all levels fit in 32 bits, beyond which the source's shift has no defined result.
- Topology.Tree.NextCpu: asks for positive child counts.
- Translation tables are one sequence the methods reassign, so no aliasing between tables is modelled, and the list's zero-size terminator is implicit.
- Allocating a virtual address for a region, cache maintenance, barriers, printing and the identity-mapping helpers of the translation library.
- Device-tree versions below 17, opening into another buffer, packing, resizing, appending to and renaming, alias lookup and address cells.
- The overlay's references to symbols of the base, the choice of each fragment's target and the update of the symbol table.
- The event protocol assumes sequentially consistent memory, which the barriers in the source are there to give.
- The presence flag of a domain above the CPUs is set as the source sets it and nothing is claimed of it: the source takes it from the first CPU of each run of CPUs, although its comment says from any.
- Unconstrained generation in the fuzzer, its argument tables, its drivers and its debug-only overlap checks.
- Firmware call wrappers, PCIe, I/O storage, image loading, non-volatile memory and string functions.
