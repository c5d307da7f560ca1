/** The translation context: region list, tables, counts, and the operations on them. */
module XlatContext {
  import opened Numbers
  import opened Wrappers
  import opened XlatDescriptor
  import opened XlatGeometry
  import opened XlatTables
  import opened XlatInvariant
  import opened XlatSteps
  import opened XlatRegions
  import opened XlatLevels
  import opened XlatWalk
  import Trace = XlatTrace

  datatype Status = Ok | EINVAL | ERANGE | ENOMEM | EPERM

  /** An entry of a table, with the level it was found at. */
  datatype Entry = Entry(table: nat, index: nat, level: Level)

  const TWO_64: nat := 0x1_0000_0000_0000_0000
  const TWO_48: nat := 0x1_0000_0000_0000

  /** The difference of two addresses in 64-bit arithmetic. */
  function Offset64(va: nat, pa: nat): nat { (va - pa) % TWO_64 }

  class XlatCtx {
    const regime: Regime
    const baseLevel: Level
    const baseEntries: nat
    const paMax: nat
    const mmapNum: nat

    /** Live regions in order; the zero-size terminator is implicit. */
    var mmap: seq<Region>
    /** Row 0 is the base table, row k + 1 is tables[k]; likewise for the counts. */
    var mem: seq<seq<Desc>>
    var cnt: seq<int>
    var maxVa: nat
    var maxPa: nat
    var initialized: bool
    ghost var place: map<nat, Place>
    ghost var leak: seq<nat>
    ghost var ov: map<nat, Attr>
    /** Descriptor writes and TLB invalidations since the tables were cleared to `start`. */
    ghost var log: seq<Trace.Event>
    ghost var start: seq<seq<Desc>>

    ghost function Snap(): PT
      reads this`mem, this`cnt, this`place
    {
      PT(mem, cnt, place)
    }

    /** The tables are the result of the writes in the log, which keep to break-before-make, and an entry
        has a copy in a TLB only while it is valid, for its own address. */
    ghost predicate LogOK()
      reads this`mem, this`place, this`log, this`start
    {
      Trace.Follows(mem, place, log, start)
    }

    function VaSpace(): nat { baseEntries * Block(baseLevel) }

    predicate InSpace(r: Region) { r.End() <= VaSpace() && r.EndPa() <= paMax + 1 }

    /** The configuration and the shape of the table memory never change. */
    ghost predicate Shape()
      reads this`mem, this`cnt
    {
      && 1 <= baseEntries <= TABLE_ENTRIES && paMax < TWO_48
      && |cnt| == |mem| > 0 && |mem[0]| == baseEntries
      && forall u | 1 <= u < |mem| :: |mem[u]| == TABLE_ENTRIES
    }

    /** The region list is ordered, its members are compatible and its maxima are right. */
    ghost predicate ListValid()
      reads this`mmap, this`maxVa, this`maxPa
    {
      && ListOK(mmap) && |mmap| <= mmapNum && (forall r | r in mmap :: InSpace(r) && Aligned(r))
      && maxVa == MaxTop(mmap, false) && maxPa == MaxTop(mmap, true)
    }

    ghost predicate AtBase()
      reads this`place
    {
      0 in place && place[0] == Place(baseLevel, 0, VaSpace(), 0, 0)
    }

    /** The tables say exactly what the list says. */
    ghost predicate Agrees()
      reads this`mmap, this`mem, this`cnt, this`place, this`leak, this`ov, this`log, this`start
    {
      && AtBase() && LogOK() && InUse(Snap(), 0)
      && PlacedOK(Snap(), Listed(mmap, ov, regime), leak, NoneOpen) && Justified(Snap(), mmap, leak)
      && KeysIn(mmap, ov)
    }

    /** Unused tables are empty, so they can be handed out again. */
    ghost predicate Reusable()
      reads this`mem, this`cnt, this`place, this`leak
    {
      Clean(Snap(), leak)
    }

    ghost predicate Valid()
      reads this
    {
      Shape() && ListValid() && (initialized ==> Agrees() && Reusable())
    }

    constructor (regime: Regime, baseLevel: Level, baseEntries: nat, paMax: nat, mmapNum: nat, tablesNum: nat)
      requires 1 <= baseEntries <= TABLE_ENTRIES && paMax < TWO_48
      ensures Valid() && mmap == [] && !initialized && |mem| == tablesNum + 1
      ensures this.regime == regime && this.baseLevel == baseLevel && this.baseEntries == baseEntries && this.paMax == paMax && this.mmapNum == mmapNum
    {
      this.regime, this.baseLevel, this.baseEntries, this.paMax, this.mmapNum := regime, baseLevel, baseEntries, paMax, mmapNum;
      mmap, maxVa, maxPa, initialized := [], 0, 0, false;
      mem := [seq(baseEntries, _ => Invalid)] + seq(tablesNum, _ => seq(TABLE_ENTRIES, _ => Invalid));
      cnt := seq(tablesNum + 1, _ => 0);
      place, leak, ov, log, start := map[], [], map[], [], [];
    }

    /** Writes a valid descriptor over an invalid one. */
    method Install(t: nat, i: nat, va: nat, d: Desc)
      requires t in place && t < |mem| && i < |mem[t]| && va == SlotLo(place[t], i)
      requires mem[t][i] == Invalid && d != Invalid && LogOK()
      modifies this`mem, this`log
      ensures mem == old(mem)[t := old(mem)[t][i := d]] && LogOK()
      ensures log == old(log) + [Trace.Write(t, i, va, d)]
    {
      hide Trace.Follows;
      Trace.FollowsInstall(mem, place, log, start, t, i, d);
      mem := mem[t := mem[t][i := d]];
      log := log + [Trace.Write(t, i, va, d)];
    }

    /** Writes an invalid descriptor and invalidates the address in the TLBs. */
    method Break(t: nat, i: nat, va: nat)
      requires t in place && t < |mem| && i < |mem[t]| && va == SlotLo(place[t], i) && LogOK()
      modifies this`mem, this`log
      ensures mem == old(mem)[t := old(mem)[t][i := Invalid]] && LogOK()
      ensures log == old(log) + [Trace.Write(t, i, va, Invalid), Trace.Tlbi(va)]
    {
      hide Trace.Follows;
      Trace.FollowsBreak(mem, place, log, start, t, i);
      mem := mem[t := mem[t][i := Invalid]];
      log := log + [Trace.Write(t, i, va, Invalid), Trace.Tlbi(va)];
    }

    /** Tables leave their places, or an empty one takes one. */
    ghost method Settle(now: map<nat, Place>)
      requires LogOK() && forall u | u in now :: (u in place && now[u] == place[u]) || u >= |mem| || Blank(mem[u])
      modifies this`place
      ensures LogOK() && place == now
    {
      Trace.FollowsPlace(mem, place, now, log, start);
      place := now;
    }

    /** A sub-table with a zero count. */
    method GetEmpty() returns (s: Option<nat>)
      requires |cnt| >= 1
      ensures s.Some? ==> 1 <= s.value < |cnt| && cnt[s.value] == 0
      ensures s.None? ==> forall u | 1 <= u < |cnt| :: cnt[u] != 0
    {
      for u := 1 to |cnt|
        invariant forall x | 1 <= x < u :: cnt[x] != 0
      {
        if cnt[u] == 0 { return Some(u); }
      }
      return None;
    }

    /** Maps `mm` under table `t`. Returns the last address handled when it reaches the end
        of the region or of the table, and otherwise the address of the entry that could
        not be mapped. */
    method MapRegion(mm: Region, baseVa: nat, t: nat, level: Level, ghost v: View, ghost leak: seq<nat>) returns (r: int)
      requires MapArgs(v, mm, regime)
      requires t in place && place[t].level == level && place[t].lo == baseVa && 0 in place && place[0].level == baseLevel
      requires v.w1 == Max(baseVa, mm.va) < Min(mm.End(), place[t].hi)
      requires PlacedOK(Snap(), v, leak, Above(place[t]))
      requires Pool(Snap()) && Clean(Snap(), leak) && InUse(Snap(), t) && LogOK()
      modifies this`mem, this`cnt, this`place, this`log
      ensures LogOK() && old(log) <= log && PoolOK(Snap(), leak) && Grows(old(Snap()), Snap(), mm)
      ensures Frame(old(Snap()), Snap(), level) && t in place && place[t] == old(place[t])
      ensures MapResult(Snap(), v, leak, t, r)
      decreases 3 - level, 2
    {
      hide PlacedOK, PoolOK, Pool, Clean, InUse, LogOK, Block, MapLoop, MapResult, MapArgs, SlotLo, Frame, Grows, Max, Min, StartVa;
      ghost var p := place[t];
      MapEnter(Snap(), v, leak, t, mm, regime);
      var va: nat := StartVa(mm, baseVa, level);
      var idx: nat := (va - baseVa) / Block(level);
      if level > baseLevel {
        cnt := cnt[t := cnt[t] + 1];
      }
      assert Snap() == if t == 0 then old(Snap()) else old(Snap()).(cnt := cnt);
      GrowsSame(old(Snap()), Snap(), mm);
      while idx < |mem[t]|
        invariant t in place && place[t] == p && t < |mem| == |old(mem)| && |mem[t]| == |old(mem)[t]| && idx <= |mem[t]|
        invariant 0 in place && place[0].level == baseLevel
        invariant LogOK() && old(log) <= log && Frame(old(Snap()), Snap(), level) && Grows(old(Snap()), Snap(), mm)
        invariant MapLoop(Snap(), v, leak, t, idx, va)
        invariant va < mm.End() && mm.va < va + Block(level) && (mm.va < va || idx < |mem[t]|)
      {
        ghost var pt := Snap();
        r := MapEntry(mm, t, level, idx, va, v, leak);
        FrameTrans(old(Snap()), pt, Snap(), level, level);
        GrowsTrans(old(Snap()), pt, Snap(), mm);
        if r != va + Block(level) - 1 { return; }
        idx := idx + 1;
        va := va + Block(level);
        if mm.End() - 1 <= va { break; }
      }
      MapFinish(Snap(), v, leak, t, idx, va, mm, regime);
      return va - 1;
    }

    /** Handles the entry of `t` at `va`. Returns its last address when the next entry is to be
        handled, and otherwise what the whole call is to return. */
    method MapEntry(mm: Region, t: nat, level: Level, idx: nat, va: nat, ghost v: View, ghost leak: seq<nat>) returns (r: int)
      requires MapArgs(v, mm, regime) && LogOK()
      requires 0 in place && place[0].level == baseLevel
      requires MapLoop(Snap(), v, leak, t, idx, va) && idx < |mem[t]| && place[t].level == level
      requires va < mm.End() && mm.va < va + Block(level)
      modifies this`mem, this`cnt, this`place, this`log
      ensures LogOK() && old(log) <= log && PoolOK(Snap(), leak) && Grows(old(Snap()), Snap(), mm)
      ensures Frame(old(Snap()), Snap(), level) && t in place && place[t] == old(place[t]) && 0 in place && place[0] == old(place[0])
      ensures |mem| == |old(mem)| && |mem[t]| == |old(mem)[t]|
      ensures if r == va + Block(level) - 1 then MapLoop(Snap(), v, leak, t, idx + 1, va + Block(level)) && va + Block(level) <= mm.End()
              else MapResult(Snap(), v, leak, t, r)
      decreases 3 - level, 1
    {
      hide PlacedOK, PoolOK, Pool, Clean, InUse, LogOK, Block, MapLoop, MapReady, MapResult, MapArgs, SlotLo, Frame, MapFailed, MapAction, Normalise, ChildPlace;
      ghost var pt := Snap();
      MapSlot(pt, v, leak, t, idx, va, mm, regime);
      var d := mem[t][idx];
      var pa := mm.pa + va - mm.va;
      var action := MapAction(mm, d, pa, va, level);
      if action == WriteBlock {
        var leaf := Leaf(pa, Normalise(regime, mm.attr));
        Install(t, idx, va, leaf);
        assert Snap() == Put(pt, t, idx, leaf);
        MapWrite(pt, v, leak, t, idx, va, mm, pa, regime);
        FrameBase(pt, Snap(), t);
        return va + Block(level) - 1;
      }
      if action == NoAction {
        MapKeep(pt, v, leak, t, idx, va, mm, regime);
        return va + Block(level) - 1;
      }
      if action == CreateTable {
        var s := LinkTable(mm, t, idx, va, v, leak);
        if s.None? {
          MapOutOfTables(pt, v, leak, t, idx, va, mm, regime);
          return va;
        }
        d := Table(s.value);
      } else {
        MapPresent(pt, v, leak, t, idx, va);
      }
      ghost var mid := Snap();
      r := MapSubtable(mm, t, level, idx, va, d.next, v, leak);
      FrameTrans(pt, mid, Snap(), level, level + 1);
      GrowsTrans(pt, mid, Snap(), mm);
      FrameBase(pt, Snap(), t);
    }

    /** Links a free table below an invalid entry, if there is one. */
    method LinkTable(mm: Region, t: nat, idx: nat, va: nat, ghost v: View, ghost leak: seq<nat>) returns (s: Option<nat>)
      requires LogOK() && MapLoop(Snap(), v, leak, t, idx, va) && idx < |mem[t]| && mem[t][idx] == Invalid && |cnt| >= 1
      requires place[t].level <= 2 && va == SlotLo(place[t], idx) && Splits(mm, va, place[t].level)
      modifies this`mem, this`place, this`log
      ensures LogOK() && old(log) <= log && Grows(old(Snap()), Snap(), mm) && t in old(place)
      ensures s.None? ==> Exhausted(Snap()) && Snap() == old(Snap())
      ensures s.Some? ==> HasSlot(old(Snap()), t, idx) && MapReady(Snap(), v, leak, t, idx, va, s.value)
                          && Frame(old(Snap()), Snap(), old(place[t].level)) && place[t] == old(place[t])
                          && 0 in old(place) && 0 in place && place[0] == old(place[0])
    {
      hide PlacedOK, PoolOK, Pool, Clean, InUse, LogOK, Block, MapReady, SlotLo, Frame, Grows, Splits, Blank;
      ghost var pt := Snap();
      s := GetEmpty();
      GrowsSame(pt, pt, mm);
      if s.None? { return; }
      MapCreate(pt, v, leak, t, idx, va, s.value);
      BaseKept(pt, v, leak, t, idx, va);
      Install(t, idx, va, Table(s.value));
      Settle(place[s.value := ChildPlace(pt, t, idx)]);
      GrowsLink(pt, t, idx, s.value, mm);
      assert Snap() == Link(pt, t, idx, s.value);
    }

    static lemma BaseKept(pt: PT, v: View, leak: seq<nat>, t: nat, i: nat, va: nat)
      requires MapLoop(pt, v, leak, t, i, va)
      ensures 0 in pt.place
    {
    }

    /** Recurses into the sub-table `s` of the entry at `va`. */
    method MapSubtable(mm: Region, t: nat, level: Level, idx: nat, va: nat, s: nat, ghost v: View, ghost leak: seq<nat>) returns (r: int)
      requires MapArgs(v, mm, regime) && LogOK()
      requires 0 in place && place[0].level == baseLevel
      requires MapReady(Snap(), v, leak, t, idx, va, s) && place[t].level == level
      requires Max(va, mm.va) < Min(mm.End(), va + Block(level))
      modifies this`mem, this`cnt, this`place, this`log
      ensures LogOK() && old(log) <= log && PoolOK(Snap(), leak) && Grows(old(Snap()), Snap(), mm)
      ensures Frame(old(Snap()), Snap(), level + 1) && t in place && place[t] == old(place[t])
      ensures if r == va + Block(level) - 1 then MapLoop(Snap(), v, leak, t, idx + 1, va + Block(level)) && va + Block(level) <= mm.End()
              else MapResult(Snap(), v, leak, t, r)
      decreases 3 - level, 0
    {
      hide PlacedOK, PoolOK, Pool, Clean, InUse, LogOK, Block, MapLoop, MapReady, MapResult, MapArgs, SlotLo, Frame, MapFailed;
      ghost var mid := Snap();
      MapInto(mid, v, leak, t, idx, va, s, mm, regime);
      r := MapRegion(mm, va, s, level + 1, Upto(v, Max(va, mm.va)), leak);
      MapBack(mid, Snap(), v, leak, t, idx, va, s, mm, regime, r);
    }

    /** Unmaps `um` under table `t`, dropping sub-tables whose count falls to zero. */
    method UnmapRegion(um: Region, baseVa: nat, t: nat, level: Level, ghost v: View, ghost leak: seq<nat>, ghost tidy: bool)
      requires UnmapArgs(v, um)
      requires t in place && place[t].level == level && place[t].lo == baseVa && 0 in place && place[0].level == baseLevel
      requires v.w0 == Max(baseVa, um.va) < Min(um.End(), place[t].hi)
      requires PlacedOK(Snap(), v, leak, Above(place[t])) && Kept(Snap(), v.rs, leak, tidy) && InUse(Snap(), 0) && LogOK()
      modifies this`mem, this`cnt, this`place, this`log
      ensures LogOK() && old(log) <= log && UnmapDone(Snap(), v, leak, t, um, tidy)
      ensures Frame(old(Snap()), Snap(), level) && t in place && place[t] == old(place[t]) && |mem| == |old(mem)|
      ensures Untouched(old(Snap()), Snap(), um.va, um.End())
      decreases 3 - level, 1
    {
      hide Untouched, PlacedOK, Kept, Pool, Clean, InUse, LogOK, Block, UnmapLoop, UnmapDone, UnmapArgs, SlotLo, Frame, Max, Min, StartVa;
      ghost var p := place[t];
      UnmapEnter(Snap(), v, leak, t, um, tidy);
      var va: nat := StartVa(um, baseVa, level);
      var idx: nat := (va - baseVa) / Block(level);
      UntouchedSame(Snap(), Snap(), um.va, um.End());
      while idx < |mem[t]|
        invariant t in place && place[t] == p && t < |mem| == |old(mem)| && |mem[t]| == |old(mem)[t]| && idx <= |mem[t]|
        invariant 0 in place && place[0].level == baseLevel
        invariant LogOK() && old(log) <= log && Frame(old(Snap()), Snap(), level) && Untouched(old(Snap()), Snap(), um.va, um.End())
        invariant UnmapLoop(Snap(), v, leak, t, idx, va, um, tidy)
        invariant va < um.End() && um.va < va + Block(level) && (um.va < va || idx < |mem[t]|)
      {
        ghost var pt := Snap();
        UnmapEntry(um, t, level, idx, va, v, leak, tidy);
        FrameTrans(old(Snap()), pt, Snap(), level, level);
        UntouchedTrans(old(Snap()), pt, Snap(), um.va, um.End());
        idx := idx + 1;
        va := va + Block(level);
        if um.End() - 1 <= va { break; }
      }
      ghost var pt := Snap();
      UnmapFinish(Snap(), v, leak, t, idx, va, um, tidy);
      if level > baseLevel {
        cnt := cnt[t := cnt[t] - 1];
      }
      assert Snap() == if t == 0 then pt else pt.(cnt := cnt);
      FrameTrans(old(Snap()), pt, Snap(), level, level);
      UntouchedSame(pt, Snap(), um.va, um.End());
      UntouchedTrans(old(Snap()), pt, Snap(), um.va, um.End());
    }

    /** Handles the entry of `t` at `va`. */
    method UnmapEntry(um: Region, t: nat, level: Level, idx: nat, va: nat, ghost v: View, ghost leak: seq<nat>, ghost tidy: bool)
      requires UnmapArgs(v, um) && LogOK()
      requires 0 in place && place[0].level == baseLevel
      requires UnmapLoop(Snap(), v, leak, t, idx, va, um, tidy) && idx < |mem[t]| && place[t].level == level
      requires va < um.End() && um.va < va + Block(level)
      modifies this`mem, this`cnt, this`place, this`log
      ensures LogOK() && old(log) <= log && UnmapLoop(Snap(), v, leak, t, idx + 1, va + Block(level), um, tidy)
      ensures Frame(old(Snap()), Snap(), level) && t in place && place[t] == old(place[t]) && 0 in place && place[0] == old(place[0])
      ensures |mem| == |old(mem)| && |mem[t]| == |old(mem)[t]|
      ensures Untouched(old(Snap()), Snap(), um.va, um.End())
      decreases 3 - level, 0
    {
      hide Untouched, PlacedOK, Kept, Pool, Clean, InUse, LogOK, Block, UnmapLoop, UnmapDone, UnmapArgs, SlotLo, Frame, Max, Min, UnmapAction, Covered;
      ghost var pt := Snap();
      UnmapSlot(pt, v, leak, t, idx, va, um, tidy);
      var d := mem[t][idx];
      var action := UnmapAction(um, d, va, level);
      if action == WriteBlock {
        Break(t, idx, va);
        assert Snap() == Put(pt, t, idx, Invalid);
        UntouchedPut(pt, t, idx, 0, um.va, um.End());
        UnmapErase(pt, v, leak, t, idx, va, um, tidy);
      } else if action == Recurse {
        UnmapInto(pt, v, leak, t, idx, va, um, tidy, d.next);
        UnmapRegion(um, va, d.next, level + 1, From(v, Max(va, um.va)), leak, tidy);
        ghost var back := Snap();
        UnmapBack(pt, back, v, leak, t, idx, va, d.next, um, tidy);
        if cnt[d.next] == 0 {
          Break(t, idx, va);
          Settle(Unlink(back, t, idx, d.next).place);
          assert Snap() == Unlink(back, t, idx, d.next);
          UntouchedPut(back, t, idx, d.next, um.va, um.End());
          UntouchedTrans(pt, back, Snap(), um.va, um.End());
        }
        FrameTrans(pt, pt, back, level, level + 1);
        FrameTrans(pt, back, Snap(), level, level);
      }
      FrameBase(pt, Snap(), t);
    }

    /** Whether two regions overlap in a way that is not allowed. */
    static method Clashes(mm: Region, q: Region) returns (clash: bool)
      requires 0 < mm.size && 0 < q.size && mm.End() <= TWO_48 && mm.EndPa() <= TWO_48 && q.End() <= TWO_48 && q.EndPa() <= TWO_48
      ensures clash <==> !Compatible(mm, q)
      ensures clash <==> !ShareNothing(mm, q) && (!ShareAlike(mm, q) || SameArea(mm, q))
    {
      CompatibleMeans(mm, q);
      hide ShareNothing, ShareAlike, SameArea, Offset64;
      var endPa, endVa, qEndPa, qEndVa := mm.EndPa() - 1, mm.End() - 1, q.EndPa() - 1, q.End() - 1;
      if (mm.va >= q.va && endVa <= qEndVa) || (q.va >= mm.va && qEndVa <= endVa) {
        SameOffset(q.va, q.pa, mm.va, mm.pa);
        if mm.dynamic || q.dynamic { return true; }
        if Offset64(q.va, q.pa) != Offset64(mm.va, mm.pa) { return true; }
        return mm.va == q.va && mm.size == q.size;
      }
      var separatedPa := endPa < q.pa || mm.pa > qEndPa;
      var separatedVa := endVa < q.va || mm.va > qEndVa;
      return !separatedVa || !separatedPa;
    }

    static method AnyClash(mm: Region, rs: seq<Region>) returns (clash: bool)
      requires 0 < mm.size && mm.End() <= TWO_48 && mm.EndPa() <= TWO_48
      requires forall q | q in rs :: 0 < q.size && q.End() <= TWO_48 && q.EndPa() <= TWO_48
      ensures clash <==> exists q | q in rs :: !Compatible(mm, q)
      ensures clash <==> exists q | q in rs :: !ShareNothing(mm, q) && (!ShareAlike(mm, q) || SameArea(mm, q))
    {
      hide Compatible, ShareNothing, ShareAlike, SameArea;
      for k := 0 to |rs|
        invariant forall i | 0 <= i < k :: Compatible(mm, rs[i])
        invariant forall i | 0 <= i < k :: ShareNothing(mm, rs[i]) || (ShareAlike(mm, rs[i]) && !SameArea(mm, rs[i]))
      {
        assert rs[k] in rs;
        clash := Clashes(mm, rs[k]);
        if clash { return; }
      }
      clash := false;
    }

    lemma ListBounds()
      requires Valid()
      ensures forall q | q in mmap :: 0 < q.size && q.End() <= TWO_48 && q.EndPa() <= TWO_48
    {
      hide Agrees, Reusable, MaxTop, PageAligned, VaSpace, Block, Compatible;
      SpaceBound();
    }

    /** Verifies that a region can be added. */
    method CheckRegion(mm: Region) returns (s: Status)
      requires Valid() && mm.size > 0
      requires mm.pa < TWO_64 && mm.va < TWO_64 && mm.size < TWO_64
      ensures s == Verdict(mm)
      ensures s == Ok <==> Addable(mm)
      ensures s == EINVAL <==> mm.pa % 0x1000 != 0 || mm.va % 0x1000 != 0 || mm.size % 0x1000 != 0 ||
                               !(mm.granularity == 0x1000 || mm.granularity == 0x20_0000 || mm.granularity == 0x4000_0000)
      ensures s == ERANGE <==> Aligned(mm) && (mm.va + mm.size > baseEntries * Block(baseLevel) || mm.pa + mm.size > paMax + 1)
      ensures s == ENOMEM <==> Aligned(mm) && InSpace(mm) && |mmap| == mmapNum
      ensures s == EPERM <==> Aligned(mm) && InSpace(mm) && |mmap| < mmapNum &&
                              exists q | q in mmap :: !ShareNothing(mm, q) && (!ShareAlike(mm, q) || SameArea(mm, q))
    {
      AlignedMeans(mm);
      hide Agrees, Reusable, ListOK, MaxTop, PageAligned, VaSpace, Block, Compatible, ShareNothing, ShareAlike, SameArea;
      Wraps(mm.pa, mm.size);
      Wraps(mm.va, mm.size);
      var endPa := (mm.pa + mm.size - 1) % TWO_64;
      var endVa := (mm.va + mm.size - 1) % TWO_64;
      if !PageAligned(mm.pa) || !PageAligned(mm.va) || !PageAligned(mm.size) { return EINVAL; }
      if mm.granularity != Block(1) && mm.granularity != Block(2) && mm.granularity != Block(3) { return EINVAL; }
      SpaceBound();
      if mm.pa > endPa || mm.va > endVa { return ERANGE; }
      if endVa > VaSpace() - 1 { return ERANGE; }
      if endPa > paMax { return ERANGE; }
      if |mmap| == mmapNum { return ENOMEM; }
      ListBounds();
      var clash := AnyClash(mm, mmap);
      return if clash then EPERM else Ok;
    }

    predicate Aligned(mm: Region) {
      && PageAligned(mm.pa) && PageAligned(mm.va) && PageAligned(mm.size)
      && mm.granularity in {Block(1), Block(2), Block(3)}
    }

    lemma AlignedMeans(mm: Region)
      ensures Aligned(mm) <==> mm.pa % 0x1000 == 0 && mm.va % 0x1000 == 0 && mm.size % 0x1000 == 0 &&
                               (mm.granularity == 0x1000 || mm.granularity == 0x20_0000 || mm.granularity == 0x4000_0000)
      ensures InSpace(mm) <==> mm.va + mm.size <= baseEntries * Block(baseLevel) && mm.pa + mm.size <= paMax + 1
    {
    }

    ghost predicate Addable(mm: Region)
      reads this`mmap
    {
      Aligned(mm) && InSpace(mm) && |mmap| < mmapNum && forall q | q in mmap :: Compatible(mm, q)
    }

    /** The answer of the checks. */
    ghost function Verdict(mm: Region): Status
      reads this`mmap
    {
      if !Aligned(mm) then EINVAL else if !InSpace(mm) then ERANGE else if |mmap| >= mmapNum then ENOMEM
      else if exists q | q in mmap :: !Compatible(mm, q) then EPERM else Ok
    }

    lemma SpaceBound()
      requires 1 <= baseEntries <= TABLE_ENTRIES
      ensures 0 < VaSpace() <= TWO_48
    {
      if baseLevel == 0 {} else if baseLevel == 1 {} else if baseLevel == 2 {} else {}
    }

    static lemma Wraps(x: nat, size: nat)
      requires 0 < size < TWO_64 && x < TWO_64
      ensures var end := (x + size - 1) % TWO_64; if x > end then x + size > TWO_64 else end == x + size - 1
    {
    }

    static lemma SameOffset(va: nat, pa: nat, va': nat, pa': nat)
      requires va <= TWO_48 && pa <= TWO_48 && va' <= TWO_48 && pa' <= TWO_48
      ensures Offset64(va, pa) == Offset64(va', pa') <==> va - pa == va' - pa'
    {
    }

    /** While no add has failed, a sub-table's count is the number of regions that meet its span. */
    lemma CountsAreExact(u: nat)
      requires Valid() && initialized && u in place && u != 0 && forall x | 0 <= x < |leak| :: leak[x] == 0
      ensures u < |cnt| && cnt[u] == Count(mmap, place[u].lo, place[u].hi)
    {
      assert CountAt(Snap(), Listed(mmap, ov, regime), leak, NoneOpen, u);
    }

    /** A sub-table with a zero count is empty and no table in use points at it. */
    lemma ZeroCountIsFree(u: nat)
      requires Valid() && initialized && 0 < u < |cnt| && cnt[u] == 0
      ensures u !in place && Blank(mem[u])
      ensures forall t, i | t in place && 0 <= t < |mem| && 0 <= i < |mem[t]| :: mem[t][i] != Table(u)
    {
      hide Owners, Counts, LeakOK, ListValid, LogOK;
      forall t, i | t in place && 0 <= t < |mem| && 0 <= i < |mem[t]| ensures mem[t][i] != Table(u) {
        assert SlotOK(Snap(), t, i);
      }
    }

    /** Where a compatible region goes in the list. */
    method Position(mm: Region) returns (k: nat)
      requires ListOK(mmap) && Mappable(mm) && forall q | q in mmap :: Compatible(mm, q)
      ensures k <= |mmap| && ListOK(Insert(mmap, k, mm)) && Remove(Insert(mmap, k, mm), k) == mmap
    {
      k := 0;
      while k < |mmap| && mmap[k].End() - 1 < mm.End() - 1
        invariant k <= |mmap| && forall i | 0 <= i < k :: Before(mmap[i], mm)
      {
        k := k + 1;
      }
      while k < |mmap| && mmap[k].End() - 1 == mm.End() - 1 && mmap[k].size < mm.size
        invariant k <= |mmap| && (forall i | 0 <= i < k :: Before(mmap[i], mm))
        invariant k < |mmap| ==> mmap[k].End() >= mm.End()
      {
        if k + 1 < |mmap| { assert Before(mmap[k], mmap[k + 1]); }
        k := k + 1;
      }
      forall i | k <= i < |mmap| ensures Before(mm, mmap[i]) {
        assert Compatible(mm, mmap[k]);
        if k < i { assert Before(mmap[k], mmap[i]); }
      }
      InsertOK(mmap, k, mm);
    }

    /** Puts a checked region into the list and raises the maxima. */
    method Enlist(mm: Region, k: nat)
      requires ListValid() && Addable(mm) && mm.size > 0 && k <= |mmap| && ListOK(Insert(mmap, k, mm))
      modifies this`mmap, this`maxVa, this`maxPa
      ensures ListValid() && mmap == Insert(old(mmap), k, mm)
    {
      hide ListOK, VaSpace, Compatible, Aligned, Insert, MaxTop, InSpace;
      assert forall r | r in mmap :: r.size > 0 by { ListSizes(mmap); }
      MaxTopInsert(mmap, k, mm, false);
      MaxTopInsert(mmap, k, mm, true);
      InsertMembers(mmap, k, mm);
      mmap := Insert(mmap, k, mm);
      if mm.EndPa() - 1 > maxPa { maxPa := mm.EndPa() - 1; }
      if mm.End() - 1 > maxVa { maxVa := mm.End() - 1; }
    }

    /** Adds a static region; a region that fails the checks is not added. */
    method AddStatic(mm: Region) returns (s: Status)
      requires Valid() && !initialized && !mm.dynamic
      requires mm.pa < TWO_64 && mm.va < TWO_64 && mm.size < TWO_64
      modifies this`mmap, this`maxVa, this`maxPa
      ensures Valid()
      ensures mm.size == 0 ==> s == Ok
      ensures mm.size > 0 ==> (s == Ok <==> old(Addable(mm)))
      ensures if s == Ok && mm.size > 0 then old(Addable(mm)) && exists k: nat | k <= |old(mmap)| :: mmap == Insert(old(mmap), k, mm)
              else mmap == old(mmap) && maxVa == old(maxVa) && maxPa == old(maxPa)
    {
      if mm.size == 0 { return Ok; }
      s := CheckRegion(mm);
      if s != Ok { return; }
      var k := Position(mm);
      Enlist(mm, k);
    }

    /** Builds the tables from the region list. False stands for the panic on running out of tables. */
    method Init() returns (ok: bool)
      requires Valid() && !initialized
      modifies this
      ensures mmap == old(mmap) && |mem| == |old(mem)|
      ensures ok ==> Valid() && initialized && ov == map[] && (forall u | 0 <= u < |leak| :: leak[u] == 0)
      ensures !ok ==> Exhausted(Snap()) && mmap != []
    {
      hide Agrees, Reusable, ListValid, Block, LogOK, VaSpace, Shape;
      ClearTables();
      ov, log, start := map[], [], mem;
      leak := seq(|mem|, _ => 0);
      place := map[0 := Place(baseLevel, 0, VaSpace(), 0, 0)];
      ok := MapAll();
      if ok { initialized := true; }
    }

    /** Makes every entry invalid and every count zero. */
    method ClearTables()
      requires Shape()
      modifies this`mem, this`cnt
      ensures Shape() && |mem| == |old(mem)| && |cnt| == |mem| && forall u | 0 <= u < |mem| :: Blank(mem[u]) && cnt[u] == 0
    {
      for j := 0 to |mem|
        invariant Shape() && |mem| == |old(mem)|
        invariant forall u | 0 <= u < j :: Blank(mem[u]) && cnt[u] == 0
      {
        cnt := cnt[j := 0];
        mem := mem[j := seq(|mem[j]|, _ => Invalid)];
      }
    }

    static lemma ListSizes(rs: seq<Region>)
      requires ListOK(rs)
      ensures forall r | r in rs :: r.size > 0
    {
    }

    lemma AllBlank()
      requires Shape() && AtBase() && log == [] && start == mem && place.Keys == {0}
      requires leak == seq(|mem|, _ => 0) && forall u | 0 <= u < |mem| :: Blank(mem[u]) && cnt[u] == 0
      ensures LogOK() && PlacedOK(Snap(), Listed([], ov, regime), leak, NoneOpen) && PoolOK(Snap(), leak)
    {
      hide Block;
      assert place == map[0 := place[0]];
      BlankStart(Snap(), leak, ov, regime, baseLevel);
    }

    /** The preconditions of mapping the k-th listed region after those before it. */
    lemma StaticArgs(k: nat)
      requires ListValid() && k < |mmap| && AtBase()
      ensures var mm := mmap[k];
              && MapArgs(View(mmap[..k], mm, mm.va, mm.va, map[], regime), mm, regime)
              && Max(0, mm.va) == mm.va < Min(mm.End(), place[0].hi) && mm.End() <= place[0].hi && mm.size > 0
    {
      hide Block;
      assert mmap[k] in mmap;
      ListInner(mmap, k);
    }

    static lemma RegionSize(mm: Region)
      requires Mappable(mm)
      ensures mm.size > 0
    {
    }

    lemma ArgParts(v: View, mm: Region)
      requires MapArgs(v, mm, regime)
      ensures v.mm == mm && v.w0 == mm.va && v.regime == regime
    {
    }

    lemma LeakLength()
      requires Clean(Snap(), leak)
      ensures |leak| == |mem|
    {
    }

    lemma PoolParts()
      requires PoolOK(Snap(), leak)
      ensures Pool(Snap()) && Clean(Snap(), leak) && InUse(Snap(), 0)
    {
    }

    /** Mapping and unmapping keep the shape of the table memory. */
    twostate lemma ShapeKept()
      requires old(Shape()) && Frame(old(Snap()), Snap(), baseLevel)
      ensures Shape() && |mem| == |old(mem)|
    {
    }

    /** Tables added for one more region. */
    lemma MoreJustified(was: PT, rs: seq<Region>, rs': seq<Region>, mm: Region)
      requires Justified(was, rs, leak) && Grows(was, Snap(), mm)
      requires PlacedOK(Snap(), Listed(rs', ov, regime), leak, NoneOpen)
      requires mm in rs' && forall q | q in rs :: q in rs'
      ensures Justified(Snap(), rs', leak)
    {
      hide Justified, Grows, Struct, Owners, Counts;
      JustifiedGrows(was, Snap(), rs, rs', mm, leak);
    }

    static lemma RanOut(pt: PT, v: View, lk: seq<nat>, t: nat, r: int, end: int)
      requires MapResult(pt, v, lk, t, r) && t in pt.place && v.mm.End() == end <= pt.place[t].hi && r != end - 1
      ensures Exhausted(pt)
    {
    }

    /** Maps the whole list into empty tables, in list order. */
    method MapAll() returns (ok: bool)
      requires Shape() && ListValid() && AtBase() && ov == map[] && log == [] && start == mem && place.Keys == {0}
      requires leak == seq(|mem|, _ => 0) && forall u | 0 <= u < |mem| :: Blank(mem[u]) && cnt[u] == 0
      modifies this`mem, this`cnt, this`place, this`log
      ensures |mem| == |old(mem)| && (ok ==> Shape() && Agrees() && Reusable())
      ensures !ok ==> Exhausted(Snap()) && mmap != []
    {
      hide PlacedOK, PoolOK, Pool, Clean, InUse, LogOK, Block, ListOK, Listed, MapResult, MapArgs, Frame, Shape, ListValid, VaSpace, Grows, Justified, Trace.BreakBeforeMake, Trace.Quiet;
      AllBlank();
      JustifiedNone(Snap(), mmap[..0], leak);
      for k := 0 to |mmap|
        invariant AtBase() && LogOK() && Shape() && |mem| == |old(mem)|
        invariant PlacedOK(Snap(), Listed(mmap[..k], ov, regime), leak, NoneOpen) && PoolOK(Snap(), leak) && Justified(Snap(), mmap[..k], leak)
      {
        var mm := mmap[k];
        ghost var v := View(mmap[..k], mm, mm.va, mm.va, ov, regime);
        StaticArgs(k);
        MapStart(Snap(), mmap[..k], ov, regime, mm, leak);
        label before:
        ghost var was := Snap();
        PoolParts();
        var end := MapRegion(mm, 0, 0, baseLevel, v, leak);
        ShapeKept@before();
        if end != mm.End() - 1 {
          RanOut(Snap(), v, leak, 0, end, mm.End());
          return false;
        }
        MapEnd(Snap(), mmap[..k], k, ov, regime, mm, leak);
        assert Insert(mmap[..k], k, mm) == mmap[..k + 1];
        MoreJustified(was, mmap[..k], mmap[..k + 1], mm);
      }
      assert mmap[..|mmap|] == mmap;
      PoolParts();
      return true;
    }

    /** What an add that ran out of tables leaves: the mapper stopped in state `mid` at address `end`, and
        what it had mapped was undone. Counts it raised on the way to `end` are left behind, and the tables
        given up are empty exactly when that leaves no table pointed at by one that nothing holds. */
    ghost predicate RanOutAt(was: PT, wasLeak: seq<nat>, mm: Region, mid: PT, end: int)
      reads this`mem, this`cnt, this`place, this`leak, this`ov, this`mmap
    {
      && Grows(was, mid, mm) && PoolOK(mid, wasLeak)
      && MapFailed(mid, View(mmap, mm, mm.va, mm.va, ov, regime), wasLeak, end, mm.End())
      && (forall u | u in mid.place :: u < |mid.mem|) && |wasLeak| == |mid.mem|
      && leak == Leaked(mid, wasLeak, mm.va, Max(end, mm.va))
      && (Reusable() <==> Tidy(mid, mmap, leak))
      && (mm.va < end ==> Untouched(mid, Snap(), mm.va, end))
    }

    /** Maps a dynamic region into live tables, undoing a partial mapping when tables run out. */
    method MapDynamic(mm: Region, k: nat) returns (ok: bool, ghost mid: PT, ghost end: int)
      requires Shape() && AtBase() && LogOK() && k <= |mmap|
      requires PlacedOK(Snap(), Listed(mmap, ov, regime), leak, NoneOpen) && PoolOK(Snap(), leak)
      requires Mappable(mm) && Apart(mmap, mm) && mm.End() <= VaSpace() && KeysIn(mmap, ov) && Justified(Snap(), mmap, leak)
      modifies this`mem, this`cnt, this`place, this`log, this`leak
      ensures Shape() && AtBase() && LogOK() && old(log) <= log && InUse(Snap(), 0) && |mem| == |old(mem)|
      ensures ok ==> PlacedOK(Snap(), Listed(Insert(mmap, k, mm), ov, regime), leak, NoneOpen) && Reusable() && leak == old(leak)
      ensures !ok ==> PlacedOK(Snap(), Listed(mmap, ov, regime), leak, NoneOpen) && (baseLevel >= 1 ==> Reusable())
      ensures !ok ==> RanOutAt(old(Snap()), old(leak), mm, mid, end)
      ensures Justified(Snap(), if ok then Insert(mmap, k, mm) else mmap, leak)
    {
      hide Justified, Insert, PlacedOK, PoolOK, Pool, Clean, InUse, LogOK, Block, Listed, MapFailed, MapArgs, Frame, Grows, Shape, VaSpace, Apart, Mappable, Tidy, Untouched, Leaked;
      ghost var v := View(mmap, mm, mm.va, mm.va, ov, regime);
      DynamicArgs(mmap, mm, ov, regime);
      MapStart(Snap(), mmap, ov, regime, mm, leak);
      PoolParts();
      RegionSize(mm);
      var stop := MapRegion(mm, 0, 0, baseLevel, v, leak);
      mid, end := Snap(), stop;
      ShapeKept();
      PoolParts();
      ok := stop == mm.End() - 1;
      InsertMembers(mmap, k, mm);
      if ok {
        MapEnd(Snap(), mmap, k, ov, regime, mm, leak);
        MoreJustified(old(Snap()), mmap, Insert(mmap, k, mm), mm);
      } else {
        StoppedJustified(old(Snap()), mid, v, leak, stop, mm.End());
        Rollback(mm, stop, v);
      }
    }

    static lemma StoppedJustified(was: PT, pt: PT, v: View, lk: seq<nat>, end: int, hi: int)
      requires Justified(was, v.rs, lk) && Grows(was, pt, v.mm) && MapFailed(pt, v, lk, end, hi)
      ensures Justified(pt, v.rs + [v.mm], lk)
    {
      hide Justified, Grows, Struct, Owners, Counts;
      JustifiedGrows(was, pt, v.rs, v.rs + [v.mm], v.mm, lk);
    }

    /** Undoes what a failed mapping did before `end`, the address it could not map. Entries
        at `end` itself keep the counts it raised on the way there. */
    method Rollback(mm: Region, end: int, ghost v: View)
      requires Shape() && AtBase() && LogOK() && PoolOK(Snap(), leak)
      requires MapArgs(v, mm, regime) && Apart(v.rs, mm) && mm.End() <= VaSpace() && v.ov == ov
      requires MapFailed(Snap(), v, leak, end, mm.End()) && Justified(Snap(), v.rs + [mm], leak)
      modifies this`mem, this`cnt, this`place, this`log, this`leak
      ensures Shape() && AtBase() && LogOK() && old(log) <= log && InUse(Snap(), 0) && |mem| == |old(mem)|
      ensures PlacedOK(Snap(), Listed(v.rs, ov, regime), leak, NoneOpen)
      ensures (forall u | u in old(place) :: u < |old(mem)|) && |old(leak)| == |old(mem)|
      ensures leak == Leaked(old(Snap()), old(leak), mm.va, Max(end, mm.va))
      ensures Reusable() <==> Tidy(old(Snap()), v.rs, leak)
      ensures baseLevel >= 1 ==> Reusable()
      ensures mm.va < end ==> Untouched(old(Snap()), Snap(), mm.va, end)
      ensures Justified(Snap(), v.rs, leak)
    {
      hide Justified, Untouched, PlacedOK, PoolOK, Pool, Clean, InUse, LogOK, Block, MapArgs, Frame, Shape, VaSpace, Apart, UnmapDone, UnmapArgs, Leaked, Struct, Owners, Counts, LeakOK, Tidy;
      ghost var m := Max(end, mm.va);
      PoolParts();
      ArgParts(v, mm);
      FailureIsPartial(Snap(), v, leak, end, mm.End());
      LeakedClean(Snap(), leak, mm.va, m);
      assert |leak| == |mem| by { LeakLength(); }
      leak := Leaked(Snap(), leak, mm.va, m);
      TidyBase(Snap(), Upto(v, m));
      if mm.va >= end {
        EmptyWindow(Snap(), Upto(v, m), Listed(v.rs, ov, regime), leak, NoneOpen);
        LeftClean(Snap(), Snap(), Listed(v.rs, ov, regime));
        UndoneJustified(old(Snap()), Snap(), v.rs, mm, old(leak), m);
        return;
      }
      var um := Region(0, mm.va, end - mm.va, Attr(Device, false, false, false, false), 0, false);
      ghost var w, pt := Upto(v, end), Snap();
      ghost var tidy := Tidy(pt, v.rs, leak);
      RollbackArgs(v, mm, regime, end, um);
      UnmapStart(Snap(), w, leak);
      label before:
      UnmapRegion(um, 0, 0, baseLevel, w, leak, tidy);
      ShapeKept@before();
      UnmapEnd(Snap(), w, leak, um, tidy);
      UntouchedParts(pt, Snap(), um.va, um.End());
      LeftClean(pt, Snap(), Listed(v.rs, ov, regime));
      UndoneJustified(pt, Snap(), v.rs, mm, old(leak), m);
    }

    lemma UndoneJustified(pt: PT, pt': PT, rs: seq<Region>, mm: Region, was: seq<nat>, m: int)
      requires Justified(pt, rs + [mm], was) && (forall u | u in pt'.place :: u in pt.place && pt'.place[u] == pt.place[u])
      requires PlacedOK(pt', Listed(rs, ov, regime), leak, NoneOpen) && InUse(pt', 0) && Apart(rs, mm)
      requires (forall u | u in pt.place :: u < |pt.mem|) && |was| == |pt.mem| && leak == Leaked(pt, was, mm.va, m)
      ensures Justified(pt', rs, leak)
    {
      hide Justified, PlacedOK, Apart;
      JustifiedLess(pt, pt', rs + [mm], Listed(rs, ov, regime), mm, was, leak);
    }

    static lemma UntouchedParts(pt: PT, pt': PT, lo: nat, hi: nat)
      requires Untouched(pt, pt', lo, hi)
      ensures |pt'.mem| == |pt.mem| && forall u | u in pt'.place :: u in pt.place && pt'.place[u] == pt.place[u]
    {
    }

    /** With the base table at level 1 or more no count left behind does harm. */
    lemma TidyBase(pt: PT, v: View)
      requires PlacedOK(pt, v, leak, NoneOpen) && 0 in pt.place
      ensures pt.place[0].level >= 1 || (forall u | 0 <= u < |leak| :: leak[u] == 0) ==> Tidy(pt, v.rs, leak)
      ensures Struct(pt) && |leak| == |pt.mem|
    {
      hide Struct, Owners, Counts, Tidy;
      if pt.place[0].level >= 1 || forall u | 0 <= u < |leak| :: leak[u] == 0 { TidyFor(pt, v.rs, leak); }
    }

    lemma LeftClean(pt: PT, pt': PT, v: View)
      requires Struct(pt) && |pt'.mem| == |pt.mem| == |leak| && v.w1 <= v.w0
      requires forall u | u in pt'.place :: u in pt.place && pt'.place[u] == pt.place[u]
      requires PlacedOK(pt', v, leak, NoneOpen) && InUse(pt', 0) && (Tidy(pt, v.rs, leak) ==> Clean(pt', leak))
      ensures Clean(pt', leak) <==> Tidy(pt, v.rs, leak)
    {
      CleanIffTidy(pt, pt', v, leak);
    }

    /** Adds a dynamic region, mapping it at once when the tables are live. */
    method AddDynamic(region: Region) returns (s: Status, ghost mid: PT, ghost end: int)
      requires Valid() && region.pa < TWO_64 && region.va < TWO_64 && region.size < TWO_64
      modifies this
      ensures Shape() && ListValid() && initialized == old(initialized) && ov == old(ov) && |mem| == |old(mem)|
      ensures old(log) <= log && start == old(start)
      ensures s == Ok ==> Valid() && leak == old(leak)
      ensures region.size == 0 ==> s == Ok
      ensures s == Ok && region.size > 0 ==>
                var mm := region.(dynamic := true);
                old(Addable(mm)) && exists k: nat | k <= |old(mmap)| :: mmap == Insert(old(mmap), k, mm)
      ensures s != Ok || region.size == 0 ==> mmap == old(mmap) && maxVa == old(maxVa) && maxPa == old(maxPa)
      ensures region.size > 0 && !old(Addable(region.(dynamic := true))) ==>
                s == old(Verdict(region.(dynamic := true))) && Valid() && mem == old(mem) && cnt == old(cnt) && leak == old(leak) && log == old(log)
      ensures s != Ok && old(Addable(region.(dynamic := true))) ==>
                s == ENOMEM && initialized && Agrees() && RanOutAt(old(Snap()), old(leak), region.(dynamic := true), mid, end)
      ensures baseLevel >= 1 ==> Valid()
    {
      mid, end := Snap(), 0;
      if region.size == 0 { return Ok, mid, end; }
      var mm := region.(dynamic := true);
      s := CheckRegion(mm);
      if s != Ok { return; }
      s, mid, end := AddChecked(mm);
    }

    method AddChecked(mm: Region) returns (s: Status, ghost mid: PT, ghost end: int)
      requires Valid() && Addable(mm) && mm.dynamic && mm.size > 0
      modifies this
      ensures Shape() && ListValid() && initialized == old(initialized) && ov == old(ov) && |mem| == |old(mem)|
      ensures old(log) <= log && start == old(start)
      ensures s == Ok || s == ENOMEM
      ensures s == Ok ==> Valid() && leak == old(leak) && exists k: nat | k <= |old(mmap)| :: mmap == Insert(old(mmap), k, mm)
      ensures s == ENOMEM ==> mmap == old(mmap) && maxVa == old(maxVa) && maxPa == old(maxPa)
      ensures s == ENOMEM ==> initialized && Agrees() && RanOutAt(old(Snap()), old(leak), mm, mid, end) && (baseLevel >= 1 ==> Valid())
    {
      hide *;
      mid, end := Snap(), 0;
      ValidParts();
      AddableApart(mm);
      ghost var rs := mmap;
      var k := Position(mm);
      if initialized {
        LiveParts();
        var ok;
        ok, mid, end := MapDynamic(mm, k);
        if !ok {
          AgreeIntro();
          if baseLevel >= 1 { ValidIntro(); }
          return ENOMEM, mid, end;
        }
        KeysKept(rs, k, mm);
      }
      Enlist(mm, k);
      if initialized { AgreeIntro(); }
      ValidIntro();
      s := Ok;
    }

    lemma AddableApart(mm: Region)
      requires ListValid() && Addable(mm) && mm.dynamic && mm.size > 0
      ensures Apart(mmap, mm) && Mappable(mm) && ListOK(mmap) && mm.End() <= VaSpace()
      ensures forall q | q in mmap :: Compatible(mm, q)
    {
      forall q | q in mmap ensures !Meets(q, mm.va, mm.End()) { assert Compatible(mm, q); }
    }

    lemma LiveParts()
      requires Valid() && initialized
      ensures Shape() && AtBase() && LogOK()
      ensures PlacedOK(Snap(), Listed(mmap, ov, regime), leak, NoneOpen) && PoolOK(Snap(), leak)
      ensures KeysIn(mmap, ov) && Justified(Snap(), mmap, leak)
    {
    }

    lemma AgreeIntro()
      requires AtBase() && LogOK() && InUse(Snap(), 0)
      requires PlacedOK(Snap(), Listed(mmap, ov, regime), leak, NoneOpen) && Justified(Snap(), mmap, leak)
      requires KeysIn(mmap, ov)
      ensures Agrees()
    {
    }

    lemma KeysKept(rs: seq<Region>, k: nat, mm: Region)
      requires k <= |rs| && KeysIn(rs, ov)
      ensures KeysIn(Insert(rs, k, mm), ov)
    {
      hide Insert, First;
      InsertMembers(rs, k, mm);
      forall p | p in ov ensures First(Insert(rs, k, mm), p, p + 1).Some? {
        var q := First(rs, p, p + 1).value;
        assert q in Insert(rs, k, mm);
      }
    }

    /** Removes the dynamic region with the given base and size. The tables given up are empty unless an
        add has failed before and left a count in a table that only this region kept linked. */
    method RemoveDynamic(baseVa: nat, size: nat) returns (s: Status)
      requires Valid()
      modifies this
      ensures Shape() && ListValid() && (initialized ==> Agrees()) && initialized == old(initialized)
      ensures leak == old(leak) && old(log) <= log && start == old(start)
      ensures s == EINVAL <==> forall q | q in old(mmap) :: !(q.va == baseVa && q.size == size)
      ensures s == EPERM ==> exists q | q in old(mmap) :: q.va == baseVa && q.size == size && !q.dynamic
      ensures s == Ok || s == EINVAL || s == EPERM
      ensures s == Ok ==> exists k: nat | k < |old(mmap)| ::
                && old(mmap)[k].va == baseVa && old(mmap)[k].size == size && old(mmap)[k].dynamic
                && mmap == Remove(old(mmap), k) && (initialized ==> ov == Forget(old(ov), baseVa, baseVa + size))
      ensures s != Ok ==> mmap == old(mmap) && mem == old(mem) && cnt == old(cnt) && ov == old(ov) && log == old(log)
      ensures Valid() <==> s != Ok || !initialized || Tidy(old(Snap()), mmap, leak)
      ensures baseLevel >= 1 || (forall u | 0 <= u < |leak| :: leak[u] == 0) ==> Valid()
    {
      hide Valid, Shape, ListValid, Agrees, Tidy, Forget;
      ValidParts();
      var k := 0;
      while k < |mmap| && !(mmap[k].va == baseVa && mmap[k].size == size)
        invariant k <= |mmap| && forall i | 0 <= i < k :: !(mmap[i].va == baseVa && mmap[i].size == size)
      {
        k := k + 1;
      }
      if k == |mmap| { return EINVAL; }
      if !mmap[k].dynamic { return EPERM; }
      DropAt(k);
      return Ok;
    }

    /** Unmaps and unlists the k-th region, and lowers the maxima it held. */
    method DropAt(k: nat)
      requires Valid() && k < |mmap| && mmap[k].dynamic
      modifies this
      ensures Shape() && ListValid() && (initialized ==> Agrees()) && initialized == old(initialized)
      ensures leak == old(leak) && old(log) <= log && start == old(start)
      ensures mmap == Remove(old(mmap), k)
      ensures initialized ==> ov == Forget(old(ov), old(mmap)[k].va, old(mmap)[k].End())
      ensures Valid() <==> !initialized || Tidy(old(Snap()), mmap, leak)
      ensures baseLevel >= 1 || (forall u | 0 <= u < |leak| :: leak[u] == 0) ==> Valid()
    {
      hide *;
      ValidParts();
      RemoveFacts(k);
      if initialized {
        LiveParts();
        UnmapAt(k);
      }
      Unlist(k);
      if initialized { AgreeIntro(); }
      ValidWhen();
    }

    /** Unlists the k-th region and lowers the maxima it held. */
    method Unlist(k: nat)
      requires ListValid() && k < |mmap| && mmap[k].dynamic
      modifies this`mmap, this`maxVa, this`maxPa
      ensures ListValid() && mmap == Remove(old(mmap), k)
    {
      hide ListOK, Insert, Remove, MaxTop, VaSpace, InSpace, Apart, Mappable;
      var mm := mmap[k];
      RemoveFacts(k);
      var wasVa, wasPa := mm.End() - 1 == maxVa, mm.EndPa() - 1 == maxPa;
      mmap := Remove(mmap, k);
      if wasVa { maxVa := Highest(false); }
      if wasPa { maxPa := Highest(true); }
    }

    lemma ValidParts()
      requires Valid()
      ensures Shape() && ListValid() && (initialized ==> Agrees() && Reusable())
    {
    }

    lemma ValidWhen()
      requires Shape() && ListValid() && (initialized ==> Agrees())
      ensures Valid() <==> !initialized || Reusable()
    {
    }

    lemma ValidIntro()
      requires Shape() && ListValid() && (initialized ==> Agrees() && Reusable())
      ensures Valid()
    {
    }

    /** The highest address of the list, recomputed. */
    method Highest(phys: bool) returns (m: nat)
      requires ListOK(mmap)
      ensures (forall r | r in mmap :: r.size > 0) && m == MaxTop(mmap, phys)
    {
      ListSizes(mmap);
      m := 0;
      for i := 0 to |mmap|
        invariant (forall j | 0 <= j < i :: Top(mmap[j], phys) <= m)
        invariant m == 0 || exists j | 0 <= j < i :: Top(mmap[j], phys) == m
      {
        if Top(mmap[i], phys) > m { m := Top(mmap[i], phys); }
      }
      MaxTopUnique(mmap, phys, m);
    }

    lemma RemoveFacts(k: nat)
      requires ListValid() && k < |mmap| && mmap[k].dynamic
      ensures var mm := mmap[k]; var rs := Remove(mmap, k);
              && Mappable(mm) && mm.size > 0 && mm.End() <= VaSpace()
              && ListOK(rs) && |rs| == |mmap| - 1 && (forall r | r in rs :: r.size > 0 && InSpace(r) && Aligned(r))
              && Apart(rs, mm) && Insert(rs, k, mm) == mmap
              && (mm.End() - 1 != maxVa ==> maxVa == MaxTop(rs, false))
              && (mm.EndPa() - 1 != maxPa ==> maxPa == MaxTop(rs, true))
    {
      var mm := mmap[k];
      var rs := Remove(mmap, k);
      hide Block, MaxTop;
      RemoveOK(mmap, k);
      DynamicApart(mmap, k);
      InsertMembers(rs, k, mm);
      ListSizes(rs);
      assert mm in mmap;
      MaxTopInsert(rs, k, mm, false);
      MaxTopInsert(rs, k, mm, true);
    }

    /** Takes the k-th region out of the live tables. */
    method UnmapAt(k: nat)
      requires Shape() && AtBase() && LogOK() && k < |mmap|
      requires PlacedOK(Snap(), Listed(mmap, ov, regime), leak, NoneOpen) && PoolOK(Snap(), leak)
      requires KeysIn(mmap, ov) && Justified(Snap(), mmap, leak)
      requires Mappable(mmap[k]) && mmap[k].End() <= VaSpace() && Apart(Remove(mmap, k), mmap[k]) && Insert(Remove(mmap, k), k, mmap[k]) == mmap
      modifies this`mem, this`cnt, this`place, this`log, this`ov
      ensures Shape() && AtBase() && LogOK() && old(log) <= log && InUse(Snap(), 0)
      ensures Reusable() <==> Tidy(old(Snap()), Remove(mmap, k), leak)
      ensures baseLevel >= 1 || (forall u | 0 <= u < |leak| :: leak[u] == 0) ==> Reusable()
      ensures ov == Forget(old(ov), mmap[k].va, mmap[k].End())
      ensures PlacedOK(Snap(), Listed(Remove(mmap, k), ov, regime), leak, NoneOpen)
      ensures KeysIn(Remove(mmap, k), ov) && Justified(Snap(), Remove(mmap, k), leak)
    {
      hide Justified, PlacedOK, PoolOK, Pool, Clean, InUse, LogOK, Block, Frame, Shape, VaSpace, Apart, UnmapDone, UnmapArgs, Insert, Remove, First, Forget, Tidy, Untouched, Struct;
      var mm := mmap[k];
      ghost var rs := Remove(mmap, k);
      ghost var v := View(rs, mm, mm.va, mm.End(), ov, regime);
      RegionSize(mm);
      PoolParts();
      RemoveArgs(v, mm);
      assert k <= |rs| by { RemoveLength(k); }
      Extract(Snap(), rs, k, mm, v, leak);
      ghost var pt, tidy := Snap(), Tidy(Snap(), rs, leak);
      TidyBase(pt, v);
      UnmapStart(Snap(), v, leak);
      UnmapRegion(mm, 0, 0, baseLevel, v, leak, tidy);
      ShapeKept();
      UnmapEnd(Snap(), v, leak, mm, tidy);
      UntouchedParts(pt, Snap(), mm.va, mm.End());
      LeftClean(pt, Snap(), Listed(rs, ov, regime));
      InsertMembers(rs, k, mm);
      JustifiedLess(pt, Snap(), mmap, Listed(rs, ov, regime), mm, leak, leak);
      ForgetPages(Snap(), Listed(rs, ov, regime), leak, mm.va, mm.End());
      KeysLeft(rs, k, mm);
      ov := Forget(ov, mm.va, mm.End());
    }

    lemma RemoveLength(k: nat)
      requires k < |mmap|
      ensures |Remove(mmap, k)| == |mmap| - 1
    {
    }

    lemma RemoveArgs(v: View, mm: Region)
      requires v.w1 == mm.End() && Mappable(mm) && Apart(v.rs, mm)
      ensures UnmapArgs(v, mm) && forall q | q in v.rs :: !Meets(q, mm.va, mm.End())
    {
    }

    lemma KeysLeft(rs: seq<Region>, k: nat, mm: Region)
      requires k <= |rs| && KeysIn(Insert(rs, k, mm), ov)
      ensures KeysIn(rs, Forget(ov, mm.va, mm.End()))
    {
      hide Insert, First;
      InsertMembers(rs, k, mm);
      forall p | p in Forget(ov, mm.va, mm.End()) ensures First(rs, p, p + 1).Some? {
        var q := First(Insert(rs, k, mm), p, p + 1).value;
        assert q in rs;
      }
    }

    /** Entry `e` spans address `a` and maps it as region `r` does. */
    ghost predicate Translates(e: Entry, a: nat, r: Region)
      reads this`mem, this`place, this`cnt, this`ov
    {
      && HasSlot(Snap(), e.table, e.index) && place[e.table].level == e.level
      && var lo, d := SlotLo(place[e.table], e.index), mem[e.table][e.index];
      && lo <= a < lo + Block(e.level) && d.Leaf?
      && d.pa + (a - lo) == r.pa + (a - r.va) && d.attr == Shown(r, ov, regime, a)
    }

    /** Walks the tables for `va`. The walk finds exactly what the region list says for the
        address the tables look at, which is `va` itself inside the address space. */
    method FindEntry(va: nat) returns (r: Option<Entry>)
      requires Shape() && Agrees()
      ensures r.Some? <==> Alias(va, baseLevel) < VaSpace() && First(mmap, Alias(va, baseLevel), Alias(va, baseLevel) + 1).Some?
      ensures r.Some? ==> Translates(r.value, Alias(va, baseLevel), First(mmap, Alias(va, baseLevel), Alias(va, baseLevel) + 1).value)
      ensures va < VaSpace() ==> Alias(va, baseLevel) == va
    {
      hide Owners, Counts, LeakOK, Struct, LogOK, InUse, First, Block, SlotLo, SlotHi, PlacedOK, Translates;
      var t: nat, level: nat := 0, baseLevel;
      ghost var a := Alias(va, baseLevel);
      ghost var v := Listed(mmap, ov, regime);
      WalkStart(va);
      while level <= LEVEL_MAX
        invariant baseLevel <= level <= LEVEL_MAX && t in place && place[t].level == level && t < |mem|
        invariant t == 0 || (place[t].lo <= a < place[t].hi && a < VaSpace())
        decreases LEVEL_MAX - level
      {
        WalkIndex(Snap(), t, va, a);
        var i := va / Block(level) % TABLE_ENTRIES;
        if i >= |mem[t]| { return None; }
        var d := mem[t][i];
        if d.Invalid? {
          WalkMiss(Snap(), v, t, i, a);
          return None;
        }
        if level == LEVEL_MAX {
          NoTableAtPages(Snap(), t, i);
        }
        if level == LEVEL_MAX || d.Leaf? {
          EntryHit(t, i, a);
          return Some(Entry(t, i, level));
        }
        WalkDown(Snap(), t, i, a);
        t, level := d.next, level + 1;
      }
      assert false;
      return None;
    }

    lemma EntryHit(t: nat, i: nat, a: nat)
      requires Struct(Snap()) && Owners(Snap(), Listed(mmap, ov, regime)) && HasSlot(Snap(), t, i) && mem[t][i].Leaf?
      requires SlotLo(place[t], i) <= a < SlotHi(place[t], i)
      ensures var r := First(mmap, a, a + 1); r.Some? && Translates(Entry(t, i, place[t].level), a, r.value)
    {
      hide Struct, Owners, Block;
      WalkHit(Snap(), Listed(mmap, ov, regime), t, i, a);
    }

    lemma WalkStart(va: nat)
      requires Shape() && Agrees()
      ensures Struct(Snap()) && Owners(Snap(), Listed(mmap, ov, regime)) && place[0].level == baseLevel && place[0].hi == VaSpace()
      ensures va < VaSpace() ==> Alias(va, baseLevel) == va
    {
      hide Block, Struct, Owners, Counts, LeakOK, LogOK, InUse;
      MulMonotone(baseEntries, TABLE_ENTRIES, Block(baseLevel));
      SmallMod(va, TABLE_ENTRIES * Block(baseLevel));
    }

    static lemma SmallMod(x: nat, m: nat)
      requires m > 0
      ensures x < m ==> x % m == x
    {
    }

    /** What the page at `a` shows. */
    ghost function ShownAt(a: nat): Attr
      requires First(mmap, a, a + 1).Some?
      reads this`mmap, this`ov
    {
      Shown(First(mmap, a, a + 1).value, ov, regime, a)
    }

    /** Rewrites one page: break, invalidate, make. */
    method ChangePage(a: nat, attr: Attr)
      requires Shape() && Agrees() && PageAligned(a) && a < VaSpace()
      requires PageAt(Snap(), a, attr.xn) && (attr.xn || !attr.rw)
      modifies this`mem, this`log, this`ov
      ensures Shape() && Agrees() && old(log) <= log && (old(Reusable()) ==> Reusable())
      ensures First(mmap, a, a + 1).Some? && ov == old(ov)[a := Requested(regime, old(ShownAt(a)), attr)]
      ensures forall b | old(PageAt(Snap(), b, attr.xn)) :: PageAt(Snap(), b, attr.xn)
    {
      hide Agrees, Justified, PageAt, First, VaSpace, Translates, Block, SlotLo, Shown, LogOK, PlacedOK, InUse, Clean, Tidy, Normalise, ChangedAttr, Listed;
      var e := FindEntry(a);
      PageIsMapped(a, attr.xn);
      PageHit(a, attr.xn, e.value);
      var t, i := e.value.table, e.value.index;
      var d := mem[t][i];
      var leaf := d.(attr := Normalise(regime, ChangedAttr(d.attr, attr)));
      ghost var pt := Snap();
      PageChanged(pt, leak, a, attr, t, i);
      PutTwice(mem, t, i, Invalid, leaf);
      Break(t, i, a);
      Install(t, i, a, leaf);
      ov := ov[a := leaf.attr];
      assert Snap() == Put(pt, t, i, leaf);
      AgreeIntro();
    }

    /** The effect of rewriting the entry of a page on the invariant. */
    lemma PageChanged(pt: PT, lk: seq<nat>, a: nat, attr: Attr, t: nat, i: nat)
      requires Agrees() && pt == Snap() && lk == leak && HasSlot(pt, t, i) && (attr.xn || !attr.rw)
      requires pt.place[t].level == 3 && pt.mem[t][i].Leaf? && SlotLo(pt.place[t], i) == a
      requires First(mmap, a, a + 1).Some? && pt.mem[t][i].attr == ShownAt(a) && (ShownAt(a).memType == Device ==> attr.xn)
      ensures var attr' := Normalise(regime, ChangedAttr(pt.mem[t][i].attr, attr));
              var pt' := Put(pt, t, i, pt.mem[t][i].(attr := attr'));
              && attr' == Requested(regime, ShownAt(a), attr)
              && PlacedOK(pt', Listed(mmap, ov[a := attr'], regime), lk, NoneOpen) && InUse(pt', 0)
              && (Reusable() ==> Clean(pt', lk))
              && (forall b | PageAt(pt, b, attr.xn) :: PageAt(pt', b, attr.xn))
              && KeysIn(mmap, ov[a := attr']) && AtBase() && Justified(pt', mmap, lk)
    {
      hide PlacedOK, Justified, Block, First, PageAt, Clean, Tidy, InUse, LogOK, Normalise, ChangedAttr, Shown, VaSpace;
      var attr' := Normalise(regime, ChangedAttr(pt.mem[t][i].attr, attr));
      var d := pt.mem[t][i].(attr := attr');
      var v := Listed(mmap, ov, regime);
      RequestedShown(regime, pt.mem[t][i].attr, attr);
      PutKeepsPool(pt, lk, t, i, d);
      ChangeEntry(pt, v, lk, t, i, attr');
      JustifiedSame(pt, Put(pt, t, i, d), mmap, mmap, lk);
      assert v.(ov := v.ov[a := attr']) == Listed(mmap, ov[a := attr'], regime);
      forall b | PageAt(pt, b, attr.xn) ensures PageAt(Put(pt, t, i, d), b, attr.xn) {
        ChangeKeepsPages(pt, t, i, attr', b, attr.xn);
      }
    }

    lemma PageIsMapped(a: nat, xn: bool)
      requires Shape() && Agrees() && PageAt(Snap(), a, xn) && a < VaSpace()
      ensures First(mmap, a, a + 1).Some? && Alias(a, baseLevel) == a
    {
      hide Struct, Owners, Counts, LeakOK, LogOK, InUse, Block;
      var t, i :| PageEntry(Snap(), a, xn, t, i);
      WalkHit(Snap(), Listed(mmap, ov, regime), t, i, a);
      WalkStart(a);
    }

    lemma PageHit(a: nat, xn: bool, e: Entry)
      requires Shape() && Agrees() && PageAt(Snap(), a, xn) && PageAligned(a)
      requires First(mmap, a, a + 1).Some? && Translates(e, a, First(mmap, a, a + 1).value)
      ensures HasSlot(Snap(), e.table, e.index) && e.table < |mem| && e.index < |mem[e.table]|
      ensures place[e.table].level == 3 && mem[e.table][e.index].Leaf? && SlotLo(place[e.table], e.index) == a
      ensures mem[e.table][e.index].attr == ShownAt(a) && (ShownAt(a).memType == Device ==> xn)
      ensures LogOK()
    {
      hide Struct, Owners, Counts, LeakOK, LogOK, InUse, Block, PageAt, First;
      PageFound(Snap(), a, xn, e.table, e.index);
    }

    /** Changes the permissions of [baseVa, baseVa + size). Every page is checked before any is
        written. */
    method ChangeAttributes(baseVa: nat, size: nat, attr: Attr) returns (s: Status)
      requires Valid() && initialized && baseVa + size <= VaSpace()
      modifies this`mem, this`log, this`ov
      ensures Valid() && old(log) <= log
      ensures s == Ok <==> PageAligned(baseVa) && size > 0 && PageAligned(size) && (attr.xn || !attr.rw) &&
                           forall i | 0 <= i < size / PAGE_SIZE :: old(PageAt(Snap(), baseVa + i * PAGE_SIZE, attr.xn))
      ensures s != Ok ==> s == EINVAL && mem == old(mem) && log == old(log) && ov == old(ov)
      ensures s == Ok ==> ov == ChangePages(mmap, old(ov), regime, baseVa, size / PAGE_SIZE, attr)
    {
      hide Shape, Agrees, Reusable, ListValid, PageAt, First, VaSpace, Translates, Block, Requested, Shown, ChangePages, ShownAt;
      if !PageAligned(baseVa) { return EINVAL; }
      if size == 0 { return EINVAL; }
      if size % PAGE_SIZE != 0 { return EINVAL; }
      if !attr.xn && attr.rw { return EINVAL; }
      var n := size / PAGE_SIZE;
      SizeOfPages(size);
      var ok := CheckPages(baseVa, n, attr);
      if !ok { return EINVAL; }
      RewritePages(baseVa, n, attr);
      return Ok;
    }

    static lemma SizeOfPages(size: nat)
      requires size % PAGE_SIZE == 0
      ensures size / PAGE_SIZE * PAGE_SIZE == size
    {
    }

    /** Whether every page of a range can be changed. */
    method CheckPages(baseVa: nat, n: nat, attr: Attr) returns (ok: bool)
      requires Shape() && Agrees() && PageAligned(baseVa) && baseVa + n * PAGE_SIZE <= VaSpace()
      ensures ok <==> forall i | 0 <= i < n :: PageAt(Snap(), baseVa + i * PAGE_SIZE, attr.xn)
    {
      hide Shape, Agrees, PageAt, First, VaSpace, Translates, Block;
      for i := 0 to n
        invariant forall j | 0 <= j < i :: PageAt(Snap(), baseVa + j * PAGE_SIZE, attr.xn)
      {
        var a := baseVa + i * PAGE_SIZE;
        var e := FindEntry(a);
        PageCheck(a, attr.xn, e);
        if e.None? { return false; }
        if e.value.level != LEVEL_MAX { return false; }
        if mem[e.value.table][e.value.index].attr.memType == Device && !attr.xn { return false; }
      }
      return true;
    }

    /** Changes pages one by one. */
    method RewritePages(baseVa: nat, n: nat, attr: Attr)
      requires Shape() && Agrees() && PageAligned(baseVa) && baseVa + n * PAGE_SIZE <= VaSpace() && (attr.xn || !attr.rw)
      requires forall i | 0 <= i < n :: PageAt(Snap(), baseVa + i * PAGE_SIZE, attr.xn)
      modifies this`mem, this`log, this`ov
      ensures Shape() && Agrees() && old(log) <= log && (old(Reusable()) ==> Reusable())
      ensures ov == ChangePages(mmap, old(ov), regime, baseVa, n, attr)
    {
      hide Shape, Agrees, Reusable, PageAt, First, VaSpace, Block, Requested, Shown, ChangePages, ShownAt;
      NoPages(mmap, ov, regime, baseVa, attr);
      for i := 0 to n
        invariant Shape() && Agrees() && old(log) <= log && (old(Reusable()) ==> Reusable()) && ov == ChangePages(mmap, old(ov), regime, baseVa, i, attr)
        invariant forall j | 0 <= j < n :: PageAt(Snap(), baseVa + j * PAGE_SIZE, attr.xn)
      {
        PageIsMapped(baseVa + i * PAGE_SIZE, attr.xn);
        NextPage(old(ov), baseVa, i, attr);
        ChangePage(baseVa + i * PAGE_SIZE, attr);
      }
    }

    /** A page is changeable exactly when the walk finds it at page level with a suitable type. */
    lemma PageCheck(a: nat, xn: bool, e: Option<Entry>)
      requires Shape() && Agrees() && PageAligned(a) && a < VaSpace() && Alias(a, baseLevel) == a
      requires e.Some? <==> First(mmap, a, a + 1).Some?
      requires e.Some? ==> Translates(e.value, a, First(mmap, a, a + 1).value)
      ensures e.Some? ==> HasSlot(Snap(), e.value.table, e.value.index) && mem[e.value.table][e.value.index].Leaf?
      ensures PageAt(Snap(), a, xn) <==>
              e.Some? && e.value.level == 3 && (mem[e.value.table][e.value.index].attr.memType == Device ==> xn)
    {
      hide Struct, Owners, Counts, LeakOK, LogOK, InUse, Block, PageAt, First, Shape, Agrees;
      if PageAt(Snap(), a, xn) {
        PageIsMapped(a, xn);
        PageHit(a, xn, e.value);
      }
      if e.Some? && e.value.level == 3 && (mem[e.value.table][e.value.index].attr.memType == Device ==> xn) {
        PageIntro(Snap(), a, xn, e.value.table, e.value.index);
      }
    }

    /** The next page to change still shows what it showed at the start. */
    lemma NextPage(ov0: map<nat, Attr>, baseVa: nat, i: nat, attr: Attr)
      requires PageAligned(baseVa) && ov == ChangePages(mmap, ov0, regime, baseVa, i, attr)
      requires First(mmap, baseVa + i * PAGE_SIZE, baseVa + i * PAGE_SIZE + 1).Some?
      ensures var a := baseVa + i * PAGE_SIZE;
              ov[a := Requested(regime, ShownAt(a), attr)] == ChangePages(mmap, ov0, regime, baseVa, i + 1, attr)
    {
      hide First, Requested, Normalise;
      var a := baseVa + i * PAGE_SIZE;
      ChangePagesAt(mmap, ov0, regime, baseVa, i, attr, a);
    }
  }
}
