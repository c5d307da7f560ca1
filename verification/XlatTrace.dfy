/** The history of descriptor writes and TLB invalidations, and the
    break-before-make discipline on it. */
module XlatTrace {
  import opened XlatGeometry
  import opened XlatTables

  datatype Event = Write(table: nat, index: nat, va: nat, desc: Desc) | Tlbi(va: nat)

  predicate Makes(e: Event, t: nat, i: nat) {
    e.Write? && e.table == t && e.index == i && e.desc != Invalid
  }

  /** Between events `k` and `m` the entry (t, i) was made invalid and then the address event `k` wrote it
      for was invalidated in the TLBs. */
  ghost predicate Broken(log: seq<Event>, t: nat, i: nat, k: nat, m: int) {
    k < |log| && exists j, q :: k < j < q < m <= |log| && BreakAt(log, t, i, log[k].va, j, q)
  }

  ghost predicate BreakAt(log: seq<Event>, t: nat, i: nat, va: nat, j: nat, q: nat) {
    j < |log| && q < |log| && log[j] == Write(t, i, va, Invalid) && log[q] == Tlbi(va)
  }

  /** Events `k` and `m` write valid descriptors to one entry. */
  predicate Remakes(log: seq<Event>, k: nat, m: nat) {
    k < m < |log| && log[m].Write? && Makes(log[k], log[m].table, log[m].index) && Makes(log[m], log[m].table, log[m].index)
  }

  /** No two valid descriptors are written to one entry without a break between them. */
  ghost predicate BreakBeforeMake(log: seq<Event>) {
    forall k: nat, m: nat {:trigger Remakes(log, k, m)} | Remakes(log, k, m) :: Broken(log, log[m].table, log[m].index, k, m)
  }

  /** Every valid descriptor ever written to (t, i) has been broken since. */
  ghost predicate Quiet(log: seq<Event>, t: nat, i: nat) {
    forall k: nat {:trigger Makes(log[k], t, i)} | k < |log| && Makes(log[k], t, i) :: Broken(log, t, i, k, |log|)
  }

  /** Every valid descriptor ever written to (t, i) has been broken since or was written for this address. */
  ghost predicate Settled(log: seq<Event>, t: nat, i: nat, va: nat) {
    forall k: nat {:trigger Makes(log[k], t, i)} | k < |log| && Makes(log[k], t, i) :: log[k].va == va || Broken(log, t, i, k, |log|)
  }

  /** One event performed on the tables. */
  function Applied(mem: seq<seq<Desc>>, e: Event): (r: seq<seq<Desc>>)
    ensures |r| == |mem| && forall t | 0 <= t < |mem| :: |r[t]| == |mem[t]|
  {
    if e.Write? && e.table < |mem| && e.index < |mem[e.table]| then mem[e.table := mem[e.table][e.index := e.desc]] else mem
  }

  /** The tables that result from performing the events of `log` on `mem`. */
  function Replay(log: seq<Event>, mem: seq<seq<Desc>>): (r: seq<seq<Desc>>)
    ensures |r| == |mem| && forall t | 0 <= t < |mem| :: |r[t]| == |mem[t]|
  {
    if log == [] then mem else Applied(Replay(log[..|log| - 1], mem), log[|log| - 1])
  }

  /** What the log says of entry (t, i): it may have copies in the TLBs only while it is valid, and then
      only for the address where its table sits. */
  ghost predicate EntryOK(mem: seq<seq<Desc>>, place: map<nat, Place>, log: seq<Event>, t: nat, i: nat) {
    t < |mem| && i < |mem[t]| ==>
      && (mem[t][i] == Invalid ==> Quiet(log, t, i))
      && (t in place ==> Settled(log, t, i, SlotLo(place[t], i)))
  }

  /** The tables are the result of the writes in the log, which keep to break-before-make. */
  ghost predicate Follows(mem: seq<seq<Desc>>, place: map<nat, Place>, log: seq<Event>, start: seq<seq<Desc>>) {
    && BreakBeforeMake(log) && mem == Replay(log, start)
    && forall t: nat, i: nat {:trigger EntryOK(mem, place, log, t, i)} :: EntryOK(mem, place, log, t, i)
  }

  lemma BrokenAppend(log: seq<Event>, more: seq<Event>, t: nat, i: nat, k: nat, m: int)
    requires Broken(log, t, i, k, m)
    ensures Broken(log + more, t, i, k, m)
  {
    var j, q :| k < j < q < m <= |log| && BreakAt(log, t, i, log[k].va, j, q);
    assert BreakAt(log + more, t, i, (log + more)[k].va, j, q);
  }

  lemma BrokenLater(log: seq<Event>, t: nat, i: nat, k: nat, m: int, m': int)
    requires Broken(log, t, i, k, m) && m <= m' <= |log|
    ensures Broken(log, t, i, k, m')
  {
    var j, q :| k < j < q < m <= |log| && BreakAt(log, t, i, log[k].va, j, q);
  }

  /** Events that do not make an entry leave what the log says of it. */
  lemma EntryAppend(mem: seq<seq<Desc>>, mem': seq<seq<Desc>>, place: map<nat, Place>, log: seq<Event>, more: seq<Event>, t: nat, i: nat)
    requires EntryOK(mem, place, log, t, i) && forall x | 0 <= x < |more| :: !Makes(more[x], t, i)
    requires t < |mem'| && i < |mem'[t]| ==> t < |mem| && i < |mem[t]| && mem'[t][i] == mem[t][i]
    ensures EntryOK(mem', place, log + more, t, i)
  {
    forall k: nat | k < |log + more| && Makes((log + more)[k], t, i)
      ensures k < |log| && Makes(log[k], t, i) && (log + more)[k] == log[k]
      ensures Broken(log, t, i, k, |log|) ==> Broken(log + more, t, i, k, |log + more|)
    {
      assert k < |log|;
      if Broken(log, t, i, k, |log|) {
        BrokenAppend(log, more, t, i, k, |log|);
        BrokenLater(log + more, t, i, k, |log|, |log + more|);
      }
    }
  }

  /** Making a quiet entry respects the discipline. */
  lemma Install(log: seq<Event>, t: nat, i: nat, va: nat, d: Desc)
    requires BreakBeforeMake(log) && Quiet(log, t, i)
    ensures BreakBeforeMake(log + [Write(t, i, va, d)])
    ensures Settled(log + [Write(t, i, va, d)], t, i, va)
  {
    var log' := log + [Write(t, i, va, d)];
    forall k: nat, m: nat | Remakes(log', k, m)
      ensures Broken(log', log'[m].table, log'[m].index, k, m)
    {
      if m == |log| {
        assert Makes(log[k], t, i);
      } else {
        assert Remakes(log, k, m);
      }
      BrokenAppend(log, [Write(t, i, va, d)], log'[m].table, log'[m].index, k, m);
    }
    forall k: nat | k < |log'| && Makes(log'[k], t, i) ensures log'[k].va == va || Broken(log', t, i, k, |log'|) {
      if k < |log| {
        assert Makes(log[k], t, i);
        BrokenAppend(log, [Write(t, i, va, d)], t, i, k, |log|);
        BrokenLater(log', t, i, k, |log|, |log'|);
      }
    }
  }

  /** Breaking an entry and invalidating the address it was written for makes it quiet. */
  lemma Break(log: seq<Event>, t: nat, i: nat, va: nat)
    requires BreakBeforeMake(log) && Settled(log, t, i, va)
    ensures BreakBeforeMake(log + [Write(t, i, va, Invalid), Tlbi(va)])
    ensures Quiet(log + [Write(t, i, va, Invalid), Tlbi(va)], t, i)
  {
    var more := [Write(t, i, va, Invalid), Tlbi(va)];
    var log' := log + more;
    assert BreakAt(log', t, i, va, |log|, |log| + 1);
    forall k: nat, m: nat | Remakes(log', k, m)
      ensures Broken(log', log'[m].table, log'[m].index, k, m)
    {
      assert Remakes(log, k, m);
      BrokenAppend(log, more, log'[m].table, log'[m].index, k, m);
    }
    forall k: nat | k < |log'| && Makes(log'[k], t, i) ensures Broken(log', t, i, k, |log'|) {
      assert k < |log| && Makes(log[k], t, i);
      if log[k].va != va {
        BrokenAppend(log, more, t, i, k, |log|);
        BrokenLater(log', t, i, k, |log|, |log'|);
      }
    }
  }

  lemma ReplayAppend(log: seq<Event>, e: Event, mem: seq<seq<Desc>>)
    ensures Replay(log + [e], mem) == Applied(Replay(log, mem), e)
  {
    assert (log + [e])[..|log + [e]| - 1] == log;
  }

  /** A valid descriptor written over an invalid one. */
  lemma FollowsInstall(mem: seq<seq<Desc>>, place: map<nat, Place>, log: seq<Event>, start: seq<seq<Desc>>, t: nat, i: nat, d: Desc)
    requires Follows(mem, place, log, start) && t in place && t < |mem| && i < |mem[t]| && mem[t][i] == Invalid && d != Invalid
    ensures Follows(mem[t := mem[t][i := d]], place, log + [Write(t, i, SlotLo(place[t], i), d)], start)
  {
    hide BreakBeforeMake, Quiet, Settled, Replay, SlotLo;
    var va, mem' := SlotLo(place[t], i), mem[t := mem[t][i := d]];
    var more := [Write(t, i, va, d)];
    ReplayAppend(log, more[0], start);
    assert EntryOK(mem, place, log, t, i);
    Install(log, t, i, va, d);
    forall u: nat, j: nat ensures EntryOK(mem', place, log + more, u, j) {
      assert EntryOK(mem, place, log, u, j);
      if (u, j) != (t, i) { EntryAppend(mem, mem', place, log, more, u, j); }
    }
  }

  /** An invalid descriptor, and the invalidation of its address. */
  lemma FollowsBreak(mem: seq<seq<Desc>>, place: map<nat, Place>, log: seq<Event>, start: seq<seq<Desc>>, t: nat, i: nat)
    requires Follows(mem, place, log, start) && t in place && t < |mem| && i < |mem[t]|
    ensures var va := SlotLo(place[t], i);
            Follows(mem[t := mem[t][i := Invalid]], place, log + [Write(t, i, va, Invalid), Tlbi(va)], start)
  {
    hide BreakBeforeMake, Quiet, Settled, Replay, SlotLo;
    var va, mem' := SlotLo(place[t], i), mem[t := mem[t][i := Invalid]];
    var more := [Write(t, i, va, Invalid), Tlbi(va)];
    ReplayAppend(log, more[0], start);
    ReplayAppend(log + [more[0]], more[1], start);
    assert log + more == log + [more[0]] + [more[1]];
    assert EntryOK(mem, place, log, t, i);
    Break(log, t, i, va);
    QuietSettles(log + more, t, i, va);
    forall u: nat, j: nat ensures EntryOK(mem', place, log + more, u, j) {
      assert EntryOK(mem, place, log, u, j);
      if (u, j) != (t, i) { EntryAppend(mem, mem', place, log, more, u, j); }
    }
  }

  lemma QuietSettles(log: seq<Event>, t: nat, i: nat, va: nat)
    requires Quiet(log, t, i)
    ensures Settled(log, t, i, va)
  {
  }

  /** Tables may leave their places, and an empty table may take one. */
  lemma FollowsPlace(mem: seq<seq<Desc>>, place: map<nat, Place>, place': map<nat, Place>, log: seq<Event>, start: seq<seq<Desc>>)
    requires Follows(mem, place, log, start)
    requires forall u | u in place' :: (u in place && place'[u] == place[u]) || u >= |mem| || Blank(mem[u])
    ensures Follows(mem, place', log, start)
  {
    hide BreakBeforeMake, Quiet, Settled, Replay, SlotLo;
    forall t: nat, i: nat ensures EntryOK(mem, place', log, t, i) {
      assert EntryOK(mem, place, log, t, i);
      if t in place' && t < |mem| && i < |mem[t]| && mem[t][i] == Invalid { QuietSettles(log, t, i, SlotLo(place'[t], i)); }
    }
  }
}
