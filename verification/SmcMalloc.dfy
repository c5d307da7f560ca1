/** The SMC fuzzer's allocator: first fit over a table of free blocks, power-of-two
    alignment, immediate coalescing, and two stacks of retired table entries. */
module SmcMalloc {
  import opened Wrappers
  import opened SmcChain

  class Arena {
    var blk: seq<Block>
    var al: seq<Alloc>
    var blkQueue: seq<nat>
    var alQueue: seq<nat>
    var memerror: nat
    ghost var bs: seq<nat>
    ghost var xs: seq<nat>

    /** Free blocks and live allocations tile the arena in strict alternation, and the stacks
        hold exactly the other table entries. */
    ghost predicate Valid()
      reads this
    {
      && Tiled(blk, al, bs, xs) && Exact(blk, al, bs, xs)
      && Retired(blkQueue, |blk|, bs) && Retired(alQueue, |al|, xs)
      && |blk| <= MAX_BLOCKS && |al| < MAX_BLOCKS
      && (memerror == 0 ==> |blk| < MAX_BLOCKS)
    }

    /** The live allocations, address and size, in address order. */
    ghost function Live(): seq<(nat, nat)>
      requires Tiled(blk, al, bs, xs)
      reads this`blk, this`al, this`bs, this`xs
    {
      LiveOf(al, xs)
    }

    constructor ()
      ensures Valid() && memerror == 0 && Live() == []
    {
      blk, al, blkQueue, alQueue, memerror := [Block(0, ARENA, true)], [], [], [], 0;
      bs, xs := [0], [];
    }

    /** Takes a retired entry of the allocation table, or the next new one. */
    method TakeAlloc() returns (pos: nat)
      requires Exact(blk, al, bs, xs) && Retired(alQueue, |al|, xs)
      modifies this`alQueue
      ensures pos <= |al| && (pos < |al| ==> !al[pos].valid)
      ensures if |old(alQueue)| > 0 then alQueue == old(alQueue)[..|old(alQueue)| - 1] && pos == old(alQueue)[|old(alQueue)| - 1] < |al|
              else alQueue == [] && pos == |al|
    {
      if |alQueue| > 0 {
        pos := alQueue[|alQueue| - 1];
        alQueue := alQueue[..|alQueue| - 1];
      } else {
        pos := |al|;
      }
    }

    method TakeBlock() returns (nb: nat)
      requires Exact(blk, al, bs, xs) && Retired(blkQueue, |blk|, bs)
      modifies this`blkQueue
      ensures nb <= |blk| && (nb < |blk| ==> !blk[nb].valid)
      ensures if |old(blkQueue)| > 0 then blkQueue == old(blkQueue)[..|old(blkQueue)| - 1] && nb == old(blkQueue)[|old(blkQueue)| - 1] < |blk|
              else blkQueue == [] && nb == |blk|
    {
      if |blkQueue| > 0 {
        nb := blkQueue[|blkQueue| - 1];
        blkQueue := blkQueue[..|blkQueue| - 1];
      } else {
        nb := |blk|;
      }
    }

    /** Gives the allocations touching address `at` block `nb` as neighbour. */
    method Relink(at: nat, nb: nat)
      modifies this`al
      ensures |al| == |old(al)| && forall x | 0 <= x < |al| :: al[x] == Relinked(old(al)[x], at, nb)
    {
      for j := 0 to |al|
        invariant |al| == |old(al)|
        invariant forall x | 0 <= x < j :: al[x] == Relinked(old(al)[x], at, nb)
        invariant forall x | j <= x < |al| :: al[x] == old(al)[x]
      {
        if at == al[j].address && al[j].valid { al := al[j := al[j].(prec := nb)]; }
        if at == al[j].End() && al[j].valid { al := al[j := al[j].(trail := nb)]; }
      }
    }

    /** Looks for empty blocks right after block `t` to retire. The chain `prev` was part of, with
        the same blocks or more, has none. */
    method Sweep(t: nat, n: nat, ghost prev: seq<Block>, ghost pal: seq<Alloc>, ghost k: nat)
      requires Tiled(prev, pal, bs, xs) && Exact(prev, pal, bs, xs) && k <= |xs| < |bs| && t == bs[k] < |blk| == |prev|
      requires n <= |blk| && blk[t].End() == prev[t].End() && blk[t].size == prev[t].size
      requires forall j | 0 <= j < |blk| && blk[j].valid :: prev[j].valid && prev[j].address == blk[j].address
    {
      for j := 0 to n {
        if blk[j].valid && blk[t].End() == blk[j].address && blk[j].size == 0 && blk[t].size != 0 {
          NothingToSweep(prev, pal, bs, xs, k, j);
          assert false;
        }
      }
    }

    /** Allocates `size` bytes in block `i`, at its front when that is aligned. */
    method Take(i: nat, size: nat, align: nat, ghost m: nat) returns (offset: nat)
      requires Valid() && |blk| < MAX_BLOCKS && m <= |xs| < |bs| && i == bs[m] < |blk| && size >= MIN_SIZE
      requires align > 0 && Fits(blk[i], size, align)
      modifies this
      ensures Valid() && offset == old(blk)[i].address + Gap(old(blk)[i].address, align)
      ensures Live() == InsPair(old(Live()), m, (offset, size))
      ensures memerror == if |blk| < MAX_BLOCKS then old(memerror) else 3
    {
      hide Tiled, Exact, Retired, LiveOf, InsPair, Ins;
      var gap := Gap(blk[i].address, align);
      var nblk, nal := |blk|, |al|;
      ghost var blkQueue0, alQueue0 := blkQueue, alQueue;
      var pos := TakeAlloc();
      var nb := TakeBlock();
      if gap == 0 {
        offset := SplitAtFront(i, nb, pos, size, m);
        Sweep(i, nblk, blk, al, m + 1);
        RetiredTake(blkQueue0, nblk, old(bs), m, nb, blkQueue, |blk|);
      } else {
        offset := SplitInside(i, nb, pos, gap, size, m);
        RetiredTake(blkQueue0, nblk, old(bs), m + 1, nb, blkQueue, |blk|);
      }
      RetiredTake(alQueue0, nal, old(xs), m, pos, alQueue, |al|);
      if |al| > nal && |al| >= MAX_BLOCKS { assert false; }
      if |blk| > nblk && |blk| >= MAX_BLOCKS { memerror := 3; }
    }

    method SplitAtFront(i: nat, nb: nat, pos: nat, size: nat, ghost m: nat) returns (offset: nat)
      requires Tiled(blk, al, bs, xs) && Exact(blk, al, bs, xs) && m <= |xs| && i == bs[m] && MIN_SIZE <= size <= blk[i].size
      requires nb <= |blk| && (nb < |blk| ==> !blk[nb].valid) && pos <= |al| && (pos < |al| ==> !al[pos].valid)
      modifies this`blk, this`al, this`bs, this`xs
      ensures Tiled(blk, al, bs, xs) && Exact(blk, al, bs, xs) && offset == old(blk)[i].address
      ensures |blk| == (if nb < |old(blk)| then |old(blk)| else nb + 1) && |al| == (if pos < |old(al)| then |old(al)| else pos + 1)
      ensures bs == Ins(old(bs), m, nb) && xs == Ins(old(xs), m, pos) && m < |xs| < |bs| && bs[m + 1] == i
      ensures Live() == InsPair(old(Live()), m, (offset, size))
    {
      hide Exact, LiveOf, InsPair, Ins;
      offset := blk[i].address;
      ghost var blk0, al0 := blk, al;
      var rest := blk[i].size - size;
      blk := PutAt(blk, nb, Block(offset, 0, true));
      Relink(offset, nb);
      al := PutAt(al, pos, Alloc(offset, size, true, nb, i));
      blk := blk[i := Block(offset + size, rest, true)];
      SplitFront(blk0, al0, bs, xs, blk, al, m, nb, pos, size);
      LiveIns(al0, al, xs, m, pos);
      bs, xs := Ins(bs, m, nb), Ins(xs, m, pos);
    }

    method SplitInside(i: nat, nb: nat, pos: nat, gap: nat, size: nat, ghost m: nat) returns (offset: nat)
      requires Tiled(blk, al, bs, xs) && Exact(blk, al, bs, xs) && m <= |xs| && i == bs[m]
      requires MIN_SIZE <= size && 0 < gap && gap + size <= blk[i].size
      requires nb <= |blk| && (nb < |blk| ==> !blk[nb].valid) && pos <= |al| && (pos < |al| ==> !al[pos].valid)
      modifies this`blk, this`al, this`bs, this`xs
      ensures Tiled(blk, al, bs, xs) && Exact(blk, al, bs, xs) && offset == old(blk)[i].address + gap
      ensures |blk| == (if nb < |old(blk)| then |old(blk)| else nb + 1) && |al| == (if pos < |old(al)| then |old(al)| else pos + 1)
      ensures bs == Ins(old(bs), m + 1, nb) && xs == Ins(old(xs), m, pos)
      ensures Live() == InsPair(old(Live()), m, (offset, size))
    {
      hide Tiled, Exact, LiveOf, InsPair, Ins, MidSplit, PutAt;
      BlockAt(blk, al, bs, xs, m);
      offset := blk[i].address + gap;
      ghost var blk0, al0 := blk, al;
      var rest := blk[i].size - size - gap;
      blk := PutAt(blk, nb, Block(offset + size, rest, true));
      Relink(blk[nb].End(), nb);
      ghost var mid := al;
      blk := blk[i := blk[i].(size := gap)];
      al := PutAt(al, pos, Alloc(offset, size, true, i, nb));
      MidIntro(blk0, al0, mid, blk, al, i, nb, pos, gap, size);
      TookMid(blk0, al0, bs, xs, blk, al, m, nb, pos, gap, size);
      bs, xs := Ins(bs, m + 1, nb), Ins(xs, m, pos);
    }

    /** Allocates at least 16 bytes, aligned to the least power of two that holds them, in the first
        block of the table with room. */
    method Malloc(request: nat) returns (r: Option<nat>, ghost align: nat)
      requires Valid() && |blk| < MAX_BLOCKS
      modifies this
      ensures Valid() && align > 0
      ensures var size := if request < MIN_SIZE then MIN_SIZE else request;
              && (size <= ARENA ==> LeastPow2(size, align))
              && match r {
                   case None =>
                     && memerror == 4 && blk == old(blk) && Live() == old(Live())
                     && !exists a: nat :: RoomAt(old(Live()), size, align, a)
                   case Some(offset) =>
                     && memerror == (if |blk| < MAX_BLOCKS then old(memerror) else 3)
                     && FirstFit(old(blk), size, align, offset) && RoomAt(old(Live()), size, align, offset)
                     && exists m :: 0 <= m <= |old(Live())| && Live() == InsPair(old(Live()), m, (offset, size))
                 }
    {
      hide Tiled, Exact, Retired, LiveOf, InsPair, LeastPow2, RoomAt;
      var size := if request < MIN_SIZE then MIN_SIZE else request;
      var step := Alignment(size);
      align := step;
      var i := 0;
      while i < |blk|
        invariant 0 <= i <= |blk| && memerror == old(memerror) && |blk| < MAX_BLOCKS && Valid()
        invariant blk == old(blk) && al == old(al) && bs == old(bs) && xs == old(xs)
        invariant forall j | 0 <= j < i :: !Fits(blk[j], size, step)
      {
        if Fits(blk[i], size, step) {
          ghost var m := ChainPosition(blk, al, bs, xs, i);
          RoomInBlock(blk, al, bs, xs, size, step, i);
          var offset := Take(i, size, step, m);
          assert FirstFitAt(old(blk), size, step, offset, i);
          assert m <= |old(Live())|;
          return Some(offset), step;
        }
        i := i + 1;
      }
      FailsOnlyWithoutRoom(blk, al, bs, xs, size, step);
      memerror := 4;
      r := None;
    }

    /** Gives the memory at `address` back, merging it with the free blocks on both sides, and
        stops the program when no live allocation starts there. The stacks never fill up. */
    method Free(address: nat) returns (found: bool)
      requires Valid()
      modifies this
      ensures Valid() && memerror == old(memerror)
      ensures found <==> LiveAt(old(Live()), address)
      ensures if found then exists m :: FreedAt(old(Live()), Live(), address, m) else Live() == old(Live())
    {
      hide Tiled, Exact, Retired, LiveOf, FreedAt, LiveAt;
      LiveAtIff(blk, al, bs, xs, address);
      found := false;
      ghost var n := |al|;
      for i := 0 to |al|
        invariant |al| == n && memerror == old(memerror) && Valid()
        invariant !found ==> blk == old(blk) && al == old(al) && bs == old(bs) && xs == old(xs) && FreeBelow(al, address, i)
        invariant found ==> FreeBelow(al, address, |al|) && LiveAt(old(Live()), address)
        invariant found ==> exists m :: FreedAt(old(Live()), Live(), address, m)
      {
        if al[i].address == address && al[i].valid {
          ghost var m := AllocPosition(blk, al, bs, xs, i);
          FreeAt(i, m);
          found := true;
        }
      }
    }

    /** Frees entry `i`. */
    method FreeAt(i: nat, ghost m: nat)
      requires Valid() && m < |xs| < |bs| && i == xs[m] < |al| && al[i].valid
      modifies this
      ensures Valid() && |al| == |old(al)| && memerror == old(memerror)
      ensures FreedAt(old(Live()), Live(), old(al)[i].address, m) && FreeBelow(al, old(al)[i].address, |al|)
    {
      hide Tiled, Exact, Retired, LiveOf, DelPair, Del, FreeBelow, Merge;
      Neighbours(blk, al, bs, xs, m);
      var p, q := al[i].prec, al[i].trail;
      if blk[p].End() == al[i].address {
        blk := blk[p := blk[p].(size := blk[p].size + al[i].size + blk[q].size)];
        blkQueue := blkQueue + [q];
        assert |blkQueue| < MAX_BLOCKS;
        blk := blk[q := blk[q].(valid := false)];
        Sweep(q, |blk|, old(blk), al, m + 1);
      } else {
        assert false;
      }
      al := al[i := al[i].(valid := false)];
      alQueue := alQueue + [i];
      assert |alQueue| < MAX_BLOCKS;
      RelinkFreed(blk[p].End(), al[i].size, p);
      MergeIntro(old(blk), old(al), blk, al, i, p, q);
      FreedAlone(old(blk), old(al), bs, xs, al, m);
      MergeKeeps(old(blk), old(al), bs, xs, blk, al, m);
      RetiredPut(old(blkQueue), |blk|, bs, m + 1);
      RetiredPut(old(alQueue), |al|, xs, m);
      LiveDel(old(al), al, xs, m);
      bs, xs := Del(bs, m + 1), Del(xs, m);
    }

    /** Gives the allocation starting at `at` block `nb` as neighbour, and any that starts `freed`
        bytes before it. */
    method RelinkFreed(at: nat, freed: nat, nb: nat)
      modifies this`al
      ensures |al| == |old(al)| && forall x | 0 <= x < |al| :: al[x] == FreeLinked(old(al)[x], at, freed, nb)
    {
      for j := 0 to |al|
        invariant |al| == |old(al)|
        invariant forall x | 0 <= x < j :: al[x] == FreeLinked(old(al)[x], at, freed, nb)
        invariant forall x | j <= x < |al| :: al[x] == old(al)[x]
      {
        if at == al[j].address && al[j].valid { al := al[j := al[j].(prec := nb)]; }
        if at == al[j].address + freed && al[j].valid { al := al[j := al[j].(trail := nb)]; }
      }
    }
  }
}
