// When the operations of fs/fs.c panic: a full disk, a block touched for the first
// time away from its first byte, a block flushed before its page table exists, or no
// memory to cache a block in.
module FsFaults {
  import opened Fs

  // Blocks in memory, page tables of the cache region that exist, and blocks the
  // kernel would find memory for if they faulted (a block faults at most once).
  datatype Residency = Residency(cached: set<nat>, tables: set<nat>, memory: set<nat>)

  // The super-block and the bitmap are in memory, and nothing ever leaves it.
  ghost predicate CacheOk(nblocks: nat, c: Residency) {
    && (forall b :: b in c.cached ==> b / GROUP in c.tables)
    && (forall b :: 1 <= b < FirstBlock(nblocks) ==> b in c.cached)
  }

  // An access at byte `o` of a block in use: bc_pgfault passes the faulting address
  // itself to sys_page_map, which refuses all but the first byte of a page.
  predicate Reaches(c: Residency, b: nat, o: nat) {
    b in c.cached || (o == 0 && b in c.memory)
  }

  function In(c: Residency, b: nat): Residency {
    c.(cached := c.cached + {b}, tables := c.tables + {b / GROUP})
  }

  lemma InTwice(c: Residency, b: nat)
    ensures In(In(c, b), b) == In(c, b)
  {}

  // ---- one block ------------------------------------------------------------------------

  // The lowest free block, or nblocks when there is none.
  ghost function Lowest(s: State): (b: nat)
    requires Shape(s)
    ensures b <= s.nblocks
    ensures b < s.nblocks ==> IsFree(s, b)
    ensures forall c :: 0 <= c < b ==> !IsFree(s, c)
  {
    LowestFrom(s, 0)
  }

  ghost function LowestFrom(s: State, b: nat): (l: nat)
    requires Shape(s) && b <= s.nblocks
    ensures b <= l <= s.nblocks
    ensures l < s.nblocks ==> IsFree(s, l)
    ensures forall c :: b <= c < l ==> !IsFree(s, c)
    decreases s.nblocks - b
  {
    if b == s.nblocks || IsFree(s, b) then b else LowestFrom(s, b + 1)
  }

  lemma LowestIs(s: State, b: nat)
    requires Shape(s) && IsFree(s, b) && forall c :: 0 <= c < b ==> !IsFree(s, c)
    ensures Lowest(s) == b
  {}

  lemma LowestNone(s: State)
    requires Shape(s)
    ensures Lowest(s) == s.nblocks <==> FreeSet(s) == {}
  {
    if Lowest(s) < s.nblocks {
      assert Lowest(s) in FreeSet(s);
    }
  }

  // alloc_block stores a number that diskaddr refuses, or flushes the new block
  // before any block near it was cached.
  ghost predicate AllocPanics(s: State, c: Residency)
    requires Shape(s)
  {
    Lowest(s) == s.nblocks || Lowest(s) / GROUP !in c.tables
  }

  ghost predicate Placed(s: State, f: nat, n: nat)
  {
    Shape(s) && Owned(s) && f < |s.files| && n < NSLOTS
  }

  // file_block_walk has made the slot addressable.
  ghost function WithInd(s: State, f: nat, n: nat): State
    requires Placed(s, f, n)
  {
    if n >= NDIRECT && s.files[f].indirect == 0 && Lowest(s) < s.nblocks
    then GaveIndirect(s, f, Lowest(s), s.data[Lowest(s)]) else s
  }

  // file_get_block has also filled it.
  ghost function Filled(s: State, f: nat, n: nat): State
    requires Placed(s, f, n)
  {
    if At(s, Nth(f, n)) == 0 && Lowest(s) < s.nblocks && (n >= NDIRECT ==> 0 < s.files[f].indirect < s.nblocks)
    then GaveBlock(s, f, n, Lowest(s), s.data[Lowest(s)]) else s
  }

  lemma WithIndGrows(s: State, f: nat, n: nat)
    requires Placed(s, f, n)
    ensures Grown(s, WithInd(s, f, n), f, n)
  {
    if n >= NDIRECT && s.files[f].indirect == 0 && Lowest(s) < s.nblocks {
      GaveIndirectGrows(s, f, n, Lowest(s), s.data[Lowest(s)]);
    } else {
      GrownRefl(s, f, n);
    }
  }

  lemma WithIndPlaced(s: State, f: nat, n: nat)
    requires Placed(s, f, n)
    ensures Placed(WithInd(s, f, n), f, n)
  {
    WithIndGrows(s, f, n);
  }

  lemma NotReserved(s: State, b: nat)
    requires Shape(s) && Owned(s) && IsFree(s, b)
    ensures 0 < b < s.nblocks
  {}

  lemma NothingReserved(s: State)
    requires Shape(s) && Owned(s)
    ensures !IsFree(s, 0)
    ensures Lowest(s) < s.nblocks ==> 0 < Lowest(s)
  {
    var b := 0;
    assert b < FirstBlock(s.nblocks);
    assert !IsFree(s, b);
  }

  // The indirect block is there afterwards unless the disk was full.
  lemma WithIndHas(s: State, f: nat, n: nat)
    requires Placed(s, f, n) && Placed(WithInd(s, f, n), f, n)
    ensures At(WithInd(s, f, n), Nth(f, n)) == At(s, Nth(f, n))
    ensures n >= NDIRECT && (s.files[f].indirect != 0 || Lowest(s) < s.nblocks) ==>
              0 < WithInd(s, f, n).files[f].indirect < s.nblocks
    ensures |FreeSet(WithInd(s, f, n))| ==
            |FreeSet(s)| - (if n >= NDIRECT && s.files[f].indirect == 0 && Lowest(s) < s.nblocks then 1 else 0)
  {
    assert At(s, Ind(f)) == s.files[f].indirect;
    if n >= NDIRECT && s.files[f].indirect == 0 && Lowest(s) < s.nblocks {
      var b := Lowest(s);
      GaveIndirectGrows(s, f, n, b, s.data[b]);
      var s' := GaveIndirect(s, f, b, s.data[b]);
      FreeSetShrinks(s, s', b);
      assert s'.files[f].indirect == b && IsFree(s, b);
      NotReserved(s, b);
    } else {
      assert s.files[f].indirect != 0 ==> s.files[f].indirect < s.nblocks;
    }
  }

  lemma FilledGrows(s: State, f: nat, n: nat)
    requires Placed(s, f, n)
    ensures Grown(s, Filled(s, f, n), f, n)
  {
    if At(s, Nth(f, n)) == 0 && Lowest(s) < s.nblocks && (n >= NDIRECT ==> 0 < s.files[f].indirect < s.nblocks) {
      GaveBlockGrows(s, f, n, Lowest(s), s.data[Lowest(s)]);
    } else {
      GrownRefl(s, f, n);
    }
  }

  lemma FilledHas(s: State, f: nat, n: nat)
    requires Placed(s, f, n) && (n >= NDIRECT ==> 0 < s.files[f].indirect < s.nblocks)
    ensures Placed(Filled(s, f, n), f, n) && (n >= NDIRECT ==> Filled(s, f, n).files[f].indirect == s.files[f].indirect)
    ensures At(Filled(s, f, n), Nth(f, n)) ==
            if At(s, Nth(f, n)) == 0 && Lowest(s) < s.nblocks then Lowest(s) else At(s, Nth(f, n))
    ensures |FreeSet(Filled(s, f, n))| == |FreeSet(s)| - (if At(s, Nth(f, n)) == 0 && Lowest(s) < s.nblocks then 1 else 0)
  {
    if At(s, Nth(f, n)) == 0 && Lowest(s) < s.nblocks {
      var b := Lowest(s);
      GaveBlockGrows(s, f, n, b, s.data[b]);
      FreeSetShrinks(s, GaveBlock(s, f, n, b, s.data[b]), b);
    }
  }

  // The page of the indirect block is touched to clear it or to read the slot.
  ghost predicate WalkPanics(s: State, c: Residency, f: nat, n: nat)
    requires Placed(s, f, n)
  {
    n >= NDIRECT &&
    if s.files[f].indirect == 0 then AllocPanics(s, c) || !Reaches(c, Lowest(s), 0)
    else !Reaches(c, s.files[f].indirect, 4 * (n - NDIRECT))
  }

  ghost function WalkCache(s: State, c: Residency, f: nat, n: nat): Residency
    requires Placed(s, f, n)
  {
    if n < NDIRECT then c else In(c, if s.files[f].indirect == 0 then Lowest(s) else s.files[f].indirect)
  }

  // file_get_block, with the slot read.
  ghost predicate GetPanics(s: State, c: Residency, f: nat, n: nat)
    requires Placed(s, f, n)
  {
    WithIndPlaced(s, f, n);
    WalkPanics(s, c, f, n) || (At(s, Nth(f, n)) == 0 && AllocPanics(WithInd(s, f, n), WalkCache(s, c, f, n)))
  }

  // The block that backs the n'th slot once it is filled.
  ghost function BlockOf(s: State, f: nat, n: nat): nat
    requires Placed(s, f, n)
  {
    WithIndPlaced(s, f, n);
    if At(s, Nth(f, n)) == 0 then Lowest(WithInd(s, f, n)) else At(s, Nth(f, n))
  }

  // And then byte `o` of the block itself is touched.
  ghost predicate StepPanics(s: State, c: Residency, f: nat, n: nat, o: nat)
    requires Placed(s, f, n)
  {
    GetPanics(s, c, f, n) || !Reaches(WalkCache(s, c, f, n), BlockOf(s, f, n), o)
  }

  ghost function StepCache(s: State, c: Residency, f: nat, n: nat): Residency
    requires Placed(s, f, n)
  {
    In(WalkCache(s, c, f, n), BlockOf(s, f, n))
  }

  ghost function StepState(s: State, f: nat, n: nat): (s': State)
    requires Placed(s, f, n)
    ensures Placed(s', f, n)
  {
    WithIndPlaced(s, f, n);
    FilledGrows(WithInd(s, f, n), f, n);
    Filled(WithInd(s, f, n), f, n)
  }

  // What file_get_block leaves, from what the walk left.
  lemma GotState(s: State, c: Residency, s1: State, c1: Residency, f: nat, n: nat)
    requires Placed(s, f, n) && s1 == WithInd(s, f, n) && c1 == WalkCache(s, c, f, n) && CacheOk(s1.nblocks, c1)
    ensures Shape(s1) && Owned(s1) && At(s1, Nth(f, n)) == At(s, Nth(f, n))
    ensures StepState(s, f, n) == Filled(s1, f, n)
    ensures At(s, Nth(f, n)) != 0 ==> Filled(s1, f, n) == s1
    ensures Placed(Filled(s1, f, n), f, n) && CacheOk(Filled(s1, f, n).nblocks, c1)
    ensures BlockOf(s, f, n) == if At(s, Nth(f, n)) == 0 then Lowest(s1) else At(s, Nth(f, n))
    ensures At(s, Nth(f, n)) != 0 ==> 0 < At(s, Nth(f, n)) < s1.nblocks
    ensures !WalkPanics(s, c, f, n) ==> GetPanics(s, c, f, n) == (At(s, Nth(f, n)) == 0 && AllocPanics(s1, c1))
  {
    WithIndPlaced(s, f, n);
    WithIndHas(s, f, n);
  }

  lemma StepAt(s: State, f: nat, n: nat)
    requires Placed(s, f, n) && 0 < BlockOf(s, f, n) < s.nblocks
    ensures At(StepState(s, f, n), Nth(f, n)) == BlockOf(s, f, n) && !IsFree(StepState(s, f, n), BlockOf(s, f, n))
    ensures At(s, Nth(f, n)) != 0 ==> StepState(s, f, n) == s
    ensures Grown(s, StepState(s, f, n), f, n)
  {
    assert At(s, Ind(f)) == s.files[f].indirect;
    var s1 := WithInd(s, f, n);
    WithIndPlaced(s, f, n);
    WithIndGrows(s, f, n);
    WithIndHas(s, f, n);
    FilledGrows(s1, f, n);
    FilledHas(s1, f, n);
    GrownTrans(s, s1, Filled(s1, f, n), f, n);
  }

  // file_read's and file_write's loops over blocks n to last - 1 of file `f`, entering
  // the first at byte `o` and the others at their first byte.
  ghost predicate RunPanics(s: State, c: Residency, f: nat, n: nat, o: nat, last: nat)
    requires Shape(s) && Owned(s) && f < |s.files| && last <= NSLOTS
    decreases last - n
  {
    n < last &&
    (StepPanics(s, c, f, n, o) || RunPanics(StepState(s, f, n), StepCache(s, c, f, n), f, n + 1, 0, last))
  }

  // One past the last block that the bytes below `end` reach and a file can have.
  function LastBlock(end: nat): nat {
    Min(NBlocks(end), NSLOTS)
  }

  // The loops for bytes `pos` to end - 1.
  ghost predicate RangePanics(s: State, c: Residency, f: nat, pos: nat, end: nat)
    requires Shape(s) && Owned(s) && f < |s.files|
  {
    pos < end && RunPanics(s, c, f, pos / BLKSIZE, pos % BLKSIZE, LastBlock(end))
  }

  // ---- a range whose blocks are all there -------------------------------------------------

  // Every block of the run is in memory, or can be brought in: all but the first are
  // entered at their first byte, and so is the indirect block unless the run starts
  // past its first slot.
  ghost predicate RunReaches(s: State, c: Residency, f: nat, n: nat, o: nat, last: nat)
    requires Shape(s) && f < |s.files| && last <= NSLOTS
  {
    && (forall m :: n <= m < last ==> BlockReaches(s, c, f, n, o, m))
    && (n < last && last > NDIRECT ==> Reaches(c, s.files[f].indirect, if n <= NDIRECT then 0 else 4 * (n - NDIRECT)))
  }

  ghost predicate BlockReaches(s: State, c: Residency, f: nat, n: nat, o: nat, m: nat)
    requires Shape(s) && f < |s.files| && m < NSLOTS
  {
    Reaches(c, At(s, Nth(f, m)), if m == n then o else 0)
  }

  ghost predicate AllThere(s: State, f: nat, n: nat, last: nat)
    requires Shape(s) && f < |s.files| && last <= NSLOTS
  {
    forall m :: n <= m < last ==> At(s, Nth(f, m)) != 0
  }

  lemma BackedAllThere(s: State, f: nat, from: nat, end: nat)
    requires Shape(s) && Owned(s) && f < |s.files| && Backed(s, f, from, end) && from < end
    ensures NBlocks(end) <= NSLOTS && AllThere(s, f, from / BLKSIZE, NBlocks(end))
  {
    assert end - 1 in Content(s, f) && (end - 1) / BLKSIZE + 1 == NBlocks(end);
    forall m | from / BLKSIZE <= m < NBlocks(end) ensures At(s, Nth(f, m)) != 0 {
      var p := if m == from / BLKSIZE then from else m * BLKSIZE;
      assert p in Content(s, f) && p / BLKSIZE == m;
    }
  }

  // No block is allocated for a slot that has one.
  lemma FilledStep(s: State, c: Residency, f: nat, n: nat, o: nat)
    requires Placed(s, f, n) && At(s, Nth(f, n)) != 0
    ensures StepState(s, f, n) == s
    ensures n >= NDIRECT ==> s.files[f].indirect != 0 && s.files[f].indirect != At(s, Nth(f, n))
    ensures StepCache(s, c, f, n) == In(if n < NDIRECT then c else In(c, s.files[f].indirect), At(s, Nth(f, n)))
    ensures StepPanics(s, c, f, n, o) <==>
              (n >= NDIRECT && !Reaches(c, s.files[f].indirect, 4 * (n - NDIRECT))) || !Reaches(c, At(s, Nth(f, n)), o)
  {
    assert At(s, Ind(f)) == s.files[f].indirect;
  }

  // Distinct slots name distinct blocks, so bringing some in leaves the others as they were.
  lemma OthersReach(s: State, c: Residency, c': Residency, f: nat, n: nat, m: nat)
    requires Shape(s) && Owned(s) && f < |s.files| && n < m < NSLOTS && At(s, Nth(f, n)) != 0 && At(s, Nth(f, m)) != 0
    requires c' == In(if n < NDIRECT then c else In(c, s.files[f].indirect), At(s, Nth(f, n)))
    ensures Reaches(c', At(s, Nth(f, m)), 0) <==> Reaches(c, At(s, Nth(f, m)), 0)
    ensures n < NDIRECT ==> (Reaches(c', s.files[f].indirect, 0) <==> Reaches(c, s.files[f].indirect, 0))
    ensures n >= NDIRECT ==> s.files[f].indirect in c'.cached
  {
    assert At(s, Ind(f)) == s.files[f].indirect;
    assert At(s, Nth(f, m)) != At(s, Nth(f, n)) && At(s, Nth(f, m)) != At(s, Ind(f)) && At(s, Nth(f, n)) != At(s, Ind(f));
  }

  // What remains reachable after the first block of the run.
  lemma ReachesRest(s: State, c: Residency, c': Residency, f: nat, n: nat, o: nat, last: nat)
    requires Shape(s) && Owned(s) && f < |s.files| && n < last <= NSLOTS && AllThere(s, f, n, last)
    requires c' == In(if n < NDIRECT then c else In(c, s.files[f].indirect), At(s, Nth(f, n)))
    requires Reaches(c, At(s, Nth(f, n)), o) && (n >= NDIRECT ==> Reaches(c, s.files[f].indirect, 4 * (n - NDIRECT)))
    ensures RunReaches(s, c, f, n, o, last) <==> RunReaches(s, c', f, n + 1, 0, last)
  {
    var n1 := n + 1;
    forall m | n1 <= m < last ensures BlockReaches(s, c', f, n1, 0, m) <==> BlockReaches(s, c, f, n, o, m) {
      OthersReach(s, c, c', f, n, m);
    }
    if n1 < last {
      OthersReach(s, c, c', f, n, n1);
    }
    assert BlockReaches(s, c, f, n, o, n);
  }

  // One block of such a run: whether it panics, and what is in memory after it.
  lemma ThereStep(s: State, c: Residency, f: nat, n: nat, o: nat, last: nat) returns (p: bool, c1: Residency)
    requires Shape(s) && Owned(s) && f < |s.files| && n < last <= NSLOTS && AllThere(s, f, n, last)
    ensures p ==> RunPanics(s, c, f, n, o, last) && !RunReaches(s, c, f, n, o, last)
    ensures !p ==> RunPanics(s, c, f, n, o, last) == RunPanics(s, c1, f, n + 1, 0, last)
    ensures !p ==> RunReaches(s, c, f, n, o, last) == RunReaches(s, c1, f, n + 1, 0, last)
  {
    FilledStep(s, c, f, n, o);
    p, c1 := StepPanics(s, c, f, n, o), StepCache(s, c, f, n);
    assert BlockReaches(s, c, f, n, o, n) <==> Reaches(c, At(s, Nth(f, n)), o);
    if !p {
      ReachesRest(s, c, c1, f, n, o, last);
    }
  }

  lemma {:induction false} TherePanics(s: State, c: Residency, f: nat, n: nat, o: nat, last: nat, reaches: bool)
    requires Shape(s) && Owned(s) && f < |s.files| && last <= NSLOTS && AllThere(s, f, n, last)
    requires reaches == RunReaches(s, c, f, n, o, last)
    ensures RunPanics(s, c, f, n, o, last) == !reaches
    decreases last - n
  {
    if n < last {
      var p, c1 := ThereStep(s, c, f, n, o, last);
      if !p {
        TherePanics(s, c1, f, n + 1, 0, last, reaches);
      }
    }
  }

  // Reading or writing a range that has all its blocks panics exactly when some block
  // it needs is not in memory and is first touched past its first byte, or finds no
  // memory.  It never allocates.
  lemma BackedPanics(s: State, c: Residency, f: nat, from: nat, end: nat)
    requires Shape(s) && Owned(s) && f < |s.files| && Backed(s, f, from, end) && from < end
    ensures NBlocks(end) <= NSLOTS
    ensures RangePanics(s, c, f, from, end) <==> !RunReaches(s, c, f, from / BLKSIZE, from % BLKSIZE, NBlocks(end))
  {
    BackedAllThere(s, f, from, end);
    var n, o, last := from / BLKSIZE, from % BLKSIZE, NBlocks(end);
    TherePanics(s, c, f, n, o, last, RunReaches(s, c, f, n, o, last));
  }

  // ---- a range with holes, when nothing but space can be lacking ------------------------------

  // Every page table of the cache exists, every block is in memory or has memory to
  // be read into, and the run does not enter in the middle a block that is not.
  ghost predicate Ready(s: State, c: Residency, f: nat, n: nat, o: nat)
    requires f < |s.files|
  {
    && (forall b :: 0 <= b < s.nblocks ==> b / GROUP in c.tables)
    && (forall b :: 0 < b < s.nblocks ==> b in c.cached || (o == 0 && b in c.memory))
    && (n > NDIRECT && s.files[f].indirect != 0 ==> s.files[f].indirect in c.cached)
  }

  ghost function Holes(s: State, f: nat, n: nat, last: nat): nat
    requires Shape(s) && f < |s.files| && last <= NSLOTS
    decreases last - n
  {
    if n >= last then 0 else (if At(s, Nth(f, n)) == 0 then 1 else 0) + Holes(s, f, n + 1, last)
  }

  // Free blocks it takes to back blocks n to last - 1 of file `f`.
  ghost function Missing(s: State, f: nat, n: nat, last: nat): nat
    requires Shape(s) && f < |s.files| && last <= NSLOTS
  {
    Holes(s, f, n, last) + if n < last && last > NDIRECT && s.files[f].indirect == 0 then 1 else 0
  }

  lemma NoneFree(s: State)
    requires Shape(s)
    ensures Lowest(s) == s.nblocks <==> |FreeSet(s)| == 0
  {
    LowestNone(s);
  }

  lemma ReadyWalk(s: State, c: Residency, f: nat, n: nat, o: nat)
    requires Placed(s, f, n) && Ready(s, c, f, n, o)
    ensures WalkPanics(s, c, f, n) <==> n >= NDIRECT && s.files[f].indirect == 0 && |FreeSet(s)| == 0
    ensures !WalkPanics(s, c, f, n) && n >= NDIRECT && s.files[f].indirect == 0 ==> 0 < Lowest(s) < s.nblocks
  {
    assert At(s, Ind(f)) == s.files[f].indirect;
    NoneFree(s);
    if Lowest(s) < s.nblocks {
      NotReserved(s, Lowest(s));
    }
  }

  // One block panics exactly when it takes more blocks than are free.
  lemma ReadyStep(s: State, c: Residency, f: nat, n: nat, o: nat)
    requires Placed(s, f, n) && Ready(s, c, f, n, o)
    ensures StepPanics(s, c, f, n, o) <==> |FreeSet(s)| < Needed(s, f, n)
  {
    ReadyWalk(s, c, f, n, o);
    WithIndPlaced(s, f, n);
    var s1 := WithInd(s, f, n);
    WithIndHas(s, f, n);
    NoneFree(s);
    NoneFree(s1);
    if At(s, Nth(f, n)) == 0 && Lowest(s1) < s1.nblocks {
      NotReserved(s1, Lowest(s1));
    }
    WithIndGrows(s, f, n);
  }

  // The state one block further on.
  lemma StepLeaves(s: State, c: Residency, f: nat, n: nat)
    requires Placed(s, f, n) && |FreeSet(s)| >= Needed(s, f, n)
    ensures var s' := StepState(s, f, n);
            && Grown(s, s', f, n) && |FreeSet(s')| == |FreeSet(s)| - Needed(s, f, n)
            && At(s', Nth(f, n)) == BlockOf(s, f, n) && 0 < BlockOf(s, f, n) < s.nblocks
            && (n < NDIRECT ==> s'.files[f].indirect == s.files[f].indirect)
            && (n >= NDIRECT ==> 0 < s'.files[f].indirect < s.nblocks && s'.files[f].indirect in StepCache(s, c, f, n).cached)
  {
    assert At(s, Ind(f)) == s.files[f].indirect;
    var s1 := WithInd(s, f, n);
    WithIndPlaced(s, f, n);
    WithIndGrows(s, f, n);
    WithIndHas(s, f, n);
    NoneFree(s);
    NoneFree(s1);
    FilledGrows(s1, f, n);
    FilledHas(s1, f, n);
    GrownTrans(s, s1, Filled(s1, f, n), f, n);
    if At(s, Nth(f, n)) == 0 {
      NotReserved(s1, Lowest(s1));
    }
  }

  lemma {:induction false} HolesKept(s: State, s': State, f: nat, n: nat, a: nat, last: nat)
    requires Placed(s, f, n) && Grown(s, s', f, n) && n < a && last <= NSLOTS
    ensures Holes(s', f, a, last) == Holes(s, f, a, last)
    decreases last - a
  {
    if a < last {
      assert Nth(f, a) != Nth(f, n);
      HolesKept(s, s', f, n, a + 1, last);
    }
  }

  lemma MissingDrops(s: State, s': State, f: nat, n: nat, last: nat)
    requires Placed(s, f, n) && Grown(s, s', f, n) && n < last <= NSLOTS
    requires n < NDIRECT ==> s'.files[f].indirect == s.files[f].indirect
    requires n >= NDIRECT ==> s'.files[f].indirect != 0
    ensures Missing(s, f, n, last) == Missing(s', f, n + 1, last) + Needed(s, f, n)
  {
    HolesKept(s, s', f, n, n + 1, last);
    if n >= NDIRECT && s.files[f].indirect == 0 {
      assert At(s, Nth(f, n)) == 0;
    }
  }

  // One block further on: (s1, c1) is the state there.
  lemma ReadyNext(s: State, c: Residency, f: nat, n: nat, o: nat, last: nat) returns (s1: State, c1: Residency)
    requires Shape(s) && Owned(s) && f < |s.files| && n < last <= NSLOTS && Ready(s, c, f, n, o)
    requires |FreeSet(s)| >= Needed(s, f, n)
    ensures Shape(s1) && Owned(s1) && f < |s1.files| && Ready(s1, c1, f, n + 1, 0)
    ensures |FreeSet(s1)| + Needed(s, f, n) == |FreeSet(s)|
    ensures Missing(s, f, n, last) == Missing(s1, f, n + 1, last) + Needed(s, f, n)
    ensures RunPanics(s, c, f, n, o, last) == RunPanics(s1, c1, f, n + 1, 0, last)
  {
    s1, c1 := StepState(s, f, n), StepCache(s, c, f, n);
    ReadyStep(s, c, f, n, o);
    StepLeaves(s, c, f, n);
    MissingDrops(s, s1, f, n, last);
  }

  lemma MissingLeast(s: State, f: nat, n: nat, last: nat)
    requires Shape(s) && f < |s.files| && n < last <= NSLOTS
    ensures Missing(s, f, n, last) >= Needed(s, f, n)
  {}

  lemma {:induction false} ReadyRun(s: State, c: Residency, f: nat, n: nat, o: nat, last: nat)
    requires Shape(s) && Owned(s) && f < |s.files| && last <= NSLOTS && Ready(s, c, f, n, o)
    ensures RunPanics(s, c, f, n, o, last) <==> |FreeSet(s)| < Missing(s, f, n, last)
    decreases last - n
  {
    if n < last {
      if |FreeSet(s)| < Needed(s, f, n) {
        ReadyStep(s, c, f, n, o);
        MissingLeast(s, f, n, last);
      } else {
        var s1, c1 := ReadyNext(s, c, f, n, o, last);
        ReadyRun(s1, c1, f, n + 1, 0, last);
      }
    }
  }

  // With everything else in place, a read or write panics exactly when the blocks and
  // the indirect block the range lacks outnumber the free blocks.
  lemma ReadyPanics(s: State, c: Residency, f: nat, from: nat, end: nat)
    requires Shape(s) && Owned(s) && f < |s.files| && Ready(s, c, f, from / BLKSIZE, from % BLKSIZE) && from < end
    ensures RangePanics(s, c, f, from, end) <==> |FreeSet(s)| < Missing(s, f, from / BLKSIZE, LastBlock(end))
  {
    ReadyRun(s, c, f, from / BLKSIZE, from % BLKSIZE, LastBlock(end));
  }

  // ---- panics depend on neither bytes nor sizes -----------------------------------------------

  // The states differ in the bytes of blocks and the sizes of files at most.
  ghost predicate SameSlots(s: State, s': State) {
    && Shape(s) && Shape(s') && Owned(s) && Owned(s') && s'.nblocks == s.nblocks && s'.bitmap == s.bitmap && s'.ind == s.ind
    && |s'.files| == |s.files| && forall f :: 0 <= f < |s.files| ==> SameDirect(s.files[f], s'.files[f])
  }

  predicate SameDirect(a: File, b: File) {
    a.direct == b.direct && a.indirect == b.indirect
  }

  lemma PatchedSlots(g: State, s: State, b: nat, o: nat, chunk: seq<Byte>)
    requires SameSlots(g, s) && Inv(s) && b < s.nblocks && o + |chunk| <= BLKSIZE
    ensures SameSlots(g, Patched(s, b, o, chunk))
  {
    PatchedKeepsInv(s, b, o, chunk);
  }

  lemma SlotsLowest(s: State, s': State)
    requires Shape(s) && Shape(s') && s'.nblocks == s.nblocks && s'.bitmap == s.bitmap
    ensures Lowest(s') == Lowest(s)
  {
    if Lowest(s') < Lowest(s) {
      assert IsFree(s, Lowest(s'));
    }
    if Lowest(s) < Lowest(s') {
      assert IsFree(s', Lowest(s));
    }
  }

  lemma SlotsWalk(s: State, s': State, c: Residency, f: nat, n: nat)
    requires SameSlots(s, s') && f < |s.files| && n < NSLOTS
    ensures WalkPanics(s', c, f, n) == WalkPanics(s, c, f, n) && WalkCache(s', c, f, n) == WalkCache(s, c, f, n)
    ensures SameSlots(WithInd(s, f, n), WithInd(s', f, n))
  {
    SlotsLowest(s, s');
    WithIndPlaced(s, f, n);
    WithIndPlaced(s', f, n);
  }

  lemma SlotsFill(s: State, s': State, f: nat, n: nat)
    requires SameSlots(s, s') && f < |s.files| && n < NSLOTS
    ensures At(s', Nth(f, n)) == At(s, Nth(f, n))
    ensures SameSlots(Filled(s, f, n), Filled(s', f, n))
  {
    SlotsLowest(s, s');
    FilledGrows(s, f, n);
    FilledGrows(s', f, n);
  }

  lemma SlotsBlock(s: State, s': State, c: Residency, f: nat, n: nat)
    requires SameSlots(s, s') && f < |s.files| && n < NSLOTS
    ensures BlockOf(s', f, n) == BlockOf(s, f, n)
    ensures SameSlots(StepState(s, f, n), StepState(s', f, n))
  {
    SlotsWalk(s, s', c, f, n);
    SlotsLowest(WithInd(s, f, n), WithInd(s', f, n));
    SlotsFill(WithInd(s, f, n), WithInd(s', f, n), f, n);
    assert At(s', Nth(f, n)) == At(s, Nth(f, n));
  }

  lemma SlotsGet(s: State, s': State, c: Residency, f: nat, n: nat)
    requires SameSlots(s, s') && f < |s.files| && n < NSLOTS
    ensures GetPanics(s', c, f, n) == GetPanics(s, c, f, n)
  {
    SlotsWalk(s, s', c, f, n);
    SlotsLowest(WithInd(s, f, n), WithInd(s', f, n));
    assert At(s', Nth(f, n)) == At(s, Nth(f, n));
  }

  lemma SlotsPanics(s: State, s': State, c: Residency, f: nat, n: nat, o: nat)
    requires SameSlots(s, s') && f < |s.files| && n < NSLOTS
    ensures StepPanics(s', c, f, n, o) == StepPanics(s, c, f, n, o)
    ensures StepCache(s', c, f, n) == StepCache(s, c, f, n)
  {
    SlotsWalk(s, s', c, f, n);
    SlotsGet(s, s', c, f, n);
    SlotsBlock(s, s', c, f, n);
  }

  // file_truncate_blocks over blocks `from` to `to` - 1: only its first look into the
  // indirect block can panic.
  predicate TruncatePanics(file: File, c: Residency, from: nat, to: nat) {
    file.indirect != 0 && Max(from, NDIRECT) < Min(to, NSLOTS) &&
    !Reaches(c, file.indirect, 4 * (Max(from, NDIRECT) - NDIRECT))
  }

  // ---- one round of the loops --------------------------------------------------------------------

  lemma NextBlock(pos: nat, end: nat, n: nat, next: nat)
    requires pos < end && n == pos / BLKSIZE < NSLOTS && next == pos + ChunkLength(pos, end)
    ensures n < LastBlock(end)
    ensures next < end ==> next / BLKSIZE == n + 1 && next % BLKSIZE == 0
    ensures next >= end ==> LastBlock(end) == n + 1
  {}

  lemma RunNext(s: State, c: Residency, s1: State, c1: Residency, f: nat, n: nat, o: nat, last: nat)
    requires Shape(s) && Owned(s) && f < |s.files| && n < last <= NSLOTS && !StepPanics(s, c, f, n, o)
    requires s1 == StepState(s, f, n) && c1 == StepCache(s, c, f, n)
    ensures RunPanics(s, c, f, n, o, last) == RunPanics(s1, c1, f, n + 1, 0, last)
  {}

  lemma RunEmpty(s: State, c: Residency, f: nat, n: nat, o: nat, last: nat)
    requires Shape(s) && Owned(s) && f < |s.files| && last <= NSLOTS && n >= last
    ensures !RunPanics(s, c, f, n, o, last)
  {}

  // After a round that returned, the rest of the range decides.
  lemma RangeNext(s: State, c: Residency, s1: State, c1: Residency, f: nat, pos: nat, end: nat, next: nat, n: nat)
    requires Shape(s) && Owned(s) && f < |s.files| && pos < end && n == pos / BLKSIZE < NSLOTS && next == pos + ChunkLength(pos, end)
    requires Shape(s1) && Owned(s1) && f < |s1.files|
    requires s1 == StepState(s, f, n) && c1 == StepCache(s, c, f, n) && !StepPanics(s, c, f, n, pos % BLKSIZE)
    ensures RangePanics(s, c, f, pos, end) == RangePanics(s1, c1, f, next, end)
  {
    NextBlock(pos, end, n, next);
    RunNext(s, c, s1, c1, f, n, pos % BLKSIZE, LastBlock(end));
    RangeJoins(s, c, s1, c1, f, pos, end, next, n);
  }

  lemma RangeIs(s: State, c: Residency, f: nat, pos: nat, end: nat, n: nat, o: nat, last: nat)
    requires Shape(s) && Owned(s) && f < |s.files| && pos < end && n == pos / BLKSIZE && o == pos % BLKSIZE && last == LastBlock(end)
    ensures RangePanics(s, c, f, pos, end) == RunPanics(s, c, f, n, o, last)
  {}

  lemma RangeJoins(s: State, c: Residency, s1: State, c1: Residency, f: nat, pos: nat, end: nat, next: nat, n: nat)
    requires Shape(s) && Owned(s) && f < |s.files| && pos < end && n == pos / BLKSIZE < LastBlock(end)
    requires Shape(s1) && Owned(s1) && f < |s1.files|
    requires next < end ==> next / BLKSIZE == n + 1 && next % BLKSIZE == 0
    requires next >= end ==> LastBlock(end) == n + 1
    requires RunPanics(s, c, f, n, pos % BLKSIZE, LastBlock(end)) == RunPanics(s1, c1, f, n + 1, 0, LastBlock(end))
    ensures RangePanics(s, c, f, pos, end) == RangePanics(s1, c1, f, next, end)
  {
    RangeIs(s, c, f, pos, end, n, pos % BLKSIZE, LastBlock(end));
    if next < end {
      RangeIs(s1, c1, f, next, end, n + 1, 0, LastBlock(end));
    } else {
      RunEmpty(s1, c1, f, n + 1, 0, n + 1);
    }
  }

  lemma RangeStops(s: State, c: Residency, f: nat, pos: nat, end: nat)
    requires Shape(s) && Owned(s) && f < |s.files| && pos < end
    ensures pos / BLKSIZE < NSLOTS && StepPanics(s, c, f, pos / BLKSIZE, pos % BLKSIZE) ==> RangePanics(s, c, f, pos, end)
    ensures pos / BLKSIZE >= NSLOTS ==> !RangePanics(s, c, f, pos, end)
  {
    if pos / BLKSIZE < NSLOTS {
      NextBlock(pos, end, pos / BLKSIZE, pos + ChunkLength(pos, end));
    }
  }

  // A write changes bytes between the rounds: `g` is the state as it would be without.
  lemma ShadowStops(g: State, s: State, c: Residency, f: nat, pos: nat, end: nat)
    requires SameSlots(g, s) && f < |s.files| && pos < end
    ensures pos / BLKSIZE < NSLOTS && StepPanics(s, c, f, pos / BLKSIZE, pos % BLKSIZE) ==> RangePanics(g, c, f, pos, end)
    ensures pos / BLKSIZE >= NSLOTS ==> !RangePanics(g, c, f, pos, end)
  {
    RangeStops(g, c, f, pos, end);
    if pos / BLKSIZE < NSLOTS {
      SlotsPanics(g, s, c, f, pos / BLKSIZE, pos % BLKSIZE);
    }
  }

  lemma ShadowNext(g: State, s: State, c: Residency, s1: State, c1: Residency, f: nat, pos: nat, end: nat, next: nat, n: nat)
    returns (g1: State)
    requires SameSlots(g, s) && f < |s.files| && pos < end && n == pos / BLKSIZE < NSLOTS && next == pos + ChunkLength(pos, end)
    requires s1 == StepState(s, f, n) && c1 == StepCache(s, c, f, n) && !StepPanics(s, c, f, n, pos % BLKSIZE)
    ensures SameSlots(g1, s1) && f < |g1.files|
    ensures RangePanics(g, c, f, pos, end) == RangePanics(g1, c1, f, next, end)
  {
    g1 := StepState(g, f, n);
    SlotsPanics(g, s, c, f, n, pos % BLKSIZE);
    SlotsBlock(g, s, c, f, n);
    RangeNext(g, c, g1, c1, f, pos, end, next, n);
  }

  // A byte of a file's block that is not in memory cannot be the first one touched
  // unless it is the block's first: reading it alone panics.
  lemma UnalignedPanics(s: State, c: Residency, f: nat, p: nat)
    requires Shape(s) && Owned(s) && f < |s.files| && p in Content(s, f) && p % BLKSIZE != 0
    requires At(s, Nth(f, p / BLKSIZE)) !in c.cached
    ensures RangePanics(s, c, f, p, p + 1)
  {
    assert Backed(s, f, p, p + 1);
    BackedPanics(s, c, f, p, p + 1);
    assert !BlockReaches(s, c, f, p / BLKSIZE, p % BLKSIZE, p / BLKSIZE);
  }
}
