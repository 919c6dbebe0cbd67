// fs/fs.c's operations, updating the file system in place.  A panic ends the file
// server and is reported; the state it leaves is of no further use.
module FsOps {
  import opened Inc
  import opened Fs
  import opened FsFaults

  // alloc_block's -E_NO_DISK, as the uint32_t it is stored in.
  const NO_DISK_BLOCK := WORD - E_NO_DISK

  class FileSystem {
    const nblocks: nat
    var bitmap: seq<Word>
    var data: seq<Block>
    var ind: seq<seq<nat>>
    // The struct Files in use; the directory blocks they live in are in memory.
    var files: seq<File>
    var cache: Residency

    ghost function Snap(): State
      reads this
    {
      State(nblocks, bitmap, data, ind, files)
    }

    ghost predicate Sound()
      reads this
    {
      Shape(Snap()) && Owned(Snap()) && CacheOk(nblocks, cache)
    }

    ghost predicate Valid()
      reads this
    {
      Inv(Snap()) && CacheOk(nblocks, cache)
    }

    // ---- memory ------------------------------------------------------------------------

    // A load or store at byte `o` of block `b`: when the block is not in memory,
    // bc_pgfault reads it in, and refuses to go on if it is free.
    method Touch(b: nat, o: nat) returns (panic: bool)
      requires Sound() && b < nblocks
      modifies `cache
      ensures panic <==> b !in old(cache).cached && !(b in old(cache).memory && o == 0 && !IsFree(Snap(), b))
      ensures !panic ==> cache == In(old(cache), b) && Sound()
    {
      if b in cache.cached {
        assert cache == In(cache, b);
        return false;
      }
      if b !in cache.memory {
        return true;
      }
      cache := In(cache, b);
      if o != 0 {
        return true;
      }
      panic := BlockIsFree(b);
    }

    // flush_block reads the page-table entry before asking whether the page is mapped.
    predicate FlushPanics(b: nat)
      reads this
    {
      b / GROUP !in cache.tables
    }

    // ---- the bitmap --------------------------------------------------------------------

    predicate BlockIsFree(blockno: nat): (free: bool)
      requires Shape(Snap())
      reads this
      ensures free <==> IsFree(Snap(), blockno)
    {
      if blockno >= nblocks then false else bitmap[blockno / 32][blockno % 32]
    }

    method FreeBlock(blockno: nat) returns (panic: bool)
      requires Shape(Snap()) && blockno < nblocks
      modifies `bitmap
      ensures panic <==> blockno == 0
      ensures !panic ==> Snap() == SetBit(old(Snap()), blockno, true)
    {
      if blockno == 0 {
        return true;
      }
      bitmap := bitmap[blockno / 32 := bitmap[blockno / 32][blockno % 32 := true]];
      panic := false;
    }

    // The lowest free block, or NO_DISK_BLOCK when there is none.
    method AllocBlock() returns (panic: bool, b: nat)
      requires Shape(Snap())
      modifies `bitmap
      ensures panic <==> IsFree(old(Snap()), 0) || (FreeSet(old(Snap())) != {} && Lowest(old(Snap())) / GROUP !in cache.tables)
      ensures !panic && FreeSet(old(Snap())) == {} ==> b == NO_DISK_BLOCK == 0xffff_fff7 && Snap() == old(Snap())
      ensures !panic && FreeSet(old(Snap())) != {} ==>
                && IsFree(old(Snap()), b) && (forall c :: 0 <= c < b ==> !IsFree(old(Snap()), c))
                && b == Lowest(old(Snap())) && Snap() == SetBit(old(Snap()), b, false)
    {
      var blockno := 0;
      while blockno != nblocks * BLKBITSIZE
        invariant blockno <= nblocks * BLKBITSIZE && Snap() == old(Snap())
        invariant forall c :: 0 <= c < blockno ==> !IsFree(Snap(), c)
        decreases nblocks * BLKBITSIZE - blockno
      {
        if BlockIsFree(blockno) {
          assert blockno in FreeSet(Snap());
          LowestIs(Snap(), blockno);
          if blockno == 0 {
            return true, 0;
          }
          bitmap := bitmap[blockno / 32 := bitmap[blockno / 32][blockno % 32 := false]];
          return DiskAddr(blockno) || FlushPanics(blockno), blockno;
        }
        blockno := blockno + 1;
      }
      return false, NO_DISK_BLOCK;
    }

    // Whether diskaddr panics.
    predicate DiskAddr(blockno: nat)
    {
      blockno == 0 || blockno >= nblocks
    }

    // ---- blocks of a file ------------------------------------------------------------------

    // The part of file_block_walk that adds the indirect block.  A full disk stores
    // NO_DISK_BLOCK in f_indirect, which is not zero, so it is diskaddr that stops.
    method MakeIndirect(f: nat, ghost n: nat) returns (panic: bool)
      requires Sound() && f < |files| && files[f].indirect == 0 && NDIRECT <= n < NSLOTS
      modifies this
      ensures panic <==> AllocPanics(old(Snap()), old(cache)) || !Reaches(old(cache), Lowest(old(Snap())), 0)
      ensures !panic ==> Snap() == WithInd(old(Snap()), f, n) && cache == In(old(cache), Lowest(old(Snap())))
      ensures !panic ==> Sound() && f < |files| && files[f].indirect == Lowest(old(Snap())) && 0 < files[f].indirect < nblocks
    {
      ghost var s := Snap();
      LowestNone(s);
      NothingReserved(s);
      var b: nat;
      panic, b := AllocBlock();
      if panic {
        return;
      }
      files := files[f := files[f].(indirect := b)];
      if DiskAddr(b) {
        return true;
      }
      ind := ind[b := seq(NINDIRECT, _ => 0)];
      assert Snap() == GaveIndirect(s, f, b, s.data[b]);
      GaveIndirectGrows(s, f, n, b, s.data[b]);
      panic := Touch(b, 0);
    }

    // The slot of the n'th block of file `f`, made addressable if `alloc` is set.
    method FileBlockWalk(f: nat, n: nat, alloc: bool) returns (panic: bool, r: int, x: Slot)
      requires Sound() && f < |files|
      modifies this
      ensures panic <==> NDIRECT <= n < NSLOTS && old(files)[f].indirect == 0 && alloc &&
                         (AllocPanics(old(Snap()), old(cache)) || !Reaches(old(cache), Lowest(old(Snap())), 0))
      ensures n >= NSLOTS ==> r == -E_INVAL && Snap() == old(Snap()) && cache == old(cache)
      ensures NDIRECT <= n < NSLOTS && old(files)[f].indirect == 0 && !alloc ==>
                r == -E_NOT_FOUND && Snap() == old(Snap()) && cache == old(cache)
      ensures !panic && n < NSLOTS && (alloc || n < NDIRECT || old(files)[f].indirect != 0) ==>
                && r == 0 && x == Nth(f, n) && Sound() && Snap() == WithInd(old(Snap()), f, n)
                && f < |files| && (n >= NDIRECT ==> 0 < files[f].indirect < nblocks)
                && cache == if NDIRECT <= n && old(files)[f].indirect == 0 then In(old(cache), files[f].indirect) else old(cache)
    {
      panic, x := false, Nth(f, n);
      if n < NDIRECT {
        return false, 0, x;
      }
      if n < NSLOTS {
        assert At(Snap(), Ind(f)) == files[f].indirect;
        if files[f].indirect == 0 {
          if !alloc {
            return false, -E_NOT_FOUND, x;
          }
          panic := MakeIndirect(f, n);
        }
        return panic, 0, x;
      }
      return false, -E_INVAL, x;
    }

    // Reads a slot; one in the indirect block is a read of that block.
    method Load(x: Slot) returns (panic: bool, b: nat)
      requires Sound() && IsSlot(Snap(), x) && (x.Nth? && x.n >= NDIRECT ==> 0 < files[x.f].indirect < nblocks)
      modifies `cache
      ensures panic <==> x.Nth? && x.n >= NDIRECT && !Reaches(old(cache), files[x.f].indirect, 4 * (x.n - NDIRECT))
      ensures !panic ==> Sound() && b == At(Snap(), x)
      ensures !panic ==> cache == if x.Nth? && x.n >= NDIRECT then In(old(cache), files[x.f].indirect) else old(cache)
    {
      panic := false;
      if x.Ind? {
        b := files[x.f].indirect;
      } else if x.n < NDIRECT {
        b := files[x.f].direct[x.n];
      } else {
        assert At(Snap(), Ind(x.f)) == files[x.f].indirect;
        panic := Touch(files[x.f].indirect, 4 * (x.n - NDIRECT));
        b := ind[files[x.f].indirect][x.n - NDIRECT];
      }
    }

    // Writes a slot just read.
    method Store(x: Slot, b: nat)
      requires Shape(Snap()) && IsSlot(Snap(), x)
      requires x.Nth? && x.n >= NDIRECT ==> 0 < files[x.f].indirect < nblocks && files[x.f].indirect in cache.cached
      modifies `files, `ind
      ensures Snap() == SetAt(old(Snap()), x, b)
    {
      if x.Ind? {
        files := files[x.f := files[x.f].(indirect := b)];
      } else if x.n < NDIRECT {
        files := files[x.f := files[x.f].(direct := files[x.f].direct[x.n := b])];
      } else {
        var row: seq<nat> := ind[files[x.f].indirect][x.n - NDIRECT := b];
        ind := ind[files[x.f].indirect := row];
      }
    }

    // `*pdiskbno = alloc_block()`
    method FillSlot(f: nat, n: nat) returns (panic: bool, b: nat)
      requires Sound() && IsSlot(Snap(), Nth(f, n)) && At(Snap(), Nth(f, n)) == 0
      requires n >= NDIRECT ==> 0 < files[f].indirect < nblocks && files[f].indirect in cache.cached
      modifies `bitmap, `files, `ind
      ensures panic || b == NO_DISK_BLOCK <==> AllocPanics(old(Snap()), cache)
      ensures panic ==> FreeSet(old(Snap())) != {}
      ensures !panic && b != NO_DISK_BLOCK ==> Snap() == Filled(old(Snap()), f, n) && b == Lowest(old(Snap())) && 0 < b < nblocks
    {
      ghost var s := Snap();
      LowestNone(s);
      NothingReserved(s);
      panic, b := AllocBlock();
      if panic {
        return;
      }
      Store(Nth(f, n), b);
      if b < nblocks {
        assert Snap() == GaveBlock(s, f, n, b, s.data[b]);
      }
    }

    // file_block_walk, and the slot it finds read.
    method ReadSlot(f: nat, n: nat) returns (panic: bool, r: int, x: Slot, b: nat)
      requires Sound() && f < |files|
      modifies this
      ensures panic <==> n < NSLOTS && WalkPanics(old(Snap()), old(cache), f, n)
      ensures n >= NSLOTS ==> r == -E_INVAL && Snap() == old(Snap()) && cache == old(cache)
      ensures !panic && n < NSLOTS ==>
                && r == 0 && x == Nth(f, n) && Sound() && Snap() == WithInd(old(Snap()), f, n) && f < |files|
                && cache == WalkCache(old(Snap()), old(cache), f, n) && b == At(Snap(), Nth(f, n)) == old(At(Snap(), Nth(f, n)))
                && (n >= NDIRECT ==> 0 < files[f].indirect < nblocks && files[f].indirect in cache.cached)
    {
      b := 0;
      ghost var s := Snap();
      panic, r, x := FileBlockWalk(f, n, true);
      if panic || r != 0 {
        return;
      }
      WithIndPlaced(s, f, n);
      WithIndHas(s, f, n);
      InTwice(old(cache), files[f].indirect);
      panic, b := Load(x);
    }

    // The n'th block of file `f`, allocated if it has none.  -E_NO_DISK is never
    // returned: a full disk panics.
    method FileGetBlock(f: nat, n: nat) returns (panic: bool, r: int, b: nat)
      requires Sound() && f < |files|
      modifies this
      ensures panic <==> n < NSLOTS && GetPanics(old(Snap()), old(cache), f, n)
      ensures !panic ==> r == if n < 1034 then 0 else -E_INVAL
      ensures n >= NSLOTS ==> Snap() == old(Snap()) && cache == old(cache)
      ensures !panic && n < NSLOTS ==>
                && Sound() && Snap() == StepState(old(Snap()), f, n) && cache == WalkCache(old(Snap()), old(cache), f, n)
                && b == BlockOf(old(Snap()), f, n) && 0 < b < nblocks
    {
      ghost var p := n < NSLOTS && GetPanics(Snap(), cache, f, n);
      var x: Slot;
      panic, r, x, b := ReadSlot(f, n);
      if panic || r != 0 {
        assert panic == p;
        return;
      }
      GotState(old(Snap()), old(cache), Snap(), cache, f, n);
      assert p == (b == 0 && AllocPanics(Snap(), cache));
      if b == 0 {
        panic, b := FillSlot(f, n);
        if panic {
          return;
        }
      }
      if b == 0 {
        return panic, -E_NO_DISK, b;
      }
      panic := DiskAddr(b);
      assert panic == p;
    }

    // file_get_block for byte `p` of the file, and the first access to that byte.
    method ReachByte(f: nat, p: nat) returns (panic: bool, r: int, b: nat)
      requires Valid() && f < |files| && p < files[f].size
      modifies this
      ensures panic <==> p / BLKSIZE < NSLOTS && StepPanics(old(Snap()), old(cache), f, p / BLKSIZE, p % BLKSIZE)
      ensures !panic ==> Valid() && Preserves(old(Snap()), Snap(), f)
      ensures !panic ==> r == if p / BLKSIZE < NSLOTS then 0 else -E_INVAL
      ensures !panic && r != 0 ==> Snap() == old(Snap()) && cache == old(cache)
      ensures !panic && p in Content(old(Snap()), f) ==> Snap() == old(Snap())
      ensures !panic && r == 0 ==>
                && Snap() == StepState(old(Snap()), f, p / BLKSIZE) && cache == StepCache(old(Snap()), old(cache), f, p / BLKSIZE)
                && b == At(Snap(), Nth(f, p / BLKSIZE)) && 0 < b < nblocks
    {
      ghost var s := Snap();
      BlockOfByte(p, files[f].size);
      panic, r, b := FileGetBlock(f, p / BLKSIZE);
      if !panic && r == 0 {
        StepAt(s, f, p / BLKSIZE);
        GrownTails(s, Snap(), f, p / BLKSIZE);
        panic := Touch(b, p % BLKSIZE);
      }
    }

    // The same as one round of a loop over the bytes from `pos` to end - 1, for which
    // `panics` says whether the rest of the loop panics.  `g` is the state but for the
    // bytes the loop has written.
    method ReachChunk(f: nat, pos: nat, ghost end: nat, ghost next: nat, ghost g: State, ghost panics: bool)
      returns (panic: bool, r: int, b: nat, ghost g1: State)
      requires Valid() && f < |files| && pos < files[f].size && pos < end && next == pos + ChunkLength(pos, end)
      requires SameSlots(g, Snap()) && panics == RangePanics(g, cache, f, pos, end)
      modifies this
      ensures panic ==> panics
      ensures !panic ==> Valid() && Preserves(old(Snap()), Snap(), f)
      ensures !panic ==> r == if pos / BLKSIZE < NSLOTS then 0 else -E_INVAL
      ensures !panic && r != 0 ==> !panics && Snap() == old(Snap()) && cache == old(cache)
      ensures !panic && pos in Content(old(Snap()), f) ==> Snap() == old(Snap())
      ensures !panic && r == 0 ==>
                && b == At(Snap(), Nth(f, pos / BLKSIZE)) && 0 < b < nblocks
                && SameSlots(g1, Snap()) && f < |g1.files| && panics == RangePanics(g1, cache, f, next, end)
    {
      ghost var s, c := Snap(), cache;
      ShadowStops(g, s, c, f, pos, end);
      panic, r, b := ReachByte(f, pos);
      g1 := g;
      if !panic && r == 0 {
        g1 := ShadowNext(g, s, c, Snap(), cache, f, pos, end, next, pos / BLKSIZE);
      }
    }

    // ---- file_read ------------------------------------------------------------------------

    // Reads may allocate: a hole is given a block, with nothing promised about the
    // bytes it then reads as.
    method FileRead(f: nat, count: nat, offset: nat) returns (panic: bool, r: int, buf: seq<Byte>)
      requires Valid() && f < |files|
      modifies this
      ensures panic <==> offset < old(files)[f].size &&
                         RangePanics(old(Snap()), old(cache), f, offset, offset + Min(count, old(files)[f].size - offset))
      ensures !panic ==> Valid() && Preserves(old(Snap()), Snap(), f)
      ensures !panic && r >= 0 ==>
                && r == |buf| && Holds(Snap(), f, offset, buf)
                && r == if offset >= old(files)[f].size then 0 else Min(count, old(files)[f].size - offset)
      ensures !panic ==> (r < 0 <==> offset < old(files)[f].size && count > 0 &&
                                     offset + Min(count, old(files)[f].size - offset) > NSLOTS * BLKSIZE)
      ensures !panic && r < 0 ==> r == -E_INVAL
      ensures !panic && r >= 0 && Backed(old(Snap()), f, offset, offset + r) ==> Snap() == old(Snap())
    {
      buf := [];
      if offset >= files[f].size {
        return false, 0, buf;
      }
      var n := Min(count, files[f].size - offset);
      panic, r, buf := ReadBlocks(f, n, offset);
    }

    method ReadBlocks(f: nat, n: nat, offset: nat) returns (panic: bool, r: int, buf: seq<Byte>)
      requires Valid() && f < |files| && offset + n <= files[f].size
      modifies this
      ensures panic <==> RangePanics(old(Snap()), old(cache), f, offset, offset + n)
      ensures !panic ==> Valid() && Preserves(old(Snap()), Snap(), f)
      ensures !panic ==> r == if n > 0 && offset + n > NSLOTS * BLKSIZE then -E_INVAL else n
      ensures !panic && r >= 0 ==> n == |buf| && Holds(Snap(), f, offset, buf)
      ensures !panic && r >= 0 && Backed(old(Snap()), f, offset, offset + n) ==> Snap() == old(Snap())
    {
      buf := [];
      ghost var g, panics := Snap(), RangePanics(Snap(), cache, f, offset, offset + n);
      var pos := offset;
      while pos < offset + n
        invariant offset <= pos <= offset + n && |buf| == pos - offset && CacheOk(nblocks, cache)
        invariant Preserves(old(Snap()), Snap(), f) && Holds(Snap(), f, offset, buf)
        invariant SameSlots(g, Snap()) && f < |g.files| && panics == RangePanics(g, cache, f, pos, offset + n)
        invariant Backed(old(Snap()), f, offset, offset + n) ==> Snap() == old(Snap())
        invariant pos > offset ==> pos <= NSLOTS * BLKSIZE
      {
        ghost var s := Snap();
        var next: nat;
        panic, r, buf, next, g := ReadChunk(f, n, offset, pos, buf, g, panics);
        if panic || r < 0 {
          return;
        }
        PreservesTrans(old(Snap()), s, Snap(), f);
        pos := next;
      }
      return false, n, buf;
    }

    // One round of file_read's loop.
    method ReadChunk(f: nat, n: nat, offset: nat, pos: nat, sofar: seq<Byte>, ghost g: State, ghost panics: bool)
      returns (panic: bool, r: int, buf: seq<Byte>, next: nat, ghost g1: State)
      requires Valid() && f < |files| && offset <= pos < offset + n <= files[f].size
      requires |sofar| == pos - offset && Holds(Snap(), f, offset, sofar)
      requires SameSlots(g, Snap()) && panics == RangePanics(g, cache, f, pos, offset + n)
      modifies this
      ensures next == pos + ChunkLength(pos, offset + n)
      ensures panic ==> panics
      ensures !panic ==> Valid() && Preserves(old(Snap()), Snap(), f)
      ensures !panic ==> r == if pos / BLKSIZE < NSLOTS then 0 else -E_INVAL
      ensures !panic && r != 0 ==> !panics
      ensures !panic && r == 0 ==>
                && |buf| == next - offset && Holds(Snap(), f, offset, buf)
                && SameSlots(g1, Snap()) && f < |g1.files| && panics == RangePanics(g1, cache, f, next, offset + n)
      ensures !panic && pos in Content(old(Snap()), f) ==> Snap() == old(Snap())
    {
      ghost var s := Snap();
      buf := sofar;
      next := pos + ChunkLength(pos, offset + n);
      var b: nat;
      panic, r, b, g1 := ReachChunk(f, pos, offset + n, next, g, panics);
      if panic || r < 0 {
        return;
      }
      var bn := next - pos;
      var chunk := data[b][pos % BLKSIZE..pos % BLKSIZE + bn];
      HoldsChunk(s, Snap(), f, offset, buf, pos, offset + n, b, bn);
      buf := buf + chunk;
    }

    // ---- giving blocks back ---------------------------------------------------------------

    method FileFreeBlock(f: nat, n: nat) returns (panic: bool, r: int)
      requires Sound() && f < |files|
      modifies this
      ensures panic <==> TruncatePanics(old(files)[f], old(cache), n, n + 1)
      ensures !panic ==>
                r == if n >= NSLOTS then -E_INVAL else if n >= NDIRECT && old(files)[f].indirect == 0 then -E_NOT_FOUND else 0
      ensures !panic ==> Cleared(old(Snap()), Snap(), f, n, n + 1) && files[f].indirect == old(files)[f].indirect && Sound()
      ensures !panic ==> cache == if NDIRECT <= n < NSLOTS && files[f].indirect != 0 then In(old(cache), files[f].indirect) else old(cache)
    {
      ghost var s := Snap();
      var x: Slot;
      panic, r, x := FileBlockWalk(f, n, false);
      if r < 0 {
        ClearedRefl(s, f, n, n + 1);
        return;
      }
      var b: nat;
      panic, b := Load(x);
      if panic {
        return;
      }
      if b != 0 {
        EmptySlot(f, n, b);
      } else {
        ClearedRefl(s, f, n, n + 1);
      }
    }

    // `free_block(*ptr); *ptr = 0`
    method EmptySlot(f: nat, n: nat, b: nat)
      requires Sound() && f < |files| && n < NSLOTS && b == At(Snap(), Nth(f, n)) != 0
      requires n >= NDIRECT ==> files[f].indirect in cache.cached
      modifies `bitmap, `files, `ind
      ensures Cleared(old(Snap()), Snap(), f, n, n + 1) && files[f].indirect == old(files)[f].indirect && Sound()
    {
      ghost var s := Snap();
      GaveBackClears(s, f, n);
      var panic := FreeBlock(b);
      Store(Nth(f, n), 0);
      assert Snap() == GaveBack(s, Nth(f, n));
      assert At(s, Ind(f)) == s.files[f].indirect && At(Snap(), Ind(f)) == files[f].indirect;
    }

    // A block that cannot be freed only draws a warning.
    method FileTruncateBlocks(f: nat, newsize: nat) returns (panic: bool)
      requires Valid() && f < |files| && newsize < files[f].size
      modifies this
      ensures panic <==> TruncatePanics(old(files)[f], old(cache), NBlocks(newsize), NBlocks(old(files)[f].size))
      ensures !panic ==> Truncated(old(Snap()), Snap(), f, NBlocks(newsize)) && CacheOk(nblocks, cache)
    {
      ghost var s := Snap();
      var oldBlocks, newBlocks := NBlocks(files[f].size), NBlocks(newsize);
      ghost var panics := TruncatePanics(files[f], cache, newBlocks, oldBlocks);
      ClearedRefl(s, f, newBlocks, newBlocks);
      var bno := newBlocks;
      while bno < oldBlocks
        invariant newBlocks <= bno <= oldBlocks && Cleared(s, Snap(), f, newBlocks, bno) && Sound()
        invariant files[f].indirect == s.files[f].indirect
        invariant panics == TruncatePanics(files[f], cache, bno, oldBlocks)
      {
        ghost var s1 := Snap();
        var r;
        panic, r := FileFreeBlock(f, bno);
        if panic {
          return;
        }
        ClearedTrans(s, s1, Snap(), f, newBlocks, bno);
        bno := bno + 1;
      }
      DropIndirect(f, newBlocks, oldBlocks, s);
      panic := false;
    }

    method DropIndirect(f: nat, newBlocks: nat, ghost oldBlocks: nat, ghost s: State)
      requires Inv(s) && f < |s.files| && oldBlocks == NBlocks(s.files[f].size) && newBlocks <= oldBlocks
      requires Cleared(s, Snap(), f, newBlocks, oldBlocks) && files[f].indirect == s.files[f].indirect
      modifies `bitmap, `files, `ind
      ensures Truncated(s, Snap(), f, newBlocks)
    {
      ghost var s1 := Snap();
      assert TailEmpty(s, f);
      if newBlocks <= NDIRECT && files[f].indirect != 0 {
        GaveBackIndirect(s1, f);
        var panic := FreeBlock(files[f].indirect);
        Store(Ind(f), 0);
        assert Snap() == GaveBack(s1, Ind(f));
      }
      TruncatedFrom(s, Snap(), f, newBlocks);
    }

    // Shrinking gives back every block past the new size; growing only notes the size.
    // The flush of the block that holds the struct File finds it in memory.
    method FileSetSize(f: nat, newsize: nat) returns (panic: bool, r: int)
      requires Valid() && f < |files|
      modifies this
      ensures panic <==> old(files)[f].size > newsize &&
                         TruncatePanics(old(files)[f], old(cache), NBlocks(newsize), NBlocks(old(files)[f].size))
      ensures !panic ==> r == 0 && Resized(old(Snap()), Snap(), f, newsize) && Valid()
      ensures !panic && old(files)[f].size <= newsize ==> cache == old(cache) && Snap() == SetSize(old(Snap()), f, newsize)
    {
      ghost var s := Snap();
      panic, r := false, 0;
      if files[f].size > newsize {
        panic := FileTruncateBlocks(f, newsize);
        if panic {
          return;
        }
      }
      ghost var s1 := Snap();
      files := files[f := files[f].(size := newsize)];
      if s.files[f].size > newsize {
        TruncatedResized(s, s1, f, newsize);
      } else {
        GrownResized(s, f, newsize);
      }
    }

    // ---- file_write ------------------------------------------------------------------------

    // After a write that returns, the range holds exactly the bytes written, the size
    // is the larger of the old one and the end of the range, and no other byte of any
    // file changed.
    method FileWrite(f: nat, buf: seq<Byte>, offset: nat) returns (panic: bool, r: int)
      requires Valid() && f < |files|
      modifies this
      ensures panic <==> RangePanics(old(Snap()), old(cache), f, offset, offset + |buf|)
      ensures !panic ==> Valid() && Pool(Snap()) == Pool(old(Snap())) && OthersSame(old(Snap()), Snap(), f)
      ensures !panic ==> r == if |buf| > 0 && offset + |buf| > 0x40_a000 then -E_INVAL else |buf|
      ensures !panic && r >= 0 ==>
                && files[f].size == Max(old(files)[f].size, offset + |buf|)
                && Holds(Snap(), f, offset, buf) && KeepsOutside(old(Snap()), Snap(), f, offset, offset + |buf|)
    {
      ghost var g, panics := Snap(), RangePanics(Snap(), cache, f, offset, offset + |buf|);
      if offset + |buf| > files[f].size {
        panic, r := FileSetSize(f, offset + |buf|);
        if r < 0 {
          return false, r;
        }
        assert SameSlots(g, Snap());
      }
      panic, r := WriteBlocks(f, buf, offset, g, panics);
    }

    method WriteBlocks(f: nat, buf: seq<Byte>, offset: nat, ghost g0: State, ghost panics: bool) returns (panic: bool, r: int)
      requires Valid() && f < |files| && offset + |buf| <= files[f].size
      requires SameSlots(g0, Snap()) && panics == RangePanics(g0, cache, f, offset, offset + |buf|)
      modifies this
      ensures panic <==> panics
      ensures !panic ==> r == if |buf| > 0 && offset + |buf| > NSLOTS * BLKSIZE then -E_INVAL else |buf|
      ensures !panic ==> Valid() && Pool(Snap()) == Pool(old(Snap())) && OthersSame(old(Snap()), Snap(), f)
      ensures !panic && r >= 0 ==> Wrote(old(Snap()), Snap(), f, offset, buf)
    {
      ghost var g := g0;
      var pos := offset;
      while pos < offset + |buf|
        invariant offset <= pos <= offset + |buf| && CacheOk(nblocks, cache)
        invariant Wrote(old(Snap()), Snap(), f, offset, buf[..pos - offset])
        invariant SameSlots(g, Snap()) && f < |g.files| && panics == RangePanics(g, cache, f, pos, offset + |buf|)
        invariant pos > offset ==> pos <= NSLOTS * BLKSIZE
      {
        var next: nat;
        panic, r, next, g := WriteChunk(f, buf, offset, pos, old(Snap()), g, panics);
        if panic || r < 0 {
          return;
        }
        pos := next;
      }
      assert buf[..pos - offset] == buf;
      return false, |buf|;
    }

    // One round of file_write's loop.
    method WriteChunk(f: nat, buf: seq<Byte>, offset: nat, pos: nat, ghost s: State, ghost g: State, ghost panics: bool)
      returns (panic: bool, r: int, next: nat, ghost g1: State)
      requires Inv(s) && f < |s.files| && offset <= pos < offset + |buf| <= s.files[f].size && CacheOk(nblocks, cache)
      requires Wrote(s, Snap(), f, offset, buf[..pos - offset])
      requires SameSlots(g, Snap()) && f < |g.files| && panics == RangePanics(g, cache, f, pos, offset + |buf|)
      modifies this
      ensures next == pos + ChunkLength(pos, offset + |buf|)
      ensures panic ==> panics
      ensures !panic ==> CacheOk(nblocks, cache) && r == if pos / BLKSIZE < NSLOTS then 0 else -E_INVAL
      ensures !panic && r != 0 ==> !panics && Snap() == old(Snap())
      ensures !panic && r == 0 ==>
                && next - offset <= |buf| && Wrote(s, Snap(), f, offset, buf[..next - offset])
                && SameSlots(g1, Snap()) && f < |g1.files| && panics == RangePanics(g1, cache, f, next, offset + |buf|)
    {
      ghost var s1 := Snap();
      var bn := ChunkLength(pos, offset + |buf|);
      next := pos + bn;
      var chunk := buf[pos - offset..pos - offset + bn];
      ghost var s2: State, b: nat;
      panic, r, s2, b, g1 := PutChunk(f, pos, chunk, offset + |buf|, next, g, panics);
      if !panic && r == 0 {
        assert panics == RangePanics(g1, cache, f, next, offset + |buf|);
        WroteChunk(s, s1, s2, f, offset, buf, pos, b, bn, chunk, next, buf[..next - offset]);
      }
    }

    // Stores bytes of one block; `mid` is the state once the block is there.
    method PutChunk(f: nat, pos: nat, chunk: seq<Byte>, ghost end: nat, ghost next: nat, ghost g: State, ghost panics: bool)
      returns (panic: bool, r: int, ghost mid: State, ghost b: nat, ghost g1: State)
      requires Valid() && f < |files| && pos < files[f].size && pos % BLKSIZE + |chunk| <= BLKSIZE
      requires pos < end && next == pos + ChunkLength(pos, end)
      requires SameSlots(g, Snap()) && panics == RangePanics(g, cache, f, pos, end)
      modifies this
      ensures panic ==> panics
      ensures !panic ==> CacheOk(nblocks, cache) && r == if pos / BLKSIZE < NSLOTS then 0 else -E_INVAL
      ensures !panic && r != 0 ==> !panics && Snap() == old(Snap())
      ensures !panic && r == 0 ==>
                && Preserves(old(Snap()), mid, f) && 0 < b < mid.nblocks && b == At(mid, Nth(f, pos / BLKSIZE))
                && Snap() == Patched(mid, b, pos % BLKSIZE, chunk)
                && SameSlots(g1, Snap()) && f < |g1.files| && panics == RangePanics(g1, cache, f, next, end)
    {
      var blk: nat;
      panic, r, blk, g1 := ReachChunk(f, pos, end, next, g, panics);
      mid, b := Snap(), blk;
      if panic || r < 0 {
        return;
      }
      PatchedSlots(g1, mid, blk, pos % BLKSIZE, chunk);
      Memmove(blk, pos % BLKSIZE, chunk);
    }

    // Copies bytes into a block in memory.
    method Memmove(b: nat, o: nat, chunk: seq<Byte>)
      requires Shape(Snap()) && b < nblocks && o + |chunk| <= BLKSIZE
      modifies `data
      ensures Snap() == Patched(old(Snap()), b, o, chunk)
    {
      data := data[b := Patch(data[b], o, chunk)];
    }
  }
}
