// fs/fs.c: which disk blocks belong to which file.  The state and the facts about
// it come first; FsOps.dfy updates such a state in place.
module Fs {

  const BLKSIZE := 4096
  const BLKBITSIZE := BLKSIZE * 8
  const NDIRECT := 10
  const NINDIRECT := BLKSIZE / 4
  const NSLOTS := NDIRECT + NINDIRECT

  // Blocks whose page-table entries share one page table of the file server.
  const GROUP := 1024

  type Byte = bv8
  type Block = seq<Byte>

  // A bitmap word as its bits, lowest first; a set bit is a free block.
  type Word = seq<bool>

  datatype File = File(size: nat, direct: seq<nat>, indirect: nat)

  // `data` and `ind` are the two ways of reading a block: as bytes of a file, or as
  // the block numbers of an indirect block.  `files` are regular files: the directory
  // blocks that hold their struct Files, and change when a size or a slot does, belong
  // to none of them.
  datatype State = State(nblocks: nat, bitmap: seq<Word>, data: seq<Block>, ind: seq<seq<nat>>, files: seq<File>)

  // A block-number slot: the n'th block of file f, or f's indirect block itself.
  datatype Slot = Nth(f: nat, n: nat) | Ind(f: nat)

  // Blocks 0, 1 and the bitmap are never handed out.
  ghost function FirstBlock(nblocks: nat): nat {
    2 + (nblocks + BLKBITSIZE - 1) / BLKBITSIZE
  }

  // Besides blocks 0 and 1 those of the bitmap are reserved, 32768 blocks to each.
  lemma ReservedBlocks(nblocks: nat, b: nat)
    ensures b < FirstBlock(nblocks) <==> b < 2 || (b - 2) * 0x8000 < nblocks
  {}

  function NBlocks(size: nat): nat {
    (size + BLKSIZE - 1) / BLKSIZE
  }

  ghost predicate Shape(s: State) {
    && s.nblocks < 0x2_0000 && s.nblocks <= 32 * |s.bitmap|
    && (forall i :: 0 <= i < |s.bitmap| ==> |s.bitmap[i]| == 32)
    && |s.data| == s.nblocks && |s.ind| == s.nblocks
    && (forall b :: 0 <= b < s.nblocks ==> |s.data[b]| == BLKSIZE)
    && (forall b :: 0 <= b < s.nblocks ==> |s.ind[b]| == NINDIRECT)
    && (forall f :: 0 <= f < |s.files| ==> |s.files[f].direct| == NDIRECT)
  }

  ghost predicate IsFree(s: State, b: nat)
    requires Shape(s)
  {
    b < s.nblocks && s.bitmap[b / 32][b % 32]
  }

  ghost predicate IsSlot(s: State, x: Slot) {
    x.f < |s.files| && (x.Nth? ==> x.n < NSLOTS)
  }

  // The block number in a slot, 0 when there is none.
  ghost function At(s: State, x: Slot): nat
    requires Shape(s) && IsSlot(s, x)
  {
    var file := s.files[x.f];
    if x.Ind? then file.indirect
    else if x.n < NDIRECT then file.direct[x.n]
    else if 0 < file.indirect < s.nblocks then s.ind[file.indirect][x.n - NDIRECT]
    else 0
  }

  // Every named block is a data block marked in use, no two slots name the same one,
  // and the reserved blocks are in use.
  ghost predicate Owned(s: State)
    requires Shape(s)
  {
    && (forall x {:trigger At(s, x)} :: IsSlot(s, x) && At(s, x) != 0 ==>
          FirstBlock(s.nblocks) <= At(s, x) < s.nblocks && !IsFree(s, At(s, x)))
    && (forall x, y {:trigger At(s, x), At(s, y)} :: IsSlot(s, x) && IsSlot(s, y) && x != y && At(s, x) != 0 ==> At(s, x) != At(s, y))
    && (forall b :: 0 <= b < FirstBlock(s.nblocks) ==> !IsFree(s, b))
  }

  // Slots past the block count of file `f` are empty.
  ghost predicate TailEmpty(s: State, f: nat)
    requires Shape(s) && f < |s.files|
  {
    forall n :: NBlocks(s.files[f].size) <= n < NSLOTS ==> At(s, Nth(f, n)) == 0
  }

  ghost predicate Inv(s: State) {
    Shape(s) && Owned(s) && forall f :: 0 <= f < |s.files| ==> TailEmpty(s, f)
  }

  // Blocks that are free or belong to some file.
  ghost function Pool(s: State): set<nat>
    requires Shape(s)
  {
    (set b | 0 <= b < s.nblocks && IsFree(s, b)) +
    (set b | 0 <= b < s.nblocks && b != 0 && Named(s, b))
  }

  ghost predicate Named(s: State, b: nat)
    requires Shape(s)
  {
    exists x :: IsSlot(s, x) && At(s, x) == b
  }

  // The bytes of file `f` that are backed by a block.
  ghost function Content(s: State, f: nat): map<nat, Byte>
    requires Shape(s) && Owned(s) && f < |s.files|
  {
    map p | 0 <= p < NSLOTS * BLKSIZE && At(s, Nth(f, p / BLKSIZE)) != 0 :: s.data[At(s, Nth(f, p / BLKSIZE))][p % BLKSIZE]
  }

  // ---- single steps --------------------------------------------------------------

  ghost function SetBit(s: State, b: nat, free: bool): State
    requires Shape(s) && b < s.nblocks
  {
    s.(bitmap := s.bitmap[b / 32 := s.bitmap[b / 32][b % 32 := free]])
  }

  // Store block number `b` in a slot.
  ghost function SetAt(s: State, x: Slot, b: nat): State
    requires Shape(s) && IsSlot(s, x) && (x.Nth? && x.n >= NDIRECT ==> 0 < s.files[x.f].indirect < s.nblocks)
  {
    var file := s.files[x.f];
    if x.Ind? then s.(files := s.files[x.f := file.(indirect := b)])
    else if x.n < NDIRECT then s.(files := s.files[x.f := file.(direct := file.direct[x.n := b])])
    else
      var row: seq<nat> := s.ind[file.indirect][x.n - NDIRECT := b];
      s.(ind := s.ind[file.indirect := row])
  }

  lemma SetBitFree(s: State, b: nat, free: bool)
    requires Shape(s) && b < s.nblocks
    ensures Shape(SetBit(s, b, free))
    ensures forall c :: IsFree(SetBit(s, b, free), c) <==> if c == b then free else IsFree(s, c)
    ensures forall x :: IsSlot(s, x) ==> At(SetBit(s, b, free), x) == At(s, x)
  {
    var s' := SetBit(s, b, free);
    forall c: nat ensures IsFree(s', c) <==> if c == b then free else IsFree(s, c) {
      if c != b && c / 32 == b / 32 {
        assert c % 32 != b % 32;
      }
    }
  }

  // Writing a slot changes that slot only.
  lemma SetNthAt(s: State, x: Slot, b: nat)
    requires Shape(s) && Owned(s) && IsSlot(s, x) && x.Nth? && (x.n >= NDIRECT ==> s.files[x.f].indirect != 0)
    ensures s.files[x.f].indirect < s.nblocks || s.files[x.f].indirect == 0
    ensures x.n >= NDIRECT ==> s.files[x.f].indirect < s.nblocks
    ensures Shape(SetAt(s, x, b))
    ensures forall y :: IsSlot(s, y) ==> At(SetAt(s, x, b), y) == if y == x then b else At(s, y)
  {
    assert At(s, Ind(x.f)) == s.files[x.f].indirect;
    var s' := SetAt(s, x, b);
    forall y | IsSlot(s, y) ensures At(s', y) == if y == x then b else At(s, y) {
      if x.n >= NDIRECT && y.Nth? && y.f != x.f {
        assert At(s, Ind(y.f)) != 0 ==> At(s, Ind(y.f)) != At(s, Ind(x.f));
      }
    }
  }

  // Slot `x` went from `from` to `to`; no other slot changed.
  ghost predicate OnlySlot(s: State, s': State, x: Slot, from: nat, to: nat)
    requires Shape(s) && Shape(s')
  {
    && s'.nblocks == s.nblocks && |s'.files| == |s.files| && IsSlot(s, x)
    && At(s, x) == from && At(s', x) == to
    && forall y :: IsSlot(s, y) && y != x ==> At(s', y) == At(s, y)
  }

  // Block `b` became free or in use; no other bit changed.
  ghost predicate OnlyBit(s: State, s': State, b: nat, free: bool)
    requires Shape(s) && Shape(s')
  {
    forall c :: IsFree(s', c) <==> if c == b then free else IsFree(s, c)
  }

  // A free block moves into an empty slot: ownership is kept and no block is lost.
  lemma TakeKeeps(s: State, s': State, x: Slot, b: nat)
    requires Shape(s) && Shape(s') && Owned(s) && IsFree(s, b)
    requires OnlySlot(s, s', x, 0, b) && OnlyBit(s, s', b, false)
    ensures Owned(s') && Pool(s') == Pool(s)
  {
    assert forall y :: IsSlot(s, y) && At(s, y) != 0 ==> At(s, y) != b;
    PoolMoves(s, s', x, b);
  }

  // And back.
  lemma GiveKeeps(s: State, s': State, x: Slot, b: nat)
    requires Shape(s) && Shape(s') && Owned(s) && b != 0
    requires OnlySlot(s, s', x, b, 0) && OnlyBit(s, s', b, true)
    ensures Owned(s') && Pool(s') == Pool(s)
  {
    PoolMoves(s', s, x, b);
  }

  lemma PoolMoves(s: State, s': State, x: Slot, b: nat)
    requires Shape(s) && Shape(s') && 0 < b < s.nblocks
    requires OnlySlot(s, s', x, 0, b) && IsFree(s, b) && !IsFree(s', b)
    requires forall c :: c != b ==> (IsFree(s', c) <==> IsFree(s, c))
    ensures Pool(s') == Pool(s)
  {
    forall c | 0 < c < s.nblocks ensures c in Pool(s') <==> c in Pool(s) {
      if c == b {
        assert At(s', x) == c;
        assert Named(s', c);
      } else {
        SameNamed(s, s', x, b, c);
      }
    }
  }

  lemma SameNamed(s: State, s': State, x: Slot, b: nat, c: nat)
    requires Shape(s) && Shape(s') && OnlySlot(s, s', x, 0, b) && c != b && c != 0
    ensures Named(s, c) <==> Named(s', c)
  {
    if Named(s, c) {
      var y :| IsSlot(s, y) && At(s, y) == c;
      assert IsSlot(s', y) && At(s', y) == c;
    }
    if Named(s', c) {
      var y :| IsSlot(s', y) && At(s', y) == c;
      assert IsSlot(s, y) && At(s, y) == c;
    }
  }

  // ---- what file operations leave alone -----------------------------------------------

  // Every backed byte of file `f` is still backed and unchanged.
  ghost predicate KeepsBytes(s: State, s': State, f: nat)
    requires Shape(s) && Owned(s) && Shape(s') && Owned(s') && f < |s.files| && f < |s'.files|
  {
    forall p :: p in Content(s, f) ==> p in Content(s', f) && Content(s', f)[p] == Content(s, f)[p]
  }

  ghost predicate OthersSame(s: State, s': State, f: nat)
    requires Shape(s) && Owned(s) && Shape(s') && Owned(s')
  {
    |s'.files| == |s.files| &&
    forall g :: 0 <= g < |s.files| && g != f ==> Content(s', g) == Content(s, g) && s'.files[g] == s.files[g]
  }

  lemma SlotKeepsContent(s: State, s': State, x: Slot, b: nat, f: nat)
    requires Shape(s) && Owned(s) && Shape(s') && Owned(s') && f < |s.files|
    requires OnlySlot(s, s', x, 0, b) && IsFree(s, b)
    requires forall c :: 0 <= c < s.nblocks && c != b ==> s'.data[c] == s.data[c]
    ensures KeepsBytes(s, s', f)
    ensures x.f != f || x.Ind? ==> Content(s', f) == Content(s, f)
  {
    forall n | 0 <= n < NSLOTS && At(s, Nth(f, n)) != 0 ensures At(s', Nth(f, n)) == At(s, Nth(f, n)) != b {}
    forall p: nat ensures p in Content(s, f) ==> p in Content(s', f) && Content(s', f)[p] == Content(s, f)[p]
                  ensures (x.f != f || x.Ind?) && p in Content(s', f) ==> p in Content(s, f)
    {
      assert p < NSLOTS * BLKSIZE ==> p / BLKSIZE < NSLOTS;
      if p < NSLOTS * BLKSIZE {
        assert Nth(f, p / BLKSIZE) != x ==> At(s', Nth(f, p / BLKSIZE)) == At(s, Nth(f, p / BLKSIZE));
      }
    }
  }

  ghost function FreeSet(s: State): set<nat>
    requires Shape(s)
  {
    set b | 0 <= b < s.nblocks && IsFree(s, b)
  }

  lemma FreeSetShrinks(s: State, s': State, b: nat)
    requires Shape(s) && Shape(s') && s'.nblocks == s.nblocks && IsFree(s, b) && OnlyBit(s, s', b, false)
    ensures |FreeSet(s')| == |FreeSet(s)| - 1
  {
    assert FreeSet(s') == FreeSet(s) - {b};
  }

  // File `f` may have gained its indirect block and its n'th block; nothing else
  // changed but the free blocks they were.
  ghost predicate Grown(s: State, s': State, f: nat, n: nat)
    requires Shape(s) && Owned(s) && f < |s.files| && n < NSLOTS
  {
    && Shape(s') && Owned(s') && Pool(s') == Pool(s) && s'.nblocks == s.nblocks && |s'.files| == |s.files|
    && s'.files[f].size == s.files[f].size
    && KeepsBytes(s, s', f) && OthersSame(s, s', f)
    && forall y :: IsSlot(s, y) && (At(s, y) != 0 || (y != Nth(f, n) && y != Ind(f))) ==> At(s', y) == At(s, y)
  }

  lemma GrownRefl(s: State, f: nat, n: nat)
    requires Shape(s) && Owned(s) && f < |s.files| && n < NSLOTS
    ensures Grown(s, s, f, n)
  {}

  lemma GrownTrans(s: State, s1: State, s2: State, f: nat, n: nat)
    requires Shape(s) && Owned(s) && f < |s.files| && n < NSLOTS
    requires Grown(s, s1, f, n) && Grown(s1, s2, f, n)
    ensures Grown(s, s2, f, n)
  {}

  // Growing at a block the size covers keeps the tails of all files empty.
  lemma GrownTails(s: State, s': State, f: nat, n: nat)
    requires Inv(s) && f < |s.files| && n < NSLOTS && n < NBlocks(s.files[f].size) && Grown(s, s', f, n)
    ensures Inv(s')
  {
    forall g | 0 <= g < |s'.files| ensures TailEmpty(s', g) {
      assert s'.files[g].size == s.files[g].size by {
        if g != f {
          assert Content(s', g) == Content(s, g);
        }
      }
      assert TailEmpty(s, g);
      forall m | NBlocks(s'.files[g].size) <= m < NSLOTS ensures At(s', Nth(g, m)) == 0 {
        assert At(s, Nth(g, m)) == 0 && Nth(g, m) != Nth(f, n);
      }
    }
  }

  // alloc_block's block put into the empty n'th slot, holding whatever it held.
  ghost function GaveBlock(s: State, f: nat, n: nat, b: nat, junk: Block): State
    requires Shape(s) && IsSlot(s, Nth(f, n)) && b < s.nblocks
    requires n >= NDIRECT ==> 0 < s.files[f].indirect < s.nblocks
  {
    var s1 := SetAt(SetBit(s, b, false), Nth(f, n), b);
    s1.(data := s1.data[b := junk])
  }

  lemma GaveBlockGrows(s: State, f: nat, n: nat, b: nat, junk: Block)
    requires Shape(s) && Owned(s) && IsSlot(s, Nth(f, n)) && At(s, Nth(f, n)) == 0 && IsFree(s, b) && |junk| == BLKSIZE
    requires n >= NDIRECT ==> 0 < s.files[f].indirect < s.nblocks
    ensures var s' := GaveBlock(s, f, n, b, junk);
            Grown(s, s', f, n) && At(s', Nth(f, n)) == b && OnlyBit(s, s', b, false)
  {
    GaveBlockSlot(s, f, n, b, junk);
    TookSlot(s, GaveBlock(s, f, n, b, junk), Nth(f, n), b, n);
  }

  lemma GaveBlockSlot(s: State, f: nat, n: nat, b: nat, junk: Block)
    requires Shape(s) && Owned(s) && IsSlot(s, Nth(f, n)) && At(s, Nth(f, n)) == 0 && IsFree(s, b) && |junk| == BLKSIZE
    requires n >= NDIRECT ==> 0 < s.files[f].indirect < s.nblocks
    ensures var s' := GaveBlock(s, f, n, b, junk);
            Shape(s') && OnlySlot(s, s', Nth(f, n), 0, b) && OnlyBit(s, s', b, false)
  {
    SetBitFree(s, b, false);
    assert Owned(SetBit(s, b, false));
    SetNthAt(SetBit(s, b, false), Nth(f, n), b);
  }

  lemma TookSlot(s: State, s': State, x: Slot, b: nat, n: nat)
    requires Shape(s) && Shape(s') && Owned(s) && IsFree(s, b) && IsSlot(s, x) && n < NSLOTS && (x.Nth? ==> x.n == n)
    requires OnlySlot(s, s', x, 0, b) && OnlyBit(s, s', b, false)
    requires forall c :: 0 <= c < s.nblocks && c != b ==> s'.data[c] == s.data[c]
    requires forall g :: 0 <= g < |s.files| && g != x.f ==> s'.files[g] == s.files[g]
    requires s'.files[x.f].size == s.files[x.f].size
    ensures Grown(s, s', x.f, n)
  {
    TakeKeeps(s, s', x, b);
    forall g | 0 <= g < |s.files| ensures KeepsBytes(s, s', g) && (g != x.f ==> Content(s', g) == Content(s, g)) {
      SlotKeepsContent(s, s', x, b, g);
    }
  }

  // A cleared block made the indirect block of a file that has none.
  ghost function GaveIndirect(s: State, f: nat, b: nat, junk: Block): State
    requires Shape(s) && f < |s.files| && b < s.nblocks
  {
    var s1 := SetAt(SetBit(s, b, false), Ind(f), b);
    s1.(data := s1.data[b := junk], ind := s1.ind[b := seq(NINDIRECT, _ => 0)])
  }

  lemma GaveIndirectGrows(s: State, f: nat, n: nat, b: nat, junk: Block)
    requires Shape(s) && Owned(s) && f < |s.files| && n < NSLOTS && s.files[f].indirect == 0 && IsFree(s, b) && |junk| == BLKSIZE
    ensures var s' := GaveIndirect(s, f, b, junk);
            Grown(s, s', f, n) && s'.files[f].indirect == b && OnlyBit(s, s', b, false) &&
            (n >= NDIRECT ==> At(s', Nth(f, n)) == 0)
  {
    var s1 := SetBit(s, b, false);
    SetBitFree(s, b, false);
    var s' := GaveIndirect(s, f, b, junk);
    assert At(s, Ind(f)) == 0;
    forall y | IsSlot(s, y) && y != Ind(f) ensures At(s', y) == At(s, y) {
      assert At(s, Ind(y.f)) != b;
    }
    assert OnlySlot(s, s', Ind(f), 0, b);
    assert OnlyBit(s, s', b, false);
    TookSlot(s, s', Ind(f), b, n);
  }

  // How many free blocks it takes to back the n'th block of file `f`.
  ghost function Needed(s: State, f: nat, n: nat): nat
    requires Shape(s) && f < |s.files| && n < NSLOTS
  {
    if At(s, Nth(f, n)) != 0 then 0 else if n >= NDIRECT && s.files[f].indirect == 0 then 2 else 1
  }

  // Any number of blocks below its block count added to file `f`.
  ghost predicate Preserves(s: State, s': State, f: nat)
    requires Inv(s) && f < |s.files|
  {
    && Inv(s') && Pool(s') == Pool(s) && s'.nblocks == s.nblocks && |s'.files| == |s.files|
    && s'.files[f].size == s.files[f].size && KeepsBytes(s, s', f) && OthersSame(s, s', f)
  }

  lemma PreservesTrans(s: State, s1: State, s2: State, f: nat)
    requires Inv(s) && f < |s.files| && Preserves(s, s1, f) && Preserves(s1, s2, f)
    ensures Preserves(s, s2, f)
  {}

  // ---- writing bytes ---------------------------------------------------------------------

  function Patch(block: Block, o: nat, chunk: seq<Byte>): Block
    requires o + |chunk| <= |block|
  {
    block[..o] + chunk + block[o + |chunk|..]
  }

  ghost function Patched(s: State, b: nat, o: nat, chunk: seq<Byte>): State
    requires Shape(s) && b < s.nblocks && o + |chunk| <= BLKSIZE
  {
    s.(data := s.data[b := Patch(s.data[b], o, chunk)])
  }

  lemma PatchedKeepsInv(s: State, b: nat, o: nat, chunk: seq<Byte>)
    requires Inv(s) && b < s.nblocks && o + |chunk| <= BLKSIZE
    ensures Inv(Patched(s, b, o, chunk)) && Pool(Patched(s, b, o, chunk)) == Pool(s)
  {
    var s' := Patched(s, b, o, chunk);
    SameOwnership(s, s');
    forall f | 0 <= f < |s.files| ensures TailEmpty(s', f) {
      assert TailEmpty(s, f);
    }
  }

  // Same slots and same bitmap: same ownership.
  lemma SameOwnership(s: State, s': State)
    requires Shape(s) && Owned(s) && Shape(s') && s'.nblocks == s.nblocks && s'.bitmap == s.bitmap && |s'.files| == |s.files|
    requires forall x :: IsSlot(s, x) ==> At(s', x) == At(s, x)
    ensures Owned(s') && Pool(s') == Pool(s)
  {
    forall c ensures IsFree(s', c) <==> IsFree(s, c) {}
    forall c ensures Named(s', c) <==> Named(s, c) {
      if Named(s, c) {
        var x :| IsSlot(s, x) && At(s, x) == c;
        assert IsSlot(s', x) && At(s', x) == c;
      }
      if Named(s', c) {
        var x :| IsSlot(s', x) && At(s', x) == c;
        assert IsSlot(s, x) && At(s, x) == c;
      }
    }
  }

  // Bytes stored in one file's block show up in that file, at that place, and nowhere
  // else.
  lemma PatchedContent(s: State, f: nat, n: nat, o: nat, chunk: seq<Byte>, p: nat)
    requires Inv(s) && f < |s.files| && n < NSLOTS && At(s, Nth(f, n)) != 0 && o + |chunk| <= BLKSIZE
    ensures At(s, Nth(f, n)) < s.nblocks
    ensures Inv(Patched(s, At(s, Nth(f, n)), o, chunk))
    ensures p in Content(Patched(s, At(s, Nth(f, n)), o, chunk), f) <==> p in Content(s, f)
    ensures p in Content(s, f) ==>
              Content(Patched(s, At(s, Nth(f, n)), o, chunk), f)[p] ==
              if n * BLKSIZE + o <= p < n * BLKSIZE + o + |chunk| then chunk[p - n * BLKSIZE - o] else Content(s, f)[p]
  {
    var b := At(s, Nth(f, n));
    var s' := Patched(s, b, o, chunk);
    PatchedKeepsInv(s, b, o, chunk);
    PatchedByte(s, s', f, n, o, chunk, p);
  }

  lemma PatchedByte(s: State, s': State, f: nat, n: nat, o: nat, chunk: seq<Byte>, p: nat)
    requires Shape(s) && Owned(s) && f < |s.files| && n < NSLOTS && o + |chunk| <= BLKSIZE && 0 < At(s, Nth(f, n)) < s.nblocks
    requires s' == Patched(s, At(s, Nth(f, n)), o, chunk) && Shape(s') && Owned(s')
    ensures p in Content(s', f) <==> p in Content(s, f)
    ensures p in Content(s, f) ==>
              Content(s', f)[p] ==
              if n * BLKSIZE + o <= p < n * BLKSIZE + o + |chunk| then chunk[p - n * BLKSIZE - o] else Content(s, f)[p]
  {
    var m := p / BLKSIZE;
    if m < NSLOTS {
      assert At(s', Nth(f, m)) == At(s, Nth(f, m));
      assert m != n ==> Nth(f, m) != Nth(f, n);
    }
  }

  lemma PatchedOthers(s: State, f: nat, n: nat, o: nat, chunk: seq<Byte>)
    requires Inv(s) && f < |s.files| && n < NSLOTS && At(s, Nth(f, n)) != 0 && o + |chunk| <= BLKSIZE
    ensures At(s, Nth(f, n)) < s.nblocks
    ensures Inv(Patched(s, At(s, Nth(f, n)), o, chunk)) && OthersSame(s, Patched(s, At(s, Nth(f, n)), o, chunk), f)
  {
    var b := At(s, Nth(f, n));
    var s' := Patched(s, b, o, chunk);
    PatchedKeepsInv(s, b, o, chunk);
    forall g | 0 <= g < |s.files| && g != f ensures Content(s', g) == Content(s, g) {
      forall m | 0 <= m < NSLOTS && At(s, Nth(g, m)) != 0
        ensures At(s', Nth(g, m)) == At(s, Nth(g, m)) && s'.data[At(s, Nth(g, m))] == s.data[At(s, Nth(g, m))]
      {
        assert Nth(g, m) != Nth(f, n);
      }
    }
  }

  // `buf` is what the file holds from `offset` on.
  ghost predicate Holds(s: State, f: nat, offset: nat, buf: seq<Byte>)
    requires Shape(s) && Owned(s) && f < |s.files|
  {
    forall i :: 0 <= i < |buf| ==> HoldsAt(s, f, offset, buf, i)
  }

  ghost predicate HoldsAt(s: State, f: nat, offset: nat, buf: seq<Byte>, i: nat)
    requires Shape(s) && Owned(s) && f < |s.files| && i < |buf|
  {
    offset + i in Content(s, f) && Content(s, f)[offset + i] == buf[i]
  }

  ghost predicate Backed(s: State, f: nat, from: nat, to: nat)
    requires Shape(s) && Owned(s) && f < |s.files|
  {
    forall p :: from <= p < to ==> p in Content(s, f)
  }

  lemma HoldsKept(s: State, s': State, f: nat, offset: nat, buf: seq<Byte>)
    requires Shape(s) && Owned(s) && Shape(s') && Owned(s') && f < |s.files| && f < |s'.files|
    requires Holds(s, f, offset, buf) && KeepsBytes(s, s', f)
    ensures Holds(s', f, offset, buf)
  {
    forall i | 0 <= i < |buf| ensures HoldsAt(s', f, offset, buf, i) {
      assert HoldsAt(s, f, offset, buf, i);
    }
  }

  // One more block's worth of bytes.
  lemma HoldsMore(s: State, f: nat, offset: nat, buf: seq<Byte>, n: nat, o: nat, len: nat)
    requires Shape(s) && Owned(s) && f < |s.files| && Holds(s, f, offset, buf)
    requires n < NSLOTS && At(s, Nth(f, n)) != 0 && o + len <= BLKSIZE && offset + |buf| == n * BLKSIZE + o
    ensures At(s, Nth(f, n)) < s.nblocks
    ensures Holds(s, f, offset, buf + s.data[At(s, Nth(f, n))][o..o + len])
  {
    var more := s.data[At(s, Nth(f, n))][o..o + len];
    forall i | 0 <= i < |buf + more| ensures HoldsAt(s, f, offset, buf + more, i) {
      if i < |buf| {
        assert HoldsAt(s, f, offset, buf, i);
      } else {
        var p := offset + i;
        assert p == n * BLKSIZE + (o + i - |buf|);
        assert p / BLKSIZE == n && p % BLKSIZE == o + i - |buf|;
      }
    }
  }

  lemma BlockOfByte(p: nat, size: nat)
    requires p < size
    ensures p / BLKSIZE < NBlocks(size) && p == p / BLKSIZE * BLKSIZE + p % BLKSIZE
    ensures p / BLKSIZE < NSLOTS <==> p < NSLOTS * BLKSIZE
  {}

  // Outside the range written, bytes of file `f` that were backed are as before.
  ghost predicate KeepsOutside(s: State, s': State, f: nat, from: nat, to: nat)
    requires Shape(s) && Owned(s) && Shape(s') && Owned(s') && f < |s.files| && f < |s'.files|
  {
    forall p :: p in Content(s, f) && !(from <= p < to) ==> p in Content(s', f) && Content(s', f)[p] == Content(s, f)[p]
  }

  // `buf` has been written into file `f` at `offset`; no other byte of any file and
  // no size changed, and no block was lost.
  ghost predicate Wrote(s: State, s': State, f: nat, offset: nat, buf: seq<Byte>)
    requires Inv(s) && f < |s.files|
  {
    && Inv(s') && Pool(s') == Pool(s) && s'.nblocks == s.nblocks && |s'.files| == |s.files|
    && s'.files[f].size == s.files[f].size && OthersSame(s, s', f)
    && Holds(s', f, offset, buf) && KeepsOutside(s, s', f, offset, offset + |buf|)
  }

  lemma WroteMore(s: State, s1: State, s2: State, f: nat, offset: nat, buf: seq<Byte>, chunk: seq<Byte>, n: nat, o: nat)
    requires Inv(s) && f < |s.files| && Wrote(s, s1, f, offset, buf) && Preserves(s1, s2, f)
    requires n < NSLOTS && At(s2, Nth(f, n)) != 0 && o + |chunk| <= BLKSIZE && offset + |buf| == n * BLKSIZE + o
    ensures At(s2, Nth(f, n)) < s2.nblocks
    ensures Wrote(s, Patched(s2, At(s2, Nth(f, n)), o, chunk), f, offset, buf + chunk)
  {
    PatchedOthers(s2, f, n, o, chunk);
    var b := At(s2, Nth(f, n));
    var s3 := Patched(s2, b, o, chunk);
    PatchedKeepsInv(s2, b, o, chunk);
    WroteOthers(s, s1, s2, s3, f);
    HoldsKept(s1, s2, f, offset, buf);
    forall i | 0 <= i < |buf + chunk| ensures HoldsAt(s3, f, offset, buf + chunk, i) {
      WroteByte(s2, f, offset, buf, chunk, n, o, i);
    }
    forall p | p in Content(s, f) && !(offset <= p < offset + |buf + chunk|)
      ensures p in Content(s3, f) && Content(s3, f)[p] == Content(s, f)[p]
    {
      assert p in Content(s1, f) && p in Content(s2, f);
      PatchedContent(s2, f, n, o, chunk, p);
    }
  }

  lemma WroteOthers(s: State, s1: State, s2: State, s3: State, f: nat)
    requires Shape(s) && Owned(s) && Shape(s1) && Owned(s1) && Shape(s2) && Owned(s2) && Shape(s3) && Owned(s3)
    requires OthersSame(s, s1, f) && OthersSame(s1, s2, f) && OthersSame(s2, s3, f)
    ensures OthersSame(s, s3, f)
  {}

  lemma WroteByte(s2: State, f: nat, offset: nat, buf: seq<Byte>, chunk: seq<Byte>, n: nat, o: nat, i: nat)
    requires Inv(s2) && f < |s2.files| && Holds(s2, f, offset, buf)
    requires n < NSLOTS && At(s2, Nth(f, n)) != 0 && o + |chunk| <= BLKSIZE && offset + |buf| == n * BLKSIZE + o
    requires i < |buf + chunk|
    ensures At(s2, Nth(f, n)) < s2.nblocks
    ensures var s3 := Patched(s2, At(s2, Nth(f, n)), o, chunk);
            Inv(s3) && HoldsAt(s3, f, offset, buf + chunk, i)
  {
    PatchedContent(s2, f, n, o, chunk, offset + i);
    if i < |buf| {
      assert HoldsAt(s2, f, offset, buf, i);
    } else {
      var q := i - |buf| + o;
      assert offset + i == n * BLKSIZE + q && (offset + i) / BLKSIZE == n;
    }
  }

  // ---- giving blocks back ------------------------------------------------------------------

  // Blocks `from` to `to` of file `f` were given back; nothing else changed.
  ghost predicate Cleared(s: State, s': State, f: nat, from: nat, to: nat)
    requires Shape(s) && Owned(s) && f < |s.files|
  {
    && Shape(s') && Owned(s') && Pool(s') == Pool(s) && s'.nblocks == s.nblocks && |s'.files| == |s.files|
    && s'.data == s.data && s'.files[f].size == s.files[f].size
    && (forall g :: 0 <= g < |s.files| && g != f ==> s'.files[g] == s.files[g])
    && forall y :: IsSlot(s, y) ==> At(s', y) == if y.f == f && y.Nth? && from <= y.n < to then 0 else At(s, y)
  }

  lemma ClearedRefl(s: State, f: nat, from: nat, to: nat)
    requires Shape(s) && Owned(s) && f < |s.files|
    requires forall n :: from <= n < to && n < NSLOTS ==> At(s, Nth(f, n)) == 0
    ensures Cleared(s, s, f, from, to)
  {}

  lemma ClearedTrans(s: State, s1: State, s2: State, f: nat, from: nat, n: nat)
    requires Shape(s) && Owned(s) && f < |s.files| && from <= n
    requires Cleared(s, s1, f, from, n) && Cleared(s1, s2, f, n, n + 1)
    ensures Cleared(s, s2, f, from, n + 1)
  {}

  // free_block and the slot cleared after it.
  ghost function GaveBack(s: State, x: Slot): State
    requires Shape(s) && IsSlot(s, x) && At(s, x) < s.nblocks
    requires x.Nth? && x.n >= NDIRECT ==> 0 < s.files[x.f].indirect < s.nblocks
  {
    SetAt(SetBit(s, At(s, x), true), x, 0)
  }

  lemma GaveBackClears(s: State, f: nat, n: nat)
    requires Shape(s) && Owned(s) && f < |s.files| && n < NSLOTS && At(s, Nth(f, n)) != 0
    ensures n >= NDIRECT ==> 0 < s.files[f].indirect < s.nblocks
    ensures At(s, Nth(f, n)) < s.nblocks && Cleared(s, GaveBack(s, Nth(f, n)), f, n, n + 1)
  {
    var x := Nth(f, n);
    var b := At(s, x);
    var s1 := SetBit(s, b, true);
    var s' := GaveBack(s, x);
    SetBitFree(s, b, true);
    SetSlot(s, s1, x);
    assert OnlySlot(s, s', x, b, 0) && OnlyBit(s, s', b, true);
    GiveKeeps(s, s', x, b);
  }

  // SetNthAt with the bit already changed.
  lemma SetSlot(s: State, s1: State, x: Slot)
    requires Shape(s) && Owned(s) && Shape(s1) && IsSlot(s, x) && x.Nth? && At(s, x) != 0
    requires s1 == s.(bitmap := s1.bitmap)
    requires x.n >= NDIRECT ==> 0 < s.files[x.f].indirect < s.nblocks
    ensures Shape(SetAt(s1, x, 0))
    ensures forall y :: IsSlot(s, y) ==> At(SetAt(s1, x, 0), y) == if y == x then 0 else At(s, y)
  {
    SetNthAt(s, x, 0);
    assert forall y :: IsSlot(s, y) ==> At(SetAt(s1, x, 0), y) == At(SetAt(s, x, 0), y);
  }

  lemma GaveBackIndirect(s: State, f: nat)
    requires Shape(s) && Owned(s) && f < |s.files| && s.files[f].indirect != 0
    requires forall n :: NDIRECT <= n < NSLOTS ==> At(s, Nth(f, n)) == 0
    ensures At(s, Ind(f)) < s.nblocks
    ensures var s' := GaveBack(s, Ind(f));
            && Shape(s') && Owned(s') && Pool(s') == Pool(s) && s'.data == s.data
            && forall y :: IsSlot(s, y) ==> At(s', y) == if y == Ind(f) then 0 else At(s, y)
  {
    var b := At(s, Ind(f));
    var s' := GaveBack(s, Ind(f));
    SetBitFree(s, b, true);
    forall y | IsSlot(s, y) ensures At(s', y) == if y == Ind(f) then 0 else At(s, y) {}
    assert OnlySlot(s, s', Ind(f), b, 0) && OnlyBit(s, s', b, true);
    GiveKeeps(s, s', Ind(f), b);
  }

  // File `f` lost its blocks from `nb` on, and its indirect block if it has no more
  // use for it.
  ghost predicate Truncated(s: State, s': State, f: nat, nb: nat)
    requires Inv(s) && f < |s.files|
  {
    && Shape(s') && Owned(s') && Pool(s') == Pool(s) && s'.nblocks == s.nblocks && |s'.files| == |s.files|
    && s'.files[f].size == s.files[f].size && OthersSame(s, s', f)
    && (forall n :: nb <= n < NSLOTS ==> At(s', Nth(f, n)) == 0)
    && Content(s', f) == (map p | p in Content(s, f) && p < nb * BLKSIZE :: Content(s, f)[p])
    && (s'.files[f].indirect == 0 || (nb > NDIRECT && s'.files[f].indirect == s.files[f].indirect))
  }

  lemma TruncatedFrom(s: State, s': State, f: nat, nb: nat)
    requires Inv(s) && f < |s.files| && Shape(s') && Owned(s') && Pool(s') == Pool(s) && s'.nblocks == s.nblocks
    requires |s'.files| == |s.files| && s'.data == s.data && s'.files[f].size == s.files[f].size
    requires forall g :: 0 <= g < |s.files| && g != f ==> s'.files[g] == s.files[g]
    requires forall y :: IsSlot(s, y) && y != Ind(f) ==> At(s', y) == if y.f == f && y.Nth? && nb <= y.n then 0 else At(s, y)
    requires s'.files[f].indirect == 0 || (nb > NDIRECT && s'.files[f].indirect == s.files[f].indirect)
    ensures Truncated(s, s', f, nb)
  {
    forall g | 0 <= g < |s.files| && g != f ensures Content(s', g) == Content(s, g) {
      SameContent(s, s', g);
    }
    forall p: nat ensures p in Content(s', f) <==> p in Content(s, f) && p < nb * BLKSIZE
                  ensures p in Content(s', f) ==> Content(s', f)[p] == Content(s, f)[p]
    {
      if p < NSLOTS * BLKSIZE {
        assert IsSlot(s, Nth(f, p / BLKSIZE));
        assert p < nb * BLKSIZE <==> p / BLKSIZE < nb;
      }
    }
  }

  lemma SameContent(s: State, s': State, g: nat)
    requires Shape(s) && Owned(s) && Shape(s') && Owned(s') && g < |s.files| && g < |s'.files| && s'.data == s.data
    requires s'.nblocks == s.nblocks
    requires forall n :: 0 <= n < NSLOTS ==> At(s', Nth(g, n)) == At(s, Nth(g, n))
    ensures Content(s', g) == Content(s, g)
  {}

  // File `f` has its new size, and past it no blocks.
  ghost predicate Resized(s: State, s': State, f: nat, newsize: nat)
    requires Inv(s) && f < |s.files|
  {
    && Inv(s') && Pool(s') == Pool(s) && s'.nblocks == s.nblocks && |s'.files| == |s.files|
    && s'.files[f].size == newsize && OthersSame(s, s', f)
    && Content(s', f) ==
         if s.files[f].size > newsize then (map p | p in Content(s, f) && p < NBlocks(newsize) * BLKSIZE :: Content(s, f)[p])
         else Content(s, f)
  }

  ghost function SetSize(s: State, f: nat, size: nat): State
    requires f < |s.files|
  {
    s.(files := s.files[f := s.files[f].(size := size)])
  }

  lemma SetSizeKeeps(s: State, f: nat, size: nat)
    requires Shape(s) && Owned(s) && f < |s.files|
    ensures var s' := SetSize(s, f, size);
            && Shape(s') && Owned(s') && Pool(s') == Pool(s)
            && (forall x :: IsSlot(s, x) ==> At(s', x) == At(s, x))
            && (forall g :: 0 <= g < |s.files| ==> Content(s', g) == Content(s, g))
  {
    var s' := SetSize(s, f, size);
    SameOwnership(s, s');
    forall g | 0 <= g < |s.files| ensures Content(s', g) == Content(s, g) {
      SameContent(s, s', g);
    }
  }

  lemma TruncatedResized(s: State, s1: State, f: nat, newsize: nat)
    requires Inv(s) && f < |s.files| && s.files[f].size > newsize && Truncated(s, s1, f, NBlocks(newsize))
    ensures Resized(s, SetSize(s1, f, newsize), f, newsize)
  {
    SetSizeKeeps(s1, f, newsize);
    var s' := SetSize(s1, f, newsize);
    forall g | 0 <= g < |s'.files| ensures TailEmpty(s', g) {
      if g != f {
        OtherTail(s, s1, f, g);
      }
    }
  }

  lemma OtherTail(s: State, s1: State, f: nat, g: nat)
    requires Inv(s) && Shape(s1) && Owned(s1) && OthersSame(s, s1, f) && g < |s.files| && g != f && s1.nblocks == s.nblocks
    ensures TailEmpty(s1, g) && s1.files[g] == s.files[g]
  {
    assert TailEmpty(s, g) && Content(s1, g) == Content(s, g);
    forall n | NBlocks(s.files[g].size) <= n < NSLOTS ensures At(s1, Nth(g, n)) == 0 {
      assert At(s, Nth(g, n)) == 0;
      assert n * BLKSIZE !in Content(s, g);
    }
  }

  lemma GrownResized(s: State, f: nat, newsize: nat)
    requires Inv(s) && f < |s.files| && s.files[f].size <= newsize
    ensures Resized(s, SetSize(s, f, newsize), f, newsize)
  {
    SetSizeKeeps(s, f, newsize);
    var s' := SetSize(s, f, newsize);
    forall g | 0 <= g < |s'.files| ensures TailEmpty(s', g) {
      assert TailEmpty(s, g);
    }
  }

  // ---- the rounds of file_read and file_write ------------------------------------------------

  // Up to the end of the block or of the range, whichever comes first.
  function ChunkLength(pos: nat, end: nat): (bn: nat)
    requires pos < end
    ensures 0 < bn <= end - pos && pos % BLKSIZE + bn <= BLKSIZE
    ensures pos < NSLOTS * BLKSIZE ==> pos + bn <= NSLOTS * BLKSIZE
  {
    Min(BLKSIZE - pos % BLKSIZE, end - pos)
  }

  function Max(a: nat, b: nat): nat {
    if a < b then b else a
  }

  function Min(a: nat, b: nat): nat {
    if a < b then a else b
  }

  lemma HoldsChunk(s: State, s': State, f: nat, offset: nat, buf: seq<Byte>, pos: nat, end: nat, b: nat, bn: nat)
    requires Inv(s) && f < |s.files| && Preserves(s, s', f) && Holds(s, f, offset, buf) && offset + |buf| == pos < end
    requires pos < NSLOTS * BLKSIZE && 0 < b < s'.nblocks && At(s', Nth(f, pos / BLKSIZE)) == b && bn == ChunkLength(pos, end)
    ensures Holds(s', f, offset, buf + s'.data[b][pos % BLKSIZE..pos % BLKSIZE + bn])
  {
    HoldsKept(s, s', f, offset, buf);
    HoldsMore(s', f, offset, buf, pos / BLKSIZE, pos % BLKSIZE, bn);
  }

  lemma WroteChunk(s: State, s1: State, s2: State, f: nat, offset: nat, buf: seq<Byte>, pos: nat,
                   b: nat, bn: nat, chunk: seq<Byte>, next: nat, sofar: seq<Byte>)
    requires Inv(s) && f < |s.files| && offset <= pos < offset + |buf|
    requires Wrote(s, s1, f, offset, buf[..pos - offset]) && Preserves(s1, s2, f)
    requires pos < NSLOTS * BLKSIZE && 0 < b < s2.nblocks && At(s2, Nth(f, pos / BLKSIZE)) == b
    requires bn == ChunkLength(pos, offset + |buf|) && chunk == buf[pos - offset..pos - offset + bn]
    requires next == pos + bn && sofar == buf[..next - offset]
    ensures Wrote(s, Patched(s2, b, pos % BLKSIZE, chunk), f, offset, sofar)
  {
    WroteMore(s, s1, s2, f, offset, buf[..pos - offset], chunk, pos / BLKSIZE, pos % BLKSIZE);
    assert buf[..pos - offset] + chunk == sofar;
  }

  // What a range holds is determined: reading it after a write gives what was written.
  lemma HoldsOne(s: State, f: nat, offset: nat, buf: seq<Byte>, got: seq<Byte>)
    requires Shape(s) && Owned(s) && f < |s.files| && |got| == |buf|
    requires Holds(s, f, offset, buf) && Holds(s, f, offset, got)
    ensures got == buf
    ensures Backed(s, f, offset, offset + |buf|)
  {
    forall i | 0 <= i < |buf| ensures got[i] == buf[i] {
      assert HoldsAt(s, f, offset, buf, i) && HoldsAt(s, f, offset, got, i);
    }
    forall p | offset <= p < offset + |buf| ensures p in Content(s, f) {
      assert HoldsAt(s, f, offset, buf, p - offset);
    }
  }
}
