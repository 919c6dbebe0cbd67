// kern/alloc.c: a first-fit allocator over one arena.  Addresses count headers:
// 0 is `base`, which lies below the arena, and 1 to ARENA are the arena's units.
module Alloc {
  import opened Inc

  const SPACE_SIZE := 5 * 0x1000
  const HEADER := 12
  const ARENA := (SPACE_SIZE - HEADER) / HEADER
  const BASE := 0

  datatype Header = Header(next: int, prev: int, size: nat)

  // `list` is the free list in address order, `base` first; `used` the blocks handed
  // out and not yet freed.
  datatype State = State(hdr: seq<Header>, freep: int, list: seq<nat>, used: set<nat>)

  // The cyclic neighbours of list member `i`.
  function After(list: seq<nat>, i: nat): nat
    requires i < |list|
  {
    if i + 1 < |list| then list[i + 1] else list[0]
  }

  function Before(list: seq<nat>, i: nat): nat
    requires i < |list|
  {
    if i > 0 then list[i - 1] else list[|list| - 1]
  }

  ghost predicate IsBlock(s: State, b: nat) {
    b in s.used || (b in s.list && b != BASE)
  }

  ghost predicate Shape(s: State) {
    && |s.hdr| == ARENA + 1 && s.hdr[BASE].size == 0
    && |s.list| > 0 && s.list[0] == BASE
    && (forall i :: 0 <= i < |s.list| ==> s.list[i] <= ARENA)
    && (forall b :: b in s.used ==> b <= ARENA)
  }

  // The links of consecutive list members, cyclically.
  ghost predicate Linked(s: State)
    requires Shape(s)
  {
    forall i {:trigger s.hdr[s.list[i]]} :: 0 <= i < |s.list| ==>
      s.hdr[s.list[i]].next == After(s.list, i) && s.hdr[s.list[i]].prev == Before(s.list, i)
  }

  ghost predicate Ordered(list: seq<nat>) {
    forall i, j :: 0 <= i < j < |list| ==> list[i] < list[j]
  }

  // Free and used blocks lie in the arena, are not empty and do not overlap.
  ghost predicate Disjoint(s: State)
    requires Shape(s)
  {
    && (forall b :: b in s.used ==> b !in s.list)
    && (forall b: nat :: IsBlock(s, b) ==> 1 <= b && s.hdr[b].size >= 1 && b + s.hdr[b].size <= ARENA + 1)
    && (forall b: nat, c: nat :: IsBlock(s, b) && IsBlock(s, c) && b < c ==> b + s.hdr[b].size <= c)
  }

  ghost predicate Inv(s: State) {
    && Shape(s) && Linked(s) && Ordered(s.list) && Disjoint(s)
    && (exists i :: 0 <= i < |s.list| && s.freep == s.list[i])
  }

  // Unit `u` of the arena is inside block `b`.
  ghost predicate Within(s: State, b: nat, u: nat)
    requires Shape(s) && b <= ARENA
  {
    b <= u < b + s.hdr[b].size
  }

  ghost predicate FreeUnit(s: State, u: nat)
    requires Shape(s)
  {
    exists b :: b in s.list && Within(s, b, u)
  }

  ghost predicate UsedUnit(s: State, u: nat)
    requires Shape(s)
  {
    exists b :: b in s.used && Within(s, b, u)
  }

  function Units(nbytes: nat): nat {
    (nbytes + HEADER - 1) / HEADER + 1
  }

  // A block of that many units has room for the request behind its header.
  lemma UnitsSuffice(nbytes: nat)
    ensures (Units(nbytes) - 1) * HEADER >= nbytes
    ensures nbytes > 0 ==> (Units(nbytes) - 2) * HEADER < nbytes
  {}

  // ---- the steps of test_alloc ---------------------------------------------------

  ghost function SetNext(hdr: seq<Header>, p: nat, next: int): seq<Header>
    requires p < |hdr|
  {
    hdr[p := hdr[p].(next := next)]
  }

  ghost function SetPrev(hdr: seq<Header>, p: nat, prev: int): seq<Header>
    requires p < |hdr|
  {
    hdr[p := hdr[p].(prev := prev)]
  }

  ghost function SetSize(hdr: seq<Header>, p: nat, size: nat): seq<Header>
    requires p < |hdr|
  {
    hdr[p := hdr[p].(size := size)]
  }

  // Unlink list member `k`, of exactly the wanted size.
  ghost function TookWhole(s: State, k: nat): State
    requires Shape(s) && 1 <= k < |s.list|
  {
    var before, after := s.list[k - 1], After(s.list, k);
    State(SetPrev(SetNext(s.hdr, before, after), after, before), before,
          Without(s.list, k), s.used + {s.list[k]})
  }

  // Carve `n` units off the end of list member `k`.
  ghost function TookTail(s: State, k: nat, n: nat): State
    requires Shape(s) && Linked(s) && Disjoint(s) && 1 <= k < |s.list| && 1 <= n < s.hdr[s.list[k]].size
  {
    var p := s.list[k];
    var rest := s.hdr[p].size - n;
    State(SetSize(SetSize(s.hdr, p, rest), p + rest, n), s.list[k - 1], s.list, s.used + {p + rest})
  }

  function Without(list: seq<nat>, k: nat): seq<nat>
    requires k < |list|
  {
    list[..k] + list[k + 1..]
  }

  lemma NeighboursWithout(list: seq<nat>, k: nat, i: nat)
    requires 1 <= k < |list| && i < |list| - 1
    ensures var l, j := Without(list, k), if i < k then i else i + 1;
            && l[i] == list[j]
            && After(l, i) == (if i == k - 1 then After(list, k) else After(list, j))
            && Before(l, i) == (if i == (if k + 1 < |list| then k else 0) then list[k - 1] else Before(list, j))
  {}

  lemma UnlinkedAt(s: State, k: nat, i: nat)
    requires Shape(s) && Linked(s) && Ordered(s.list) && 1 <= k < |s.list| && i < |s.list| - 1
    ensures var s' := TookWhole(s, k);
            s'.hdr[s'.list[i]].next == After(s'.list, i) && s'.hdr[s'.list[i]].prev == Before(s'.list, i)
  {
    var j := if i < k then i else i + 1;
    assert s.hdr[s.list[j]].next == After(s.list, j) && s.hdr[s.list[j]].prev == Before(s.list, j);
    SameMember(s.list, j, k - 1);
    SameMember(s.list, j, if k + 1 < |s.list| then k + 1 else 0);
    NeighboursWithout(s.list, k, i);
  }

  lemma SameMember(list: seq<nat>, i: nat, j: nat)
    requires Ordered(list) && i < |list| && j < |list|
    ensures list[i] == list[j] <==> i == j
  {}

  lemma WithoutMembers(list: seq<nat>, k: nat)
    requires Ordered(list) && 1 <= k < |list|
    ensures Ordered(Without(list, k)) && Without(list, k)[0] == list[0]
    ensures forall b :: b in Without(list, k) <==> b in list && b != list[k]
  {
    var l := Without(list, k);
    forall b ensures b in l <==> b in list && b != list[k] {
      if b in list && b != list[k] {
        var j :| 0 <= j < |list| && list[j] == b;
        assert l[if j < k then j else j - 1] == b;
      }
    }
  }

  lemma TookWholeLinked(s: State, k: nat)
    requires Shape(s) && Linked(s) && Ordered(s.list) && 1 <= k < |s.list|
    ensures Shape(TookWhole(s, k)) && Linked(TookWhole(s, k))
  {
    var s' := TookWhole(s, k);
    WithoutMembers(s.list, k);
    forall i | 0 <= i < |s'.list|
      ensures s'.hdr[s'.list[i]].next == After(s'.list, i) && s'.hdr[s'.list[i]].prev == Before(s'.list, i)
    {
      UnlinkedAt(s, k, i);
    }
  }

  lemma TookWholeKeepsInv(s: State, k: nat)
    requires Inv(s) && 1 <= k < |s.list|
    ensures Inv(TookWhole(s, k))
  {
    var s' := TookWhole(s, k);
    TookWholeLinked(s, k);
    TookWholeBlocks(s, k);
    assert s'.freep == s'.list[k - 1];
  }

  lemma TookWholeBlocks(s: State, k: nat)
    requires Shape(s) && Ordered(s.list) && Disjoint(s) && 1 <= k < |s.list| && Shape(TookWhole(s, k))
    ensures Ordered(TookWhole(s, k).list) && Disjoint(TookWhole(s, k))
  {
    WithoutMembers(s.list, k);
    SameBlocks(s, TookWhole(s, k));
  }

  // Blocks moving between free and used, all sizes unchanged, stay disjoint.
  lemma SameBlocks(s: State, s': State)
    requires Shape(s) && Shape(s') && Disjoint(s)
    requires forall b :: b in s'.used ==> b !in s'.list
    requires forall b :: IsBlock(s', b) ==> IsBlock(s, b)
    requires forall b: nat :: b <= ARENA ==> s'.hdr[b].size == s.hdr[b].size
    ensures Disjoint(s')
  {}

  lemma NoBlockInside(s: State, b: nat, u: nat)
    requires Shape(s) && Disjoint(s) && IsBlock(s, b) && b < u < b + s.hdr[b].size
    ensures !IsBlock(s, u)
  {
    if IsBlock(s, u) {
      assert false;
    }
  }

  lemma TookTailLinked(s: State, k: nat, n: nat)
    requires Inv(s) && 1 <= k < |s.list| && 1 <= n < s.hdr[s.list[k]].size
    ensures var s' := TookTail(s, k, n);
            Shape(s') && Linked(s') && Ordered(s'.list) && s'.freep == s'.list[k - 1]
  {
    var s' := TookTail(s, k, n);
    var p := s.list[k];
    assert IsBlock(s, p);
    NoBlockInside(s, p, p + s.hdr[p].size - n);
  }

  lemma TookTailApart(s: State, k: nat, n: nat, b: nat, c: nat)
    requires Inv(s) && 1 <= k < |s.list| && 1 <= n < s.hdr[s.list[k]].size
    requires var s' := TookTail(s, k, n); Shape(s') && IsBlock(s', b) && IsBlock(s', c) && b < c
    ensures b + TookTail(s, k, n).hdr[b].size <= c
  {
    var p := s.list[k];
    assert IsBlock(s, p);
    var q := p + s.hdr[p].size - n;
    if b != q && c != q {
      assert IsBlock(s, b) && IsBlock(s, c);
    } else if b == q {
      assert IsBlock(s, c) && p < c;
    } else {
      assert IsBlock(s, b);
    }
  }

  lemma TookTailBlocks(s: State, k: nat, n: nat)
    requires Inv(s) && 1 <= k < |s.list| && 1 <= n < s.hdr[s.list[k]].size
    requires Shape(TookTail(s, k, n))
    ensures Disjoint(TookTail(s, k, n))
  {
    var s' := TookTail(s, k, n);
    var p := s.list[k];
    assert IsBlock(s, p);
    NoBlockInside(s, p, p + s.hdr[p].size - n);
    forall b: nat | IsBlock(s', b) ensures 1 <= b && s'.hdr[b].size >= 1 && b + s'.hdr[b].size <= ARENA + 1 {
      if b != p + s.hdr[p].size - n {
        assert IsBlock(s, b);
      }
    }
    forall b: nat, c: nat | IsBlock(s', b) && IsBlock(s', c) && b < c ensures b + s'.hdr[b].size <= c {
      TookTailApart(s, k, n, b, c);
    }
  }

  lemma TookTailKeepsInv(s: State, k: nat, n: nat)
    requires Inv(s) && 1 <= k < |s.list| && 1 <= n < s.hdr[s.list[k]].size
    ensures Inv(TookTail(s, k, n))
  {
    TookTailLinked(s, k, n);
    TookTailBlocks(s, k, n);
  }

  // ---- the steps of test_free ------------------------------------------------------

  // `i` is the last list member below block `b`.
  ghost predicate Below(s: State, i: nat, b: nat) {
    i < |s.list| && s.list[i] < b && (i + 1 < |s.list| ==> b < s.list[i + 1])
  }

  // Join with the free block just below.
  ghost function JoinedLower(s: State, i: nat, b: nat): State
    requires Shape(s) && i < |s.list| && b <= ARENA
  {
    var p := s.list[i];
    State(SetSize(s.hdr, p, s.hdr[p].size + s.hdr[b].size), p, s.list, s.used - {b})
  }

  // Link in between two neighbours.
  ghost function Inserted(s: State, i: nat, b: nat): State
    requires Shape(s) && i < |s.list| && b <= ARENA
  {
    var p, next := s.list[i], After(s.list, i);
    var h := SetPrev(SetNext(s.hdr, b, next), b, p);
    State(SetNext(SetPrev(h, next, b), p, b), p, With(s.list, i, b), s.used - {b})
  }

  // "Join" with the free block just above: only the freed block's own header is
  // written, and nothing in the list leads to it.
  ghost function Lost(s: State, i: nat, b: nat): State
    requires Shape(s) && i < |s.list| && b <= ARENA
  {
    var next := After(s.list, i);
    var h := SetSize(s.hdr, b, s.hdr[b].size + s.hdr[next].size);
    State(SetPrev(SetNext(h, b, s.hdr[next].next), b, s.hdr[next].prev), s.list[i], s.list, s.used - {b})
  }

  function With(list: seq<nat>, i: nat, b: nat): seq<nat>
    requires i < |list|
  {
    list[..i + 1] + [b] + list[i + 1..]
  }

  lemma WithMembers(list: seq<nat>, i: nat, b: nat)
    requires Ordered(list) && i < |list| && list[i] < b && (i + 1 < |list| ==> b < list[i + 1])
    ensures Ordered(With(list, i, b)) && With(list, i, b)[0] == list[0]
    ensures forall c :: c in With(list, i, b) <==> c in list || c == b
  {
    var l := With(list, i, b);
    forall c ensures c in l <==> c in list || c == b {
      if c in list {
        var j :| 0 <= j < |list| && list[j] == c;
        assert l[if j <= i then j else j + 1] == c;
      }
      assert l[i + 1] == b;
    }
  }

  lemma NeighboursWith(list: seq<nat>, i: nat, b: nat, j: nat)
    requires i < |list| && j < |list|
    ensures var l, m := With(list, i, b), if j <= i then j else j + 1;
            && l[m] == list[j]
            && After(l, m) == (if j == i then b else After(list, j))
            && Before(l, m) == (if j == (if i + 1 < |list| then i + 1 else 0) then b else Before(list, j))
    ensures With(list, i, b)[i + 1] == b && After(With(list, i, b), i + 1) == After(list, i)
    ensures Before(With(list, i, b), i + 1) == list[i]
  {}

  lemma InsertedAt(s: State, i: nat, b: nat, j: nat)
    requires Shape(s) && Linked(s) && Ordered(s.list) && Below(s, i, b) && b <= ARENA && b !in s.list && j < |s.list|
    ensures var s', p := Inserted(s, i, b), s.list[j];
            && s'.hdr[p].next == (if j == i then b else After(s.list, j))
            && s'.hdr[p].prev == (if j == (if i + 1 < |s.list| then i + 1 else 0) then b else Before(s.list, j))
            && s'.hdr[b].next == After(s.list, i) && s'.hdr[b].prev == s.list[i]
  {
    var p := s.list[j];
    assert s.hdr[s.list[j]].next == After(s.list, j) && s.hdr[s.list[j]].prev == Before(s.list, j);
    SameMember(s.list, j, i);
    SameMember(s.list, j, if i + 1 < |s.list| then i + 1 else 0);
    assert p != b && After(s.list, i) != b;
  }

  lemma InsertedShape(s: State, i: nat, b: nat)
    requires Shape(s) && Linked(s) && Ordered(s.list) && Below(s, i, b) && b <= ARENA && b !in s.list
    ensures Shape(Inserted(s, i, b))
  {
    var s' := Inserted(s, i, b);
    WithMembers(s.list, i, b);
    forall m | 0 <= m < |s'.list| ensures s'.list[m] <= ARENA {
      assert s'.list[m] in s'.list;
    }
  }

  lemma InsertedLinkAt(s: State, i: nat, b: nat, m: nat)
    requires Shape(s) && Linked(s) && Ordered(s.list) && Below(s, i, b) && b <= ARENA && b !in s.list
    requires Shape(Inserted(s, i, b)) && m < |With(s.list, i, b)|
    ensures var s' := Inserted(s, i, b);
            s'.hdr[s'.list[m]].next == After(s'.list, m) && s'.hdr[s'.list[m]].prev == Before(s'.list, m)
  {
    var j := if m <= i then m else if m == i + 1 then i else m - 1;
    InsertedAt(s, i, b, j);
    NeighboursWith(s.list, i, b, j);
  }

  lemma InsertedLinked(s: State, i: nat, b: nat)
    requires Shape(s) && Linked(s) && Ordered(s.list) && Below(s, i, b) && b <= ARENA && b !in s.list
    ensures Shape(Inserted(s, i, b)) && Linked(Inserted(s, i, b))
  {
    var s' := Inserted(s, i, b);
    InsertedShape(s, i, b);
    forall m | 0 <= m < |s'.list|
      ensures s'.hdr[s'.list[m]].next == After(s'.list, m) && s'.hdr[s'.list[m]].prev == Before(s'.list, m)
    {
      InsertedLinkAt(s, i, b, m);
    }
  }

  lemma InsertedKeepsInv(s: State, i: nat, b: nat)
    requires Inv(s) && Below(s, i, b) && b in s.used
    ensures Inv(Inserted(s, i, b))
  {
    var s' := Inserted(s, i, b);
    assert IsBlock(s, b);
    InsertedLinked(s, i, b);
    InsertedParts(s, i, b);
    SameBlocks(s, s');
    assert s'.freep == s'.list[i];
  }

  lemma InsertedParts(s: State, i: nat, b: nat)
    requires Shape(s) && Ordered(s.list) && Below(s, i, b) && b <= ARENA
    ensures var s' := Inserted(s, i, b);
            && |s'.hdr| == |s.hdr| && Ordered(s'.list) && s'.list[i] == s.list[i]
            && (forall c :: c in s'.list <==> c in s.list || c == b)
            && (forall c: nat :: c <= ARENA ==> s'.hdr[c].size == s.hdr[c].size)
  {
    WithMembers(s.list, i, b);
    NeighboursWith(s.list, i, b, i);
  }

  lemma JoinedLowerKeepsInv(s: State, i: nat, b: nat)
    requires Inv(s) && Below(s, i, b) && b in s.used && s.list[i] + s.hdr[s.list[i]].size == b
    ensures Inv(JoinedLower(s, i, b))
  {
    var s', p := JoinedLower(s, i, b), s.list[i];
    assert p != BASE && IsBlock(s, p) && IsBlock(s, b);
    forall c: nat, d: nat | IsBlock(s', c) && IsBlock(s', d) && c < d ensures c + s'.hdr[c].size <= d {
      assert IsBlock(s, c) && IsBlock(s, d);
    }
    assert s'.freep == s'.list[i];
  }

  lemma LostKeepsInv(s: State, i: nat, b: nat)
    requires Inv(s) && Below(s, i, b) && b in s.used
    ensures Inv(Lost(s, i, b))
  {
    var s' := Lost(s, i, b);
    assert IsBlock(s, b);
    assert forall c :: IsBlock(s', c) ==> IsBlock(s, c) && c != b;
    assert s'.freep == s'.list[i];
  }

  // ---- which units are where ------------------------------------------------------------

  ghost predicate InRange(b: nat, n: nat, u: nat) {
    b <= u < b + n
  }

  // Allocation moves exactly one run of units from free to used.
  ghost predicate UnitsTaken(s: State, s': State, b: nat, n: nat)
    requires Shape(s) && Shape(s')
  {
    && (forall u :: InRange(b, n, u) ==> FreeUnit(s, u))
    && (forall u :: FreeUnit(s', u) <==> FreeUnit(s, u) && !InRange(b, n, u))
    && (forall u :: UsedUnit(s', u) <==> UsedUnit(s, u) || InRange(b, n, u))
  }

  // Freeing moves one run of units from used to free, unless it is lost.
  ghost predicate UnitsGiven(s: State, s': State, b: nat, n: nat, lost: bool)
    requires Shape(s) && Shape(s')
  {
    && (forall u :: InRange(b, n, u) ==> UsedUnit(s, u))
    && (forall u :: UsedUnit(s', u) <==> UsedUnit(s, u) && !InRange(b, n, u))
    && (forall u :: FreeUnit(s', u) <==> FreeUnit(s, u) || (InRange(b, n, u) && !lost))
  }

  lemma TookWholeUnits(s: State, k: nat)
    requires Inv(s) && 1 <= k < |s.list|
    ensures Inv(TookWhole(s, k)) && UnitsTaken(s, TookWhole(s, k), s.list[k], s.hdr[s.list[k]].size)
  {
    var s', p := TookWhole(s, k), s.list[k];
    TookWholeKeepsInv(s, k);
    TookWholeParts(s, k);
    EveryMovedUnit(s, s', p);
  }

  lemma TookWholeParts(s: State, k: nat)
    requires Shape(s) && Ordered(s.list) && 1 <= k < |s.list|
    ensures var s', p := TookWhole(s, k), s.list[k];
            && p != BASE
            && (forall b :: b in s'.list <==> b in s.list && b != p)
            && (forall b :: b in s'.used <==> b in s.used || b == p)
            && |s'.hdr| == |s.hdr| && (forall b: nat :: b <= ARENA ==> s'.hdr[b].size == s.hdr[b].size)
  {
    WithoutMembers(s.list, k);
  }

  lemma EveryMovedUnit(s: State, s': State, p: nat)
    requires Shape(s) && Shape(s') && Disjoint(s) && p in s.list && p != BASE
    requires forall b :: b in s'.list <==> b in s.list && b != p
    requires forall b :: b in s'.used <==> b in s.used || b == p
    requires forall b: nat :: b <= ARENA ==> s'.hdr[b].size == s.hdr[b].size
    ensures p <= ARENA && UnitsTaken(s, s', p, s.hdr[p].size)
  {
    forall u
      ensures InRange(p, s.hdr[p].size, u) ==> FreeUnit(s, u)
      ensures FreeUnit(s', u) <==> FreeUnit(s, u) && !InRange(p, s.hdr[p].size, u)
      ensures UsedUnit(s', u) <==> UsedUnit(s, u) || InRange(p, s.hdr[p].size, u)
    {
      MovedUnit(s, s', p, u);
    }
  }

  // Block `p` moved from the list to the used blocks.
  lemma MovedUnit(s: State, s': State, p: nat, u: nat)
    requires Shape(s) && Shape(s') && Disjoint(s) && p in s.list && p != BASE
    requires forall b :: b in s'.list <==> b in s.list && b != p
    requires forall b :: b in s'.used <==> b in s.used || b == p
    requires forall b: nat :: b <= ARENA ==> s'.hdr[b].size == s.hdr[b].size
    ensures Within(s, p, u) ==> FreeUnit(s, u)
    ensures FreeUnit(s', u) <==> FreeUnit(s, u) && !Within(s, p, u)
    ensures UsedUnit(s', u) <==> UsedUnit(s, u) || Within(s, p, u)
  {
    MovedFree(s, s', p, u);
    if UsedUnit(s, u) {
      var b :| b in s.used && Within(s, b, u);
      assert b in s'.used && Within(s', b, u);
    }
    if UsedUnit(s', u) {
      var b :| b in s'.used && Within(s', b, u);
      assert Within(s, b, u);
    }
    assert Within(s, p, u) ==> p in s'.used && Within(s', p, u);
  }

  lemma MovedFree(s: State, s': State, p: nat, u: nat)
    requires Shape(s) && Shape(s') && Disjoint(s) && p in s.list && p != BASE
    requires forall b :: b in s'.list <==> b in s.list && b != p
    requires forall b: nat :: b <= ARENA ==> s'.hdr[b].size == s.hdr[b].size
    ensures Within(s, p, u) ==> FreeUnit(s, u)
    ensures FreeUnit(s', u) <==> FreeUnit(s, u) && !Within(s, p, u)
  {
    assert IsBlock(s, p);
    if FreeUnit(s', u) {
      var b :| b in s'.list && Within(s', b, u);
      assert b in s.list && Within(s, b, u);
      assert b != BASE && IsBlock(s, b);
    }
    if FreeUnit(s, u) && !Within(s, p, u) {
      var b :| b in s.list && Within(s, b, u);
      assert b in s'.list && Within(s', b, u);
    }
  }

  lemma TookTailUnits(s: State, k: nat, n: nat)
    requires Inv(s) && 1 <= k < |s.list| && 1 <= n < s.hdr[s.list[k]].size
    ensures var p := s.list[k];
            Inv(TookTail(s, k, n)) && UnitsTaken(s, TookTail(s, k, n), p + s.hdr[p].size - n, n)
  {
    var s', p := TookTail(s, k, n), s.list[k];
    TookTailKeepsInv(s, k, n);
    assert IsBlock(s, p);
    forall u
      ensures InRange(p + s.hdr[p].size - n, n, u) ==> FreeUnit(s, u)
      ensures FreeUnit(s', u) <==> FreeUnit(s, u) && !InRange(p + s.hdr[p].size - n, n, u)
      ensures UsedUnit(s', u) <==> UsedUnit(s, u) || InRange(p + s.hdr[p].size - n, n, u)
    {
      SplitUnit(s, s', p, n, u);
    }
  }

  lemma SplitUnit(s: State, s': State, p: nat, n: nat, u: nat)
    requires Shape(s) && Shape(s') && Disjoint(s) && p in s.list && p != BASE && 1 <= n < s.hdr[p].size
    requires p + s.hdr[p].size - n <= ARENA && !IsBlock(s, p + s.hdr[p].size - n)
    requires s'.list == s.list && s'.used == s.used + {p + s.hdr[p].size - n}
    requires s'.hdr == SetSize(SetSize(s.hdr, p, s.hdr[p].size - n), p + s.hdr[p].size - n, n)
    ensures InRange(p + s.hdr[p].size - n, n, u) ==> FreeUnit(s, u)
    ensures FreeUnit(s', u) <==> FreeUnit(s, u) && !InRange(p + s.hdr[p].size - n, n, u)
    ensures UsedUnit(s', u) <==> UsedUnit(s, u) || InRange(p + s.hdr[p].size - n, n, u)
  {
    if InRange(p + s.hdr[p].size - n, n, u) {
      assert Within(s, p, u);
    }
    SplitFree(s, s', p, p + s.hdr[p].size - n, n, u);
    SplitUsed(s, s', p, n, u);
  }

  lemma SplitFree(s: State, s': State, p: nat, r: nat, n: nat, u: nat)
    requires Shape(s) && Shape(s') && Disjoint(s) && p in s.list && p != BASE && 1 <= n < s.hdr[p].size
    requires r == p + s.hdr[p].size - n <= ARENA && !IsBlock(s, r)
    requires s'.list == s.list && s'.hdr == SetSize(SetSize(s.hdr, p, s.hdr[p].size - n), r, n)
    ensures FreeUnit(s', u) <==> FreeUnit(s, u) && !InRange(r, n, u)
  {
    assert IsBlock(s, p);
    if FreeUnit(s', u) {
      var b :| b in s'.list && Within(s', b, u);
      assert b in s.list && Within(s, b, u);
      assert b != p ==> IsBlock(s, b);
    }
    if FreeUnit(s, u) && !InRange(r, n, u) {
      var b :| b in s.list && Within(s, b, u);
      assert b in s'.list && Within(s', b, u);
    }
  }

  lemma SplitUsed(s: State, s': State, p: nat, n: nat, u: nat)
    requires Shape(s) && Shape(s') && Disjoint(s) && p in s.list && p != BASE && 1 <= n < s.hdr[p].size
    requires p + s.hdr[p].size - n <= ARENA && !IsBlock(s, p + s.hdr[p].size - n)
    requires s'.used == s.used + {p + s.hdr[p].size - n}
    requires s'.hdr == SetSize(SetSize(s.hdr, p, s.hdr[p].size - n), p + s.hdr[p].size - n, n)
    ensures UsedUnit(s', u) <==> UsedUnit(s, u) || InRange(p + s.hdr[p].size - n, n, u)
  {
    var r := p + s.hdr[p].size - n;
    if UsedUnit(s, u) {
      var b :| b in s.used && Within(s, b, u);
      assert b != p && b != r && b in s'.used && Within(s', b, u);
    }
    if UsedUnit(s', u) && !InRange(r, n, u) {
      var b :| b in s'.used && Within(s', b, u);
      assert b != r && b in s.used && b != p && Within(s, b, u);
    }
    if InRange(r, n, u) {
      assert r in s'.used && Within(s', r, u);
    }
  }

  lemma UsedGone(s: State, s': State, b: nat, u: nat)
    requires Shape(s) && Shape(s') && Disjoint(s) && b in s.used && s'.used == s.used - {b}
    requires forall c :: c in s'.used ==> s'.hdr[c].size == s.hdr[c].size
    ensures Within(s, b, u) ==> UsedUnit(s, u)
    ensures UsedUnit(s', u) <==> UsedUnit(s, u) && !Within(s, b, u)
  {
    if UsedUnit(s', u) {
      var c :| c in s'.used && Within(s', c, u);
      assert Within(s, c, u) && IsBlock(s, c) && IsBlock(s, b);
    }
    if UsedUnit(s, u) && !Within(s, b, u) {
      var c :| c in s.used && Within(s, c, u);
      assert c in s'.used && Within(s', c, u);
    }
  }

  lemma InsertedUnits(s: State, i: nat, b: nat)
    requires Inv(s) && Below(s, i, b) && b in s.used
    ensures Inv(Inserted(s, i, b)) && UnitsGiven(s, Inserted(s, i, b), b, s.hdr[b].size, false)
  {
    var s' := Inserted(s, i, b);
    assert IsBlock(s, b);
    InsertedKeepsInv(s, i, b);
    InsertedParts(s, i, b);
    EveryInsertedUnit(s, s', b);
  }

  lemma EveryInsertedUnit(s: State, s': State, b: nat)
    requires Shape(s) && Shape(s') && Disjoint(s) && Disjoint(s') && b in s.used && s'.used == s.used - {b}
    requires forall c :: c in s'.list <==> c in s.list || c == b
    requires forall c: nat :: c <= ARENA ==> s'.hdr[c].size == s.hdr[c].size
    ensures UnitsGiven(s, s', b, s.hdr[b].size, false)
  {
    forall u
      ensures InRange(b, s.hdr[b].size, u) ==> UsedUnit(s, u)
      ensures UsedUnit(s', u) <==> UsedUnit(s, u) && !InRange(b, s.hdr[b].size, u)
      ensures FreeUnit(s', u) <==> FreeUnit(s, u) || InRange(b, s.hdr[b].size, u)
    {
      InsertedUnit(s, s', b, u);
    }
  }

  lemma InsertedUnit(s: State, s': State, b: nat, u: nat)
    requires Shape(s) && Shape(s') && Disjoint(s) && Disjoint(s') && b in s.used && s'.used == s.used - {b}
    requires forall c :: c in s'.list <==> c in s.list || c == b
    requires forall c: nat :: c <= ARENA ==> s'.hdr[c].size == s.hdr[c].size
    ensures Within(s, b, u) ==> UsedUnit(s, u)
    ensures UsedUnit(s', u) <==> UsedUnit(s, u) && !Within(s, b, u)
    ensures FreeUnit(s', u) <==> FreeUnit(s, u) || Within(s, b, u)
  {
    assert IsBlock(s, b);
    UsedGone(s, s', b, u);
    MovedFree(s', s, b, u);
    if Within(s, b, u) {
      NotBoth(s, b, u);
    }
  }

  // A unit of a used block is not free.
  lemma NotBoth(s: State, b: nat, u: nat)
    requires Shape(s) && Disjoint(s) && b in s.used && Within(s, b, u)
    ensures !FreeUnit(s, u)
  {
    forall c | c in s.list ensures !Within(s, c, u) {
      if c != BASE {
        assert IsBlock(s, c) && IsBlock(s, b);
      }
    }
  }

  lemma JoinedUnits(s: State, i: nat, b: nat)
    requires Inv(s) && Below(s, i, b) && b in s.used && s.list[i] + s.hdr[s.list[i]].size == b
    ensures Inv(JoinedLower(s, i, b)) && UnitsGiven(s, JoinedLower(s, i, b), b, s.hdr[b].size, false)
  {
    var s', p := JoinedLower(s, i, b), s.list[i];
    JoinedLowerKeepsInv(s, i, b);
    assert IsBlock(s, b) && p != BASE && IsBlock(s, p);
    forall u
      ensures InRange(b, s.hdr[b].size, u) ==> UsedUnit(s, u)
      ensures UsedUnit(s', u) <==> UsedUnit(s, u) && !InRange(b, s.hdr[b].size, u)
      ensures FreeUnit(s', u) <==> FreeUnit(s, u) || InRange(b, s.hdr[b].size, u)
    {
      UsedGone(s, s', b, u);
      JoinedFree(s, s', p, b, u);
    }
  }

  lemma JoinedFree(s: State, s': State, p: nat, b: nat, u: nat)
    requires Shape(s) && Shape(s') && p in s.list && b <= ARENA && p + s.hdr[p].size == b && s'.list == s.list
    requires s'.hdr == SetSize(s.hdr, p, s.hdr[p].size + s.hdr[b].size)
    ensures FreeUnit(s', u) <==> FreeUnit(s, u) || Within(s, b, u)
  {
    if FreeUnit(s', u) {
      var c :| c in s'.list && Within(s', c, u);
      assert c == p || Within(s, c, u);
      if c == p {
        assert Within(s, p, u) || Within(s, b, u);
      }
    }
    if FreeUnit(s, u) {
      var c :| c in s.list && Within(s, c, u);
      assert c in s'.list && Within(s', c, u);
    }
    if Within(s, b, u) {
      assert p in s'.list && Within(s', p, u);
    }
  }

  lemma LostUnits(s: State, i: nat, b: nat)
    requires Inv(s) && Below(s, i, b) && b in s.used
    ensures Inv(Lost(s, i, b)) && UnitsGiven(s, Lost(s, i, b), b, s.hdr[b].size, true)
  {
    var s' := Lost(s, i, b);
    LostKeepsInv(s, i, b);
    assert IsBlock(s, b);
    forall u
      ensures InRange(b, s.hdr[b].size, u) ==> UsedUnit(s, u)
      ensures UsedUnit(s', u) <==> UsedUnit(s, u) && !InRange(b, s.hdr[b].size, u)
      ensures FreeUnit(s', u) <==> FreeUnit(s, u)
    {
      UsedGone(s, s', b, u);
      SameFree(s, s', u);
    }
  }

  lemma SameFree(s: State, s': State, u: nat)
    requires Shape(s) && Shape(s') && s'.list == s.list
    requires forall c :: c in s.list ==> s'.hdr[c].size == s.hdr[c].size
    ensures FreeUnit(s', u) <==> FreeUnit(s, u)
  {
    if FreeUnit(s', u) {
      var c :| c in s'.list && Within(s', c, u);
      assert c in s.list && Within(s, c, u);
    }
    if FreeUnit(s, u) {
      var c :| c in s.list && Within(s, c, u);
      assert c in s'.list && Within(s', c, u);
    }
  }

  // Block `b` of `n` units was taken from the free units and handed out.
  ghost predicate Handed(s: State, s': State, b: nat, n: nat)
    requires Shape(s)
  {
    && Inv(s') && b <= ARENA && b !in s.used && s'.used == s.used + {b} && s'.hdr[b].size == n
    && UnitsTaken(s, s', b, n) && forall c :: c in s.used ==> s'.hdr[c].size == s.hdr[c].size
  }

  ghost predicate NoneFits(s: State, n: nat)
    requires Shape(s)
  {
    forall b :: b in s.list ==> s.hdr[b].size < n
  }

  lemma TookWholeHands(s: State, k: nat)
    requires Inv(s) && 1 <= k < |s.list|
    ensures Handed(s, TookWhole(s, k), s.list[k], s.hdr[s.list[k]].size)
  {
    assert IsBlock(s, s.list[k]);
    TookWholeUnits(s, k);
  }

  lemma TookTailHands(s: State, k: nat, n: nat)
    requires Inv(s) && 1 <= k < |s.list| && 1 <= n < s.hdr[s.list[k]].size
    ensures s.list[k] + s.hdr[s.list[k]].size - n <= ARENA
    ensures Handed(s, TookTail(s, k, n), s.list[k] + s.hdr[s.list[k]].size - n, n)
  {
    assert IsBlock(s, s.list[k]);
    NoBlockInside(s, s.list[k], s.list[k] + s.hdr[s.list[k]].size - n);
    TookTailUnits(s, k, n);
    assert forall c :: c in s.used ==> IsBlock(s, c) && c != s.list[k];
  }

  // Block `b` was freed: exactly its units left the used ones, and they are free unless
  // the block directly above was.
  ghost predicate Returned(s: State, s': State, b: nat)
    requires Shape(s) && b <= ARENA
  {
    && Inv(s') && s'.used == s.used - {b}
    && UnitsGiven(s, s', b, s.hdr[b].size, b + s.hdr[b].size in s.list)
    && forall c :: c in s'.used ==> s'.hdr[c].size == s.hdr[c].size
  }

  // The next list member is directly above `b` exactly when some free block is.
  lemma DirectlyAbove(s: State, i: nat, b: nat)
    requires Inv(s) && Below(s, i, b) && b in s.used
    ensures b + s.hdr[b].size == After(s.list, i) <==> b + s.hdr[b].size in s.list
  {
    assert IsBlock(s, b);
    forall j | 0 <= j <= i ensures s.list[j] < b {}
    if i + 1 < |s.list| {
      var u := s.list[i + 1];
      assert IsBlock(s, u) && b + s.hdr[b].size <= u;
      forall j | i < j < |s.list| ensures s.list[j] >= u {}
    }
  }

  lemma LostReturns(s: State, i: nat, b: nat)
    requires Inv(s) && Below(s, i, b) && b in s.used && b + s.hdr[b].size == After(s.list, i)
    ensures Returned(s, Lost(s, i, b), b)
  {
    DirectlyAbove(s, i, b);
    LostUnits(s, i, b);
  }

  lemma JoinedReturns(s: State, i: nat, b: nat)
    requires Inv(s) && Below(s, i, b) && b in s.used && s.list[i] + s.hdr[s.list[i]].size == b
    requires b + s.hdr[b].size != After(s.list, i)
    ensures Returned(s, JoinedLower(s, i, b), b)
  {
    DirectlyAbove(s, i, b);
    JoinedUnits(s, i, b);
  }

  lemma InsertedReturns(s: State, i: nat, b: nat)
    requires Inv(s) && Below(s, i, b) && b in s.used && b + s.hdr[b].size != After(s.list, i)
    ensures Returned(s, Inserted(s, i, b), b)
  {
    DirectlyAbove(s, i, b);
    InsertedUnits(s, i, b);
    assert IsBlock(s, b);
    InsertedParts(s, i, b);
  }

  // ---- what the callers do with their blocks ---------------------------------------------------

  // The headers of listed and used blocks are all that matters.
  ghost predicate SameHeaders(s: State, s': State) {
    && s' == s.(hdr := s'.hdr) && |s'.hdr| == |s.hdr|
    && forall c: nat :: c < |s.hdr| && (c in s.list || c in s.used) ==> s'.hdr[c] == s.hdr[c]
  }

  lemma SameHeadersLinked(s: State, s': State)
    requires Shape(s) && Linked(s) && SameHeaders(s, s')
    ensures Shape(s') && Linked(s')
  {
    forall i | 0 <= i < |s'.list|
      ensures s'.hdr[s'.list[i]].next == After(s'.list, i) && s'.hdr[s'.list[i]].prev == Before(s'.list, i)
    {
      assert s.list[i] in s.list && s.hdr[s.list[i]].next == After(s.list, i);
    }
    assert s.list[0] in s.list;
  }

  lemma SameHeadersDisjoint(s: State, s': State)
    requires Shape(s) && Disjoint(s) && SameHeaders(s, s') && Shape(s')
    ensures Disjoint(s')
  {
    forall b: nat | IsBlock(s', b) ensures IsBlock(s, b) && s'.hdr[b] == s.hdr[b] {}
  }

  // A caller may write what it likes behind the header of a block it holds.
  lemma PayloadWriteKeepsInv(s: State, b: nat, u: nat, h: Header)
    requires Inv(s) && b in s.used && b < u < b + s.hdr[b].size
    ensures u <= ARENA && SameHeaders(s, s.(hdr := s.hdr[u := h])) && Inv(s.(hdr := s.hdr[u := h]))
  {
    var s' := s.(hdr := s.hdr[u := h]);
    assert IsBlock(s, b);
    NoBlockInside(s, b, u);
    assert u != BASE && SameHeaders(s, s');
    SameHeadersLinked(s, s');
    SameHeadersDisjoint(s, s');
  }

  // ---- coalescing ----------------------------------------------------------------------

  // No free block ends where another one begins: neighbours have been joined.
  ghost predicate Joined(s: State)
    requires Shape(s)
  {
    forall b, c :: b in s.list && c in s.list && b != BASE ==> b + s.hdr[b].size != c
  }

  // Fewer free blocks of the same sizes.
  lemma FewerStay(s: State, s': State)
    requires Shape(s) && Shape(s') && Joined(s)
    requires forall b :: b in s'.list ==> b in s.list && s'.hdr[b].size == s.hdr[b].size
    ensures Joined(s')
  {}

  lemma TookWholeStays(s: State, k: nat)
    requires Inv(s) && Joined(s) && 1 <= k < |s.list|
    ensures Inv(TookWhole(s, k)) && Joined(TookWhole(s, k))
  {
    TookWholeKeepsInv(s, k);
    var s', before, after := TookWhole(s, k), s.list[k - 1], After(s.list, k);
    LinksKeepSizes(s.hdr, before, after);
    WithoutMembers(s.list, k);
    FewerStay(s, s');
  }

  lemma LinksKeepSizes(hdr: seq<Header>, before: nat, after: nat)
    requires before < |hdr| && after < |hdr|
    ensures forall b :: 0 <= b < |hdr| ==> SetPrev(SetNext(hdr, before, after), after, before)[b].size == hdr[b].size
  {}

  lemma TookTailStays(s: State, k: nat, n: nat)
    requires Inv(s) && Joined(s) && 1 <= k < |s.list| && 1 <= n < s.hdr[s.list[k]].size
    ensures Inv(TookTail(s, k, n)) && Joined(TookTail(s, k, n))
  {
    TookTailKeepsInv(s, k, n);
    var p := s.list[k];
    assert IsBlock(s, p);
    ShorterStays(s, TookTail(s, k, n), p, p + s.hdr[p].size - n, n);
  }

  // Free block `p` now ends at `q`, where a block that is not free begins.
  lemma ShorterStays(s: State, s': State, p: nat, q: nat, n: nat)
    requires Inv(s) && Shape(s') && Joined(s) && p in s.list && p != BASE && p < q < p + s.hdr[p].size <= ARENA + 1
    requires s'.list == s.list && s'.hdr == SetSize(SetSize(s.hdr, p, q - p), q, n)
    ensures Joined(s')
  {
    forall c | c in s.list ensures c != q {
      assert IsBlock(s, p) && (c == BASE || IsBlock(s, c));
    }
  }

  lemma JoinedLowerStays(s: State, i: nat, b: nat)
    requires Inv(s) && Joined(s) && Below(s, i, b) && b in s.used && s.list[i] + s.hdr[s.list[i]].size == b
    requires b + s.hdr[b].size != After(s.list, i)
    ensures Inv(JoinedLower(s, i, b)) && Joined(JoinedLower(s, i, b))
  {
    JoinedLowerKeepsInv(s, i, b);
    DirectlyAbove(s, i, b);
    LongerStays(s, JoinedLower(s, i, b), s.list[i], s.hdr[s.list[i]].size + s.hdr[b].size);
  }

  lemma LongerStays(s: State, s': State, p: nat, size: nat)
    requires Shape(s) && Shape(s') && Joined(s) && p < |s.hdr| && p + size !in s.list
    requires s'.list == s.list && s'.hdr == SetSize(s.hdr, p, size)
    ensures Joined(s')
  {}

  lemma InsertedStays(s: State, i: nat, b: nat)
    requires Inv(s) && Joined(s) && Below(s, i, b) && b in s.used && s.list[i] + s.hdr[s.list[i]].size != b
    requires b + s.hdr[b].size != After(s.list, i)
    ensures Inv(Inserted(s, i, b)) && Joined(Inserted(s, i, b))
  {
    InsertedKeepsInv(s, i, b);
    DirectlyAbove(s, i, b);
    WithMembers(s.list, i, b);
    InsertedSizes(s, i, b);
    forall c | c in s.list && c != BASE ensures c + s.hdr[c].size != b {
      EndsBelow(s, i, b, c);
    }
    OneMoreStays(s, Inserted(s, i, b), b);
  }

  lemma InsertedSizes(s: State, i: nat, b: nat)
    requires Inv(s) && i < |s.list| && b <= ARENA
    ensures |Inserted(s, i, b).hdr| == |s.hdr| && forall c :: 0 <= c < |s.hdr| ==> Inserted(s, i, b).hdr[c].size == s.hdr[c].size
  {}

  lemma OneMoreStays(s: State, s': State, b: nat)
    requires Shape(s) && Shape(s') && Joined(s) && b < |s.hdr| && b + s.hdr[b].size !in s.list && s.hdr[b].size > 0
    requires forall c :: c in s'.list <==> c in s.list || c == b
    requires forall c :: 0 <= c < |s.hdr| ==> s'.hdr[c].size == s.hdr[c].size
    requires forall c :: c in s.list && c != BASE ==> c + s.hdr[c].size != b
    ensures Joined(s')
  {}

  // Only the last member below a block can end where it begins.
  lemma EndsBelow(s: State, i: nat, b: nat, c: nat)
    requires Inv(s) && Below(s, i, b) && b in s.used && c in s.list && c != BASE
    ensures c + s.hdr[c].size == b ==> c == s.list[i]
  {
    assert IsBlock(s, c) && IsBlock(s, b);
    if c < b && c != s.list[i] {
      LargestBelow(s, i, b, c);
      assert IsBlock(s, s.list[i]);
    }
  }

  lemma LostStays(s: State, i: nat, b: nat)
    requires Inv(s) && Joined(s) && Below(s, i, b) && b in s.used
    ensures Inv(Lost(s, i, b)) && Joined(Lost(s, i, b))
  {
    LostKeepsInv(s, i, b);
  }

  // ---- walking the list --------------------------------------------------------------------

  // Steps from member `m` forward to member `k`.
  function Distance(n: nat, m: nat, k: nat): nat
    requires m < n && k < n
  {
    if m <= k then k - m else k + n - m
  }

  function Next(n: nat, m: nat): nat
    requires m < n
  {
    if m + 1 < n then m + 1 else 0
  }

  lemma Closer(n: nat, m: nat, k: nat)
    requires m < n && k < n && m != k
    ensures Distance(n, Next(n, m), k) == Distance(n, m, k) - 1
  {}

  lemma NextInList(s: State, m: nat)
    requires Shape(s) && Linked(s) && m < |s.list|
    ensures s.hdr[s.list[m]].next == s.list[Next(|s.list|, m)]
    ensures s.hdr[s.list[Next(|s.list|, m)]].prev == s.list[m]
  {
    var n := Next(|s.list|, m);
    assert s.hdr[s.list[n]].prev == Before(s.list, n);
  }

  // Every member from the one after `k` up to the one before `m` is too small.
  ghost predicate SmallSince(s: State, m: nat, k: nat, nunits: nat)
    requires Shape(s) && m < |s.list| && k < |s.list|
  {
    forall j :: 0 <= j < |s.list| && Distance(|s.list|, j, k) > Distance(|s.list|, m, k) ==> s.hdr[s.list[j]].size < nunits
  }

  lemma OneMoreSmall(s: State, m: nat, k: nat, nunits: nat)
    requires Shape(s) && Linked(s) && m < |s.list| && k < |s.list| && m != k && SmallSince(s, m, k, nunits)
    requires s.hdr[s.list[m]].size < nunits
    ensures SmallSince(s, Next(|s.list|, m), k, nunits)
    ensures s.hdr[s.list[m]].next == s.list[Next(|s.list|, m)]
    ensures Distance(|s.list|, Next(|s.list|, m), k) < Distance(|s.list|, m, k)
  {
    var n := |s.list|;
    NextInList(s, m);
    Closer(n, m, k);
    forall j | 0 <= j < n && Distance(n, j, k) > Distance(n, Next(n, m), k) ensures s.hdr[s.list[j]].size < nunits {
      Closer(n, m, k);
      if Distance(n, j, k) == Distance(n, m, k) {
        assert j == m;
      }
    }
  }

  lemma AllSmall(s: State, m: nat, k: nat, nunits: nat)
    requires Shape(s) && Ordered(s.list) && m < |s.list| && k < |s.list| && s.list[m] == s.list[k]
    requires SmallSince(s, m, k, nunits) && s.hdr[s.list[m]].size < nunits
    ensures NoneFits(s, nunits)
  {
    assert m == k;
    forall b | b in s.list ensures s.hdr[b].size < nunits {
      var j :| 0 <= j < |s.list| && s.list[j] == b;
    }
  }

  // test_alloc's search has come to member `m`, having left `freep`, member `k`.
  ghost predicate Searching(s: State, p: int, m: nat, k: nat, nunits: nat)
    requires Shape(s)
  {
    && m < |s.list| && k < |s.list| && p == s.list[m] && s.freep == s.list[k] && 0 <= p <= ARENA
    && SmallSince(s, m, k, nunits)
  }

  lemma SearchStarts(s: State, nunits: nat) returns (m: nat, k: nat)
    requires Inv(s)
    ensures 0 <= s.freep <= ARENA && Searching(s, s.hdr[s.freep].next, m, k, nunits)
  {
    k :| 0 <= k < |s.list| && s.freep == s.list[k];
    m := Next(|s.list|, k);
    NextInList(s, k);
  }

  lemma SearchGoesOn(s: State, p: nat, m: nat, k: nat, nunits: nat) returns (m1: nat)
    requires Inv(s) && Searching(s, p, m, k, nunits) && s.hdr[p].size < nunits && p != s.freep
    ensures Searching(s, s.hdr[p].next, m1, k, nunits) && Distance(|s.list|, m1, k) < Distance(|s.list|, m, k)
  {
    OneMoreSmall(s, m, k, nunits);
    m1 := Next(|s.list|, m);
  }

  // It ends at a member that is large enough, or back at `freep` when none is.
  lemma SearchEnds(s: State, p: nat, m: nat, k: nat, nunits: nat)
    requires Inv(s) && Searching(s, p, m, k, nunits) && nunits >= 1
    ensures s.hdr[p].size >= nunits ==> 1 <= m && !NoneFits(s, nunits)
    ensures s.hdr[p].size < nunits && p == s.freep ==> NoneFits(s, nunits)
  {
    if s.hdr[p].size < nunits && p == s.freep {
      AllSmall(s, m, k, nunits);
    }
  }

  lemma {:induction false} FindBelow(s: State, b: nat, k: nat) returns (i: nat)
    requires Shape(s) && Ordered(s.list) && b !in s.list && k < |s.list| && s.list[k] < b
    ensures Below(s, i, b)
    decreases |s.list| - k
  {
    if k + 1 < |s.list| && s.list[k + 1] < b {
      i := FindBelow(s, b, k + 1);
    } else {
      i := k;
    }
  }

  // Only at the last member below `b` does the search of test_free stop.
  lemma OnlyBelow(s: State, i: nat, b: nat, m: nat)
    requires Shape(s) && Linked(s) && Ordered(s.list) && Below(s, i, b) && m < |s.list| && b !in s.list
    ensures var p, next := s.list[m], s.hdr[s.list[m]].next;
            m == i <==> (p < b < next) || (p >= next && (b > p || b < next))
  {
    NextInList(s, m);
  }

  lemma LargestBelow(s: State, i: nat, b: nat, q: nat)
    requires Shape(s) && Ordered(s.list) && Below(s, i, b) && q in s.list && q < b
    ensures q <= s.list[i]
  {
    var j :| 0 <= j < |s.list| && s.list[j] == q;
    assert j <= i;
  }

  // ---- the allocator ---------------------------------------------------------------------------

  class Allocator {
    var hdr: seq<Header>
    var freep: int
    ghost var list: seq<nat>
    ghost var used: set<nat>

    ghost function Snap(): State
      reads this
    {
      State(hdr, freep, list, used)
    }

    ghost predicate Unused()
      reads this
    {
      freep == NULL && |hdr| == ARENA + 1 && hdr[BASE] == Header(1, 1, 0) && used == {} && list == [BASE, 1]
    }

    ghost predicate Valid()
      reads this
    {
      Unused() || Inv(Snap())
    }

    // The state once the arena is one free block.
    ghost function Started(): State
      reads this
      requires Valid()
    {
      if freep == NULL then State(hdr[1 := Header(BASE, BASE, ARENA)], BASE, list, used) else Snap()
    }

    constructor ()
      ensures Valid() && used == {} && Joined(Started())
      ensures list == [0, 1] && |Started().hdr| > 1 && Started().hdr[1].size == 1705
    {
      hdr := seq(ARENA + 1, i => if i == BASE then Header(1, 1, 0) else Header(0, 0, 0));
      freep := NULL;
      list := [BASE, 1];
      used := {};
    }

    // Returns whether the list was found corrupted: it never is.
    method CheckList() returns (panic: bool)
      requires Inv(Snap())
      ensures !panic
    {
      ghost var n := |list|;
      ghost var k :| 0 <= k < n && freep == list[k];
      ghost var m: nat := Next(n, k);
      NextInList(Snap(), k);
      var prevp := freep;
      var p := hdr[freep].next;
      while p != freep
        invariant m < n && p == list[m] && 0 <= p <= ARENA && hdr[p].prev == prevp
        decreases Distance(n, m, k)
      {
        if prevp != hdr[p].prev {
          return true;
        }
        NextInList(Snap(), m);
        Closer(n, m, k);
        prevp := p;
        p := hdr[p].next;
        m := Next(n, m);
      }
      panic := false;
    }

    // Hands out `n` units of list member `m`: all of it, or its tail.
    method Take(p: nat, ghost m: nat, n: nat) returns (ap: int)
      requires Inv(Snap()) && 1 <= m < |list| && p == list[m] && hdr[p].size >= n >= 1
      modifies this
      ensures 2 <= ap <= ARENA + 1 && Handed(old(Snap()), Snap(), ap - 1, n)
      ensures ap - 1 + n == p + old(hdr)[p].size && (old(Joined(Snap())) ==> Joined(Snap()))
    {
      assert IsBlock(Snap(), p);
      if hdr[p].size == n {
        ap := Unlink(p, m);
      } else {
        ap := CutTail(p, m, n);
      }
    }

    method Unlink(p: nat, ghost m: nat) returns (ap: int)
      requires Inv(Snap()) && 1 <= m < |list| && p == list[m]
      modifies this
      ensures ap == p + 1 && Handed(old(Snap()), Snap(), p, old(hdr)[p].size)
      ensures old(Joined(Snap())) ==> Joined(Snap())
    {
      ghost var s := Snap();
      assert hdr[list[m]].prev == Before(list, m) && hdr[list[m]].next == After(list, m);
      assert IsBlock(s, list[m]);
      var prev := hdr[p].prev;
      freep := prev;
      hdr := hdr[prev := hdr[prev].(next := hdr[p].next)];
      hdr := hdr[hdr[p].next := hdr[hdr[p].next].(prev := hdr[p].prev)];
      list := Without(list, m);
      used := used + {p};
      ap := p + 1;
      assert Snap() == TookWhole(s, m);
      TookWholeHands(s, m);
      if Joined(s) {
        TookWholeStays(s, m);
      }
    }

    method CutTail(p0: nat, ghost m: nat, n: nat) returns (ap: int)
      requires Inv(Snap()) && 1 <= m < |list| && p0 == list[m] && hdr[p0].size > n >= 1
      modifies this
      ensures 2 <= ap <= ARENA + 1 && Handed(old(Snap()), Snap(), ap - 1, n)
      ensures ap - 1 + n == p0 + old(hdr)[p0].size && (old(Joined(Snap())) ==> Joined(Snap()))
    {
      ghost var s := Snap();
      assert hdr[list[m]].prev == Before(list, m);
      assert IsBlock(s, list[m]);
      var p := p0;
      freep := hdr[p].prev;
      hdr := hdr[p := hdr[p].(size := hdr[p].size - n)];
      p := p + hdr[p].size;
      hdr := hdr[p := hdr[p].(size := n)];
      used := used + {p};
      ap := p + 1;
      assert Snap() == TookTail(s, m, n);
      TookTailHands(s, m, n);
      if Joined(s) {
        TookTailStays(s, m, n);
      }
    }

    // The lazy initialisation in test_alloc.
    method Start()
      requires Valid()
      modifies this
      ensures Inv(Snap()) && Snap() == old(Started())
    {
      if freep == NULL {
        hdr := hdr[1 := Header(BASE, BASE, ARENA)];
        freep := BASE;
        assert freep == list[0];
      }
    }

    // Returns NULL exactly when no free block is large enough, and otherwise the payload
    // of the units at the end of the first one after freep that is: list member `m`, with
    // freep member `k`.  Free blocks stay joined.
    method TestAlloc(nbytes: nat) returns (ap: int, ghost m: nat, ghost k: nat)
      requires Valid() && nbytes < 256
      modifies this
      ensures Valid() && freep != NULL
      ensures ap == NULL <==> NoneFits(old(Started()), Units(nbytes))
      ensures ap == NULL ==> Snap() == old(Started())
      ensures ap != NULL ==> 2 <= ap <= ARENA + 1 && Handed(old(Started()), Snap(), ap - 1, Units(nbytes))
      ensures ap != NULL ==> 1 <= m < |old(list)| && old(list)[m] <= ARENA
      ensures ap != NULL ==> Searching(old(Started()), old(list)[m], m, k, Units(nbytes))
      ensures ap != NULL ==> ap - 1 + Units(nbytes) == old(list)[m] + old(Started()).hdr[old(list)[m]].size
      ensures old(Joined(Started())) ==> Joined(Snap())
    {
      var nunits := (nbytes + HEADER - 1) / HEADER + 1;
      Start();
      var panic := CheckList();
      var p: int;
      p, m, k := FirstFit(nunits);
      if p == NULL {
        return NULL, m, k;
      }
      ap := Take(p, m, nunits);
    }

    method FirstFit(nunits: nat) returns (p: int, ghost m: nat, ghost k: nat)
      requires Inv(Snap()) && nunits >= 1
      ensures p == NULL <==> NoneFits(Snap(), nunits)
      ensures p != NULL ==> 1 <= m < |list| && p == list[m] && hdr[p].size >= nunits && Searching(Snap(), p, m, k, nunits)
    {
      ghost var s := Snap();
      m, k := SearchStarts(s, nunits);
      p := hdr[freep].next;
      while true
        invariant Searching(s, p, m, k, nunits)
        decreases Distance(|s.list|, m, k)
      {
        SearchEnds(s, p, m, k, nunits);
        if hdr[p].size >= nunits {
          return;
        }
        if p == freep {
          return NULL, m, k;
        }
        m := SearchGoesOn(s, p, m, k, nunits);
        p := hdr[p].next;
      }
    }

    // Frees a block that test_alloc returned.  Its units become free, except that when
    // the block directly above is free they are lost for good: that branch changes
    // only the freed block's own header.  Free blocks stay joined.
    method TestFree(ap: nat) returns (panic: bool)
      requires Inv(Snap()) && ap >= 1 && ap - 1 in used
      modifies this
      ensures !panic && Returned(old(Snap()), Snap(), ap - 1)
      ensures old(Joined(Snap())) ==> Joined(Snap())
    {
      var bp := ap - 1;
      ghost var s := Snap();
      var p: nat;
      ghost var i: nat;
      p, i := FindPredecessor(bp);
      NextInList(s, i);
      if bp + hdr[bp].size == hdr[p].next {
        JoinUpper(bp, p, i);
      } else if p + hdr[p].size == bp {
        JoinLower(bp, p, i);
      } else {
        LinkIn(bp, p, i);
      }
      panic := CheckList();
    }

    method JoinUpper(bp: nat, p: nat, ghost i: nat)
      requires Inv(Snap()) && bp in used && Below(Snap(), i, bp) && p == list[i] && bp + hdr[bp].size == hdr[p].next
      modifies this
      ensures Returned(old(Snap()), Snap(), bp) && (old(Joined(Snap())) ==> Joined(Snap()))
    {
      ghost var s := Snap();
      assert hdr[list[i]].next == After(list, i);
      LostReturns(s, i, bp);
      if Joined(s) {
        LostStays(s, i, bp);
      }
      hdr := hdr[bp := hdr[bp].(size := hdr[bp].size + hdr[hdr[p].next].size)];
      hdr := hdr[bp := hdr[bp].(next := hdr[hdr[p].next].next)];
      hdr := hdr[bp := hdr[bp].(prev := hdr[hdr[p].next].prev)];
      used := used - {bp};
      freep := p;
      assert Snap() == Lost(s, i, bp);
    }

    method JoinLower(bp: nat, p: nat, ghost i: nat)
      requires Inv(Snap()) && bp in used && Below(Snap(), i, bp) && p == list[i]
      requires bp + hdr[bp].size != hdr[p].next && p + hdr[p].size == bp
      modifies this
      ensures Returned(old(Snap()), Snap(), bp) && (old(Joined(Snap())) ==> Joined(Snap()))
    {
      ghost var s := Snap();
      assert hdr[list[i]].next == After(list, i);
      JoinedReturns(s, i, bp);
      if Joined(s) {
        JoinedLowerStays(s, i, bp);
      }
      hdr := hdr[p := hdr[p].(size := hdr[p].size + hdr[bp].size)];
      used := used - {bp};
      freep := p;
      assert Snap() == JoinedLower(s, i, bp);
    }

    method LinkIn(bp: nat, p: nat, ghost i: nat)
      requires Inv(Snap()) && bp in used && Below(Snap(), i, bp) && p == list[i] && bp + hdr[bp].size != hdr[p].next
      requires p + hdr[p].size != bp
      modifies this
      ensures Returned(old(Snap()), Snap(), bp) && (old(Joined(Snap())) ==> Joined(Snap()))
    {
      ghost var s := Snap();
      assert IsBlock(s, bp);
      assert hdr[list[i]].next == After(list, i);
      InsertedReturns(s, i, bp);
      if Joined(s) {
        InsertedStays(s, i, bp);
      }
      hdr := hdr[bp := hdr[bp].(next := hdr[p].next)];
      hdr := hdr[bp := hdr[bp].(prev := p)];
      hdr := hdr[hdr[p].next := hdr[hdr[p].next].(prev := bp)];
      hdr := hdr[p := hdr[p].(next := bp)];
      list := With(list, i, bp);
      used := used - {bp};
      freep := p;
      assert Snap() == Inserted(s, i, bp);
    }

    // test_free's search loop, which ends at the last list member below `bp`.
    method FindPredecessor(bp: nat) returns (p: nat, ghost i: nat)
      requires Inv(Snap()) && bp in used
      ensures Below(Snap(), i, bp) && p == list[i]
      ensures p in list && p < bp && (forall q :: q in list && q < bp ==> q <= p)
    {
      ghost var s := Snap();
      ghost var n := |list|;
      assert IsBlock(s, bp);
      i := FindBelow(s, bp, 0);
      forall q | q in list && q < bp ensures q <= list[i] {
        LargestBelow(s, i, bp, q);
      }
      ghost var m: nat :| m < n && freep == list[m];
      p := freep;
      while !(bp > p && bp < hdr[p].next)
        invariant m < n && p == list[m] && p <= ARENA
        decreases Distance(n, m, i)
      {
        NextInList(s, m);
        OnlyBelow(s, i, bp, m);
        if p >= hdr[p].next && (bp > p || bp < hdr[p].next) {
          return;
        }
        Closer(n, m, i);
        p := hdr[p].next;
        m := Next(n, m);
      }
      NextInList(s, m);
      OnlyBelow(s, i, bp, m);
    }
  }
}
