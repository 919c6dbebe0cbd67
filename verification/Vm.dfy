// Physical frames, two-level page tables and their reference counts, as one
// mathematical state.  The kernel class in Pmap.dfy updates such a state in
// place; the facts its methods rest on are proved here once, about values.
module Vm {
  import opened Inc

  const NPTENTRIES := 1024
  const PTSIZE := NPTENTRIES * PGSIZE

  // Page-directory index of UTOP (0xee800000).  Directory entries from here up
  // are the kernel's and are never reference counted.
  const PDX_UTOP := 954
  const NUSERPAGES := PDX_UTOP * NPTENTRIES

  // The largest value pp_ref, a uint16_t, can hold.
  const MAX_REF := 0xFFFF

  // `other` stands for any bit outside PTE_SYSCALL.
  datatype Perm = Perm(p: bool, w: bool, u: bool, share: bool, cow: bool, avail: bool, other: bool)

  const NO_PERM := Perm(false, false, false, false, false, false, false)

  // The permission a word of flag bits stands for: PTE_P, PTE_W and PTE_U are the
  // processor's, the three bits from 0x200 up are PTE_AVAIL.
  function Flags(bits: bv32): Perm {
    Perm(bits & 0x001 != 0, bits & 0x002 != 0, bits & 0x004 != 0, bits & 0x400 != 0, bits & 0x800 != 0,
         bits & 0x200 != 0, bits & !0xE07 != 0)
  }

  datatype Pte = Pte(frame: nat, perm: Perm)

  const ZERO_PTE := Pte(0, NO_PERM)

  type Table = seq<Pte>
  type Page = seq<bv8>

  function ZeroTable(): Table { seq(NPTENTRIES, _ => ZERO_PTE) }

  function ZeroPage(): Page { seq(PGSIZE, _ => 0) }

  // What a frame is currently used for.  Loose is a frame taken off the free
  // list and not yet referenced by anything.
  datatype Kind = Reserved | Free | Loose | Dir(env: nat) | Table(dir: nat, pdx: nat) | Data

  datatype PageInfo = PageInfo(ref: nat, link: int)

  // `tables` and `data` are the two ways of reading the same memory: a frame
  // holds page-table entries or user bytes, never both (see Typed).
  datatype State = State(pages: seq<PageInfo>, head: int, list: seq<nat>, kind: seq<Kind>,
                         tables: seq<Table>, data: seq<Page>, pgdirs: map<nat, nat>,
                         kern: Table)

  // Something that holds a counted reference to a frame: an environment's
  // page-directory pointer, or one entry of a directory or table frame.
  datatype Ref = Root(env: nat) | Slot(table: nat, index: nat)

  ghost predicate Shape(s: State) {
    && |s.kind| == |s.pages| && |s.tables| == |s.pages| && |s.data| == |s.pages|
    && (forall f :: 0 <= f < |s.tables| ==> |s.tables[f]| == NPTENTRIES)
    && (forall f :: 0 <= f < |s.data| ==> |s.data[f]| == PGSIZE)
    && |s.kern| == NPTENTRIES
  }

  // The link the frame at position `i` of a list must hold.
  function Next(list: seq<nat>, i: nat): int {
    if i + 1 < |list| then list[i + 1] else NULL
  }

  // The linked list from `head` visits exactly `list`, without repetition, and
  // those are exactly the free frames; everything else has a NULL link.
  ghost predicate FreeListOk(s: State)
    requires Shape(s)
  {
    && s.head == (if s.list == [] then NULL else s.list[0])
    && (forall i :: 0 <= i < |s.list| ==> s.list[i] < |s.pages| && s.kind[s.list[i]].Free?)
    && (forall i {:trigger s.pages[s.list[i]]} :: 0 <= i < |s.list| ==>
          s.pages[s.list[i]].link == Next(s.list, i))
    && (forall i, j :: 0 <= i < j < |s.list| ==> s.list[i] != s.list[j])
    && (forall f :: 0 <= f < |s.kind| && s.kind[f].Free? ==> f in s.list)
    && (forall f :: 0 <= f < |s.kind| && !s.kind[f].Free? ==> s.pages[f].link == NULL)
  }

  // Whether entry `i` of frame `t` is one whose target is reference counted.
  ghost predicate Live(s: State, t: nat, i: nat)
    requires Shape(s) && t < |s.kind|
  {
    s.kind[t].Table? || (s.kind[t].Dir? && i < PDX_UTOP)
  }

  // Directories, tables and data frames refer to each other as they should:
  // every directory belongs to one environment, every table to one directory
  // entry, and table entries lead to data frames only.
  ghost predicate Typed(s: State)
    requires Shape(s)
  {
    && (forall e :: e in s.pgdirs ==> s.pgdirs[e] < |s.kind| && s.kind[s.pgdirs[e]] == Dir(e))
    && (forall d :: 0 <= d < |s.kind| && s.kind[d].Dir? ==>
          s.kind[d].env in s.pgdirs && s.pgdirs[s.kind[d].env] == d)
    && (forall t :: 0 <= t < |s.kind| && s.kind[t].Table? ==> TableOwned(s, t))
    && (forall d, i :: 0 <= d < |s.kind| && 0 <= i < NPTENTRIES && s.kind[d].Dir? && s.tables[d][i].perm.p ==>
          s.tables[d][i].frame < |s.kind| &&
          (i < PDX_UTOP ==> s.kind[s.tables[d][i].frame] == Table(d, i)))
    && (forall t, i :: 0 <= t < |s.kind| && 0 <= i < NPTENTRIES && s.kind[t].Table? && s.tables[t][i].perm.p ==>
          s.tables[t][i].frame < |s.kind| && s.kind[s.tables[t][i].frame].Data?)
  }

  ghost predicate TableOwned(s: State, t: nat)
    requires Shape(s) && t < |s.kind| && s.kind[t].Table?
  {
    var d, i := s.kind[t].dir, s.kind[t].pdx;
    d < |s.kind| && s.kind[d].Dir? && i < PDX_UTOP && s.tables[d][i].perm.p && s.tables[d][i].frame == t
  }

  ghost predicate Hits(s: State, f: nat, t: nat, i: nat)
    requires Shape(s) && t < |s.kind| && i < NPTENTRIES
  {
    Live(s, t, i) && s.tables[t][i].perm.p && s.tables[t][i].frame == f
  }

  ghost function Roots(s: State, f: nat): set<Ref> {
    set e | e in s.pgdirs && s.pgdirs[e] == f :: Root(e)
  }

  ghost function Slots(s: State, f: nat): set<Ref>
    requires Shape(s)
  {
    set t, i | 0 <= t < |s.kind| && 0 <= i < NPTENTRIES && Hits(s, f, t, i) :: Slot(t, i)
  }

  // Everything that refers to frame `f`.
  ghost function Refs(s: State, f: nat): set<Ref>
    requires Shape(s)
  {
    Roots(s, f) + Slots(s, f)
  }

  // pp_ref is the number of references, except that frame `x` may carry `k`
  // more than the tables show (page_insert counts a mapping before making it),
  // and only `x` may be loose.
  ghost predicate Counted(s: State, x: int, k: nat)
    requires Shape(s)
  {
    && (forall f {:trigger Refs(s, f)} :: 0 <= f < |s.kind| && !s.kind[f].Reserved? ==>
          s.pages[f].ref == |Refs(s, f)| + (if f == x then k else 0))
    && (forall f :: 0 <= f < |s.pages| ==> s.pages[f].ref <= MAX_REF)
    && (forall f :: 0 <= f < |s.kind| && s.kind[f].Data? ==> s.pages[f].ref > 0)
    && (forall f :: 0 <= f < |s.kind| && s.kind[f].Loose? ==> f == x)
  }

  ghost predicate InvExcept(s: State, x: int, k: nat) {
    Shape(s) && FreeListOk(s) && Typed(s) && Counted(s, x, k)
  }

  ghost predicate Inv(s: State) {
    InvExcept(s, NULL, 0)
  }

  // The entry a walk of directory `d` finds for page number `v`.
  ghost function Walk(s: State, d: nat, v: nat): Pte
    requires Shape(s)
  {
    if d < |s.tables| && v / NPTENTRIES < NPTENTRIES then
      var pde := s.tables[d][v / NPTENTRIES];
      if pde.perm.p && pde.frame < |s.tables| then s.tables[pde.frame][v % NPTENTRIES] else ZERO_PTE
    else ZERO_PTE
  }

  // The mapping of page `v` in environment `e`, the plain map the tables stand for.
  ghost function Entry(s: State, e: nat, v: nat): Pte
    requires Shape(s) && e in s.pgdirs
  {
    Walk(s, s.pgdirs[e], v)
  }

  // The two states have the same environments and the same user mappings,
  // except possibly that of page `v` under directory `d`.
  ghost predicate SameMapsExcept(s: State, s': State, d: int, v: int)
    requires Shape(s) && Shape(s')
  {
    && s'.pgdirs == s.pgdirs
    && forall e, w :: e in s.pgdirs && 0 <= w < NUSERPAGES && !(s.pgdirs[e] == d && w == v) ==>
         Entry(s', e, w) == Entry(s, e, w)
  }

  // User bytes of every frame in use as data are the same.
  ghost predicate SameData(s: State, s': State)
    requires Shape(s) && Shape(s')
  {
    |s.kind| == |s'.kind| &&
    forall f :: 0 <= f < |s.kind| && s.kind[f].Data? ==> s'.data[f] == s.data[f]
  }

  // ---- single-step updates --------------------------------------------------

  ghost function SetPte(s: State, t: nat, i: nat, pte: Pte): State
    requires t < |s.tables| && i < |s.tables[t]|
  {
    s.(tables := s.tables[t := s.tables[t][i := pte]])
  }

  ghost function SetRef(s: State, f: nat, r: nat): State
    requires f < |s.pages|
  {
    s.(pages := s.pages[f := s.pages[f].(ref := r)])
  }

  ghost function SetKind(s: State, f: nat, k: Kind): State
    requires f < |s.kind|
  {
    s.(kind := s.kind[f := k])
  }

  // page_alloc: unlink the first free frame, zeroing it when asked.
  ghost function Pop(s: State, zero: bool): State
    requires Shape(s) && FreeListOk(s) && s.list != []
  {
    var f := s.list[0];
    s.(pages := s.pages[f := s.pages[f].(link := NULL)], head := s.pages[f].link, list := s.list[1..],
       kind := s.kind[f := Loose],
       tables := if zero then s.tables[f := ZeroTable()] else s.tables,
       data := if zero then s.data[f := ZeroPage()] else s.data)
  }

  // page_free: link a frame in front of the free list.
  ghost function Push(s: State, f: nat): State
    requires f < |s.pages| && f < |s.kind|
  {
    s.(pages := s.pages[f := s.pages[f].(link := s.head)], head := f, list := [f] + s.list,
       kind := s.kind[f := Kind.Free])
  }

  // page_decref
  ghost function Decref(s: State, f: nat): State
    requires f < |s.pages| && f < |s.kind| && s.pages[f].ref > 0
  {
    var s1 := SetRef(s, f, s.pages[f].ref - 1);
    if s.pages[f].ref == 1 then Push(s1, f) else s1
  }

  // ---- how the reference sets react -------------------------------------------

  // Writing one entry changes the reference set of its old and new target by
  // exactly that slot, and no other.
  lemma SetPteRefs(s: State, t: nat, i: nat, pte: Pte, f: nat)
    requires Shape(s) && t < |s.kind| && i < NPTENTRIES && Live(s, t, i)
    ensures Shape(SetPte(s, t, i, pte))
    ensures Refs(SetPte(s, t, i, pte), f) ==
            Refs(s, f) - {Slot(t, i)} + (if pte.perm.p && pte.frame == f then {Slot(t, i)} else {})
  {
    var s' := SetPte(s, t, i, pte);
    var rest := Slots(s, f) - {Slot(t, i)} + (if pte.perm.p && pte.frame == f then {Slot(t, i)} else {});
    forall r: Ref ensures r in Slots(s', f) <==> r in rest {
      if r.Slot? && r.table < |s.kind| && r.index < NPTENTRIES {
        assert r in Slots(s', f) <==> Hits(s', f, r.table, r.index);
        assert r in Slots(s, f) <==> Hits(s, f, r.table, r.index);
      }
    }
    assert Roots(s', f) == Roots(s, f);
  }

  // Refs depends only on the tables, the page-directory pointers and on which
  // present entries count.
  lemma RefsFrame(s: State, s': State, f: nat)
    requires Shape(s) && Shape(s')
    requires |s'.kind| == |s.kind| && s'.pgdirs == s.pgdirs
    requires forall t, i :: 0 <= t < |s.kind| && 0 <= i < NPTENTRIES ==>
               (Hits(s', f, t, i) <==> Hits(s, f, t, i))
    ensures Refs(s', f) == Refs(s, f)
  {
    forall r: Ref ensures r in Slots(s', f) <==> r in Slots(s, f) {
      if r.Slot? && r.table < |s.kind| && r.index < NPTENTRIES {
        assert r in Slots(s', f) <==> Hits(s', f, r.table, r.index);
        assert r in Slots(s, f) <==> Hits(s, f, r.table, r.index);
      }
    }
    assert Roots(s', f) == Roots(s, f);
  }

  lemma NoHitsNoRefs(s: State, f: nat)
    requires Shape(s)
    requires forall t, i :: 0 <= t < |s.kind| && 0 <= i < NPTENTRIES ==> !Hits(s, f, t, i)
    requires forall e :: e in s.pgdirs ==> s.pgdirs[e] != f
    ensures Refs(s, f) == {}
  {
    assert Roots(s, f) == {};
    assert Slots(s, f) == {};
  }

  // A page table's only reference is its directory entry, and a directory's
  // only reference is its environment.
  lemma OwnedRefs(s: State, f: nat)
    requires Shape(s) && Typed(s) && f < |s.kind|
    ensures s.kind[f].Table? ==> Refs(s, f) == {Slot(s.kind[f].dir, s.kind[f].pdx)}
    ensures s.kind[f].Dir? ==> Refs(s, f) == {Root(s.kind[f].env)}
    ensures !s.kind[f].Table? && !s.kind[f].Dir? && !s.kind[f].Data? ==> Refs(s, f) == {}
  {
    forall t, i | 0 <= t < |s.kind| && 0 <= i < NPTENTRIES && Hits(s, f, t, i)
      ensures s.kind[f].Data? || s.kind[f] == Table(t, i)
    {}
    if s.kind[f].Table? {
      assert TableOwned(s, f);
      assert Hits(s, f, s.kind[f].dir, s.kind[f].pdx);
      assert Slots(s, f) == {Slot(s.kind[f].dir, s.kind[f].pdx)};
      assert Roots(s, f) == {};
    } else if s.kind[f].Dir? {
      assert Slots(s, f) == {};
      assert Roots(s, f) == {Root(s.kind[f].env)};
    } else if !s.kind[f].Data? {
      NoHitsNoRefs(s, f);
    }
  }
}
