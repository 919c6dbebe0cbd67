// kern/pmap.c, and the parts of kern/env.c and kern/syscall.c that build, change
// and tear down address spaces, updating the kernel's page state in place.
module Pmap {
  import opened Inc
  import opened Vm
  import opened VmSteps

  // Directory index of UVPT (0xef400000).
  const PDX_UVPT := 957

  // PTE_U|PTE_P present and nothing outside PTE_SYSCALL.
  predicate SyscallPerm(perm: Perm) {
    perm.u && perm.p && !perm.other
  }

  // The test as the code makes it, on the bits.
  lemma SyscallPermIff(bits: bv32)
    ensures SyscallPerm(Flags(bits)) <==> bits & 0x004 != 0 && bits & 0x001 != 0 && bits & !0xE07 == 0
    ensures Flags(0) == NO_PERM && Flags(0x007) == PDE_PERM && Flags(0x005) == UVPT_PERM
  {}

  // The directory is kern_pgdir's above UTOP, but for the entry of UVPT, which is the
  // directory itself, user-readable.
  ghost predicate UpperHalf(table: Table, d: nat, kern: Table)
    requires |table| == NPTENTRIES && |kern| == NPTENTRIES
  {
    forall i :: PDX_UTOP <= i < NPTENTRIES ==> table[i] == if i == PDX_UVPT then Pte(d, UVPT_PERM) else kern[i]
  }

  ghost predicate KernelHalf(s: State) {
    Shape(s) && forall d :: 0 <= d < |s.kind| && s.kind[d].Dir? ==> UpperHalf(s.tables[d], d, s.kern)
  }

  // It stays when no directory is new and those there keep their upper entries.
  lemma HalfKept(s: State, s': State)
    requires KernelHalf(s) && Shape(s') && |s'.kind| == |s.kind| && s'.kern == s.kern
    requires forall d :: 0 <= d < |s.kind| && s'.kind[d].Dir? ==>
               s.kind[d].Dir? && (s'.tables[d] == s.tables[d] || s'.tables[d][PDX_UTOP..] == s.tables[d][PDX_UTOP..])
    ensures KernelHalf(s')
  {
    forall d | 0 <= d < |s.kind| && s'.kind[d].Dir? ensures UpperHalf(s'.tables[d], d, s'.kern) {
      assert UpperHalf(s.tables[d], d, s.kern);
      if s'.tables[d] != s.tables[d] {
        SameUpper(s.tables[d], s'.tables[d], d, s.kern);
      }
    }
  }

  lemma SameUpper(table: Table, table': Table, d: nat, kern: Table)
    requires |table| == NPTENTRIES && |table'| == NPTENTRIES && |kern| == NPTENTRIES && UpperHalf(table, d, kern)
    requires table'[PDX_UTOP..] == table[PDX_UTOP..]
    ensures UpperHalf(table', d, kern)
  {
    forall i | PDX_UTOP <= i < NPTENTRIES ensures table'[i] == table[i] {
      assert table'[PDX_UTOP..][i - PDX_UTOP] == table[PDX_UTOP..][i - PDX_UTOP];
    }
  }

  // The first `n` entries of the table lead nowhere.
  ghost predicate Blank(table: Table, n: nat) {
    n <= |table| && forall i :: 0 <= i < n ==> !table[i].perm.p
  }

  lemma OneMoreBlank(table: Table, table': Table, n: nat)
    requires Blank(table, n) && n < |table| && |table'| == |table| && !table'[n].perm.p
    requires forall i :: 0 <= i < |table| && i != n ==> table'[i] == table[i]
    ensures Blank(table', n + 1)
  {}

  lemma DroppedKeepsHalf(s: State, s': State, d: nat, pdx: nat, pt: nat)
    requires Shape(s) && Shape(s') && d < |s.kind| && pdx < PDX_UTOP && pt < |s.pages| && s.pages[pt].ref > 0
    requires s' == Decref(SetPte(s, d, pdx, ZERO_PTE), pt)
    ensures KernelHalf(s) ==> KernelHalf(s')
  {
    if KernelHalf(s) {
      HalfKept(s, s');
    }
  }

  lemma GoneKeepsHalf(s: State, s': State, d: nat)
    requires Shape(s) && Shape(s') && d < |s.pages| && s.pages[d].ref > 0
    requires s' == Decref(s.(pgdirs := s'.pgdirs), d)
    ensures KernelHalf(s) ==> KernelHalf(s')
  {
    if KernelHalf(s) {
      HalfKept(s, s');
    }
  }

  // So all address spaces are the same there.
  lemma SameAboveUtop(s: State, e: nat, e': nat, v: nat)
    requires KernelHalf(s) && Typed(s) && e in s.pgdirs && e' in s.pgdirs
    requires NUSERPAGES <= v < NPTENTRIES * NPTENTRIES && v / NPTENTRIES != 0xef40_0000 / PTSIZE
    ensures Entry(s, e, v) == Entry(s, e', v)
  {
    var d, d' := s.pgdirs[e], s.pgdirs[e'];
    assert s.kind[d].Dir? && s.kind[d'].Dir?;
    assert UpperHalf(s.tables[d], d, s.kern) && UpperHalf(s.tables[d'], d', s.kern);
    assert PDX_UTOP <= v / NPTENTRIES < NPTENTRIES;
  }

  class Kernel {
    var pages: seq<PageInfo>
    var pageFreeList: int
    var tables: seq<Table>
    var data: seq<Page>
    // env_pgdir of every environment that has one, by slot
    var pgdirs: map<nat, nat>
    const kernPgdir: Table
    const npages: nat

    ghost var kind: seq<Kind>
    ghost var list: seq<nat>

    ghost function Snap(): State
      reads this
    {
      State(pages, pageFreeList, list, kind, tables, data, pgdirs, kernPgdir)
    }

    ghost predicate ValidExcept(x: int, k: nat)
      reads this
    {
      InvExcept(Snap(), x, k) && |pages| == npages
    }

    // kern_pgdir maps nothing below UTOP and only real frames above.
    ghost predicate TemplateOk() {
      && |kernPgdir| == NPTENTRIES
      && (forall i :: 0 <= i < PDX_UTOP ==> !kernPgdir[i].perm.p)
      && (forall i :: 0 <= i < NPTENTRIES && kernPgdir[i].perm.p ==> kernPgdir[i].frame < npages)
    }

    ghost predicate Valid()
      reads this
    {
      ValidExcept(NULL, 0)
    }

    // One more mapping of the frame still fits pp_ref.
    ghost predicate CanCount(f: nat)
      reads this
    {
      f < |pages| ==> pages[f].ref < MAX_REF
    }

    // page_init: everything but page 0 and the hole [baseMem, extMem) becomes
    // free, and nothing is mapped yet.
    constructor (npages: nat, baseMem: nat, extMem: nat, kern: Table)
      requires 1 <= baseMem <= extMem <= npages
      requires |kern| == NPTENTRIES
      requires forall i :: 0 <= i < PDX_UTOP ==> !kern[i].perm.p
      requires forall i :: 0 <= i < NPTENTRIES && kern[i].perm.p ==> kern[i].frame < npages
      ensures Valid() && TemplateOk() && KernelHalf(Snap()) && this.npages == npages && pgdirs == map[]
      ensures forall f :: 0 <= f < npages ==> (kind[f].Free? <==> 1 <= f < baseMem || extMem <= f)
    {
      kernPgdir := kern;
      this.npages := npages;
      tables := seq(npages, _ => ZeroTable());
      data := seq(npages, _ => ZeroPage());
      pgdirs := map[];
      kind := seq(npages, f requires 0 <= f < npages => if 1 <= f < baseMem || extMem <= f then Kind.Free else Reserved);
      pages := seq(npages, _ => PageInfo(0, NULL));
      pageFreeList := NULL;
      list := [];
      new;
      LinkFreeFrames(baseMem, extMem);
      CountReservedFrames(baseMem, extMem);
    }

    method LinkFreeFrames(baseMem: nat, extMem: nat)
      requires Shape(Snap()) && LinkedBelow(Snap(), 1) && list == []
      requires 1 <= baseMem <= extMem <= |pages|
      requires forall f :: 0 <= f < |pages| ==> (kind[f].Free? <==> 1 <= f < baseMem || extMem <= f)
      modifies this
      ensures Snap() == old(Snap()).(pages := pages, head := pageFreeList, list := list)
      ensures Shape(Snap()) && LinkedBelow(Snap(), |pages|)
    {
      var i := 1;
      while i < |pages|
        invariant 1 <= i <= |pages| == old(|pages|)
        invariant Snap() == old(Snap()).(pages := pages, head := pageFreeList, list := list)
        invariant LinkedBelow(Snap(), i)
      {
        if i < baseMem || i >= extMem {
          ghost var s := Snap();
          pages := pages[i := PageInfo(0, pageFreeList)];
          pageFreeList := i;
          list := [i] + list;
          LinkOneMore(s, Snap(), i);
        }
        i := i + 1;
      }
    }

    method CountReservedFrames(baseMem: nat, extMem: nat)
      requires Shape(Snap()) && LinkedBelow(Snap(), |pages|) && pgdirs == map[] && |pages| == npages
      requires 1 <= baseMem <= extMem <= |pages|
      requires forall f :: 0 <= f < |pages| ==>
                 kind[f] == if 1 <= f < baseMem || extMem <= f then Kind.Free else Reserved
      modifies this`pages
      ensures Valid() && |pages| == old(|pages|)
    {
      ghost var s := Snap();
      pages := pages[0 := pages[0].(ref := 1)];
      var i := baseMem;
      while i < extMem
        invariant baseMem <= i <= extMem && |pages| == |s.pages|
        invariant forall f :: 0 <= f < |pages| ==> pages[f].ref == if f == 0 || baseMem <= f < i then 1 else 0
        invariant forall f :: 0 <= f < |pages| ==> pages[f].link == s.pages[f].link
      {
        pages := pages[i := pages[i].(ref := 1)];
        i := i + 1;
      }
      InitialInv(s, Snap());
    }

    // Returns the frame taken off the free list, or NULL when it is empty.
    method PageAlloc(zero: bool) returns (pp: int)
      requires Shape(Snap()) && FreeListOk(Snap())
      modifies this
      ensures old(KernelHalf(Snap())) ==> KernelHalf(Snap())
      ensures old(list) == [] ==> pp == NULL && Snap() == old(Snap())
      ensures old(list) != [] ==> pp == old(list[0]) && Snap() == Pop(old(Snap()), zero)
    {
      pp := pageFreeList;
      if pp == NULL {
        return;
      }
      pageFreeList := pages[pp].link;
      pages := pages[pp := pages[pp].(link := NULL)];
      if zero {
        tables := tables[pp := ZeroTable()];
        data := data[pp := ZeroPage()];
      }
      kind := kind[pp := Loose];
      list := list[1..];
    }

    // The panic of a double free is reported, not assumed away.
    method PageFree(pp: nat) returns (panicked: bool)
      requires Shape(Snap()) && pp < |pages|
      modifies this
      ensures old(KernelHalf(Snap())) ==> KernelHalf(Snap())
      ensures panicked <==> old(pages[pp].ref) != 0 || old(pages[pp].link) != NULL
      ensures Snap() == if panicked then old(Snap()) else Push(old(Snap()), pp)
    {
      if pages[pp].ref != 0 || pages[pp].link != NULL {
        return true;
      }
      pages := pages[pp := pages[pp].(link := pageFreeList)];
      pageFreeList := pp;
      kind := kind[pp := Kind.Free];
      list := [pp] + list;
      panicked := false;
    }

    method PageDecref(pp: nat) returns (panicked: bool)
      requires Shape(Snap()) && pp < |pages| && pages[pp].ref > 0 && pages[pp].link == NULL
      modifies this
      ensures old(KernelHalf(Snap())) ==> KernelHalf(Snap())
      ensures !panicked && Snap() == Decref(old(Snap()), pp)
    {
      panicked := false;
      pages := pages[pp := pages[pp].(ref := pages[pp].ref - 1)];
      if pages[pp].ref == 0 {
        panicked := PageFree(pp);
      }
    }

    // The part of pgdir_walk that makes a missing page table.
    method MakeTable(pgdir: nat, pdx: nat) returns (pg: int)
      requires Shape(Snap()) && FreeListOk(Snap()) && pgdir < |pages| && kind[pgdir].Dir? && pdx < PDX_UTOP
      requires list != [] ==> pages[list[0]].ref == 0
      modifies this
      ensures old(KernelHalf(Snap())) ==> KernelHalf(Snap())
      ensures old(list) == [] ==> pg == NULL && Snap() == old(Snap())
      ensures old(list) != [] ==> pg == old(list[0]) && Snap() == WithTable(old(Snap()), pgdir, pdx)
    {
      pg := PageAlloc(true);
      if pg == NULL {
        return;
      }
      pages := pages[pg := pages[pg].(ref := pages[pg].ref + 1)];
      kind := kind[pg := Table(pgdir, pdx)];
      tables := tables[pgdir := tables[pgdir][pdx := Pte(pg, PDE_PERM)]];
    }

    // Returns the page table that holds the entry of page `v`, or NULL.
    method PgdirWalk(pgdir: nat, v: nat, create: bool, ghost x: int, ghost k: nat) returns (pt: int)
      requires ValidExcept(x, k) && pgdir < |pages| && kind[pgdir].Dir? && v < NUSERPAGES
      requires 0 <= x < |kind| ==> !kind[x].Free?
      modifies this
      ensures old(KernelHalf(Snap())) ==> KernelHalf(Snap())
      ensures ValidExcept(x, k) && Walked(old(Snap()), Snap(), pgdir, v, create, pt)
    {
      var pdx := v / NPTENTRIES;
      pt := NULL;
      if tables[pgdir][pdx].perm.p {
        pt := tables[pgdir][pdx].frame;
      } else if create {
        if list != [] {
          FreeIsUnreferenced(Snap(), list[0], x, k);
        }
        pt := MakeTable(pgdir, pdx);
      }
      assert Snap() == AfterWalk(old(Snap()), pgdir, v, create);
      WalkKeepsInv(old(Snap()), pgdir, v, create, x, k, pt);
    }

    // Returns the frame page `v` maps to, or NULL, and the table of its entry.
    method PageLookup(pgdir: nat, v: nat, ghost x: int, ghost k: nat) returns (pp: int, pt: int)
      requires ValidExcept(x, k) && pgdir < |pages| && kind[pgdir].Dir? && v < NUSERPAGES
      requires 0 <= x < |kind| ==> !kind[x].Free?
      modifies this
      ensures old(KernelHalf(Snap())) ==> KernelHalf(Snap())
      ensures Snap() == old(Snap())
      ensures pp == if Walk(Snap(), pgdir, v).perm.p then Walk(Snap(), pgdir, v).frame else NULL
      ensures pp != NULL ==> pt == TableOf(Snap(), pgdir, v)
    {
      WalkSlot(Snap(), pgdir, v);
      pt := PgdirWalk(pgdir, v, false, x, k);
      if pt == NULL || !tables[pt][v % NPTENTRIES].perm.p {
        return NULL, pt;
      }
      pp := tables[pt][v % NPTENTRIES].frame;
    }

    method PageRemove(pgdir: nat, v: nat, ghost x: int, ghost k: nat)
      requires ValidExcept(x, k) && pgdir < |pages| && kind[pgdir].Dir? && v < NUSERPAGES
      requires 0 <= x < |kind| ==> !kind[x].Free?
      modifies this
      ensures old(KernelHalf(Snap())) ==> KernelHalf(Snap())
      ensures ValidExcept(x, k) && Removed(old(Snap()), Snap(), pgdir, v)
    {
      ghost var s := Snap();
      RemoveKeepsInv(s, pgdir, v, x, k);
      RemoveRemoves(s, pgdir, v);
      var pg, pt := PageLookup(pgdir, v, x, k);
      if pg != NULL {
        MappedIsCounted(s, pgdir, v, x, k);
        WalkSlot(s, pgdir, v);
        ClearEntry(pt, v % NPTENTRIES, pg);
      }
    }

    // The last two steps of page_remove.
    method ClearEntry(pt: nat, i: nat, pg: nat)
      requires Shape(Snap()) && Typed(Snap()) && pt < |pages| && i < NPTENTRIES && kind[pt].Table?
      requires tables[pt][i].perm.p && tables[pt][i].frame == pg
      requires pages[pg].ref > 0 && pages[pg].link == NULL
      modifies this
      ensures old(KernelHalf(Snap())) ==> KernelHalf(Snap())
      ensures Snap() == Cleared(old(Snap()), pt, i)
    {
      ghost var s := Snap();
      var panicked := PageDecref(pg);
      tables := tables[pt := tables[pt][i := ZERO_PTE]];
      if KernelHalf(s) {
        HalfKept(s, Snap());
      }
    }

    // Maps frame `pp` at page `v`; the frame is either already mapped somewhere or
    // fresh from PageAlloc.  Returns 0, or -E_NO_MEM when no page table can be made.
    method PageInsert(pgdir: nat, pp: nat, v: nat, perm: Perm) returns (r: int)
      requires ValidExcept(pp, 0) && pgdir < |pages| && kind[pgdir].Dir? && v < NUSERPAGES
      requires pp < |pages| && (kind[pp].Data? || kind[pp].Loose?) && pages[pp].ref < MAX_REF
      modifies this
      ensures old(KernelHalf(Snap())) ==> KernelHalf(Snap())
      ensures r == 0 || r == -E_NO_MEM
      ensures r != 0 <==> !old(tables[pgdir][v / NPTENTRIES].perm.p) && old(list) == []
      ensures r != 0 ==> Snap() == old(Snap())
      ensures r == 0 ==> Valid() && Mapped(old(Snap()), Snap(), pgdir, v, pp, perm)
    {
      var pt := PgdirWalk(pgdir, v, true, pp, 0);
      if pt == NULL {
        return -E_NO_MEM;
      }
      ghost var s := Snap();
      WalkedTable(old(Snap()), s, pgdir, v, pt, pp);
      MapEntry(pgdir, pt, pp, v, perm);
      MappedAfterWalk(old(Snap()), s, Snap(), pgdir, v, pt, pp, perm);
      r := 0;
    }

    // page_insert once the table exists: the count goes up before the old mapping
    // goes, so that re-inserting a page where it already is does not free it.
    method MapEntry(pgdir: nat, pt: nat, pp: nat, v: nat, perm: Perm)
      requires ValidExcept(pp, 0) && pgdir < |pages| && kind[pgdir].Dir? && v < NUSERPAGES
      requires pp < |pages| && (kind[pp].Data? || kind[pp].Loose?) && pages[pp].ref < MAX_REF
      requires tables[pgdir][v / NPTENTRIES].perm.p && tables[pgdir][v / NPTENTRIES].frame == pt
      modifies this
      ensures old(KernelHalf(Snap())) ==> KernelHalf(Snap())
      ensures Valid() && Mapped(old(Snap()), Snap(), pgdir, v, pp, perm)
    {
      ghost var s := Snap();
      assert Shape(s) && Typed(s);
      CountMapping(pp);
      ReplaceEntry(pgdir, pt, pp, v, perm, s);
    }

    method ReplaceEntry(pgdir: nat, pt: nat, pp: nat, v: nat, perm: Perm, ghost s: State)
      requires Shape(s) && Typed(s) && pgdir < |s.kind| && s.kind[pgdir].Dir? && v < NUSERPAGES
      requires s.tables[pgdir][v / NPTENTRIES].perm.p && s.tables[pgdir][v / NPTENTRIES].frame == pt
      requires pp < |s.kind| && (s.kind[pp].Data? || s.kind[pp].Loose?)
      requires ValidExcept(pp, 1) && Snap() == SetRef(s, pp, s.pages[pp].ref + 1)
      requires SameMapsExcept(s, Snap(), NULL, NULL)
      modifies this
      ensures old(KernelHalf(Snap())) ==> KernelHalf(Snap())
      ensures Valid() && Mapped(s, Snap(), pgdir, v, pp, perm)
    {
      DropOldMapping(pgdir, pt, v, pp);
      WriteEntry(pgdir, pt, pp, v, perm, s);
    }

    // pp->pp_ref++ on a uint16_t
    method CountMapping(pp: nat)
      requires ValidExcept(pp, 0) && pp < |pages| && (kind[pp].Data? || kind[pp].Loose?)
      requires pages[pp].ref < MAX_REF
      modifies `pages
      ensures old(KernelHalf(Snap())) ==> KernelHalf(Snap())
      ensures ValidExcept(pp, 1) && Snap() == SetRef(old(Snap()), pp, old(pages[pp].ref) + 1)
      ensures SameMapsExcept(old(Snap()), Snap(), NULL, NULL)
    {
      ghost var s := Snap();
      pages := pages[pp := pages[pp].(ref := (pages[pp].ref + 1) % (MAX_REF + 1))];
      assert Snap() == SetRef(s, pp, s.pages[pp].ref + 1);
      CountAhead(s, pp);
      if KernelHalf(s) {
        HalfKept(s, Snap());
      }
    }

    // page_insert: whatever was mapped at `v` goes, with `pp` already counted.
    method DropOldMapping(pgdir: nat, pt: nat, v: nat, ghost pp: nat)
      requires ValidExcept(pp, 1) && pgdir < |pages| && kind[pgdir].Dir? && v < NUSERPAGES
      requires pp < |pages| && !kind[pp].Free?
      requires tables[pgdir][v / NPTENTRIES].perm.p && tables[pgdir][v / NPTENTRIES].frame == pt
      modifies this
      ensures old(KernelHalf(Snap())) ==> KernelHalf(Snap())
      ensures ValidExcept(pp, 1) && Removed(old(Snap()), Snap(), pgdir, v)
    {
      WalkSlot(Snap(), pgdir, v);
      if tables[pt][v % NPTENTRIES].perm.p {
        PageRemove(pgdir, v, pp, 1);
      }
    }

    // page_insert: the new entry; `s` is the state the walk left.
    method WriteEntry(pgdir: nat, pt: nat, pp: nat, v: nat, perm: Perm, ghost s: State)
      requires ValidExcept(pp, 1) && Shape(s) && Typed(s) && pgdir < |s.kind| && s.kind[pgdir].Dir? && v < NUSERPAGES
      requires s.tables[pgdir][v / NPTENTRIES].perm.p && s.tables[pgdir][v / NPTENTRIES].frame == pt
      requires pp < |s.kind| && (s.kind[pp].Data? || s.kind[pp].Loose?)
      requires Shape(SetRef(s, pp, s.pages[pp].ref + 1))
      requires SameMapsExcept(s, SetRef(s, pp, s.pages[pp].ref + 1), NULL, NULL)
      requires Removed(SetRef(s, pp, s.pages[pp].ref + 1), Snap(), pgdir, v)
      modifies `tables, `kind
      ensures old(KernelHalf(Snap())) ==> KernelHalf(Snap())
      ensures Valid() && Mapped(s, Snap(), pgdir, v, pp, perm)
    {
      ghost var s2 := Snap();
      tables := tables[pt := tables[pt][v % NPTENTRIES := Pte(pp, perm.(p := true))]];
      kind := kind[pp := Data];
      MapKeepsInv(s, s2, Snap(), pgdir, v, pp, perm);
      if KernelHalf(s2) {
        HalfKept(s2, Snap());
      }
    }

    // ---- environments -------------------------------------------------------------

    // Gives environment slot `e` an empty address space.
    method EnvSetupVm(e: nat) returns (r: int)
      requires Valid() && TemplateOk() && e !in pgdirs
      modifies this
      ensures old(KernelHalf(Snap())) ==> KernelHalf(Snap())
      ensures r == (if old(list) == [] then -E_NO_MEM else 0)
      ensures r != 0 ==> Snap() == old(Snap())
      ensures Valid()
      ensures r == 0 ==> SpaceAdded(old(Snap()), Snap(), e)
      ensures r == 0 ==> pgdirs[e] < |tables| && |tables[pgdirs[e]]| == NPTENTRIES
      ensures r == 0 ==> forall i :: 0 <= i < NPTENTRIES ==>
                tables[pgdirs[e]][i] == if i * 0x40_0000 == 0xef40_0000 then Pte(pgdirs[e], NO_PERM.(p := true, u := true)) else kernPgdir[i]
    {
      ghost var s := Snap();
      if list != [] {
        FreeIsUnreferenced(s, list[0], NULL, 0);
        NewDirKeepsInv(s, e, PDX_UVPT);
      }
      r := MakeDir(e);
      assert r == 0 ==> Snap() == WithDir(s, e, PDX_UVPT);
    }

    method MakeDir(e: nat) returns (r: int)
      requires Shape(Snap()) && FreeListOk(Snap()) && e !in pgdirs
      requires list != [] ==> pages[list[0]].ref == 0
      modifies this
      ensures old(KernelHalf(Snap())) ==> KernelHalf(Snap())
      ensures r == (if old(list) == [] then -E_NO_MEM else 0)
      ensures r != 0 ==> Snap() == old(Snap())
      ensures r == 0 ==> Snap() == WithDir(old(Snap()), e, PDX_UVPT)
    {
      var p := PageAlloc(true);
      if p == NULL {
        return -E_NO_MEM;
      }
      pages := pages[p := pages[p].(ref := pages[p].ref + 1)];
      kind := kind[p := Dir(e)];
      pgdirs := pgdirs[e := p];
      tables := tables[p := kernPgdir[PDX_UVPT := Pte(p, UVPT_PERM)]];
      r := 0;
    }

    // The directory is a page table of itself at UVPT: for a page that has a table, the
    // word user code reads as uvpt[v] is the entry of page `v`.
    lemma UvptShowsEntries(d: nat, v: nat)
      requires Shape(Snap()) && Typed(Snap()) && d < |tables| && kind[d].Dir? && v < NUSERPAGES
      requires tables[d][957].perm.p && tables[d][957].frame == d && tables[d][v / NPTENTRIES].perm.p
      ensures var at := Walk(Snap(), d, (0xef40_0000 + 4 * v) / PGSIZE);
              && at.perm.p && at.frame < |tables|
              && tables[at.frame][(0xef40_0000 + 4 * v) % PGSIZE / 4] == Walk(Snap(), d, v)
    {
      UvptPlace(v);
    }

    static lemma UvptPlace(v: nat)
      requires v < NUSERPAGES
      ensures (0xef40_0000 + 4 * v) / PGSIZE == 957 * NPTENTRIES + v / NPTENTRIES
      ensures (957 * NPTENTRIES + v / NPTENTRIES) / NPTENTRIES == 957
      ensures (957 * NPTENTRIES + v / NPTENTRIES) % NPTENTRIES == v / NPTENTRIES
      ensures (0xef40_0000 + 4 * v) % PGSIZE / 4 == v % NPTENTRIES
    {}

    // Tears down the address space of slot `e`: all user mappings, then each page
    // table, then the directory.
    method EnvFree(e: nat)
      requires Valid() && e in pgdirs
      modifies this
      ensures old(KernelHalf(Snap())) ==> KernelHalf(Snap())
      ensures Valid() && SpaceFreed(old(Snap()), Snap(), e)
    {
      ghost var s := Snap();
      var pgdir := pgdirs[e];
      var pdeno := 0;
      while pdeno < PDX_UTOP
        invariant 0 <= pdeno <= PDX_UTOP
        invariant Valid() && pgdirs == s.pgdirs && Releasing(s, Snap(), e) && (old(KernelHalf(Snap())) ==> KernelHalf(Snap()))
        invariant pgdir < |tables| && Blank(tables[pgdir], pdeno)
      {
        FreeEntry(e, pdeno, s);
        pdeno := pdeno + 1;
      }
      FreeDir(e, s);
    }

    // The body of env_free's outer loop.
    method FreeEntry(e: nat, pdeno: nat, ghost s: State)
      requires Shape(s) && Typed(s) && e in s.pgdirs && pgdirs == s.pgdirs
      requires Valid() && Releasing(s, Snap(), e) && pdeno < PDX_UTOP && Blank(tables[pgdirs[e]], pdeno)
      modifies this
      ensures old(KernelHalf(Snap())) ==> KernelHalf(Snap())
      ensures Valid() && pgdirs == s.pgdirs && Releasing(s, Snap(), e)
      ensures Blank(tables[pgdirs[e]], pdeno + 1)
    {
      ghost var was := tables[pgdirs[e]];
      if tables[pgdirs[e]][pdeno].perm.p {
        FreeTable(e, pdeno, s);
      }
      OneMoreBlank(was, tables[pgdirs[e]], pdeno);
    }

    // Unmaps every page of one page table and frees the table.
    method FreeTable(e: nat, pdeno: nat, ghost s: State)
      requires Shape(s) && Typed(s) && e in s.pgdirs && pgdirs == s.pgdirs
      requires Valid() && Releasing(s, Snap(), e)
      requires pdeno < PDX_UTOP && tables[pgdirs[e]][pdeno].perm.p
      modifies this
      ensures old(KernelHalf(Snap())) ==> KernelHalf(Snap())
      ensures Valid() && pgdirs == s.pgdirs && Releasing(s, Snap(), e)
      ensures tables[pgdirs[e]] == old(tables[pgdirs[e]])[pdeno := ZERO_PTE]
    {
      var pgdir := pgdirs[e];
      var pt := tables[pgdir][pdeno].frame;
      EmptyTable(e, pdeno, pt, s);
      ghost var s1 := Snap();
      OwnedOnce(s1, pt);
      tables := tables[pgdir := tables[pgdir][pdeno := ZERO_PTE]];
      var panicked := PageDecref(pt);
      DropTableKeepsInv(s1, Snap(), pgdir, pdeno);
      DropsTableReleases(s1, Snap(), e, pt, pdeno);
      ReleasingTrans(s, s1, Snap(), e);
      DroppedKeepsHalf(s1, Snap(), pgdir, pdeno, pt);
    }

    method UnmapPage(e: nat, pdeno: nat, pteno: nat, ghost s: State)
      requires Shape(s) && Typed(s) && e in s.pgdirs && pgdirs == s.pgdirs
      requires Valid() && Releasing(s, Snap(), e)
      requires pdeno < PDX_UTOP && pteno < NPTENTRIES && tables[pgdirs[e]][pdeno].perm.p
      modifies this
      ensures old(KernelHalf(Snap())) ==> KernelHalf(Snap())
      ensures Valid() && pgdirs == s.pgdirs && Releasing(s, Snap(), e)
      ensures OneCleared(old(Snap()), Snap(), pgdirs[e], pdeno, pteno)
    {
      ghost var s1 := Snap();
      var v: nat := pdeno * NPTENTRIES + pteno;
      PageRemove(pgdirs[e], v, NULL, 0);
      RemovedOne(s, s1, Snap(), e, v, pdeno, pteno);
    }

    method EmptyTable(e: nat, pdeno: nat, pt: nat, ghost s: State)
      requires Shape(s) && Typed(s) && e in s.pgdirs && pgdirs == s.pgdirs
      requires Valid() && Releasing(s, Snap(), e)
      requires pdeno < PDX_UTOP && tables[pgdirs[e]][pdeno].perm.p && tables[pgdirs[e]][pdeno].frame == pt
      modifies this
      ensures old(KernelHalf(Snap())) ==> KernelHalf(Snap())
      ensures Valid() && pgdirs == s.pgdirs && Releasing(s, Snap(), e)
      ensures tables[pgdirs[e]] == old(tables[pgdirs[e]])
      ensures pt < |tables| && Blank(tables[pt], NPTENTRIES)
    {
      var pgdir := pgdirs[e];
      var pteno := 0;
      while pteno < NPTENTRIES
        invariant 0 <= pteno <= NPTENTRIES
        invariant Valid() && pgdirs == s.pgdirs && Releasing(s, Snap(), e) && (old(KernelHalf(Snap())) ==> KernelHalf(Snap()))
        invariant tables[pgdir] == old(tables[pgdir]) && kind[pt] == Table(pgdir, pdeno)
        invariant pt < |tables| && Blank(tables[pt], pteno)
      {
        ghost var was := tables[pt];
        if tables[pt][pteno].perm.p {
          UnmapPage(e, pdeno, pteno, s);
        }
        OneMoreBlank(was, tables[pt], pteno);
        pteno := pteno + 1;
      }
    }

    method FreeDir(e: nat, ghost s: State)
      requires Shape(s) && Typed(s) && e in s.pgdirs && pgdirs == s.pgdirs
      requires Valid() && Releasing(s, Snap(), e)
      requires forall i :: 0 <= i < PDX_UTOP ==> !tables[pgdirs[e]][i].perm.p
      modifies this
      ensures old(KernelHalf(Snap())) ==> KernelHalf(Snap())
      ensures Valid() && SpaceFreed(s, Snap(), e)
    {
      ghost var s1 := Snap();
      var pgdir := pgdirs[e];
      OwnedOnce(s1, pgdir);
      pgdirs := pgdirs - {e};
      var panicked := PageDecref(pgdir);
      DropDirKeepsInv(s1, Snap(), e);
      assert Releasing(s1, Snap(), e);
      ReleasingTrans(s, s1, Snap(), e);
      GoneKeepsHalf(s1, Snap(), pgdir);
    }

    // ---- system calls -----------------------------------------------------------------
    // `env` arguments are what envid2env found: a slot, or NULL when it failed.

    // Unlike its comment, the call accepts a `va` that is not page-aligned and
    // uses the page it lies in.
    method SysPageAlloc(env: int, va: nat, perm: Perm) returns (r: int, ghost f: nat)
      requires Valid() && (env != NULL ==> 0 <= env && env in pgdirs)
      modifies this
      ensures old(KernelHalf(Snap())) ==> KernelHalf(Snap())
      ensures Valid()
      ensures r == 0 ==> env != NULL && va < UTOP && SyscallPerm(perm) && old(list) != []
      ensures env == NULL ==> r == -E_BAD_ENV
      ensures env != NULL && (va >= UTOP || !SyscallPerm(perm)) ==> r == -E_INVAL
      ensures env != NULL && va < UTOP && SyscallPerm(perm) ==>
                r == if |old(list)| >= (if old(tables[pgdirs[env]][va / PGSIZE / NPTENTRIES]).perm.p then 1 else 2)
                     then 0 else -E_NO_MEM
      ensures r == 0 ==> f < old(|pages|) && old(kind)[f].Free? && data[f] == ZeroPage() &&
                         Installed(old(Snap()), Snap(), env, va / PGSIZE, f, perm)
      ensures r != 0 ==> Snap() == old(Snap()) || OnlyScrubbed(old(Snap()), Snap())
    {
      f := 0;
      if env == NULL {
        return -E_BAD_ENV, f;
      }
      if va >= UTOP {
        return -E_INVAL, f;
      }
      if !(perm.u && perm.p) {
        return -E_INVAL, f;
      }
      if perm.other {
        return -E_INVAL, f;
      }
      r, f := AllocAt(env, va / PGSIZE, perm);
    }

    method AllocAt(env: nat, v: nat, perm: Perm) returns (r: int, ghost f: nat)
      requires Valid() && env in pgdirs && v < NUSERPAGES && perm.p
      modifies this
      ensures old(KernelHalf(Snap())) ==> KernelHalf(Snap())
      ensures Valid() && (r == 0 || r == -E_NO_MEM)
      ensures r == 0 <==> |old(list)| >= (if old(tables[pgdirs[env]][v / NPTENTRIES]).perm.p then 1 else 2)
      ensures r == 0 ==> f < old(|pages|) && old(kind)[f].Free? && data[f] == ZeroPage() &&
                         Installed(old(Snap()), Snap(), env, v, f, perm)
      ensures r != 0 ==> Snap() == old(Snap()) || OnlyScrubbed(old(Snap()), Snap())
    {
      f := 0;
      ghost var s := Snap();
      var pg := PageAlloc(true);
      if pg == NULL {
        return -E_NO_MEM, f;
      }
      f := pg;
      PopKeepsInv(s, true);
      ghost var s1 := Snap();
      r := PageInsert(pgdirs[env], pg, v, perm);
      if r != 0 {
        var panicked := PageFree(pg);
        PushKeepsInv(s1, pg);
        PopPushScrubs(s);
        return;
      }
      FreshInstalled(s, s1, Snap(), env, v, perm);
    }

    method SysPageMap(srcEnv: int, srcva: nat, dstEnv: int, dstva: nat, perm: Perm) returns (r: int)
      requires Valid()
      requires (srcEnv != NULL ==> 0 <= srcEnv && srcEnv in pgdirs) && (dstEnv != NULL ==> 0 <= dstEnv && dstEnv in pgdirs)
      requires srcEnv != NULL && srcva < UTOP && Entry(Snap(), srcEnv, srcva / PGSIZE).perm.p ==>
                 CanCount(Entry(Snap(), srcEnv, srcva / PGSIZE).frame)
      modifies this
      ensures old(KernelHalf(Snap())) ==> KernelHalf(Snap())
      ensures Valid()
      ensures srcEnv == NULL || dstEnv == NULL <==> r == -E_BAD_ENV
      ensures r == 0 ==> srcva < UTOP && dstva < UTOP && srcva % PGSIZE == 0 && dstva % PGSIZE == 0 && SyscallPerm(perm)
      ensures srcEnv != NULL && dstEnv != NULL ==>
                (r == -E_INVAL <==>
                 || srcva >= UTOP || srcva % PGSIZE != 0 || dstva >= UTOP || dstva % PGSIZE != 0 || !SyscallPerm(perm)
                 || !old(Entry(Snap(), srcEnv, srcva / PGSIZE)).perm.p
                 || (perm.w && !old(Entry(Snap(), srcEnv, srcva / PGSIZE)).perm.w))
      ensures r == 0 ==> Installed(old(Snap()), Snap(), dstEnv, dstva / PGSIZE,
                                   old(Entry(Snap(), srcEnv, srcva / PGSIZE)).frame, perm) &&
                         old(Entry(Snap(), srcEnv, srcva / PGSIZE)).perm.p
      ensures r == 0 || r == -E_BAD_ENV || r == -E_INVAL || r == -E_NO_MEM
      ensures r == -E_NO_MEM ==> old(list) == [] && !old(tables[pgdirs[dstEnv]][dstva / PGSIZE / NPTENTRIES]).perm.p
      ensures r == 0 ==> old(list) != [] || old(tables[pgdirs[dstEnv]][dstva / PGSIZE / NPTENTRIES]).perm.p
      ensures r != 0 ==> Snap() == old(Snap())
    {
      if srcEnv == NULL || dstEnv == NULL {
        return -E_BAD_ENV;
      }
      if srcva >= UTOP || srcva % PGSIZE != 0 || dstva >= UTOP || dstva % PGSIZE != 0 {
        return -E_INVAL;
      }
      if !(perm.u && perm.p) {
        return -E_INVAL;
      }
      if perm.other {
        return -E_INVAL;
      }
      r := MapFrom(srcEnv, srcva / PGSIZE, dstEnv, dstva / PGSIZE, perm);
    }

    method MapFrom(srcEnv: nat, sv: nat, dstEnv: nat, dv: nat, perm: Perm) returns (r: int)
      requires Valid() && srcEnv in pgdirs && dstEnv in pgdirs && sv < NUSERPAGES && dv < NUSERPAGES && perm.p
      requires Entry(Snap(), srcEnv, sv).perm.p ==> CanCount(Entry(Snap(), srcEnv, sv).frame)
      modifies this
      ensures old(KernelHalf(Snap())) ==> KernelHalf(Snap())
      ensures Valid() && (r == 0 || r == -E_INVAL || r == -E_NO_MEM)
      ensures r == -E_INVAL <==> !old(Entry(Snap(), srcEnv, sv)).perm.p ||
                                 (perm.w && !old(Entry(Snap(), srcEnv, sv)).perm.w)
      ensures r == 0 ==> Installed(old(Snap()), Snap(), dstEnv, dv, old(Entry(Snap(), srcEnv, sv)).frame, perm)
      ensures r == -E_NO_MEM ==> old(list) == [] && !old(tables[pgdirs[dstEnv]][dv / NPTENTRIES]).perm.p
      ensures r == 0 ==> old(list) != [] || old(tables[pgdirs[dstEnv]][dv / NPTENTRIES]).perm.p
      ensures r != 0 ==> Snap() == old(Snap())
    {
      var page := SourcePage(srcEnv, sv, perm);
      if page == NULL {
        return -E_INVAL;
      }
      r := InstallAt(page, dstEnv, dv, perm);
    }

    method InstallAt(page: nat, dstEnv: nat, dv: nat, perm: Perm) returns (r: int)
      requires Valid() && dstEnv in pgdirs && dv < NUSERPAGES && perm.p
      requires page < |pages| && kind[page].Data? && CanCount(page)
      modifies this
      ensures old(KernelHalf(Snap())) ==> KernelHalf(Snap())
      ensures Valid()
      ensures r == if old(list) == [] && !old(tables[pgdirs[dstEnv]][dv / NPTENTRIES]).perm.p then -E_NO_MEM else 0
      ensures r == 0 ==> Installed(old(Snap()), Snap(), dstEnv, dv, page, perm)
      ensures r != 0 ==> Snap() == old(Snap())
    {
      r := PageInsert(pgdirs[dstEnv], page, dv, perm);
      if r != 0 {
        return -E_NO_MEM;
      }
    }

    // The frame to map, or NULL when there is none or it may not be mapped writable.
    method SourcePage(srcEnv: nat, sv: nat, perm: Perm) returns (page: int)
      requires Valid() && srcEnv in pgdirs && sv < NUSERPAGES
      modifies this
      ensures old(KernelHalf(Snap())) ==> KernelHalf(Snap())
      ensures Snap() == old(Snap())
      ensures var pte := Entry(Snap(), srcEnv, sv);
              if !pte.perm.p || (perm.w && !pte.perm.w) then page == NULL
              else page == pte.frame && page < |pages| && kind[page].Data?
    {
      WalkSlot(Snap(), pgdirs[srcEnv], sv);
      var srcpte: int;
      page, srcpte := PageLookup(pgdirs[srcEnv], sv, NULL, 0);
      if page == NULL {
        return;
      }
      if perm.w && !tables[srcpte][sv % NPTENTRIES].perm.w {
        return NULL;
      }
    }

    method SysPageUnmap(env: int, va: nat) returns (r: int)
      requires Valid() && (env != NULL ==> 0 <= env && env in pgdirs)
      modifies this
      ensures old(KernelHalf(Snap())) ==> KernelHalf(Snap())
      ensures Valid()
      ensures r == if env == NULL then -E_BAD_ENV else if va >= UTOP || va % PGSIZE != 0 then -E_INVAL else 0
      ensures r != 0 ==> Snap() == old(Snap())
      ensures r == 0 ==> Removed(old(Snap()), Snap(), old(pgdirs)[env], va / PGSIZE)
    {
      if env == NULL {
        return -E_BAD_ENV;
      }
      if va >= UTOP || va % PGSIZE != 0 {
        return -E_INVAL;
      }
      PageRemove(pgdirs[env], va / PGSIZE, NULL, 0);
      r := 0;
    }

    // ---- user_mem_check ----------------------------------------------------------------

    // What a walk of the whole address space finds, kernel half included.
    function WalkAny(pgdir: nat, v: nat): (pte: Pte)
      requires Shape(Snap()) && Typed(Snap()) && pgdir < |pages| && kind[pgdir].Dir? && v < NPTENTRIES * NPTENTRIES
      reads this
      ensures pte == Walk(Snap(), pgdir, v)
    {
      var pde := tables[pgdir][v / NPTENTRIES];
      if pde.perm.p then tables[pde.frame][v % NPTENTRIES] else ZERO_PTE
    }

    // Whether the page at address `i` may be accessed with permissions `perm`.
    predicate Accessible(pgdir: nat, i: nat, perm: Perm)
      requires Shape(Snap()) && Typed(Snap()) && pgdir < |pages| && kind[pgdir].Dir? && i < WORD
      reads this
    {
      i < ULIM && WalkAny(pgdir, i / PGSIZE).perm.p && Includes(WalkAny(pgdir, i / PGSIZE).perm, perm)
    }

    // All flags asked for are there, one by one.
    static ghost predicate Granted(have: Perm, perm: Perm) {
      && have.p && (perm.w ==> have.w) && (perm.u ==> have.u) && (perm.share ==> have.share)
      && (perm.cow ==> have.cow) && (perm.avail ==> have.avail) && (perm.other ==> have.other)
    }

    lemma RangeGranted(pgdir: nat, va: nat, len: nat, perm: Perm)
      requires Shape(Snap()) && Typed(Snap()) && pgdir < |pages| && kind[pgdir].Dir?
      requires 0 < len && va + len <= WORD - PGSIZE
      requires forall i: nat :: CheckedPage(va, len, i) ==> Accessible(pgdir, i, perm)
      ensures va + len <= 0xef80_0000
      ensures forall v: nat :: va / PGSIZE <= v <= (va + len - 1) / PGSIZE ==>
                Granted(Walk(Snap(), pgdir, v).perm, perm)
    {
      PageInRange(va, len, (va + len - 1) / PGSIZE);
      assert Accessible(pgdir, (va + len - 1) / PGSIZE * PGSIZE, perm);
      forall v: nat | va / PGSIZE <= v <= (va + len - 1) / PGSIZE
        ensures Granted(Walk(Snap(), pgdir, v).perm, perm)
      {
        PageInRange(va, len, v);
        assert Accessible(pgdir, v * PGSIZE, perm);
      }
    }

    // Returns 0, or -E_FAULT and the first bad address.  All arithmetic is that of
    // uint32_t, so `va + len` may wrap.
    method UserMemCheck(pgdir: nat, va: nat, len: nat, perm: Perm) returns (r: int, badAddr: nat)
      requires Valid() && pgdir < |pages| && kind[pgdir].Dir? && va < WORD && len < WORD
      ensures r == 0 || r == -E_FAULT
      ensures r == 0 <==> forall i: nat :: CheckedPage(va, len, i) ==> Accessible(pgdir, i, perm)
      ensures r != 0 ==>
                exists i: nat :: CheckedPage(va, len, i) && !Accessible(pgdir, i, perm) &&
                  (forall j: nat :: CheckedPage(va, len, j) && j < i ==> Accessible(pgdir, j, perm)) &&
                  badAddr == if i < va then va else i
      ensures r == 0 && 0 < len && va + len <= WORD - PGSIZE ==>
                va + len <= 0xef80_0000 &&
                forall v: nat :: va / PGSIZE <= v <= (va + len - 1) / PGSIZE ==>
                  Granted(Walk(Snap(), pgdir, v).perm, perm)
    {
      var begin := RoundDown(va);
      var end := RoundUp32((va + len) % WORD);
      var i := begin;
      while i < end
        invariant begin <= i && i % PGSIZE == 0 && end % PGSIZE == 0 && end < WORD
        invariant forall j: nat :: CheckedPage(va, len, j) && j < i ==> Accessible(pgdir, j, perm)
      {
        assert CheckedPage(va, len, i);
        if i >= ULIM || !WalkAny(pgdir, i / PGSIZE).perm.p || !Includes(WalkAny(pgdir, i / PGSIZE).perm, perm) {
          return -E_FAULT, if i < va then va else i;
        }
        NextPage(i);
        i := i + PGSIZE;
      }
      if 0 < len && va + len <= WORD - PGSIZE {
        RangeGranted(pgdir, va, len, perm);
      }
      return 0, 0;
    }
  }

  const ULIM := 0xef80_0000

  // (have & want) == want
  predicate Includes(have: Perm, want: Perm) {
    && (want.p ==> have.p) && (want.w ==> have.w) && (want.u ==> have.u) && (want.share ==> have.share)
    && (want.cow ==> have.cow) && (want.avail ==> have.avail) && (want.other ==> have.other)
  }

  // For flags a program may use, the test is the code's `(*pte & perm) != perm`.
  lemma IncludesIff(have: bv32, want: bv32)
    requires want & !0xE07 == 0
    ensures Includes(Flags(have), Flags(want)) <==> have & want == want
  {}

  function RoundDown(a: nat): nat {
    a - a % PGSIZE
  }

  function RoundUp32(a: nat): nat {
    RoundDown((a + PGSIZE - 1) % WORD)
  }

  // The page starts user_mem_check looks at for the range [va, va + len).
  ghost predicate CheckedPage(va: nat, len: nat, i: nat) {
    i % PGSIZE == 0 && RoundDown(va) <= i < RoundUp32((va + len) % WORD)
  }

  lemma NextPage(i: nat)
    requires i % PGSIZE == 0
    ensures (i + PGSIZE) % PGSIZE == 0
    ensures forall j: nat :: j % PGSIZE == 0 && j < i + PGSIZE ==> j <= i
  {}

  lemma PageInRange(va: nat, len: nat, v: nat)
    requires 0 < len && va + len <= WORD - PGSIZE && va / PGSIZE <= v <= (va + len - 1) / PGSIZE
    ensures CheckedPage(va, len, v * PGSIZE) && v * PGSIZE < WORD && v * PGSIZE / PGSIZE == v
  {
    var end := va + len;
    assert RoundUp32(end % WORD) == RoundDown(end + PGSIZE - 1);
  }

  // For a range that does not reach the top page of memory these are exactly the
  // pages that hold an address of the range.
  lemma CheckedPagesCoverRange(va: nat, len: nat, i: nat)
    requires 0 < len && va + len <= WORD - PGSIZE && i % PGSIZE == 0
    ensures CheckedPage(va, len, i) <==> exists a :: va <= a < va + len && RoundDown(a) == i
  {
    var end := va + len;
    assert RoundUp32(end) == RoundDown(end + PGSIZE - 1);
    if CheckedPage(va, len, i) {
      var a := if i < va then va else i;
      assert va <= a < va + len && RoundDown(a) == i;
    }
    if a :| va <= a < va + len && RoundDown(a) == i {
      assert RoundDown(va) <= i;
      assert i + PGSIZE <= RoundDown(end + PGSIZE - 1);
    }
  }

  // Every page of a range is looked at exactly when the range ends below the top page
  // of memory: past that, rounding its end up wraps.
  lemma RangeCheckedIff(va: nat, len: nat)
    requires va < WORD && 0 < len < WORD
    ensures (forall a :: va <= a < va + len ==> CheckedPage(va, len, RoundDown(a % WORD))) <==> va + len <= WORD - PGSIZE
  {
    if va + len <= WORD - PGSIZE {
      forall a | va <= a < va + len ensures CheckedPage(va, len, RoundDown(a % WORD)) {
        CheckedPagesCoverRange(va, len, RoundDown(a));
      }
    } else if va + len <= WORD {
      TopRangeUnchecked(va, len, RoundDown(va % WORD));
    } else {
      assert va <= WORD - 1 < va + len;
      LastPageUnchecked(va, len);
    }
  }

  // A range that reaches the top page without wrapping is not looked at at all, and
  // passes, whatever is mapped there: [0xfffff000, 0xfffff010) is such a range.
  lemma TopRangeUnchecked(va: nat, len: nat, i: nat)
    requires va < WORD && 0 < len < WORD && WORD - PGSIZE < va + len <= WORD
    ensures !CheckedPage(va, len, i)
  {
    assert RoundUp32((va + len) % WORD) == 0;
  }

  lemma LastPageUnchecked(va: nat, len: nat)
    requires va < WORD && len < WORD
    ensures !CheckedPage(va, len, RoundDown((WORD - 1) % WORD))
  {
    assert RoundDown(WORD - 1) == WORD - PGSIZE;
    assert RoundUp32((va + len) % WORD) <= WORD - PGSIZE;
  }

  // Nothing at all is looked at when a range wraps and ends below the page it starts in.
  lemma WrappingRangeUnchecked(va: nat, len: nat, i: nat)
    requires va < WORD && len < WORD && va + len >= WORD && va + len - WORD <= RoundDown(va)
    ensures !CheckedPage(va, len, i)
  {
    assert (va + len) % WORD == va + len - WORD;
  }

  // An empty range has its page looked at, unless it starts on a page boundary.
  lemma EmptyRangeChecked(va: nat, i: nat)
    requires va <= WORD - PGSIZE
    ensures CheckedPage(va, 0, i) <==> va % PGSIZE != 0 && i == RoundDown(va)
  {
    assert va % PGSIZE != 0 ==> RoundUp32(va) == RoundDown(va) + PGSIZE;
    assert va % PGSIZE == 0 ==> RoundUp32(va) == va;
  }
}
