// What each elementary kernel step on frames and page tables keeps: the free
// list, the typing of frames, the reference counts, every other mapping, and
// the bytes of every mapped page.
module VmSteps {
  import opened Inc
  import opened Vm

  // ---- the free list -----------------------------------------------------------

  // The members of the list and the free frames are the same.
  ghost predicate ListsFree(s: State)
    requires Shape(s)
  {
    && (forall i :: 0 <= i < |s.list| ==> s.list[i] < |s.pages| && s.kind[s.list[i]].Free?)
    && (forall i, j :: 0 <= i < j < |s.list| ==> s.list[i] != s.list[j])
    && (forall f :: 0 <= f < |s.kind| && s.kind[f].Free? ==> f in s.list)
  }

  lemma PopFreeList(s: State, zero: bool)
    requires Shape(s) && FreeListOk(s) && s.list != []
    ensures Shape(Pop(s, zero)) && FreeListOk(Pop(s, zero))
  {
    var f, s' := s.list[0], Pop(s, zero);
    assert s.pages[f].link == Next(s.list, 0);
    PoppedMembers(s, s');
    PoppedLinks(s, s');
  }

  lemma PoppedMembers(s: State, s': State)
    requires Shape(s) && Shape(s') && ListsFree(s) && s.list != [] && s'.list == s.list[1..] && |s'.pages| == |s.pages|
    requires s'.kind == s.kind[s.list[0] := Loose]
    ensures ListsFree(s')
  {
    forall g | 0 <= g < |s'.kind| && s'.kind[g].Free? ensures g in s'.list {
      assert s.list == [s.list[0]] + s'.list;
    }
  }

  lemma PoppedLinks(s: State, s': State)
    requires Shape(s) && FreeListOk(s) && s.list != [] && s'.list == s.list[1..] && |s'.pages| == |s.pages|
    requires forall g :: 0 <= g < |s.pages| && g != s.list[0] ==> s'.pages[g] == s.pages[g]
    ensures forall i {:trigger s'.pages[s'.list[i]]} :: 0 <= i < |s'.list| ==>
              s'.pages[s'.list[i]].link == Next(s'.list, i)
  {
    forall i | 0 <= i < |s'.list| ensures s'.pages[s'.list[i]].link == Next(s'.list, i) {
      assert s.pages[s.list[i + 1]].link == Next(s.list, i + 1);
    }
  }

  lemma PushFreeList(s: State, f: nat)
    requires Shape(s) && FreeListOk(s) && f < |s.kind| && !s.kind[f].Free?
    ensures Shape(Push(s, f)) && FreeListOk(Push(s, f))
  {
    PushedMembers(s, Push(s, f), f);
    PushedLinks(s, Push(s, f), f);
  }

  lemma PushedMembers(s: State, s': State, f: nat)
    requires Shape(s) && Shape(s') && ListsFree(s) && f < |s.kind| && !s.kind[f].Free? && |s'.pages| == |s.pages|
    requires s'.list == [f] + s.list && s'.kind == s.kind[f := Kind.Free]
    ensures ListsFree(s')
  {
    forall g | 0 <= g < |s'.kind| && s'.kind[g].Free? ensures g in s'.list {
      assert g == f || g in s.list;
    }
  }

  lemma PushedLinks(s: State, s': State, f: nat)
    requires Shape(s) && Shape(s') && FreeListOk(s) && f < |s.kind| && !s.kind[f].Free? && |s'.pages| == |s.pages|
    requires s'.list == [f] + s.list && s'.pages == s.pages[f := s.pages[f].(link := s.head)]
    ensures forall i {:trigger s'.pages[s'.list[i]]} :: 0 <= i < |s'.list| ==>
              s'.list[i] < |s'.pages| && s'.pages[s'.list[i]].link == Next(s'.list, i)
  {
    forall i | 0 <= i < |s'.list| ensures s'.list[i] < |s'.pages| && s'.pages[s'.list[i]].link == Next(s'.list, i) {
      if i > 0 {
        assert s.pages[s.list[i - 1]].link == Next(s.list, i - 1);
      }
    }
  }

  lemma DecrefFreeList(s: State, f: nat)
    requires Shape(s) && FreeListOk(s) && f < |s.kind| && !s.kind[f].Free? && s.pages[f].ref > 0
    ensures Shape(Decref(s, f)) && FreeListOk(Decref(s, f))
  {
    var s1 := SetRef(s, f, s.pages[f].ref - 1);
    assert FreeListOk(s1);
    if s.pages[f].ref == 1 {
      PushFreeList(s1, f);
    }
  }

  // Changes that leave links and the set of free frames alone.
  lemma SameFreeList(s: State, s': State)
    requires Shape(s) && Shape(s') && FreeListOk(s)
    requires s'.head == s.head && s'.list == s.list && |s'.pages| == |s.pages|
    requires forall f :: 0 <= f < |s.pages| ==>
               s'.pages[f].link == s.pages[f].link && s'.kind[f].Free? == s.kind[f].Free?
    ensures FreeListOk(s')
  {
  }

  // ---- how reference sets and counts change ---------------------------------------------

  // Reference sets that differ by explicitly known slots and roots.
  lemma RefsChange(s: State, s': State, f: nat, add: set<Ref>, del: set<Ref>)
    requires Shape(s) && Shape(s') && |s'.kind| == |s.kind|
    requires forall t, i :: 0 <= t < |s.kind| && 0 <= i < NPTENTRIES ==>
               (Hits(s', f, t, i) <==> (Hits(s, f, t, i) && Slot(t, i) !in del) || Slot(t, i) in add)
    requires forall r :: r in add && r.Slot? ==> r.table < |s.kind| && r.index < NPTENTRIES
    requires forall e :: Root(e) in Roots(s', f) <==> (Root(e) in Roots(s, f) && Root(e) !in del) || Root(e) in add
    ensures Refs(s', f) == Refs(s, f) - del + add
  {
    forall r: Ref ensures r in Refs(s', f) <==> r in Refs(s, f) - del + add {
      if r.Slot? && r.table < |s.kind| && r.index < NPTENTRIES {
        assert r in Slots(s', f) <==> Hits(s', f, r.table, r.index);
        assert r in Slots(s, f) <==> Hits(s, f, r.table, r.index);
      }
    }
  }

  // pp_ref still counts the references when those of one frame `g` change by
  // `delta` and its count follows.
  lemma CountedChange(s: State, s': State, x: int, k: nat, x': int, k': nat, g: nat, delta: int)
    requires Shape(s) && Shape(s') && Counted(s, x, k) && |s'.pages| == |s.pages| && g < |s.pages|
    requires forall f :: 0 <= f < |s.kind| ==> |Refs(s', f)| == |Refs(s, f)| + (if f == g then delta else 0)
    requires forall f :: 0 <= f < |s.pages| ==>
               s'.pages[f].ref - (if f == x' then k' else 0) ==
               s.pages[f].ref - (if f == x then k else 0) + (if f == g then delta else 0)
    requires s'.pages[g].ref <= MAX_REF && (s'.kind[g].Data? ==> s'.pages[g].ref > 0)
    requires s.kind[g].Reserved? ==> s'.kind[g].Reserved?
    requires forall f :: 0 <= f < |s.kind| && f != g ==> s'.kind[f] == s.kind[f] && s'.pages[f].ref == s.pages[f].ref
    requires forall f :: 0 <= f < |s.kind| && s'.kind[f].Loose? ==> f == x'
    ensures s.kind[g].Reserved? == s'.kind[g].Reserved? ==> Counted(s', x', k')
  {
  }

  // ---- changes that touch no directory and no table ----------------------------------

  // Frames that are neither directories nor tables may change their contents,
  // and may change kind as long as nothing present points at them wrongly.
  ghost predicate SameTables(s: State, s': State)
    requires Shape(s) && Shape(s')
  {
    && |s.kind| == |s'.kind| && s'.pgdirs == s.pgdirs
    && forall t :: 0 <= t < |s.kind| ==>
         if s.kind[t].Table? || s.kind[t].Dir? then s'.kind[t] == s.kind[t] && s'.tables[t] == s.tables[t]
         else !s'.kind[t].Table? && !s'.kind[t].Dir?
  }

  lemma SameTablesRefs(s: State, s': State, f: nat)
    requires Shape(s) && Shape(s') && SameTables(s, s')
    ensures Refs(s', f) == Refs(s, f)
  {
    forall t, i | 0 <= t < |s.kind| && 0 <= i < NPTENTRIES ensures Hits(s', f, t, i) <==> Hits(s, f, t, i) {
      var same := s.kind[t].Table? || s.kind[t].Dir?;
      assert !same ==> !Hits(s, f, t, i);
    }
    RefsFrame(s, s', f);
  }

  lemma SameTablesTyped(s: State, s': State)
    requires Shape(s) && Shape(s') && SameTables(s, s') && Typed(s)
    requires forall f :: 0 <= f < |s.kind| && s.kind[f].Data? && !s'.kind[f].Data? ==> Refs(s, f) == {}
    ensures Typed(s')
  {
    forall u | 0 <= u < |s'.kind| && s'.kind[u].Table? ensures TableOwned(s', u) {
      assert s.kind[u].Table?;
      assert TableOwned(s, u);
    }
    forall u, j | 0 <= u < |s'.kind| && 0 <= j < NPTENTRIES && s'.kind[u].Table? && s'.tables[u][j].perm.p
      ensures s'.kind[s'.tables[u][j].frame].Data?
    {
      var g := s.tables[u][j].frame;
      assert s.kind[u].Table? && s.kind[g].Data?;
      assert Hits(s, g, u, j);
      assert Slot(u, j) in Refs(s, g);
    }
  }

  lemma SameTablesMaps(s: State, s': State)
    requires Shape(s) && Shape(s') && SameTables(s, s') && Typed(s)
    ensures SameMapsExcept(s, s', NULL, NULL)
  {
    forall e, w | e in s.pgdirs && 0 <= w < NUSERPAGES ensures Entry(s', e, w) == Entry(s, e, w) {
      WalkSlot(s, s.pgdirs[e], w);
    }
  }

  // A user walk that finds a table ends in the table owned by that directory entry.
  lemma WalkSlot(s: State, d: nat, w: nat)
    requires Shape(s) && Typed(s) && d < |s.kind| && s.kind[d].Dir? && w < NUSERPAGES
    ensures w / NPTENTRIES < PDX_UTOP
    ensures s.tables[d][w / NPTENTRIES].perm.p ==>
              var t := s.tables[d][w / NPTENTRIES].frame;
              t < |s.kind| && s.kind[t] == Table(d, w / NPTENTRIES) && Walk(s, d, w) == s.tables[t][w % NPTENTRIES]
    ensures !s.tables[d][w / NPTENTRIES].perm.p ==> Walk(s, d, w) == ZERO_PTE
  {
  }

  // Nothing but `x` changes kind to or from data, and counts follow the tables.
  lemma SameTablesCounted(s: State, s': State, x: int, k: nat)
    requires Shape(s) && Shape(s') && SameTables(s, s') && |s'.pages| == |s.pages|
    requires forall f :: 0 <= f < |s.kind| ==> (s'.kind[f].Reserved? ==> s.kind[f].Reserved?)
    requires forall f :: 0 <= f < |s.kind| && !s.kind[f].Reserved? ==>
               s'.pages[f].ref == |Refs(s, f)| + (if f == x then k else 0)
    requires forall f :: 0 <= f < |s.pages| ==> s'.pages[f].ref <= MAX_REF
    requires forall f :: 0 <= f < |s.kind| && s'.kind[f].Data? ==> s'.pages[f].ref > 0
    requires forall f :: 0 <= f < |s.kind| && s'.kind[f].Loose? ==> f == x
    requires forall f :: 0 <= f < |s.kind| && s.kind[f].Reserved? ==> s'.kind[f].Reserved?
    ensures Counted(s', x, k)
  {
    forall f | 0 <= f < |s.kind| ensures Refs(s', f) == Refs(s, f) {
      SameTablesRefs(s, s', f);
    }
  }

  // ---- page_alloc and page_free -----------------------------------------------------

  lemma PopTables(s: State, zero: bool)
    requires Shape(s) && FreeListOk(s) && s.list != []
    ensures s.kind[s.list[0]].Free?
    ensures SameTables(s, Pop(s, zero)) && SameData(s, Pop(s, zero))
  {
    assert s.kind[s.list[0]].Free?;
  }

  lemma PopKeepsInv(s: State, zero: bool)
    requires Inv(s) && s.list != []
    ensures InvExcept(Pop(s, zero), s.list[0], 0)
    ensures SameMapsExcept(s, Pop(s, zero), NULL, NULL) && SameData(s, Pop(s, zero))
    ensures Pop(s, zero).pages[s.list[0]].ref == 0
  {
    PopTables(s, zero);
    PopFreeList(s, zero);
    OwnedRefs(s, s.list[0]);
    SameTablesCounted(s, Pop(s, zero), s.list[0], 0);
    SameTablesTyped(s, Pop(s, zero));
    SameTablesMaps(s, Pop(s, zero));
  }

  lemma PushKeepsInv(s: State, f: nat)
    requires f < |s.pages| && InvExcept(s, f, 0) && s.kind[f].Loose?
    ensures Inv(Push(s, f))
    ensures SameMapsExcept(s, Push(s, f), NULL, NULL) && SameData(s, Push(s, f))
  {
    PushFreeList(s, f);
    SameTablesCounted(s, Push(s, f), NULL, 0);
    SameTablesTyped(s, Push(s, f));
    SameTablesMaps(s, Push(s, f));
  }

  // ---- page_remove -----------------------------------------------------------------

  // Dropping the count of an entry's target, freeing it at zero, and clearing the entry.
  ghost function Cleared(s: State, t: nat, i: nat): State
    requires Shape(s) && Typed(s) && t < |s.kind| && i < NPTENTRIES && s.kind[t].Table? && s.tables[t][i].perm.p
    requires s.pages[s.tables[t][i].frame].ref > 0
  {
    Decref(SetPte(s, t, i, ZERO_PTE), s.tables[t][i].frame)
  }

  lemma SetPteTyped(s: State, t: nat, i: nat, v: nat, pte: Pte)
    requires Shape(s) && Typed(s) && t < |s.kind| && i < NPTENTRIES && s.kind[t].Table?
    requires v / NPTENTRIES == s.kind[t].pdx && v % NPTENTRIES == i
    requires pte.perm.p ==> pte.frame < |s.kind| && s.kind[pte.frame].Data?
    ensures Typed(SetPte(s, t, i, pte))
    ensures SameMapsExcept(s, SetPte(s, t, i, pte), s.kind[t].dir, v)
  {
    var s' := SetPte(s, t, i, pte);
    forall u | 0 <= u < |s'.kind| && s'.kind[u].Table? ensures TableOwned(s', u) {
      assert TableOwned(s, u);
    }
    forall e, w | e in s.pgdirs && 0 <= w < NUSERPAGES &&
                  !(s.pgdirs[e] == s.kind[t].dir && w == v)
      ensures Entry(s', e, w) == Entry(s, e, w)
    {
      WalkSlot(s, s.pgdirs[e], w);
    }
  }

  lemma ClearRefs(s: State, t: nat, i: nat, x: int, k: nat)
    requires InvExcept(s, x, k) && t < |s.kind| && i < NPTENTRIES && s.kind[t].Table? && s.tables[t][i].perm.p
    ensures s.pages[s.tables[t][i].frame].ref > 0
    ensures forall f :: 0 <= f < |s.kind| ==>
              |Refs(SetPte(s, t, i, ZERO_PTE), f)| == |Refs(s, f)| - (if f == s.tables[t][i].frame then 1 else 0)
  {
    var g := s.tables[t][i].frame;
    forall f | 0 <= f < |s.kind|
      ensures |Refs(SetPte(s, t, i, ZERO_PTE), f)| == |Refs(s, f)| - (if f == g then 1 else 0)
    {
      SetPteRefs(s, t, i, ZERO_PTE, f);
      assert Slot(t, i) in Slots(s, f) <==> Hits(s, f, t, i);
    }
  }

  lemma ClearKeepsInv(s: State, t: nat, i: nat, v: nat, x: int, k: nat)
    requires InvExcept(s, x, k) && t < |s.kind| && i < NPTENTRIES && s.kind[t].Table? && s.tables[t][i].perm.p
    requires v / NPTENTRIES == s.kind[t].pdx && v % NPTENTRIES == i
    ensures s.pages[s.tables[t][i].frame].ref > 0
    ensures InvExcept(Cleared(s, t, i), x, k)
    ensures SameMapsExcept(s, Cleared(s, t, i), s.kind[t].dir, v)
    ensures SameData(s, Cleared(s, t, i))
  {
    var g := s.tables[t][i].frame;
    ClearRefs(s, t, i, x, k);
    var s1 := SetPte(s, t, i, ZERO_PTE);
    var s' := Cleared(s, t, i);
    SetPteTyped(s, t, i, v, ZERO_PTE);
    SameFreeList(s, s1);
    DecrefKeeps(s1, g, x, k);
  }

  // What dropping a count does to the fields, frame by frame.
  lemma DecrefFields(s: State, g: nat)
    requires Shape(s) && g < |s.kind| && s.pages[g].ref > 0
    ensures Shape(Decref(s, g)) && |Decref(s, g).pages| == |s.pages|
    ensures !s.kind[g].Table? && !s.kind[g].Dir? ==> SameTables(s, Decref(s, g))
    ensures SameData(s, Decref(s, g))
    ensures forall f :: 0 <= f < |s.pages| ==>
              Decref(s, g).pages[f].ref == s.pages[f].ref - (if f == g then 1 else 0)
    ensures forall f :: 0 <= f < |s.kind| ==>
              Decref(s, g).kind[f] == if f == g && s.pages[g].ref == 1 then Kind.Free else s.kind[f]
  {
  }

  // Dropping a count that is one too high for the tables.
  lemma DecrefKeeps(s: State, g: nat, x: int, k: nat)
    requires Shape(s) && FreeListOk(s) && Typed(s) && g < |s.kind| && s.kind[g].Data? && s.pages[g].ref > 0
    requires forall f :: 0 <= f < |s.kind| && !s.kind[f].Reserved? ==>
               s.pages[f].ref == |Refs(s, f)| + (if f == x then k else 0) + (if f == g then 1 else 0)
    requires forall f :: 0 <= f < |s.pages| ==> s.pages[f].ref <= MAX_REF
    requires forall f :: 0 <= f < |s.kind| && s.kind[f].Data? ==> s.pages[f].ref > 0
    requires forall f :: 0 <= f < |s.kind| && s.kind[f].Loose? ==> f == x
    ensures InvExcept(Decref(s, g), x, k)
    ensures SameMapsExcept(s, Decref(s, g), NULL, NULL)
    ensures SameData(s, Decref(s, g))
  {
    DecrefFreeList(s, g);
    DecrefFields(s, g);
    DecrefCounted(s, Decref(s, g), g, x, k);
    SameTablesMaps(s, Decref(s, g));
  }

  lemma DecrefCounted(s: State, s': State, g: nat, x: int, k: nat)
    requires Shape(s) && Shape(s') && SameTables(s, s') && Typed(s) && |s'.pages| == |s.pages|
    requires g < |s.kind| && s.kind[g].Data? && s.pages[g].ref > 0
    requires forall f :: 0 <= f < |s.kind| && !s.kind[f].Reserved? ==>
               s.pages[f].ref == |Refs(s, f)| + (if f == x then k else 0) + (if f == g then 1 else 0)
    requires forall f :: 0 <= f < |s.pages| ==> s.pages[f].ref <= MAX_REF
    requires forall f :: 0 <= f < |s.kind| && s.kind[f].Data? ==> s.pages[f].ref > 0
    requires forall f :: 0 <= f < |s.kind| && s.kind[f].Loose? ==> f == x
    requires forall f :: 0 <= f < |s.pages| ==> s'.pages[f].ref == s.pages[f].ref - (if f == g then 1 else 0)
    requires forall f :: 0 <= f < |s.kind| ==>
               s'.kind[f] == if f == g && s.pages[g].ref == 1 then Kind.Free else s.kind[f]
    ensures Counted(s', x, k) && Typed(s')
  {
    SameTablesCounted(s, s', x, k);
    SameTablesTyped(s, s');
  }

  // ---- page_insert -----------------------------------------------------------------

  // The counted reference to `pp` becomes real: the frame turns into data and
  // the empty entry points at it.
  ghost function Pointed(s: State, t: nat, i: nat, pp: nat, perm: Perm): State
    requires Shape(s) && t < |s.kind| && i < NPTENTRIES && pp < |s.kind|
  {
    SetPte(SetKind(s, pp, Data), t, i, Pte(pp, perm))
  }

  ghost predicate Points(s: State, s': State, t: nat, i: nat, pp: nat, perm: Perm)
    requires Shape(s) && Shape(s')
  {
    && |s'.kind| == |s.kind| && s'.pgdirs == s.pgdirs && t < |s.kind| && i < NPTENTRIES && pp < |s.kind| && t != pp
    && (forall f :: 0 <= f < |s.kind| ==> s'.kind[f] == if f == pp then Data else s.kind[f])
    && (forall f :: 0 <= f < |s.kind| && f != t ==> s'.tables[f] == s.tables[f])
    && s'.tables[t] == s.tables[t][i := Pte(pp, perm)]
    && (forall f :: 0 <= f < |s.kind| ==> s'.data[f] == s.data[f] && s'.pages[f].ref == s.pages[f].ref)
  }

  lemma PointsRefs(s: State, s': State, t: nat, i: nat, pp: nat, perm: Perm, f: nat)
    requires Shape(s) && Shape(s') && Typed(s) && Points(s, s', t, i, pp, perm)
    requires s.kind[t].Table? && !s.tables[t][i].perm.p && (s.kind[pp].Data? || s.kind[pp].Loose?) && perm.p
    ensures |Refs(s', f)| == |Refs(s, f)| + (if f == pp then 1 else 0)
  {
    RefsChange(s, s', f, if f == pp then {Slot(t, i)} else {}, {});
    assert Slot(t, i) in Slots(s, f) <==> Hits(s, f, t, i);
  }

  lemma PointsTyped(s: State, s': State, t: nat, i: nat, pp: nat, perm: Perm)
    requires Shape(s) && Shape(s') && Typed(s) && Points(s, s', t, i, pp, perm)
    requires s.kind[t].Table? && (s.kind[pp].Data? || s.kind[pp].Loose?)
    ensures Typed(s')
  {
    PointsDirs(s, s', t, i, pp, perm);
    PointsTables(s, s', t, i, pp, perm);
  }

  lemma PointsDirs(s: State, s': State, t: nat, i: nat, pp: nat, perm: Perm)
    requires Shape(s) && Shape(s') && Typed(s) && Points(s, s', t, i, pp, perm)
    requires s.kind[t].Table? && (s.kind[pp].Data? || s.kind[pp].Loose?)
    ensures forall u :: 0 <= u < |s'.kind| && s'.kind[u].Table? ==> TableOwned(s', u)
    ensures forall d, j :: 0 <= d < |s'.kind| && 0 <= j < NPTENTRIES && s'.kind[d].Dir? && s'.tables[d][j].perm.p ==>
              s'.tables[d][j].frame < |s'.kind| && (j < PDX_UTOP ==> s'.kind[s'.tables[d][j].frame] == Table(d, j))
  {
    forall u | 0 <= u < |s'.kind| && s'.kind[u].Table? ensures TableOwned(s', u) {
      assert TableOwned(s, u);
    }
  }

  lemma PointsTables(s: State, s': State, t: nat, i: nat, pp: nat, perm: Perm)
    requires Shape(s) && Shape(s') && Typed(s) && Points(s, s', t, i, pp, perm)
    requires s.kind[t].Table? && (s.kind[pp].Data? || s.kind[pp].Loose?)
    ensures forall u, j :: 0 <= u < |s'.kind| && 0 <= j < NPTENTRIES && s'.kind[u].Table? && s'.tables[u][j].perm.p ==>
              s'.tables[u][j].frame < |s'.kind| && s'.kind[s'.tables[u][j].frame].Data?
  {}

  lemma PointsMaps(s: State, s': State, t: nat, i: nat, v: nat, pp: nat, perm: Perm)
    requires Shape(s) && Shape(s') && Typed(s) && Points(s, s', t, i, pp, perm)
    requires s.kind[t].Table? && v / NPTENTRIES == s.kind[t].pdx && v % NPTENTRIES == i
    ensures SameMapsExcept(s, s', s.kind[t].dir, v)
  {
    forall e, w | e in s.pgdirs && 0 <= w < NUSERPAGES && !(s.pgdirs[e] == s.kind[t].dir && w == v)
      ensures Entry(s', e, w) == Entry(s, e, w)
    {
      WalkSlot(s, s.pgdirs[e], w);
    }
  }

  lemma PointKeepsInv(s: State, t: nat, i: nat, v: nat, pp: nat, perm: Perm)
    requires InvExcept(s, pp, 1) && t < |s.kind| && i < NPTENTRIES && s.kind[t].Table? && !s.tables[t][i].perm.p
    requires v / NPTENTRIES == s.kind[t].pdx && v % NPTENTRIES == i
    requires pp < |s.kind| && (s.kind[pp].Data? || s.kind[pp].Loose?) && perm.p
    ensures Inv(Pointed(s, t, i, pp, perm))
    ensures SameMapsExcept(s, Pointed(s, t, i, pp, perm), s.kind[t].dir, v)
    ensures SameData(s, Pointed(s, t, i, pp, perm))
  {
    var s' := Pointed(s, t, i, pp, perm);
    SameFreeList(s, s');
    PointsTyped(s, s', t, i, pp, perm);
    PointsMaps(s, s', t, i, v, pp, perm);
    PointsCounted(s, s', t, i, pp, perm);
  }

  lemma PointsCounted(s: State, s': State, t: nat, i: nat, pp: nat, perm: Perm)
    requires Shape(s) && Shape(s') && Typed(s) && Counted(s, pp, 1) && Points(s, s', t, i, pp, perm)
    requires |s'.pages| == |s.pages|
    requires s.kind[t].Table? && !s.tables[t][i].perm.p && (s.kind[pp].Data? || s.kind[pp].Loose?) && perm.p
    ensures Counted(s', NULL, 0)
  {
    forall f | 0 <= f < |s.kind| ensures |Refs(s', f)| == |Refs(s, f)| + (if f == pp then 1 else 0) {
      PointsRefs(s, s', t, i, pp, perm, f);
    }
    assert |Refs(s, pp)| >= 0;
    CountedChange(s, s', pp, 1, NULL, 0, pp, 1);
  }

  // ---- pgdir_walk with create -----------------------------------------------------------

  const PDE_PERM := NO_PERM.(p := true, w := true, u := true)

  // A zeroed frame becomes the page table of entry `i` of directory `d`.
  ghost function WithTable(s: State, d: nat, i: nat): State
    requires Shape(s) && FreeListOk(s) && s.list != [] && d < |s.kind| && i < NPTENTRIES
  {
    var g := s.list[0];
    SetPte(SetKind(SetRef(Pop(s, true), g, 1), g, Table(d, i)), d, i, Pte(g, PDE_PERM))
  }

  // WithTable, field by field.
  ghost predicate AddsTable(s: State, s': State, g: nat, d: nat, i: nat)
    requires Shape(s) && Shape(s')
  {
    && |s'.kind| == |s.kind| && s'.pgdirs == s.pgdirs && g < |s.kind| && d < |s.kind| && i < PDX_UTOP && g != d
    && (forall f :: 0 <= f < |s.kind| ==> s'.kind[f] == if f == g then Table(d, i) else s.kind[f])
    && (forall f :: 0 <= f < |s.kind| && f != g && f != d ==> s'.tables[f] == s.tables[f])
    && s'.tables[g] == ZeroTable()
    && s'.tables[d] == s.tables[d][i := Pte(g, PDE_PERM)]
    && (forall f :: 0 <= f < |s.kind| && f != g ==> s'.data[f] == s.data[f] && s'.pages[f].ref == s.pages[f].ref)
    && s'.pages[g].ref == 1
  }

  lemma AddsTableRefs(s: State, s': State, g: nat, d: nat, i: nat, f: nat)
    requires Shape(s) && Shape(s') && Typed(s) && AddsTable(s, s', g, d, i)
    requires s.kind[g].Free? && s.kind[d].Dir? && !s.tables[d][i].perm.p
    ensures |Refs(s', f)| == |Refs(s, f)| + (if f == g then 1 else 0)
  {
    RefsChange(s, s', f, if f == g then {Slot(d, i)} else {}, {});
    assert Slot(d, i) in Slots(s, f) <==> Hits(s, f, d, i);
  }

  lemma AddsTableTyped(s: State, s': State, g: nat, d: nat, i: nat)
    requires Shape(s) && Shape(s') && Typed(s) && AddsTable(s, s', g, d, i)
    requires s.kind[g].Free? && s.kind[d].Dir? && !s.tables[d][i].perm.p
    ensures Typed(s')
  {
    forall u | 0 <= u < |s'.kind| && s'.kind[u].Table? ensures TableOwned(s', u) {
      if u != g {
        assert TableOwned(s, u);
      }
    }
    forall e | e in s'.pgdirs ensures s'.pgdirs[e] < |s'.kind| && s'.kind[s'.pgdirs[e]] == Dir(e) {
      assert s.kind[s.pgdirs[e]] == Dir(e);
    }
  }

  lemma AddsTableMaps(s: State, s': State, g: nat, d: nat, i: nat)
    requires Shape(s) && Shape(s') && Typed(s) && AddsTable(s, s', g, d, i)
    requires s.kind[g].Free? && s.kind[d].Dir? && !s.tables[d][i].perm.p
    ensures SameMapsExcept(s, s', NULL, NULL)
  {
    forall e, w | e in s.pgdirs && 0 <= w < NUSERPAGES ensures Entry(s', e, w) == Entry(s, e, w) {
      WalkSlot(s, s.pgdirs[e], w);
    }
  }

  lemma WithTableFields(s: State, d: nat, i: nat)
    requires Shape(s) && FreeListOk(s) && s.list != [] && d < |s.kind| && i < PDX_UTOP && s.kind[d].Dir?
    ensures s.kind[s.list[0]].Free?
    ensures Shape(WithTable(s, d, i)) && AddsTable(s, WithTable(s, d, i), s.list[0], d, i)
    ensures FreeListOk(WithTable(s, d, i))
  {
    assert s.kind[s.list[0]].Free?;
    PopFreeList(s, true);
    SameFreeList(Pop(s, true), WithTable(s, d, i));
  }

  lemma AddsTableCounted(s: State, s': State, g: nat, d: nat, i: nat, x: int, k: nat)
    requires Shape(s) && Shape(s') && AddsTable(s, s', g, d, i) && Counted(s, x, k)
    requires |s'.pages| == |s.pages| && s.pages[g].ref == 0 && g != x && s.kind[g].Free?
    requires forall f :: 0 <= f < |s.kind| ==> |Refs(s', f)| == |Refs(s, f)| + (if f == g then 1 else 0)
    ensures Counted(s', x, k)
  {
    CountedChange(s, s', x, k, x, k, g, 1);
  }

  lemma AddsTableAllRefs(s: State, s': State, g: nat, d: nat, i: nat)
    requires Shape(s) && Shape(s') && Typed(s) && AddsTable(s, s', g, d, i)
    requires s.kind[g].Free? && s.kind[d].Dir? && !s.tables[d][i].perm.p
    ensures forall f :: 0 <= f < |s.kind| ==> |Refs(s', f)| == |Refs(s, f)| + (if f == g then 1 else 0)
  {
    forall f | 0 <= f < |s.kind| ensures |Refs(s', f)| == |Refs(s, f)| + (if f == g then 1 else 0) {
      AddsTableRefs(s, s', g, d, i, f);
    }
  }

  lemma NewTableKeepsInv(s: State, d: nat, i: nat, x: int, k: nat)
    requires InvExcept(s, x, k) && s.list != [] && d < |s.kind| && i < PDX_UTOP
    requires s.kind[d].Dir? && !s.tables[d][i].perm.p
    requires 0 <= x < |s.kind| ==> !s.kind[x].Free?
    ensures InvExcept(WithTable(s, d, i), x, k)
    ensures SameMapsExcept(s, WithTable(s, d, i), NULL, NULL) && SameData(s, WithTable(s, d, i))
  {
    var g, s' := s.list[0], WithTable(s, d, i);
    WithTableFields(s, d, i);
    OwnedRefs(s, g);
    AddsTableAllRefs(s, s', g, d, i);
    AddsTableCounted(s, s', g, d, i, x, k);
    AddsTableTyped(s, s', g, d, i);
    AddsTableMaps(s, s', g, d, i);
  }

  // ---- env_free: an emptied page table -------------------------------------------------

  // Its directory entry is cleared and its frame freed.
  ghost function WithoutTable(s: State, d: nat, i: nat): State
    requires Shape(s) && d < |s.kind| && i < NPTENTRIES && s.tables[d][i].frame < |s.kind|
    requires s.pages[s.tables[d][i].frame].ref > 0
  {
    Decref(SetPte(s, d, i, ZERO_PTE), s.tables[d][i].frame)
  }

  ghost predicate DropsTable(s: State, s': State, g: nat, d: nat, i: nat)
    requires Shape(s) && Shape(s')
  {
    && |s'.kind| == |s.kind| && s'.pgdirs == s.pgdirs && g < |s.kind| && d < |s.kind| && i < PDX_UTOP && g != d
    && (forall f :: 0 <= f < |s.kind| ==> s'.kind[f] == if f == g then Kind.Free else s.kind[f])
    && (forall f :: 0 <= f < |s.kind| && f != d ==> s'.tables[f] == s.tables[f])
    && s'.tables[d] == s.tables[d][i := ZERO_PTE]
    && (forall f :: 0 <= f < |s.kind| ==> s'.data[f] == s.data[f])
    && (forall f :: 0 <= f < |s.kind| && f != g ==> s'.pages[f].ref == s.pages[f].ref)
    && s'.pages[g].ref == 0
  }

  lemma DropsTableRefs(s: State, s': State, g: nat, d: nat, i: nat, f: nat)
    requires Shape(s) && Shape(s') && Typed(s) && DropsTable(s, s', g, d, i)
    requires s.kind[g] == Table(d, i) && s.kind[d].Dir?
    requires forall j :: 0 <= j < NPTENTRIES ==> !s.tables[g][j].perm.p
    ensures |Refs(s', f)| == |Refs(s, f)| - (if f == g then 1 else 0)
  {
    assert TableOwned(s, g);
    RefsChange(s, s', f, {}, if f == g then {Slot(d, i)} else {});
    assert Slot(d, i) in Slots(s, f) <==> Hits(s, f, d, i);
  }

  lemma DropsTableTyped(s: State, s': State, g: nat, d: nat, i: nat)
    requires Shape(s) && Shape(s') && Typed(s) && DropsTable(s, s', g, d, i)
    requires s.kind[g] == Table(d, i) && s.kind[d].Dir?
    ensures Typed(s')
  {
    forall u | 0 <= u < |s'.kind| && s'.kind[u].Table? ensures TableOwned(s', u) {
      assert TableOwned(s, u);
    }
    assert TableOwned(s, g);
  }

  lemma DropsTableMaps(s: State, s': State, g: nat, d: nat, i: nat)
    requires Shape(s) && Shape(s') && Typed(s) && DropsTable(s, s', g, d, i)
    requires s.kind[g] == Table(d, i) && s.kind[d].Dir?
    requires forall j :: 0 <= j < NPTENTRIES ==> !s.tables[g][j].perm.p
    ensures forall e, w :: e in s.pgdirs && 0 <= w < NUSERPAGES && !(s.pgdirs[e] == d && w / NPTENTRIES == i) ==>
              Entry(s', e, w) == Entry(s, e, w)
    ensures forall e, w :: e in s.pgdirs && 0 <= w < NUSERPAGES && s.pgdirs[e] == d && w / NPTENTRIES == i ==>
              Entry(s', e, w) == ZERO_PTE
  {
    forall e, w | e in s.pgdirs && 0 <= w < NUSERPAGES && !(s.pgdirs[e] == d && w / NPTENTRIES == i)
      ensures Entry(s', e, w) == Entry(s, e, w)
    {
      WalkSlot(s, s.pgdirs[e], w);
    }
  }

  lemma WithoutTableFields(s: State, d: nat, i: nat)
    requires Shape(s) && FreeListOk(s) && d < |s.kind| && i < PDX_UTOP && s.kind[d].Dir?
    requires s.tables[d][i].frame < |s.kind| && s.kind[s.tables[d][i].frame] == Table(d, i)
    requires s.pages[s.tables[d][i].frame].ref == 1
    ensures Shape(WithoutTable(s, d, i)) && DropsTable(s, WithoutTable(s, d, i), s.tables[d][i].frame, d, i)
    ensures FreeListOk(WithoutTable(s, d, i))
  {
    var s1 := SetPte(s, d, i, ZERO_PTE);
    SameFreeList(s, s1);
    DecrefFreeList(s1, s.tables[d][i].frame);
    DecrefFields(s1, s.tables[d][i].frame);
  }

  lemma DropsTableCounted(s: State, s': State, g: nat, d: nat, i: nat)
    requires Shape(s) && Shape(s') && DropsTable(s, s', g, d, i) && Counted(s, NULL, 0)
    requires |s'.pages| == |s.pages| && s.pages[g].ref == 1 && s.kind[g].Table?
    requires forall f :: 0 <= f < |s.kind| ==> |Refs(s', f)| == |Refs(s, f)| - (if f == g then 1 else 0)
    ensures Counted(s', NULL, 0)
  {
    CountedChange(s, s', NULL, 0, NULL, 0, g, -1);
  }

  lemma DropsTableAllRefs(s: State, s': State, g: nat, d: nat, i: nat)
    requires Shape(s) && Shape(s') && Typed(s) && DropsTable(s, s', g, d, i)
    requires s.kind[g] == Table(d, i) && s.kind[d].Dir?
    requires forall j :: 0 <= j < NPTENTRIES ==> !s.tables[g][j].perm.p
    ensures forall f :: 0 <= f < |s.kind| ==> |Refs(s', f)| == |Refs(s, f)| - (if f == g then 1 else 0)
  {
    forall f | 0 <= f < |s.kind| ensures |Refs(s', f)| == |Refs(s, f)| - (if f == g then 1 else 0) {
      DropsTableRefs(s, s', g, d, i, f);
    }
  }

  lemma DropsTableInv(s: State, s': State, g: nat, d: nat, i: nat)
    requires Inv(s) && Shape(s') && DropsTable(s, s', g, d, i) && FreeListOk(s')
    requires |s'.pages| == |s.pages| && s.pages[g].ref == 1
    requires s.kind[g] == Table(d, i) && s.kind[d].Dir?
    requires forall j :: 0 <= j < NPTENTRIES ==> !s.tables[g][j].perm.p
    ensures Inv(s')
  {
    DropsTableAllRefs(s, s', g, d, i);
    DropsTableCounted(s, s', g, d, i);
    DropsTableTyped(s, s', g, d, i);
  }

  // Directories and tables have exactly one reference.
  lemma OwnedOnce(s: State, f: nat)
    requires Inv(s) && f < |s.kind| && (s.kind[f].Table? || s.kind[f].Dir?)
    ensures s.pages[f].ref == 1
  {
    OwnedRefs(s, f);
  }

  lemma DropTableKeepsInv(s: State, s': State, d: nat, i: nat)
    requires Inv(s) && d < |s.kind| && i < PDX_UTOP && s.kind[d].Dir? && s.tables[d][i].perm.p
    requires forall j :: 0 <= j < NPTENTRIES ==> !s.tables[s.tables[d][i].frame][j].perm.p
    requires s.pages[s.tables[d][i].frame].ref == 1 && s' == WithoutTable(s, d, i)
    ensures Inv(s') && SameData(s, s') && s'.pgdirs == s.pgdirs
    ensures DropsTable(s, s', s.tables[d][i].frame, d, i)
    ensures forall e, w :: e in s.pgdirs && 0 <= w < NUSERPAGES && !(s.pgdirs[e] == d && w / NPTENTRIES == i) ==>
              Entry(s', e, w) == Entry(s, e, w)
  {
    var g := s.tables[d][i].frame;
    assert s.kind[g] == Table(d, i);
    assert Shape(s') && FreeListOk(s') && DropsTable(s, s', g, d, i) && |s'.pages| == |s.pages| by {
      WithoutTableFields(s, d, i);
    }
    assert Inv(s') by {
      DropsTableInv(s, s', g, d, i);
    }
    DropsTableMaps(s, s', g, d, i);
  }

  // ---- env_setup_vm --------------------------------------------------------------------

  // The template directory maps nothing below UTOP and only real frames above.
  ghost predicate KernOk(s: State)
    requires Shape(s)
  {
    && (forall i :: 0 <= i < PDX_UTOP ==> !s.kern[i].perm.p)
    && (forall i :: 0 <= i < NPTENTRIES && s.kern[i].perm.p ==> s.kern[i].frame < |s.pages|)
  }

  const UVPT_PERM := NO_PERM.(p := true, u := true)

  // A zeroed frame becomes environment `e`'s page directory, with the kernel's
  // half copied in and the UVPT entry pointing at itself.
  ghost function WithDir(s: State, e: nat, uvpt: nat): State
    requires Shape(s) && FreeListOk(s) && s.list != [] && uvpt < NPTENTRIES
  {
    var g := s.list[0];
    var s1 := SetKind(SetRef(Pop(s, true), g, 1), g, Dir(e));
    s1.(tables := s1.tables[g := s.kern[uvpt := Pte(g, UVPT_PERM)]], pgdirs := s.pgdirs[e := g])
  }

  ghost predicate AddsDir(s: State, s': State, g: nat, e: nat, uvpt: nat)
    requires Shape(s) && Shape(s')
  {
    && |s'.kind| == |s.kind| && e !in s.pgdirs && s'.pgdirs == s.pgdirs[e := g] && g < |s.kind|
    && PDX_UTOP <= uvpt < NPTENTRIES
    && (forall f :: 0 <= f < |s.kind| ==> s'.kind[f] == if f == g then Dir(e) else s.kind[f])
    && (forall f :: 0 <= f < |s.kind| && f != g ==> s'.tables[f] == s.tables[f])
    && s'.tables[g] == s.kern[uvpt := Pte(g, UVPT_PERM)]
    && (forall f :: 0 <= f < |s.kind| && f != g ==> s'.data[f] == s.data[f] && s'.pages[f].ref == s.pages[f].ref)
    && s'.pages[g].ref == 1
  }

  lemma AddsDirRefs(s: State, s': State, g: nat, e: nat, uvpt: nat, f: nat)
    requires Shape(s) && Shape(s') && Typed(s) && KernOk(s) && AddsDir(s, s', g, e, uvpt) && s.kind[g].Free?
    ensures |Refs(s', f)| == |Refs(s, f)| + (if f == g then 1 else 0)
  {
    AddsDirSlots(s, s', g, e, uvpt, f);
    AddsDirRoots(s, s', g, e, uvpt, f);
    assert Refs(s', f) == Refs(s, f) + (if f == g then {Root(e)} else {});
  }

  lemma AddsDirSlots(s: State, s': State, g: nat, e: nat, uvpt: nat, f: nat)
    requires Shape(s) && Shape(s') && KernOk(s) && AddsDir(s, s', g, e, uvpt) && s.kind[g].Free?
    ensures Slots(s', f) == Slots(s, f)
  {
    forall t, i | 0 <= t < |s.kind| && 0 <= i < NPTENTRIES ensures Hits(s', f, t, i) <==> Hits(s, f, t, i) {}
  }

  lemma AddsDirRoots(s: State, s': State, g: nat, e: nat, uvpt: nat, f: nat)
    requires Shape(s) && Shape(s') && AddsDir(s, s', g, e, uvpt)
    ensures Root(e) !in Refs(s, f)
    ensures Roots(s', f) == Roots(s, f) + (if f == g then {Root(e)} else {})
  {}

  lemma AddsDirTyped(s: State, s': State, g: nat, e: nat, uvpt: nat)
    requires Shape(s) && Shape(s') && Typed(s) && KernOk(s) && AddsDir(s, s', g, e, uvpt) && s.kind[g].Free?
    ensures Typed(s')
  {
    forall u | 0 <= u < |s'.kind| && s'.kind[u].Table? ensures TableOwned(s', u) {
      assert TableOwned(s, u);
    }
  }

  lemma AddsDirMaps(s: State, s': State, g: nat, e: nat, uvpt: nat)
    requires Shape(s) && Shape(s') && Typed(s) && KernOk(s) && AddsDir(s, s', g, e, uvpt) && s.kind[g].Free?
    ensures forall e', w :: e' in s.pgdirs && 0 <= w < NUSERPAGES ==> Entry(s', e', w) == Entry(s, e', w)
    ensures forall w :: 0 <= w < NUSERPAGES ==> Entry(s', e, w) == ZERO_PTE
  {
    forall e', w | e' in s.pgdirs && 0 <= w < NUSERPAGES ensures Entry(s', e', w) == Entry(s, e', w) {
      WalkSlot(s, s.pgdirs[e'], w);
    }
  }

  lemma WithDirFields(s: State, e: nat, uvpt: nat)
    requires Shape(s) && FreeListOk(s) && s.list != [] && e !in s.pgdirs && PDX_UTOP <= uvpt < NPTENTRIES
    ensures s.kind[s.list[0]].Free?
    ensures Shape(WithDir(s, e, uvpt)) && AddsDir(s, WithDir(s, e, uvpt), s.list[0], e, uvpt)
    ensures FreeListOk(WithDir(s, e, uvpt))
  {
    assert s.kind[s.list[0]].Free?;
    PopFreeList(s, true);
    SameFreeList(Pop(s, true), WithDir(s, e, uvpt));
  }

  lemma AddsDirCounted(s: State, s': State, g: nat, e: nat, uvpt: nat)
    requires Shape(s) && Shape(s') && AddsDir(s, s', g, e, uvpt) && Counted(s, NULL, 0)
    requires |s'.pages| == |s.pages| && s.pages[g].ref == 0 && s.kind[g].Free?
    requires forall f :: 0 <= f < |s.kind| ==> |Refs(s', f)| == |Refs(s, f)| + (if f == g then 1 else 0)
    ensures Counted(s', NULL, 0)
  {
    CountedChange(s, s', NULL, 0, NULL, 0, g, 1);
  }

  lemma AddsDirAllRefs(s: State, s': State, g: nat, e: nat, uvpt: nat)
    requires Shape(s) && Shape(s') && Typed(s) && KernOk(s) && AddsDir(s, s', g, e, uvpt) && s.kind[g].Free?
    ensures forall f :: 0 <= f < |s.kind| ==> |Refs(s', f)| == |Refs(s, f)| + (if f == g then 1 else 0)
  {
    forall f | 0 <= f < |s.kind| ensures |Refs(s', f)| == |Refs(s, f)| + (if f == g then 1 else 0) {
      AddsDirRefs(s, s', g, e, uvpt, f);
    }
  }

  lemma NewDirKeepsInv(s: State, e: nat, uvpt: nat)
    requires Inv(s) && KernOk(s) && s.list != [] && e !in s.pgdirs && PDX_UTOP <= uvpt < NPTENTRIES
    ensures Inv(WithDir(s, e, uvpt)) && SameData(s, WithDir(s, e, uvpt))
    ensures forall e', w :: e' in s.pgdirs && 0 <= w < NUSERPAGES ==>
              Entry(WithDir(s, e, uvpt), e', w) == Entry(s, e', w)
    ensures forall w :: 0 <= w < NUSERPAGES ==> Entry(WithDir(s, e, uvpt), e, w) == ZERO_PTE
  {
    var g, s' := s.list[0], WithDir(s, e, uvpt);
    WithDirFields(s, e, uvpt);
    OwnedRefs(s, g);
    AddsDirAllRefs(s, s', g, e, uvpt);
    AddsDirCounted(s, s', g, e, uvpt);
    AddsDirTyped(s, s', g, e, uvpt);
    AddsDirMaps(s, s', g, e, uvpt);
  }

  // ---- env_free: the page directory ----------------------------------------------------

  ghost function WithoutDir(s: State, e: nat): State
    requires Shape(s) && e in s.pgdirs && s.pgdirs[e] < |s.kind| && s.pages[s.pgdirs[e]].ref > 0
  {
    Decref(s.(pgdirs := s.pgdirs - {e}), s.pgdirs[e])
  }

  ghost predicate DropsDir(s: State, s': State, g: nat, e: nat)
    requires Shape(s) && Shape(s')
  {
    && |s'.kind| == |s.kind| && e in s.pgdirs && s'.pgdirs == s.pgdirs - {e} && s.pgdirs[e] == g && g < |s.kind|
    && (forall f :: 0 <= f < |s.kind| ==> s'.kind[f] == if f == g then Kind.Free else s.kind[f])
    && (forall f :: 0 <= f < |s.kind| ==> s'.tables[f] == s.tables[f] && s'.data[f] == s.data[f])
    && (forall f :: 0 <= f < |s.kind| && f != g ==> s'.pages[f].ref == s.pages[f].ref)
    && s'.pages[g].ref == 0
  }

  lemma DropsDirRefs(s: State, s': State, g: nat, e: nat, f: nat)
    requires Shape(s) && Shape(s') && Typed(s) && DropsDir(s, s', g, e)
    requires forall i :: 0 <= i < PDX_UTOP ==> !s.tables[g][i].perm.p
    ensures |Refs(s', f)| == |Refs(s, f)| - (if f == g then 1 else 0)
  {
    RefsChange(s, s', f, {}, if f == g then {Root(e)} else {});
    assert f == g ==> Root(e) in Refs(s, f);
  }

  lemma DropsDirTyped(s: State, s': State, g: nat, e: nat)
    requires Shape(s) && Shape(s') && Typed(s) && DropsDir(s, s', g, e)
    requires forall i :: 0 <= i < PDX_UTOP ==> !s.tables[g][i].perm.p
    ensures Typed(s')
    ensures forall e', w :: e' in s.pgdirs && e' != e && 0 <= w < NUSERPAGES ==> Entry(s', e', w) == Entry(s, e', w)
  {
    forall u | 0 <= u < |s'.kind| && s'.kind[u].Table? ensures TableOwned(s', u) {
      assert TableOwned(s, u);
    }
    forall e', w | e' in s.pgdirs && e' != e && 0 <= w < NUSERPAGES ensures Entry(s', e', w) == Entry(s, e', w) {
      WalkSlot(s, s.pgdirs[e'], w);
    }
  }

  lemma WithoutDirFields(s: State, e: nat)
    requires Shape(s) && FreeListOk(s) && e in s.pgdirs && s.pgdirs[e] < |s.kind|
    requires s.pages[s.pgdirs[e]].ref == 1 && s.kind[s.pgdirs[e]].Dir?
    ensures Shape(WithoutDir(s, e)) && DropsDir(s, WithoutDir(s, e), s.pgdirs[e], e)
    ensures FreeListOk(WithoutDir(s, e))
  {
    var s1 := s.(pgdirs := s.pgdirs - {e});
    SameFreeList(s, s1);
    DecrefFreeList(s1, s.pgdirs[e]);
    DecrefFields(s1, s.pgdirs[e]);
  }

  lemma DropsDirCounted(s: State, s': State, g: nat, e: nat)
    requires Shape(s) && Shape(s') && DropsDir(s, s', g, e) && Counted(s, NULL, 0)
    requires |s'.pages| == |s.pages| && s.pages[g].ref == 1 && s.kind[g].Dir?
    requires forall f :: 0 <= f < |s.kind| ==> |Refs(s', f)| == |Refs(s, f)| - (if f == g then 1 else 0)
    ensures Counted(s', NULL, 0)
  {
    CountedChange(s, s', NULL, 0, NULL, 0, g, -1);
  }

  lemma DropsDirAllRefs(s: State, s': State, g: nat, e: nat)
    requires Shape(s) && Shape(s') && Typed(s) && DropsDir(s, s', g, e)
    requires forall i :: 0 <= i < PDX_UTOP ==> !s.tables[g][i].perm.p
    ensures forall f :: 0 <= f < |s.kind| ==> |Refs(s', f)| == |Refs(s, f)| - (if f == g then 1 else 0)
  {
    forall f | 0 <= f < |s.kind| ensures |Refs(s', f)| == |Refs(s, f)| - (if f == g then 1 else 0) {
      DropsDirRefs(s, s', g, e, f);
    }
  }

  lemma DropsDirInv(s: State, s': State, g: nat, e: nat)
    requires Inv(s) && Shape(s') && DropsDir(s, s', g, e) && FreeListOk(s')
    requires |s'.pages| == |s.pages| && s.pages[g].ref == 1 && s.kind[g].Dir?
    requires forall i :: 0 <= i < PDX_UTOP ==> !s.tables[g][i].perm.p
    ensures Inv(s')
  {
    DropsDirAllRefs(s, s', g, e);
    DropsDirCounted(s, s', g, e);
    DropsDirTyped(s, s', g, e);
  }

  lemma DropDirKeepsInv(s: State, s': State, e: nat)
    requires Inv(s) && e in s.pgdirs
    requires forall i :: 0 <= i < PDX_UTOP ==> !s.tables[s.pgdirs[e]][i].perm.p
    requires s.pages[s.pgdirs[e]].ref == 1 && s' == WithoutDir(s, e)
    ensures Inv(s') && SameData(s, s')
    ensures DropsDir(s, s', s.pgdirs[e], e)
    ensures forall e', w :: e' in s.pgdirs && e' != e && 0 <= w < NUSERPAGES ==> Entry(s', e', w) == Entry(s, e', w)
  {
    var g := s.pgdirs[e];
    assert Shape(s') && FreeListOk(s') && DropsDir(s, s', g, e) && |s'.pages| == |s.pages| by {
      WithoutDirFields(s, e);
    }
    assert Inv(s') by {
      DropsDirInv(s, s', g, e);
    }
    DropsDirTyped(s, s', g, e);
  }

  // ---- page_init -----------------------------------------------------------------------

  // A free frame's count is zero.
  lemma FreeIsUnreferenced(s: State, f: nat, x: int, k: nat)
    requires InvExcept(s, x, k) && f < |s.kind| && s.kind[f].Free? && f != x
    ensures s.pages[f].ref == 0
  {
    OwnedRefs(s, f);
  }

  // The free list as far as the frames below `i` are linked.
  ghost predicate LinkedBelow(s: State, i: int)
    requires Shape(s)
  {
    && s.head == (if s.list == [] then NULL else s.list[0])
    && (forall j :: 0 <= j < |s.list| ==> s.list[j] < |s.pages| && s.list[j] < i && s.kind[s.list[j]].Free?)
    && (forall j {:trigger s.pages[s.list[j]]} :: 0 <= j < |s.list| ==> s.pages[s.list[j]].link == Next(s.list, j))
    && (forall j, k :: 0 <= j < k < |s.list| ==> s.list[j] != s.list[k])
    && (forall f :: 0 <= f < |s.kind| && f < i && s.kind[f].Free? ==> f in s.list)
    && (forall f :: 0 <= f < |s.kind| && !s.kind[f].Free? ==> s.pages[f].link == NULL)
    && (forall f :: 0 <= f < |s.pages| ==> s.pages[f].ref == 0)
  }

  // With all free frames linked, the others counted once and no environment yet,
  // all invariants hold.
  lemma InitialInv(s: State, s': State)
    requires Shape(s) && LinkedBelow(s, |s.pages|) && s.pgdirs == map[]
    requires |s'.pages| == |s.pages| && s' == s.(pages := s'.pages)
    requires forall f :: 0 <= f < |s.kind| ==> s.kind[f].Free? || s.kind[f].Reserved?
    requires forall f :: 0 <= f < |s.kind| ==>
               s'.pages[f].link == s.pages[f].link && s'.pages[f].ref == if s.kind[f].Free? then 0 else 1
    ensures Inv(s')
  {
    LinkedAll(s);
    SameFreeList(s, s');
    forall f | 0 <= f < |s.kind| ensures Refs(s', f) == {} {
      NoHitsNoRefs(s', f);
    }
  }

  lemma LinkedAll(s: State)
    requires Shape(s) && LinkedBelow(s, |s.pages|)
    ensures FreeListOk(s)
  {
  }

  lemma LinkOneMore(s: State, s': State, i: nat)
    requires Shape(s) && Shape(s') && LinkedBelow(s, i) && i < |s.pages| && s.kind[i].Free?
    requires s' == s.(pages := s.pages[i := PageInfo(0, s.head)], head := i, list := [i] + s.list)
    ensures LinkedBelow(s', i + 1)
  {
    LinkedOnce(s.list, i);
    forall f | 0 <= f < |s'.kind| && f < i + 1 && s'.kind[f].Free? ensures f in s'.list {
      LinkedIn(s.list, i, f);
    }
    forall j | 0 <= j < |s'.list|
      ensures s'.list[j] < |s'.pages| && s'.list[j] < i + 1 && s'.kind[s'.list[j]].Free?
      ensures s'.pages[s'.list[j]].link == Next(s'.list, j)
    {
      LinkedAt(s, s', i, j);
    }
  }

  lemma LinkedAt(s: State, s': State, i: nat, j: nat)
    requires Shape(s) && Shape(s') && LinkedBelow(s, i) && i < |s.pages| && s.kind[i].Free? && j < |s.list| + 1
    requires s' == s.(pages := s.pages[i := PageInfo(0, s.head)], head := i, list := [i] + s.list)
    ensures s'.list[j] < |s'.pages| && s'.list[j] < i + 1 && s'.kind[s'.list[j]].Free?
    ensures s'.pages[s'.list[j]].link == Next(s'.list, j)
  {
    if j > 0 {
      assert s'.list[j] == s.list[j - 1];
    }
  }

  lemma LinkedOnce(list: seq<nat>, i: nat)
    requires forall j :: 0 <= j < |list| ==> list[j] < i
    requires forall j, k :: 0 <= j < k < |list| ==> list[j] != list[k]
    ensures forall j, k :: 0 <= j < k < |[i] + list| ==> ([i] + list)[j] != ([i] + list)[k]
  {}

  lemma LinkedIn(list: seq<nat>, i: nat, f: nat)
    ensures f == i || f in list ==> f in [i] + list
  {}

  // ---- what the calls of kern/pmap.c promise ----------------------------------------------

  // No frame but those on the old free list changed hands, count or bytes.
  ghost predicate OnlyFreeChanged(s: State, s': State)
    requires Shape(s) && Shape(s')
  {
    |s'.pages| == |s.pages| &&
    (forall f :: 0 <= f < |s.kind| && !s.kind[f].Free? ==>
      s'.kind[f] == s.kind[f] && s'.pages[f] == s.pages[f] && s'.data[f] == s.data[f]) &&
    (forall f :: 0 <= f < |s.kind| && s'.kind[f].Data? ==> s.kind[f].Data?)
  }

  // pgdir_walk: NULL exactly when the table is missing and cannot be made; no
  // change unless it is made; every mapping stays what it was.
  ghost predicate Walked(s: State, s': State, d: nat, v: nat, create: bool, pt: int)
    requires Shape(s) && Shape(s') && d < |s.kind| && v < NUSERPAGES
  {
    && (pt == NULL <==> !s.tables[d][v / NPTENTRIES].perm.p && (!create || s.list == []))
    && (pt == NULL || s.tables[d][v / NPTENTRIES].perm.p ==> s' == s)
    && (pt != NULL ==> 0 <= pt < |s'.kind| && s'.kind[pt] == Table(d, v / NPTENTRIES) &&
                       Walk(s', d, v) == s'.tables[pt][v % NPTENTRIES])
    && SameMapsExcept(s, s', NULL, NULL) && SameData(s, s') && OnlyFreeChanged(s, s')
  }

  // Where pgdir_walk leaves the state.
  ghost function AfterWalk(s: State, d: nat, v: nat, create: bool): State
    requires Shape(s) && FreeListOk(s) && d < |s.kind| && v < NUSERPAGES
  {
    if s.tables[d][v / NPTENTRIES].perm.p || !create || s.list == [] then s else WithTable(s, d, v / NPTENTRIES)
  }

  lemma WalkKeepsInv(s: State, d: nat, v: nat, create: bool, x: int, k: nat, pt: int)
    requires InvExcept(s, x, k) && d < |s.kind| && s.kind[d].Dir? && v < NUSERPAGES
    requires 0 <= x < |s.kind| ==> !s.kind[x].Free?
    requires pt == if s.tables[d][v / NPTENTRIES].perm.p then s.tables[d][v / NPTENTRIES].frame
                   else if create && s.list != [] then s.list[0] else NULL
    ensures InvExcept(AfterWalk(s, d, v, create), x, k)
    ensures Walked(s, AfterWalk(s, d, v, create), d, v, create, pt)
  {
    var i := v / NPTENTRIES;
    WalkSlot(s, d, v);
    if !s.tables[d][i].perm.p && create && s.list != [] {
      NewTableKeepsInv(s, d, i, x, k);
      WithTableFields(s, d, i);
      CreatedOnly(s, d, i);
      WalkSlot(WithTable(s, d, i), d, v);
    }
  }

  lemma CreatedOnly(s: State, d: nat, i: nat)
    requires Shape(s) && FreeListOk(s) && s.list != [] && d < |s.kind| && i < NPTENTRIES && s.kind[d].Dir?
    ensures Shape(WithTable(s, d, i)) && OnlyFreeChanged(s, WithTable(s, d, i))
  {
    assert s.kind[s.list[0]].Free?;
  }

  // The table holding the entry of page `v`, when directory `d` has one.
  ghost function TableOf(s: State, d: nat, v: nat): nat
    requires Shape(s) && d < |s.kind| && v < NUSERPAGES
  {
    s.tables[d][v / NPTENTRIES].frame
  }

  // Where page_remove leaves the state.
  ghost function AfterRemove(s: State, d: nat, v: nat): State
    requires Shape(s) && Typed(s) && d < |s.kind| && s.kind[d].Dir? && v < NUSERPAGES
    requires Walk(s, d, v).perm.p ==> Walk(s, d, v).frame < |s.pages| ==> s.pages[Walk(s, d, v).frame].ref > 0
  {
    WalkSlot(s, d, v);
    if Walk(s, d, v).perm.p then Cleared(s, TableOf(s, d, v), v % NPTENTRIES) else s
  }

  lemma MappedIsCounted(s: State, d: nat, v: nat, x: int, k: nat)
    requires InvExcept(s, x, k) && d < |s.kind| && s.kind[d].Dir? && v < NUSERPAGES && Walk(s, d, v).perm.p
    ensures Walk(s, d, v).frame < |s.pages| && s.kind[Walk(s, d, v).frame].Data?
    ensures s.pages[Walk(s, d, v).frame].ref > 0 && s.pages[Walk(s, d, v).frame].link == NULL
  {
    WalkSlot(s, d, v);
  }

  // page_remove: the entry is gone, nothing else moved.
  ghost predicate Removed(s: State, s': State, d: nat, v: nat)
    requires Shape(s) && Shape(s')
  {
    && s'.data == s.data && s'.pgdirs == s.pgdirs && |s'.kind| == |s.kind| && |s'.pages| == |s.pages|
    && !Walk(s', d, v).perm.p
    && SameMapsExcept(s, s', d, v) && SameData(s, s')
    && (forall u :: 0 <= u < |s.kind| && s.kind[u] != Table(d, v / NPTENTRIES) ==> s'.tables[u] == s.tables[u])
    && (forall f :: 0 <= f < |s.kind| ==>
          s'.kind[f] == s.kind[f] || (s.kind[f].Data? && s'.kind[f].Free? && s'.pages[f].ref == 0))
  }

  lemma RemoveKeepsInv(s: State, d: nat, v: nat, x: int, k: nat)
    requires InvExcept(s, x, k) && d < |s.kind| && s.kind[d].Dir? && v < NUSERPAGES
    ensures Walk(s, d, v).perm.p ==> Walk(s, d, v).frame < |s.pages| && s.pages[Walk(s, d, v).frame].ref > 0
    ensures InvExcept(AfterRemove(s, d, v), x, k)
    ensures SameMapsExcept(s, AfterRemove(s, d, v), d, v) && SameData(s, AfterRemove(s, d, v))
  {
    if Walk(s, d, v).perm.p {
      MappedIsCounted(s, d, v, x, k);
      WalkSlot(s, d, v);
      ClearKeepsInv(s, TableOf(s, d, v), v % NPTENTRIES, v, x, k);
    }
  }

  lemma RemoveRemoves(s: State, d: nat, v: nat)
    requires Shape(s) && Typed(s) && d < |s.kind| && s.kind[d].Dir? && v < NUSERPAGES
    requires Walk(s, d, v).perm.p ==> Walk(s, d, v).frame < |s.pages| ==> s.pages[Walk(s, d, v).frame].ref > 0
    requires Shape(AfterRemove(s, d, v))
    requires SameMapsExcept(s, AfterRemove(s, d, v), d, v) && SameData(s, AfterRemove(s, d, v))
    ensures Removed(s, AfterRemove(s, d, v), d, v)
  {
    WalkSlot(s, d, v);
    if Walk(s, d, v).perm.p {
      ClearedFields(s, TableOf(s, d, v), v % NPTENTRIES);
    }
  }

  lemma ClearedFields(s: State, t: nat, i: nat)
    requires Shape(s) && Typed(s) && t < |s.kind| && i < NPTENTRIES && s.kind[t].Table? && s.tables[t][i].perm.p
    requires s.pages[s.tables[t][i].frame].ref > 0
    ensures Shape(Cleared(s, t, i)) && Cleared(s, t, i).data == s.data && |Cleared(s, t, i).pages| == |s.pages|
    ensures Cleared(s, t, i).tables == s.tables[t := s.tables[t][i := ZERO_PTE]]
    ensures forall f :: 0 <= f < |s.kind| ==>
              Cleared(s, t, i).kind[f] == s.kind[f] ||
              (s.kind[f].Data? && Cleared(s, t, i).kind[f].Free? && Cleared(s, t, i).pages[f].ref == 0)
    ensures forall f :: 0 <= f < |s.kind| && f != s.tables[t][i].frame ==>
              Cleared(s, t, i).kind[f] == s.kind[f] && Cleared(s, t, i).pages[f] == s.pages[f]
  {
    assert s.kind[s.tables[t][i].frame].Data?;
  }

  // Counting a mapping of `pp` before making it.
  lemma CountAhead(s: State, pp: nat)
    requires InvExcept(s, pp, 0) && pp < |s.kind| && (s.kind[pp].Data? || s.kind[pp].Loose?)
    requires s.pages[pp].ref < MAX_REF
    ensures InvExcept(SetRef(s, pp, s.pages[pp].ref + 1), pp, 1)
    ensures SameMapsExcept(s, SetRef(s, pp, s.pages[pp].ref + 1), NULL, NULL)
  {
    var s' := SetRef(s, pp, s.pages[pp].ref + 1);
    assert SameTables(s, s');
    SameFreeList(s, s');
    SameTablesTyped(s, s');
    SameTablesMaps(s, s');
    CountedAhead(s, s', pp);
  }

  lemma CountedAhead(s: State, s': State, pp: nat)
    requires Shape(s) && Shape(s') && SameTables(s, s') && Counted(s, pp, 0) && pp < |s.kind|
    requires s.pages[pp].ref < MAX_REF && !s.kind[pp].Reserved? && s' == SetRef(s, pp, s.pages[pp].ref + 1)
    ensures Counted(s', pp, 1)
  {
    SameTablesCounted(s, s', pp, 1);
  }

  // page_insert succeeded: page `v` maps to `pp` with the given permissions and
  // no other mapping, and no mapped byte, changed.
  ghost predicate Mapped(s: State, s': State, d: nat, v: nat, pp: nat, perm: Perm)
    requires Shape(s) && Shape(s')
  {
    && |s'.kind| == |s.kind| && |s'.pages| == |s.pages|
    && Walk(s', d, v) == Pte(pp, perm.(p := true))
    && SameMapsExcept(s, s', d, v) && SameData(s, s')
    && pp < |s.kind| && s'.kind[pp].Data? && s'.data[pp] == s.data[pp]
    && (forall f :: 0 <= f < |s.kind| && s'.kind[f].Data? ==> s.kind[f].Data? || f == pp)
    && (forall f :: 0 <= f < |s.kind| && s'.kind[f].Free? ==> s.kind[f].Free? || s.kind[f].Data?)
  }

  // The second half of page_insert: `s` with the page table in place, `s2` with
  // the count raised and the old mapping removed, `s'` with the entry written.
  lemma MapKeepsInv(s: State, s2: State, s': State, d: nat, v: nat, pp: nat, perm: Perm)
    requires Shape(s) && Typed(s) && d < |s.kind| && s.kind[d].Dir? && v < NUSERPAGES
    requires s.tables[d][v / NPTENTRIES].perm.p
    requires pp < |s.kind| && (s.kind[pp].Data? || s.kind[pp].Loose?)
    requires Shape(SetRef(s, pp, s.pages[pp].ref + 1))
    requires SameMapsExcept(s, SetRef(s, pp, s.pages[pp].ref + 1), NULL, NULL)
    requires InvExcept(s2, pp, 1) && Removed(SetRef(s, pp, s.pages[pp].ref + 1), s2, d, v)
    requires TableOf(s, d, v) < |s2.kind|
    requires s' == Pointed(s2, TableOf(s, d, v), v % NPTENTRIES, pp, perm.(p := true))
    ensures Inv(s') && Mapped(s, s', d, v, pp, perm)
  {
    WalkSlot(s, d, v);
    MapRemovedInv(s, SetRef(s, pp, s.pages[pp].ref + 1), s2, d, v, pp, perm.(p := true));
    MapRemovedMaps(s, SetRef(s, pp, s.pages[pp].ref + 1), s2, d, v, pp, perm);
  }

  lemma MapRemovedInv(s: State, s1: State, s2: State, d: nat, v: nat, pp: nat, perm: Perm)
    requires Shape(s) && Typed(s) && pp < |s.kind| && s1 == SetRef(s, pp, s.pages[pp].ref + 1)
    requires InvExcept(s2, pp, 1) && Removed(s1, s2, d, v)
    requires d < |s.kind| && s.kind[d].Dir? && v < NUSERPAGES && s.tables[d][v / NPTENTRIES].perm.p
    requires s.kind[pp].Data? || s.kind[pp].Loose?
    requires TableOf(s, d, v) < |s.kind| && perm.p
    ensures Inv(Pointed(s2, TableOf(s, d, v), v % NPTENTRIES, pp, perm))
    ensures SameMapsExcept(s2, Pointed(s2, TableOf(s, d, v), v % NPTENTRIES, pp, perm), d, v)
  {
    var t := TableOf(s, d, v);
    StillCounted(s1, s2, d, v, pp);
    RemovedSlot(s, s2, d, v);
    PointKeepsInv(s2, t, v % NPTENTRIES, v, pp, perm);
  }

  lemma MapRemovedMaps(s: State, s1: State, s2: State, d: nat, v: nat, pp: nat, perm: Perm)
    requires Shape(s) && Typed(s) && Shape(s2) && pp < |s.kind| && s1 == SetRef(s, pp, s.pages[pp].ref + 1)
    requires Removed(s1, s2, d, v) && SameMapsExcept(s, s1, NULL, NULL)
    requires d < |s.kind| && s.kind[d].Dir? && v < NUSERPAGES && s.tables[d][v / NPTENTRIES].perm.p
    requires TableOf(s, d, v) < |s.kind| && TableOf(s, d, v) != d
    requires Shape(Pointed(s2, TableOf(s, d, v), v % NPTENTRIES, pp, perm.(p := true)))
    requires SameMapsExcept(s2, Pointed(s2, TableOf(s, d, v), v % NPTENTRIES, pp, perm.(p := true)), d, v)
    ensures Mapped(s, Pointed(s2, TableOf(s, d, v), v % NPTENTRIES, pp, perm.(p := true)), d, v, pp, perm)
  {
    SameMapsTrans(s, s1, s2, d, v);
    PointedMapped(s, s2, TableOf(s, d, v), d, v, pp, perm);
  }

  lemma RemovedSlot(s: State, s2: State, d: nat, v: nat)
    requires Shape(s) && Typed(s) && Shape(s2) && Typed(s2) && |s2.kind| == |s.kind|
    requires d < |s.kind| && s.kind[d].Dir? && s2.kind[d].Dir? && v < NUSERPAGES
    requires s.tables[d][v / NPTENTRIES].perm.p && s2.tables[d] == s.tables[d] && !Walk(s2, d, v).perm.p
    ensures TableOf(s, d, v) < |s2.kind| && s2.kind[TableOf(s, d, v)] == Table(d, v / NPTENTRIES)
    ensures !s2.tables[TableOf(s, d, v)][v % NPTENTRIES].perm.p
  {
    WalkSlot(s2, d, v);
  }

  lemma SameMapsTrans(s: State, s1: State, s2: State, d: int, v: int)
    requires Shape(s) && Shape(s1) && Shape(s2)
    requires SameMapsExcept(s, s1, NULL, NULL) || SameMapsExcept(s, s1, d, v)
    requires SameMapsExcept(s1, s2, d, v)
    ensures SameMapsExcept(s, s2, d, v)
  {
    forall e, w | e in s.pgdirs && 0 <= w < NUSERPAGES && !(s.pgdirs[e] == d && w == v)
      ensures Entry(s2, e, w) == Entry(s, e, w)
    {
      assert Entry(s1, e, w) == Entry(s, e, w);
    }
  }

  lemma PointedMapped(s: State, s2: State, t: nat, d: nat, v: nat, pp: nat, perm: Perm)
    requires Shape(s) && Shape(s2) && t < |s2.kind| && pp < |s2.kind| && |s.kind| == |s2.kind|
    requires |s.pages| == |s2.pages| && s2.data == s.data && d < |s.kind| && v < NUSERPAGES
    requires s2.tables[d][v / NPTENTRIES].perm.p && s2.tables[d][v / NPTENTRIES].frame == t && d != t
    requires forall f :: 0 <= f < |s.kind| ==> s2.kind[f] == s.kind[f] || (s.kind[f].Data? && s2.kind[f].Free?)
    requires SameMapsExcept(s, s2, d, v)
    requires Shape(Pointed(s2, t, v % NPTENTRIES, pp, perm.(p := true)))
    requires SameMapsExcept(s2, Pointed(s2, t, v % NPTENTRIES, pp, perm.(p := true)), d, v)
    ensures Mapped(s, Pointed(s2, t, v % NPTENTRIES, pp, perm.(p := true)), d, v, pp, perm)
  {
    SameMapsTrans(s, s2, Pointed(s2, t, v % NPTENTRIES, pp, perm.(p := true)), d, v);
  }

  // A frame counted ahead is not freed by dropping one mapping of it: inserting
  // a page where it already is does not lose it.
  lemma StillCounted(s: State, s': State, d: nat, v: nat, pp: nat)
    requires Shape(s) && Shape(s') && Counted(s', pp, 1) && Removed(s, s', d, v) && pp < |s.kind|
    requires s.kind[pp].Data? || s.kind[pp].Loose?
    ensures s'.kind[pp] == s.kind[pp]
  {
    assert |Refs(s', pp)| >= 0;
  }

  // What page_insert finds when pgdir_walk has made sure of a table.
  lemma WalkedTable(s: State, s': State, d: nat, v: nat, pt: int, pp: nat)
    requires Shape(s) && Shape(s') && Typed(s') && d < |s.kind| && v < NUSERPAGES && pp < |s.kind| && s.kind[d].Dir?
    requires Walked(s, s', d, v, true, pt) && pt != NULL && !s.kind[pp].Free?
    ensures |s'.kind| == |s.kind| && s'.kind[d] == s.kind[d] && s'.kind[pp] == s.kind[pp] && s'.pages[pp].ref == s.pages[pp].ref
    ensures s'.tables[d][v / NPTENTRIES].perm.p && s'.tables[d][v / NPTENTRIES].frame == pt
  {}

  lemma MappedAfterWalk(s0: State, s: State, s': State, d: nat, v: nat, pt: int, pp: nat, perm: Perm)
    requires Shape(s0) && Shape(s) && Shape(s') && d < |s0.kind| && v < NUSERPAGES && pp < |s0.kind|
    requires Walked(s0, s, d, v, true, pt) && Mapped(s, s', d, v, pp, perm) && pt != NULL
    requires s0.kind[pp].Data? || s0.kind[pp].Loose?
    ensures Mapped(s0, s', d, v, pp, perm)
  {
    SameMapsTrans(s0, s, s', d, v);
  }

  // ---- address spaces coming and going ----------------------------------------------------

  // Environment `e` now has an empty address space; everyone else's is untouched.
  ghost predicate SpaceAdded(s: State, s': State, e: nat)
    requires Shape(s) && Shape(s')
  {
    && e !in s.pgdirs && s'.pgdirs.Keys == s.pgdirs.Keys + {e}
    && (forall e', w :: e' in s.pgdirs && 0 <= w < NUSERPAGES ==> Entry(s', e', w) == Entry(s, e', w))
    && (forall w :: 0 <= w < NUSERPAGES ==> Entry(s', e, w) == ZERO_PTE)
    && SameData(s, s')
  }

  // Environment `e` is losing mappings and frames while all other environments
  // keep theirs and no frame finds a new use.
  ghost predicate Releasing(s: State, s': State, e: nat)
    requires Shape(s) && Shape(s')
  {
    && |s'.pages| == |s.pages|
    && (forall f :: 0 <= f < |s.kind| ==> s'.kind[f] == s.kind[f] || s'.kind[f].Free?)
    && (forall t :: 0 <= t < |s.kind| && Foreign(s, t, e) ==> s'.kind[t] == s.kind[t] && s'.tables[t] == s.tables[t])
    && s'.data == s.data
  }

  // Directories and tables of environments other than `e`.
  ghost predicate Foreign(s: State, t: nat, e: nat)
    requires Shape(s) && t < |s.kind|
  {
    (s.kind[t].Dir? && s.kind[t].env != e) ||
    (s.kind[t].Table? && e in s.pgdirs && s.kind[t].dir != s.pgdirs[e])
  }

  // Releasing leaves every other environment's mappings as they were.
  lemma ReleasingKeepsOthers(s: State, s': State, e: nat, e': nat, w: nat)
    requires Shape(s) && Shape(s') && Typed(s) && Releasing(s, s', e) && e in s.pgdirs
    requires e' in s.pgdirs && e' != e && e' in s'.pgdirs && s'.pgdirs[e'] == s.pgdirs[e'] && w < NUSERPAGES
    ensures Entry(s', e', w) == Entry(s, e', w)
  {
    WalkSlot(s, s.pgdirs[e'], w);
    assert Foreign(s, s.pgdirs[e'], e);
    if s.tables[s.pgdirs[e']][w / NPTENTRIES].perm.p {
      assert Foreign(s, TableOf(s, s.pgdirs[e'], w), e);
    }
  }

  lemma ReleasingTrans(s: State, s1: State, s2: State, e: nat)
    requires Shape(s) && Shape(s1) && Shape(s2) && Releasing(s, s1, e) && Releasing(s1, s2, e)
    requires s1.pgdirs == s.pgdirs
    ensures Releasing(s, s2, e)
  {
    forall t | 0 <= t < |s.kind| && Foreign(s, t, e) ensures s2.kind[t] == s.kind[t] && s2.tables[t] == s.tables[t] {
      assert Foreign(s1, t, e);
    }
  }

  lemma RemovedReleases(s: State, s': State, e: nat, v: nat)
    requires Shape(s) && Shape(s') && Typed(s) && e in s.pgdirs && Removed(s, s', s.pgdirs[e], v)
    ensures Releasing(s, s', e)
  {
  }

  // One entry of one page table was cleared, and its neighbours kept.
  ghost predicate OneCleared(s: State, s': State, d: nat, pdx: nat, ptx: nat)
    requires Shape(s) && Shape(s') && d < |s.kind| && pdx < PDX_UTOP && ptx < NPTENTRIES
  {
    |s'.kind| == |s.kind| && s'.tables[d] == s.tables[d] &&
    var t := s.tables[d][pdx].frame;
    t < |s.kind| && s'.kind[t] == s.kind[t] && !s'.tables[t][ptx].perm.p &&
    forall j :: 0 <= j < NPTENTRIES && j != ptx ==> s'.tables[t][j] == s.tables[t][j]
  }

  lemma RemovedClears(s: State, s': State, e: nat, v: nat, pdx: nat, ptx: nat)
    requires Shape(s) && Typed(s) && Shape(s') && Typed(s') && e in s.pgdirs && v < NUSERPAGES
    requires pdx == v / NPTENTRIES && ptx == v % NPTENTRIES
    requires s.tables[s.pgdirs[e]][pdx].perm.p && Removed(s, s', s.pgdirs[e], v)
    ensures OneCleared(s, s', s.pgdirs[e], pdx, ptx)
  {
    var d := s.pgdirs[e];
    var t := s.tables[d][pdx].frame;
    assert s.kind[t] == Table(d, pdx);
    WalkSlot(s', d, v);
    forall j | 0 <= j < NPTENTRIES && j != ptx ensures s'.tables[t][j] == s.tables[t][j] {
      NeighbourKept(s, s', e, v, pdx * NPTENTRIES + j, t, pdx, j);
    }
  }

  lemma NeighbourKept(s: State, s': State, e: nat, v: nat, w: nat, t: nat, pdx: nat, j: nat)
    requires Shape(s) && Typed(s) && Shape(s') && Typed(s') && e in s.pgdirs && w < NUSERPAGES && w != v
    requires pdx == w / NPTENTRIES && j == w % NPTENTRIES
    requires s.tables[s.pgdirs[e]][pdx].perm.p && s.tables[s.pgdirs[e]][pdx].frame == t
    requires t < |s.tables| && |s'.tables| == |s.tables| && SameMapsExcept(s, s', s.pgdirs[e], v)
    requires s'.tables[s.pgdirs[e]] == s.tables[s.pgdirs[e]]
    ensures s'.tables[t][j] == s.tables[t][j]
  {
    assert Entry(s', e, w) == Entry(s, e, w);
  }

  // Both views of one page_remove by env_free.
  lemma RemovedOne(s: State, s1: State, s2: State, e: nat, v: nat, pdx: nat, ptx: nat)
    requires Shape(s) && Inv(s1) && Inv(s2) && e in s1.pgdirs && s1.pgdirs == s.pgdirs && v < NUSERPAGES
    requires pdx == v / NPTENTRIES && ptx == v % NPTENTRIES
    requires Releasing(s, s1, e) && s1.tables[s1.pgdirs[e]][pdx].perm.p && Removed(s1, s2, s1.pgdirs[e], v)
    ensures Releasing(s, s2, e) && OneCleared(s1, s2, s1.pgdirs[e], pdx, ptx)
  {
    RemovedReleases(s1, s2, e, v);
    ReleasingTrans(s, s1, s2, e);
    RemovedClears(s1, s2, e, v, pdx, ptx);
  }

  lemma DropsTableReleases(s: State, s': State, e: nat, g: nat, i: nat)
    requires Shape(s) && Shape(s') && Typed(s) && e in s.pgdirs && DropsTable(s, s', g, s.pgdirs[e], i)
    requires s.kind[g] == Table(s.pgdirs[e], i) && |s'.pages| == |s.pages|
    ensures Releasing(s, s', e)
  {
  }

  // Every data frame is mapped by some environment: reference counts do not leak.
  lemma DataIsMapped(s: State, f: nat) returns (e: nat, w: nat)
    requires Inv(s) && f < |s.kind| && s.kind[f].Data?
    ensures e in s.pgdirs && w < NUSERPAGES && Entry(s, e, w).perm.p && Entry(s, e, w).frame == f
  {
    assert |Refs(s, f)| > 0;
    var r :| r in Refs(s, f);
    assert r in Slots(s, f);
    e, w := SlotPage(s, r.table, r.index);
  }

  // Which page of which environment an entry of a page table stands for.
  lemma SlotPage(s: State, t: nat, i: nat) returns (e: nat, w: nat)
    requires Shape(s) && Typed(s) && t < |s.kind| && i < NPTENTRIES && s.kind[t].Table?
    ensures e in s.pgdirs && w < NUSERPAGES && Entry(s, e, w) == s.tables[t][i]
    ensures s.pgdirs[e] == s.kind[t].dir && w / NPTENTRIES == s.kind[t].pdx && w % NPTENTRIES == i
  {
    assert TableOwned(s, t);
    e, w := s.kind[s.kind[t].dir].env, s.kind[t].pdx * NPTENTRIES + i;
    WalkSlot(s, s.pgdirs[e], w);
  }

  ghost predicate SpaceFreed(s: State, s': State, e: nat)
    requires Shape(s) && Shape(s')
  {
    s'.pgdirs == s.pgdirs - {e} && Releasing(s, s', e)
  }

  lemma FreedTable(s: State, s': State, e: nat, f: nat)
    requires Inv(s) && Inv(s') && e in s.pgdirs && SpaceFreed(s, s', e) && f < |s.kind| && s.kind[f].Table?
    ensures s'.kind[f] == if s.kind[f].dir == s.pgdirs[e] then Kind.Free else s.kind[f]
  {
    assert TableOwned(s, f);
    if s.kind[f].dir == s.pgdirs[e] {
      if s'.kind[f].Table? {
        assert TableOwned(s', f);
      }
    } else {
      assert Foreign(s, f, e);
    }
  }

  lemma FreedData(s: State, s': State, e: nat, f: nat)
    requires Inv(s) && Inv(s') && e in s.pgdirs && SpaceFreed(s, s', e) && f < |s.kind| && s.kind[f].Data?
    ensures s'.kind[f].Free? <==>
            !exists e', w :: e' in s.pgdirs && e' != e && 0 <= w < NUSERPAGES &&
               Entry(s, e', w).perm.p && Entry(s, e', w).frame == f
  {
    if s'.kind[f].Data? {
      var e', w := DataIsMapped(s', f);
      ReleasingKeepsOthers(s, s', e, e', w);
      assert Entry(s, e', w).perm.p && Entry(s, e', w).frame == f;
    }
    forall e', w | e' in s.pgdirs && e' != e && 0 <= w < NUSERPAGES && Entry(s, e', w).perm.p && Entry(s, e', w).frame == f
      ensures s'.kind[f].Data?
    {
      ReleasingKeepsOthers(s, s', e, e', w);
      WalkSlot(s', s'.pgdirs[e'], w);
    }
  }

  // What env_free gives back is exactly what only the dying environment held:
  // its directory, its page tables, and the data frames no other environment maps.
  lemma FreedExactly(s: State, s': State, e: nat, f: nat)
    requires Inv(s) && Inv(s') && e in s.pgdirs && SpaceFreed(s, s', e) && f < |s.kind|
    ensures s.kind[f] == Dir(e) ==> s'.kind[f].Free?
    ensures s.kind[f].Table? && s.kind[f].dir == s.pgdirs[e] ==> s'.kind[f].Free?
    ensures s.kind[f].Data? ==>
              (s'.kind[f].Free? <==>
               !exists e', w :: e' in s.pgdirs && e' != e && 0 <= w < NUSERPAGES &&
                 Entry(s, e', w).perm.p && Entry(s, e', w).frame == f)
    ensures (s.kind[f].Table? && s.kind[f].dir != s.pgdirs[e]) || (s.kind[f].Dir? && s.kind[f].env != e) ==>
              s'.kind[f] == s.kind[f]
  {
    if s.kind[f].Table? {
      FreedTable(s, s', e, f);
    } else if s.kind[f].Data? {
      FreedData(s, s', e, f);
    } else if s.kind[f].Dir? {
      assert s.kind[f].env != e ==> s'.kind[s'.pgdirs[s.kind[f].env]].Dir?;
    }
  }

  // ---- what the system calls promise ---------------------------------------------------------

  // Page `v` of environment `e` now maps frame `f`; no other mapping of anyone and
  // no mapped byte changed, and no frame but `f` came into use as data.
  ghost predicate Installed(s: State, s': State, e: nat, v: nat, f: nat, perm: Perm)
    requires Shape(s) && Shape(s')
  {
    && e in s.pgdirs && s'.pgdirs == s.pgdirs && |s'.kind| == |s.kind| && f < |s.kind|
    && Entry(s', e, v) == Pte(f, perm)
    && SameMapsExcept(s, s', s.pgdirs[e], v) && SameData(s, s')
    && s'.kind[f].Data?
    && (forall g :: 0 <= g < |s.kind| && s'.kind[g].Data? ==> s.kind[g].Data? || g == f)
    && (forall g :: 0 <= g < |s.kind| && s'.kind[g].Free? ==> s.kind[g].Free? || s.kind[g].Data?)
  }

  lemma FreshInstalled(s: State, s1: State, s': State, e: nat, v: nat, perm: Perm)
    requires Inv(s) && s.list != [] && s1 == Pop(s, true) && Shape(s') && e in s.pgdirs && v < NUSERPAGES && perm.p
    requires Mapped(s1, s', s.pgdirs[e], v, s.list[0], perm)
    ensures s.list[0] < |s.kind| && s.kind[s.list[0]].Free?
    ensures Installed(s, s', e, v, s.list[0], perm) && s'.data[s.list[0]] == ZeroPage()
  {
    assert s.kind[s.list[0]].Free?;
    PopKeepsInv(s, true);
    SameMapsTrans(s, s1, s', s.pgdirs[e], v);
  }

  // A failed sys_page_alloc leaves everything but the contents of a free frame.
  ghost predicate OnlyScrubbed(s: State, s': State)
    requires Shape(s) && Shape(s')
  {
    exists f :: 0 <= f < |s.kind| && s.kind[f].Free? &&
      s' == s.(tables := s.tables[f := ZeroTable()], data := s.data[f := ZeroPage()])
  }

  lemma PopPushScrubs(s: State)
    requires Inv(s) && s.list != []
    ensures var s1 := Pop(s, true);
            s.list[0] < |s.kind| && Shape(s1) && Shape(Push(s1, s.list[0])) && OnlyScrubbed(s, Push(s1, s.list[0]))
  {
    var f := s.list[0];
    var s' := Push(Pop(s, true), f);
    assert s.kind[f].Free?;
    assert s'.list == s.list;
    assert s'.pages == s.pages;
    assert s' == s.(tables := s.tables[f := ZeroTable()], data := s.data[f := ZeroPage()]);
  }

  // ---- reference counts as numbers of user mappings --------------------------------------------

  // All (environment, page) pairs that map frame `f`.
  ghost function Mappings(s: State, f: nat): set<(nat, nat)>
    requires Shape(s)
  {
    set e, v | e in s.pgdirs && 0 <= v < NUSERPAGES && Entry(s, e, v).perm.p && Entry(s, e, v).frame == f :: (e, v)
  }

  ghost predicate Into<A, B>(m: map<A, B>, b: set<B>) {
    && (forall x :: x in m ==> m[x] in b)
    && (forall x, y :: x in m && y in m && m[x] == m[y] ==> x == y)
  }

  ghost predicate Onto<A, B>(m: map<A, B>, b: set<B>) {
    forall y :: y in b ==> exists x :: x in m && m[x] == y
  }

  // A one-to-one map has as many keys as it has values.
  lemma SameSize<A, B>(m: map<A, B>, b: set<B>)
    requires Into(m, b) && Onto(m, b)
    ensures |m.Keys| == |b|
    decreases |m.Keys|
  {
    if m.Keys == {} {
      assert b == {};
    } else {
      var x :| x in m.Keys;
      var m' := m - {x};
      assert m'.Keys == m.Keys - {x};
      forall y | y in b - {m[x]} ensures exists z :: z in m' && m'[z] == y {
        var z :| z in m && m[z] == y;
        assert m'[z] == y;
      }
      SameSize(m', b - {m[x]});
    }
  }

  // The slot that holds the entry of page `v` of environment `e`.
  ghost function SlotOf(s: State, e: nat, v: nat): Ref
    requires Shape(s) && Typed(s) && e in s.pgdirs && v < NUSERPAGES
  {
    Slot(s.tables[s.pgdirs[e]][v / NPTENTRIES].frame, v % NPTENTRIES)
  }

  // For a data frame, pp_ref is the number of places it is mapped: what a process
  // reads through pageref() is how many page-table entries, of all environments,
  // share the page.
  lemma RefCountsMappings(s: State, f: nat)
    requires Inv(s) && f < |s.kind| && s.kind[f].Data?
    ensures s.pages[f].ref == |Mappings(s, f)| < 0x1_0000
  {
    AsManySlots(s, f);
  }

  lemma AsManySlots(s: State, f: nat)
    requires Inv(s) && f < |s.kind| && s.kind[f].Data?
    ensures |Mappings(s, f)| == |Refs(s, f)|
  {
    var m, b := MappingSlots(s, f), Refs(s, f);
    assert m.Keys == Mappings(s, f);
    SlotsOfMappings(s, f);
    EverySlotIsMapping(s, f);
    SameSize(m, b);
  }

  ghost function MappingSlots(s: State, f: nat): map<(nat, nat), Ref>
    requires Shape(s) && Typed(s)
  {
    map p | p in Mappings(s, f) :: SlotOf(s, p.0, p.1)
  }

  lemma SlotsOfMappings(s: State, f: nat)
    requires Inv(s) && f < |s.kind| && s.kind[f].Data?
    ensures Into(MappingSlots(s, f), Refs(s, f))
  {
    var m := MappingSlots(s, f);
    forall p | p in m ensures m[p] in Refs(s, f) {
      MappingSlot(s, f, p.0, p.1);
    }
    forall p, q | p in m && q in m && m[p] == m[q] ensures p == q {
      SlotOfInjective(s, f, p, q);
    }
  }

  lemma EverySlotIsMapping(s: State, f: nat)
    requires Inv(s) && f < |s.kind| && s.kind[f].Data?
    ensures Onto(MappingSlots(s, f), Refs(s, f))
  {
    var m := MappingSlots(s, f);
    forall r | r in Refs(s, f) ensures exists p :: p in m && m[p] == r {
      var p := RefMapping(s, f, r);
      assert p in m && m[p] == r;
    }
  }

  lemma SlotOfInjective(s: State, f: nat, p: (nat, nat), q: (nat, nat))
    requires Inv(s) && f < |s.kind| && p in Mappings(s, f) && q in Mappings(s, f)
    requires SlotOf(s, p.0, p.1) == SlotOf(s, q.0, q.1)
    ensures p == q
  {
    MappingSlot(s, f, p.0, p.1);
    MappingSlot(s, f, q.0, q.1);
  }

  lemma RefMapping(s: State, f: nat, r: Ref) returns (p: (nat, nat))
    requires Inv(s) && f < |s.kind| && s.kind[f].Data? && r in Refs(s, f)
    ensures p in Mappings(s, f) && SlotOf(s, p.0, p.1) == r
  {
    assert r.Slot? && Hits(s, f, r.table, r.index);
    var e, w := SlotPage(s, r.table, r.index);
    assert TableOwned(s, r.table);
    p := (e, w);
  }

  lemma MappingSlot(s: State, f: nat, e: nat, v: nat)
    requires Inv(s) && f < |s.kind| && e in s.pgdirs && v < NUSERPAGES
    requires Entry(s, e, v).perm.p && Entry(s, e, v).frame == f
    ensures var t := s.tables[s.pgdirs[e]][v / NPTENTRIES].frame;
            t < |s.kind| && s.kind[t] == Table(s.pgdirs[e], v / NPTENTRIES) && Hits(s, f, t, v % NPTENTRIES) &&
            Slot(t, v % NPTENTRIES) in Refs(s, f)
  {
    WalkSlot(s, s.pgdirs[e], v);
  }
}
