// lib/fork.c over the kernel of Pmap.dfy: the write-fault handler, duppage and
// the page-copying loop of fork, each shown to be the copy-on-write steps of Cow.dfy.
module Fork {
  import opened Inc
  import opened Vm
  import opened VmSteps
  import opened Pmap
  import opened Cow

  const PFTEMP := 2 * PTSIZE - PGSIZE

  const PFTEMP_PAGE := PFTEMP / PGSIZE
  const USTACK_PAGES := USTACKTOP / PGSIZE
  const UXSTACK_PAGE := (UXSTACKTOP - PGSIZE) / PGSIZE

  // The layout of inc/memlayout.h and lib/fork.c in numbers.
  lemma Layout()
    ensures PFTEMP == UTEMP + PTSIZE - PGSIZE && PFTEMP_PAGE * PGSIZE == 0x7f_f000 && UTEMP_PAGE * PGSIZE == 0x40_0000
    ensures USTACK_PAGES * PGSIZE == 0xee7f_e000 && UXSTACK_PAGE * PGSIZE == 0xee7f_f000 && NUSERPAGES * PGSIZE == 0xee80_0000
  {}

  // ---- the kernel state as user code sees it -------------------------------------

  ghost function ViewOf(s: State): View
    requires Shape(s)
  {
    View(map e, v | e in s.pgdirs && 0 <= v < NUSERPAGES && Entry(s, e, v).perm.p :: (e, v) := Entry(s, e, v), s.data)
  }

  lemma ViewEntry(s: State, e: nat, v: nat)
    requires Shape(s) && v < NUSERPAGES
    ensures (e, v) in ViewOf(s).pte <==> e in s.pgdirs && Entry(s, e, v).perm.p
    ensures (e, v) in ViewOf(s).pte ==> ViewOf(s).pte[(e, v)] == Entry(s, e, v)
  {}

  // The frames user code maps are exactly those in use as data.
  lemma ViewMapsData(s: State, f: nat)
    requires Inv(s) && f < |s.kind|
    ensures WellMapped(ViewOf(s))
    ensures MapsFrame(ViewOf(s).pte, f) <==> s.kind[f].Data?
  {
    forall k | k in ViewOf(s).pte ensures ViewOf(s).pte[k].frame < |s.data| && s.kind[ViewOf(s).pte[k].frame].Data? {
      WalkSlot(s, s.pgdirs[k.0], k.1);
    }
    if s.kind[f].Data? {
      var e, w := DataIsMapped(s, f);
      assert (e, w) in ViewOf(s).pte && ViewOf(s).pte[(e, w)].frame == f;
    }
  }

  lemma ViewSameBytes(s: State, s': State)
    requires Inv(s) && Inv(s') && SameData(s, s')
    ensures SameBytes(ViewOf(s), ViewOf(s')) && WellMapped(ViewOf(s)) && WellMapped(ViewOf(s'))
  {
    forall f | 0 <= f < |s.data| && MapsFrame(ViewOf(s).pte, f) ensures s'.data[f] == s.data[f] {
      ViewMapsData(s, f);
    }
    if |s.kind| > 0 {
      ViewMapsData(s, 0);
      ViewMapsData(s', 0);
    }
  }

  lemma OtherEntry(s: State, s': State, e: nat, v: nat, e': nat, v': nat)
    requires Shape(s) && Typed(s) && Shape(s') && e in s.pgdirs && e' in s.pgdirs && (e', v') != (e, v) && v' < NUSERPAGES
    requires SameMapsExcept(s, s', s.pgdirs[e], v)
    ensures Entry(s', e', v') == Entry(s, e', v')
  {
    assert s.pgdirs[e'] == s.pgdirs[e] ==> e' == e by {
      assert s.kind[s.pgdirs[e]] == Dir(e) && s.kind[s.pgdirs[e']] == Dir(e');
    }
  }

  lemma OtherKey(s: State, s': State, e: nat, v: nat, k: Key)
    requires Shape(s) && Typed(s) && Shape(s') && e in s.pgdirs && k != (e, v)
    requires SameMapsExcept(s, s', s.pgdirs[e], v)
    ensures k in ViewOf(s').pte <==> k in ViewOf(s).pte
    ensures k in ViewOf(s').pte ==> ViewOf(s').pte[k] == ViewOf(s).pte[k]
  {
    if k.0 in s.pgdirs && k.1 < NUSERPAGES {
      OtherEntry(s, s', e, v, k.0, k.1);
    }
  }

  ghost predicate DifferAt(m: map<Key, Pte>, m': map<Key, Pte>, x: Key) {
    forall k :: k != x ==> (k in m' <==> k in m) && (k in m' ==> m'[k] == m[k])
  }

  lemma DifferAtOneKey(m: map<Key, Pte>, m': map<Key, Pte>, x: Key)
    requires DifferAt(m, m', x)
    ensures m' == if x in m' then m[x := m'[x]] else m - {x}
  {}

  // Two views that agree away from one key differ by an update or a removal.
  lemma SamePteElsewhere(s: State, s': State, e: nat, v: nat)
    requires Shape(s) && Typed(s) && Shape(s') && e in s.pgdirs && SameMapsExcept(s, s', s.pgdirs[e], v)
    ensures DifferAt(ViewOf(s).pte, ViewOf(s').pte, (e, v))
  {
    var m, m' := ViewOf(s).pte, ViewOf(s').pte;
    forall k: Key | k != (e, v) ensures (k in m' <==> k in m) && (k in m' ==> m'[k] == m[k]) {
      OtherKey(s, s', e, v, k);
    }
  }

  // A mapping call changes one entry of the view.
  lemma InstalledView(s: State, s': State, e: nat, v: nat, f: nat, perm: Perm)
    requires Inv(s) && Inv(s') && v < NUSERPAGES && perm.p && Installed(s, s', e, v, f, perm)
    ensures ViewOf(s').pte == ViewOf(s).pte[(e, v) := Pte(f, perm)]
    ensures SameBytes(ViewOf(s), ViewOf(s'))
    ensures WellMapped(ViewOf(s)) && WellMapped(ViewOf(s'))
  {
    ViewSameBytes(s, s');
    SamePteElsewhere(s, s', e, v);
    DifferAtOneKey(ViewOf(s).pte, ViewOf(s').pte, (e, v));
  }

  // An unmapping call removes one entry of the view.
  lemma RemovedView(s: State, s': State, e: nat, v: nat)
    requires Inv(s) && Inv(s') && v < NUSERPAGES && e in s.pgdirs && Removed(s, s', s.pgdirs[e], v)
    ensures ViewOf(s').pte == ViewOf(s).pte - {(e, v)}
    ensures SameBytes(ViewOf(s), ViewOf(s'))
    ensures WellMapped(ViewOf(s)) && WellMapped(ViewOf(s'))
  {
    ViewSameBytes(s, s');
    SamePteElsewhere(s, s', e, v);
    DifferAtOneKey(ViewOf(s).pte, ViewOf(s').pte, (e, v));
  }

  // ---- loads and stores through a mapping -------------------------------------------

  ghost function SetData(s: State, f: nat, page: Page): State
    requires f < |s.data|
  {
    s.(data := s.data[f := page])
  }

  lemma SetDataCounted(s: State, f: nat, page: Page)
    requires Shape(s) && Counted(s, NULL, 0) && f < |s.data| && |page| == PGSIZE
    ensures Shape(SetData(s, f, page)) && Counted(SetData(s, f, page), NULL, 0)
  {
    var s' := SetData(s, f, page);
    forall g | 0 <= g < |s.kind| ensures Refs(s', g) == Refs(s, g) {
      RefsFrame(s, s', g);
    }
  }

  // Changing the bytes of a frame touches no mapping and no count.
  lemma SetDataKeepsInv(s: State, f: nat, page: Page)
    requires Inv(s) && f < |s.data| && |page| == PGSIZE
    ensures Inv(SetData(s, f, page))
  {
    SetDataCounted(s, f, page);
  }

  lemma SetDataView(s: State, f: nat, page: Page)
    requires Shape(s) && f < |s.data| && |page| == PGSIZE
    ensures Shape(SetData(s, f, page))
    ensures forall e, v :: e in s.pgdirs && 0 <= v < NUSERPAGES ==> Entry(SetData(s, f, page), e, v) == Entry(s, e, v)
    ensures ViewOf(SetData(s, f, page)) == ViewOf(s).(content := s.data[f := page])
  {
    var s' := SetData(s, f, page);
    assert ViewOf(s').pte == ViewOf(s).pte;
  }

  // memcpy of one page, byte by byte, through the mappings of environment `e`.
  method CopyPage(k: Kernel, e: nat, dst: nat, src: nat, ghost f: nat)
    requires k.Valid() && e in k.pgdirs && dst < NUSERPAGES && src < NUSERPAGES
    requires (e, dst) in ViewOf(k.Snap()).pte && (e, src) in ViewOf(k.Snap()).pte
    requires ViewOf(k.Snap()).pte[(e, dst)].frame == f && ViewOf(k.Snap()).pte[(e, src)].frame != f
    modifies k`data
    ensures k.Valid() && PageCopied(old(k.Snap()), k.Snap(), (e, src), f)
    ensures var w := old(ViewOf(k.Snap()));
            && WellMapped(w)
            && ViewOf(k.Snap()) == w.(content := w.content[f := Load(w, (e, src))])
  {
    ghost var s := k.Snap();
    var to := FrameAt(k, e, dst);
    var from := FrameAt(k, e, src);
    CopyBytes(k, to, from);
    assert k.Snap() == SetData(s, to, s.data[from]);
    SetDataKeepsInv(s, to, s.data[from]);
    SetDataView(s, to, s.data[from]);
  }

  // The frame behind a mapped page.
  method FrameAt(k: Kernel, e: nat, v: nat) returns (f: nat)
    requires k.Valid() && (e, v) in ViewOf(k.Snap()).pte
    ensures f == ViewOf(k.Snap()).pte[(e, v)].frame && f < |k.data| && |k.data[f]| == PGSIZE
    ensures WellMapped(ViewOf(k.Snap()))
  {
    ViewEntry(k.Snap(), e, v);
    WalkSlot(k.Snap(), k.pgdirs[e], v);
    f := k.WalkAny(k.pgdirs[e], v).frame;
    ViewMapsData(k.Snap(), f);
  }

  method CopyBytes(k: Kernel, to: nat, from: nat)
    requires to < |k.data| && from < |k.data| && to != from && |k.data[to]| == PGSIZE && |k.data[from]| == PGSIZE
    modifies k`data
    ensures k.data == old(k.data)[to := old(k.data)[from]]
  {
    ghost var was := k.data;
    var i := 0;
    while i < PGSIZE
      invariant 0 <= i <= PGSIZE && |k.data| == |was| && |k.data[to]| == PGSIZE
      invariant k.data == was[to := k.data[to]]
      invariant k.data[to][..i] == was[from][..i]
    {
      k.data := k.data[to := k.data[to][i := k.data[from][i]]];
      i := i + 1;
    }
    assert k.data[to] == was[from];
  }

  // ---- reference counts as user code can compute them ---------------------------------

  ghost function Users(pte: map<Key, Pte>, f: nat): set<Key> {
    set k | k in pte && pte[k].frame == f
  }

  lemma RefIsUsers(s: State, f: nat)
    requires Inv(s) && f < |s.kind| && s.kind[f].Data?
    ensures s.pages[f].ref == |Users(ViewOf(s).pte, f)|
  {
    RefCountsMappings(s, f);
    assert Users(ViewOf(s).pte, f) == Mappings(s, f);
  }

  // ---- system calls seen from user code --------------------------------------------------

  ghost predicate HasTable(s: State, e: nat, v: nat)
    requires Shape(s)
  {
    e in s.pgdirs && s.pgdirs[e] < |s.tables| && v < NUSERPAGES && s.tables[s.pgdirs[e]][v / NPTENTRIES].perm.p
  }

  lemma MappedHasTable(s: State, e: nat, v: nat)
    requires Shape(s) && (e, v) in ViewOf(s).pte
    ensures HasTable(s, e, v)
  {
    ViewEntry(s, e, v);
  }

  // sys_page_alloc(e, page v, PTE_P|PTE_U|PTE_W)
  method AllocPage(k: Kernel, e: nat, v: nat) returns (r: int, ghost f: nat)
    requires k.Valid() && e in k.pgdirs && v < NUSERPAGES
    modifies k
    ensures k.Valid() && k.pgdirs == old(k.pgdirs)
    ensures r == 0 <==> |old(k.list)| >= if old(HasTable(k.Snap(), e, v)) then 1 else 2
    ensures r != 0 ==> |k.list| == |old(k.list)|
    ensures KernelStep(old(k.Snap()), k.Snap(), if r == 0 then New((e, v), USER_RW, f) else Idle)
    ensures Step(old(ViewOf(k.Snap())), ViewOf(k.Snap()), if r == 0 then New((e, v), USER_RW, f) else Idle)
  {
    ghost var s := k.Snap();
    assert e in s.pgdirs && s.kind[s.pgdirs[e]] == Dir(e);
    PageAddress(v);
    r, f := k.SysPageAlloc(e, v * PGSIZE, USER_RW);
    if r == 0 {
      ViewMapsData(s, f);
      InstalledView(s, k.Snap(), e, v, f, USER_RW);
    } else if k.Snap() != s {
      ScrubbedView(s, k.Snap());
    } else {
      ViewSameBytes(s, s);
    }
  }

  // A frame zeroed and given back is seen by no one.
  lemma ScrubbedView(s: State, s': State)
    requires Inv(s) && Inv(s') && OnlyScrubbed(s, s')
    ensures s'.pgdirs == s.pgdirs && Step(ViewOf(s), ViewOf(s'), Idle)
  {
    ViewSameBytes(s, s');
    ScrubbedEntries(s, s');
    SameEntriesView(s, s');
  }

  lemma ScrubbedEntries(s: State, s': State)
    requires Shape(s) && Typed(s) && Shape(s') && OnlyScrubbed(s, s')
    ensures forall e, v :: e in s.pgdirs && 0 <= v < NUSERPAGES ==> Entry(s', e, v) == Entry(s, e, v)
  {
    forall e, v | e in s.pgdirs && 0 <= v < NUSERPAGES ensures Entry(s', e, v) == Entry(s, e, v) {
      assert s.kind[s.pgdirs[e]] == Dir(e);
      WalkSlot(s, s.pgdirs[e], v);
    }
  }

  lemma SameEntriesView(s: State, s': State)
    requires Shape(s) && Shape(s') && s'.pgdirs == s.pgdirs
    requires forall e, v :: e in s.pgdirs && 0 <= v < NUSERPAGES ==> Entry(s', e, v) == Entry(s, e, v)
    ensures ViewOf(s').pte == ViewOf(s).pte
  {}

  lemma PageAddress(v: nat)
    requires v < NUSERPAGES
    ensures v * PGSIZE < UTOP && v * PGSIZE % PGSIZE == 0 && v * PGSIZE / PGSIZE == v
  {}

  // The page is unmapped, or already maps frame `f`.
  ghost predicate ReplacesNothing(pte: map<Key, Pte>, x: Key, f: nat) {
    x in pte ==> pte[x].frame == f
  }

  lemma NoneFree(s: State)
    requires Inv(s) && forall g :: 0 <= g < |s.kind| ==> !s.kind[g].Free?
    ensures s.list == []
  {}

  // With no free frame, a mapping call that replaces nothing leaves none free.
  lemma StillFull(s: State, s': State, e: nat, v: nat, f: nat, perm: Perm)
    requires Inv(s) && Inv(s') && s.list == [] && Installed(s, s', e, v, f, perm)
    requires ViewOf(s').pte == ViewOf(s).pte[(e, v) := Pte(f, perm)]
    requires ReplacesNothing(ViewOf(s).pte, (e, v), f)
    ensures s'.list == []
  {
    forall g | 0 <= g < |s'.kind| ensures !s'.kind[g].Free? {
      if s.kind[g].Data? {
        StillUsed(s, s', e, v, f, perm, g);
      }
    }
    NoneFree(s');
  }

  lemma UpdateKeepsMapped(pte: map<Key, Pte>, x: Key, f: nat, perm: Perm, g: nat)
    requires ReplacesNothing(pte, x, f) && MapsFrame(pte, g)
    ensures MapsFrame(pte[x := Pte(f, perm)], g)
  {
    var k :| k in pte && pte[k].frame == g;
    assert pte[x := Pte(f, perm)][k].frame == g;
  }

  lemma StillUsed(s: State, s': State, e: nat, v: nat, f: nat, perm: Perm, g: nat)
    requires Inv(s) && Inv(s') && |s'.kind| == |s.kind| && g < |s.kind| && s.kind[g].Data?
    requires ViewOf(s').pte == ViewOf(s).pte[(e, v) := Pte(f, perm)]
    requires ReplacesNothing(ViewOf(s).pte, (e, v), f)
    ensures s'.kind[g].Data?
  {
    assert MapsFrame(ViewOf(s).pte, g) by {
      ViewMapsData(s, g);
    }
    UpdateKeepsMapped(ViewOf(s).pte, (e, v), f, perm, g);
    ViewMapsData(s', g);
  }

  // sys_page_map(se, page sv, de, page dv, perm) of a page the source maps, not
  // asking for write permission it lacks.
  method MapPage(k: Kernel, se: nat, sv: nat, de: nat, dv: nat, perm: Perm) returns (r: int)
    requires k.Valid() && se in k.pgdirs && de in k.pgdirs && sv < NUSERPAGES && dv < NUSERPAGES
    requires SyscallPerm(perm) && (se, sv) in ViewOf(k.Snap()).pte && (perm.w ==> ViewOf(k.Snap()).pte[(se, sv)].perm.w)
    requires |Users(ViewOf(k.Snap()).pte, ViewOf(k.Snap()).pte[(se, sv)].frame)| < MAX_REF
    modifies k
    ensures k.Valid() && k.pgdirs == old(k.pgdirs) && WellMapped(ViewOf(k.Snap()))
    ensures r == if old(k.list) == [] && !old(HasTable(k.Snap(), de, dv)) then -E_NO_MEM else 0
    ensures r == 0 ==>
              && ViewOf(k.Snap()).pte == old(ViewOf(k.Snap())).pte[(de, dv) := Pte(old(ViewOf(k.Snap())).pte[(se, sv)].frame, perm)]
              && SameBytes(old(ViewOf(k.Snap())), ViewOf(k.Snap()))
    ensures r == 0 ==> MapCall(old(k.Snap()), k.Snap(), (se, sv), (de, dv), perm)
    ensures r != 0 ==> k.Snap() == old(k.Snap())
    ensures old(k.list) == [] && ReplacesNothing(old(ViewOf(k.Snap()).pte), (de, dv), old(ViewOf(k.Snap()).pte)[(se, sv)].frame) ==>
              k.list == []
  {
    ghost var s := k.Snap();
    ViewEntry(s, se, sv);
    WalkSlot(s, s.pgdirs[se], sv);
    RefIsUsers(s, Entry(s, se, sv).frame);
    PageAddress(sv);
    PageAddress(dv);
    r := k.SysPageMap(se, sv * PGSIZE, de, dv * PGSIZE, perm);
    if r == 0 {
      InstalledView(s, k.Snap(), de, dv, Entry(s, se, sv).frame, perm);
      if s.list == [] && ReplacesNothing(ViewOf(s).pte, (de, dv), Entry(s, se, sv).frame) {
        StillFull(s, k.Snap(), de, dv, Entry(s, se, sv).frame, perm);
      }
    } else {
      ViewMapsData(s, Entry(s, se, sv).frame);
    }
  }

  // sys_page_unmap(e, page v)
  method UnmapPage(k: Kernel, e: nat, v: nat) returns (r: int)
    requires k.Valid() && e in k.pgdirs && v < NUSERPAGES
    modifies k
    ensures k.Valid() && k.pgdirs == old(k.pgdirs) && r == 0 && UnmapCall(old(k.Snap()), k.Snap(), (e, v))
    ensures Step(old(ViewOf(k.Snap())), ViewOf(k.Snap()), Unmap((e, v)))
  {
    ghost var s := k.Snap();
    PageAddress(v);
    r := k.SysPageUnmap(e, v * PGSIZE);
    RemovedView(s, k.Snap(), e, v);
  }

  // The view gained page `x`, backed by a frame no one mapped.
  ghost predicate AddedFresh(w: View, w': View, x: Key, f: nat) {
    !MapsFrame(w.pte, f) && f < |w'.content| && w'.pte == w.pte[x := Pte(f, USER_RW)] && SameBytes(w, w')
  }

  // ---- pgfault -----------------------------------------------------------------------------

  // The five views of a handled write fault: a fresh page at PFTEMP, the bytes
  // copied, the page moved under the faulting address, PFTEMP cleared.
  lemma FaultSteps(w0: View, w1: View, w2: View, w3: View, w4: View, x: Key, tmp: Key, f: nat)
    requires WellMapped(w0) && WellMapped(w2) && x in w0.pte && w0.pte[x].perm.cow && !w0.pte[x].perm.w
    requires tmp !in w0.pte && tmp != x
    requires AddedFresh(w0, w1, tmp, f)
    requires WellMapped(w1) && x in w1.pte && w2 == w1.(content := w1.content[f := Load(w1, x)])
    requires w3.pte == w2.pte[x := Pte(f, USER_RW)] && SameBytes(w2, w3)
    requires w4.pte == w3.pte - {tmp} && SameBytes(w3, w4) && WellMapped(w4)
    ensures Step(w0, w4, Fault(x))
  {
    assert w4.pte == w0.pte[x := Pte(f, USER_RW)];
    assert MapsFrame(w0.pte, w0.pte[x].frame) && w1.pte[x] == w0.pte[x] && MapsFrame(w1.pte, w0.pte[x].frame);
    assert w2.pte[tmp].frame == f && w3.pte[tmp].frame == f && w4.pte[x].frame == f;
    assert MapsFrame(w2.pte, f) && MapsFrame(w3.pte, f) && MapsFrame(w4.pte, f);
    assert Fresh(w0, w4, f, Load(w0, x));
    forall g | 0 <= g < |w0.content| && MapsFrame(w0.pte, g) && MapsFrame(w4.pte, g) ensures w4.content[g] == w0.content[g] {
      var j :| j in w0.pte && w0.pte[j].frame == g;
      assert w1.pte[j] == w0.pte[j];
      var i :| i in w4.pte && w4.pte[i].frame == g;
      assert w3.pte[i] == w4.pte[i];
      assert MapsFrame(w1.pte, g) && MapsFrame(w2.pte, g) && MapsFrame(w3.pte, g);
    }
  }

  ghost predicate IsCow(w: View, x: Key) {
    x in w.pte && w.pte[x].perm.cow
  }

  // Page `x` may now be written, in a frame no other page maps, and holds what it held;
  // every other page is mapped as before and holds what it held.
  ghost predicate OwnCopy(w: View, w': View, x: Key) {
    && WellMapped(w) && WellMapped(w') && x in w.pte && x in w'.pte
    && w'.pte[x].perm == NO_PERM.(p := true, w := true, u := true) && Load(w', x) == Load(w, x)
    && (forall y :: y != x ==> (y in w'.pte <==> y in w.pte))
    && (forall y :: y in w'.pte && y != x ==>
          w'.pte[y] == w.pte[y] && w'.pte[y].frame != w'.pte[x].frame && Load(w', y) == Load(w, y))
  }

  lemma FaultCopies(w: View, w': View, x: Key)
    requires Step(w, w', Fault(x))
    ensures OwnCopy(w, w', x)
  {
    var g :| Fresh(w, w', g, Load(w, x)) && w'.pte == w.pte[x := Pte(g, USER_RW)] && SameBytes(w, w');
    forall y | y in w'.pte && y != x
      ensures w'.pte[y] == w.pte[y] && w'.pte[y].frame != g && Load(w', y) == Load(w, y)
    {
      assert MapsFrame(w.pte, w.pte[y].frame) && MapsFrame(w'.pte, w.pte[y].frame);
    }
  }

  // The handler installed by fork.  A panic is reported as failure; the call is
  // made for a fault, so a page it was a write to is not writable.
  method PgFault(k: Kernel, e: nat, faultVa: nat, write: bool) returns (ok: bool)
    requires k.Valid() && e in k.pgdirs && faultVa < UTOP && (e, PFTEMP_PAGE) !in ViewOf(k.Snap()).pte
    requires write && (e, faultVa / PGSIZE) in ViewOf(k.Snap()).pte ==> !ViewOf(k.Snap()).pte[(e, faultVa / PGSIZE)].perm.w
    modifies k
    ensures k.Valid() && k.pgdirs == old(k.pgdirs)
    ensures ok <==>
            && write && IsCow(old(ViewOf(k.Snap())), (e, faultVa / PGSIZE))
            && |old(k.list)| >= if old(HasTable(k.Snap(), e, PFTEMP_PAGE)) then 1 else 2
    ensures KernelStep(old(k.Snap()), k.Snap(), if ok then Fault((e, faultVa / PGSIZE)) else Idle)
    ensures Step(old(ViewOf(k.Snap())), ViewOf(k.Snap()), if ok then Fault((e, faultVa / PGSIZE)) else Idle)
    ensures ok ==> OwnCopy(old(ViewOf(k.Snap())), ViewOf(k.Snap()), (e, faultVa / PGSIZE))
  {
    var cow := CheckFault(k, e, faultVa / PGSIZE, write);
    ViewSameBytes(k.Snap(), k.Snap());
    if !cow {
      return false;
    }
    ok := CopyOnWrite(k, e, faultVa / PGSIZE);
    KernelStepIsStep(old(k.Snap()), k.Snap(), if ok then Fault((e, faultVa / PGSIZE)) else Idle);
    if ok {
      FaultCopies(old(ViewOf(k.Snap())), ViewOf(k.Snap()), (e, faultVa / PGSIZE));
    }
  }

  // pgfault's test, made through the read-only view of the page tables.
  method CheckFault(k: Kernel, e: nat, v: nat, write: bool) returns (cow: bool)
    requires k.Valid() && e in k.pgdirs && v < NUSERPAGES
    ensures cow <==> write && IsCow(ViewOf(k.Snap()), (e, v))
  {
    var pte := ReadPte(k, e, v);
    cow := write && pte.perm.p && pte.perm.cow;
  }

  method CopyOnWrite(k: Kernel, e: nat, v: nat) returns (ok: bool)
    requires k.Valid() && e in k.pgdirs && v < NUSERPAGES && (e, PFTEMP_PAGE) !in ViewOf(k.Snap()).pte
    requires IsCow(ViewOf(k.Snap()), (e, v)) && !ViewOf(k.Snap()).pte[(e, v)].perm.w
    modifies k
    ensures k.Valid() && k.pgdirs == old(k.pgdirs)
    ensures ok <==> |old(k.list)| >= if old(HasTable(k.Snap(), e, PFTEMP_PAGE)) then 1 else 2
    ensures KernelStep(old(k.Snap()), k.Snap(), if ok then Fault((e, v)) else Idle)
  {
    ghost var s := k.Snap();
    var r: int;
    ghost var f: nat;
    r, f := AllocPage(k, e, PFTEMP_PAGE);
    ok := r == 0;
    if ok {
      MovePage(k, e, v, f, s);
    }
  }

  // Page `v` is a copy-on-write page of `e`, and PFTEMP is free.
  ghost predicate ReadyToCopy(s: State, e: nat, v: nat) {
    && Inv(s) && e in s.pgdirs && v < NUSERPAGES && (e, v) in ViewOf(s).pte
    && ViewOf(s).pte[(e, v)].perm.cow && !ViewOf(s).pte[(e, v)].perm.w && (e, PFTEMP_PAGE) !in ViewOf(s).pte
  }

  // pgfault once the fresh page `f` is mapped at PFTEMP; neither call can fail.
  method MovePage(k: Kernel, e: nat, v: nat, ghost f: nat, ghost s0: State)
    requires k.Valid() && e in k.pgdirs && v < NUSERPAGES
    requires ReadyToCopy(s0, e, v) && AllocCall(s0, k.Snap(), (e, PFTEMP_PAGE), USER_RW, f)
    modifies k
    ensures k.Valid() && k.pgdirs == old(k.pgdirs)
    ensures KernelStep(s0, k.Snap(), Fault((e, v)))
  {
    ghost var s1 := k.Snap();
    PageElsewhere(s0, s1, e, v, f);
    CopyPage(k, e, PFTEMP_PAGE, v, f);
    ghost var s2 := k.Snap();
    ReadyToMove(s0, s1, s2, e, v, f);
    ghost var s3 := MoveUnder(k, e, v, f);
    CallsMade(s0, s1, s2, s3, k.Snap(), e, v, f);
  }

  // The fresh page is not the one to be copied, which is still where it was.
  lemma PageElsewhere(s: State, s1: State, e: nat, v: nat, f: nat)
    requires ReadyToCopy(s, e, v) && AllocCall(s, s1, (e, PFTEMP_PAGE), USER_RW, f)
    ensures var w, w1 := ViewOf(s), ViewOf(s1);
            && w1.pte == w.pte[(e, PFTEMP_PAGE) := Pte(f, USER_RW)]
            && w1.pte[(e, v)] == w.pte[(e, v)] && w1.pte[(e, v)].frame != f && Users(w1.pte, f) == {(e, PFTEMP_PAGE)}
  {
    ViewMapsData(s, f);
    InstalledView(s, s1, e, PFTEMP_PAGE, f, USER_RW);
    FreshElsewhere(ViewOf(s).pte, ViewOf(s1).pte, (e, PFTEMP_PAGE), (e, v), f);
  }

  lemma FreshElsewhere(pte: map<Key, Pte>, pte1: map<Key, Pte>, tmp: Key, x: Key, f: nat)
    requires !MapsFrame(pte, f) && pte1 == pte[tmp := Pte(f, USER_RW)] && x in pte && x != tmp
    ensures x in pte1 && pte1[x] == pte[x] && pte1[x].frame != f && Users(pte1, f) == {tmp}
  {
    assert pte1[x] == pte[x];
    forall k | k in pte1 ensures k in Users(pte1, f) <==> k == tmp {}
  }

  // The fresh page `f` moves from PFTEMP to page `v`.
  method MoveUnder(k: Kernel, e: nat, v: nat, ghost f: nat) returns (ghost s3: State)
    requires k.Valid() && e in k.pgdirs && v < NUSERPAGES && HasTable(k.Snap(), e, v)
    requires (e, PFTEMP_PAGE) in ViewOf(k.Snap()).pte && ViewOf(k.Snap()).pte[(e, PFTEMP_PAGE)] == Pte(f, USER_RW)
    requires Users(ViewOf(k.Snap()).pte, f) == {(e, PFTEMP_PAGE)}
    modifies k
    ensures k.Valid() && k.pgdirs == old(k.pgdirs)
    ensures MapCall(old(k.Snap()), s3, (e, PFTEMP_PAGE), (e, v), USER_RW) && UnmapCall(s3, k.Snap(), (e, PFTEMP_PAGE))
  {
    var r := MapPage(k, e, PFTEMP_PAGE, e, v, USER_RW);
    s3 := k.Snap();
    r := UnmapPage(k, e, PFTEMP_PAGE);
  }

  lemma ReadyToMove(s0: State, s1: State, s2: State, e: nat, v: nat, f: nat)
    requires ReadyToCopy(s0, e, v) && AllocCall(s0, s1, (e, PFTEMP_PAGE), USER_RW, f) && PageCopied(s1, s2, (e, v), f) && Inv(s2)
    ensures (e, PFTEMP_PAGE) in ViewOf(s2).pte && ViewOf(s2).pte[(e, PFTEMP_PAGE)] == Pte(f, USER_RW)
    ensures Users(ViewOf(s2).pte, f) == {(e, PFTEMP_PAGE)} && HasTable(s2, e, v)
  {
    PageElsewhere(s0, s1, e, v, f);
    CopiedView(s1, s2, (e, v), f);
    MappedHasTable(s2, e, v);
  }

  lemma CallsMade(s0: State, s1: State, s2: State, s3: State, s4: State, e: nat, v: nat, f: nat)
    requires ReadyToCopy(s0, e, v) && AllocCall(s0, s1, (e, PFTEMP_PAGE), USER_RW, f) && PageCopied(s1, s2, (e, v), f)
    requires MapCall(s2, s3, (e, PFTEMP_PAGE), (e, v), USER_RW) && UnmapCall(s3, s4, (e, PFTEMP_PAGE)) && Inv(s4)
    ensures KernelStep(s0, s4, Fault((e, v)))
  {
    assert FaultCalls(s0, s1, s2, s3, s4, (e, v), f);
  }

  // ---- runs of the kernel -------------------------------------------------------------------

  // A load or store by environment `e`; the caller has the page mapped, writable for a
  // store.
  method LoadByte(k: Kernel, e: nat, v: nat, off: nat) returns (b: bv8)
    requires k.Valid() && (e, v) in ViewOf(k.Snap()).pte && off < PGSIZE
    ensures KernelStep(k.Snap(), k.Snap(), Read((e, v), off, b))
  {
    var f := FrameAt(k, e, v);
    b := k.data[f][off];
  }

  method StoreByte(k: Kernel, e: nat, v: nat, off: nat, b: bv8)
    requires k.Valid() && (e, v) in ViewOf(k.Snap()).pte && ViewOf(k.Snap()).pte[(e, v)].perm.w && off < PGSIZE
    modifies k`data
    ensures k.Valid() && KernelStep(old(k.Snap()), k.Snap(), Write((e, v), off, b))
  {
    ghost var s := k.Snap();
    var f := FrameAt(k, e, v);
    k.data := k.data[f := k.data[f][off := b]];
    assert k.Snap() == SetData(s, f, s.data[f][off := b]);
    StoreStep(s, e, v, off, b, f);
  }

  lemma StoreStep(s: State, e: nat, v: nat, off: nat, b: bv8, f: nat)
    requires Inv(s) && (e, v) in ViewOf(s).pte && ViewOf(s).pte[(e, v)].perm.w && off < PGSIZE
    requires f == ViewOf(s).pte[(e, v)].frame && f < |s.data|
    ensures Inv(SetData(s, f, s.data[f][off := b]))
    ensures Step(ViewOf(s), ViewOf(SetData(s, f, s.data[f][off := b])), Write((e, v), off, b))
  {
    ViewMapsData(s, f);
    SetDataKeepsInv(s, f, s.data[f][off := b]);
    SetDataView(s, f, s.data[f][off := b]);
    WriteStep(ViewOf(s), ViewOf(SetData(s, f, s.data[f][off := b])), (e, v), off, b, f);
  }

  lemma WriteStep(w: View, w': View, x: Key, off: nat, b: bv8, f: nat)
    requires WellMapped(w) && x in w.pte && w.pte[x].perm.w && off < PGSIZE && f == w.pte[x].frame
    requires w' == w.(content := w.content[f := w.content[f][off := b]])
    ensures Step(w, w', Write(x, off, b))
  {}

  // env_free
  method FreeSpace(k: Kernel, e: nat)
    requires k.Valid() && e in k.pgdirs
    modifies k
    ensures k.Valid() && KernelStep(old(k.Snap()), k.Snap(), Exit(e))
  {
    k.EnvFree(e);
  }

  lemma ExitStep(s: State, s': State, e: nat)
    requires Inv(s) && Inv(s') && e in s.pgdirs && SpaceFreed(s, s', e)
    ensures Step(ViewOf(s), ViewOf(s'), Exit(e))
  {
    ViewSameBytes(s, s');
    forall x: Key ensures x in ViewOf(s').pte <==> x in ViewOf(s).pte && x.0 != e
                  ensures x in ViewOf(s').pte ==> ViewOf(s').pte[x] == ViewOf(s).pte[x]
    {
      ExitEntry(s, s', e, x);
    }
    ExitViews(ViewOf(s), ViewOf(s'), e);
  }

  lemma ExitEntry(s: State, s': State, e: nat, x: Key)
    requires Inv(s) && Inv(s') && e in s.pgdirs && SpaceFreed(s, s', e)
    ensures x in ViewOf(s').pte <==> x in ViewOf(s).pte && x.0 != e
    ensures x in ViewOf(s').pte ==> ViewOf(s').pte[x] == ViewOf(s).pte[x]
  {
    if x.0 in s.pgdirs && x.0 != e && x.1 < NUSERPAGES {
      ReleasingKeepsOthers(s, s', e, x.0, x.1);
    }
  }

  lemma ExitViews(w: View, w': View, e: nat)
    requires WellMapped(w) && WellMapped(w') && SameBytes(w, w')
    requires forall x: Key :: x in w'.pte <==> x in w.pte && x.0 != e
    requires forall x: Key :: x in w'.pte ==> w'.pte[x] == w.pte[x]
    ensures Step(w, w', Exit(e))
  {}

  // The child has no room for page `v`: no page table for it, and no free frame
  // to make one from.
  ghost predicate NoRoom(s: State, c: nat, v: nat)
    requires Shape(s)
  {
    s.list == [] && !HasTable(s, c, v)
  }

  // sys_page_map of the page at `x` to `y`, as its contract has it.
  ghost predicate MapCall(s: State, s': State, x: Key, y: Key, perm: Perm) {
    && Inv(s) && Inv(s') && x in ViewOf(s).pte && y.0 in s.pgdirs && y.1 < NUSERPAGES
    && perm.p && (perm.w ==> ViewOf(s).pte[x].perm.w) && !NoRoom(s, y.0, y.1)
    && Installed(s, s', y.0, y.1, ViewOf(s).pte[x].frame, perm)
  }

  // sys_page_alloc at `x`, of frame `f`
  ghost predicate AllocCall(s: State, s': State, x: Key, perm: Perm, f: nat) {
    && Inv(s) && Inv(s') && x.0 in s.pgdirs && x.1 < NUSERPAGES && perm.p
    && f < |s.kind| && s.kind[f].Free? && Installed(s, s', x.0, x.1, f, perm) && s'.data[f] == ZeroPage()
  }

  // sys_page_unmap of `x`
  ghost predicate UnmapCall(s: State, s': State, x: Key) {
    Inv(s) && Inv(s') && x.0 in s.pgdirs && x.1 < NUSERPAGES && Removed(s, s', s.pgdirs[x.0], x.1)
  }

  // pgfault's four calls, for a write to the copy-on-write page `x`.
  ghost predicate FaultCalls(s: State, s1: State, s2: State, s3: State, s': State, x: Key, f: nat) {
    var tmp := (x.0, PFTEMP_PAGE);
    && Inv(s) && Inv(s1) && Inv(s2)
    && x in ViewOf(s).pte && ViewOf(s).pte[x].perm.cow && !ViewOf(s).pte[x].perm.w && tmp !in ViewOf(s).pte
    && AllocCall(s, s1, tmp, USER_RW, f)
    && PageCopied(s1, s2, x, f)
    && MapCall(s2, s3, tmp, x, USER_RW) && UnmapCall(s3, s', tmp)
  }

  // memcpy of the page at `x` to frame `f`
  ghost predicate PageCopied(s: State, s': State, x: Key, f: nat)
    requires Shape(s)
  {
    && x in ViewOf(s).pte && f < |s.data| && ViewOf(s).pte[x].frame < |s.data|
    && s' == SetData(s, f, s.data[ViewOf(s).pte[x].frame])
  }

  // duppage's one or two calls.
  ghost predicate DupCalls(s: State, s1: State, s': State, p: nat, c: nat, v: nat) {
    && Inv(s) && p != c && (p, v) in ViewOf(s).pte
    && var perm := ViewOf(s).pte[(p, v)].perm;
       if perm.share || ReadOnly(perm) then MapCall(s, s', (p, v), (c, v), ChildPerm(perm))
       else MapCall(s, s1, (p, v), (c, v), USER_COW) && MapCall(s1, s', (p, v), (p, v), USER_COW)
  }

  // What the kernel and user code do to the kernel's state, as their methods promise
  // it.  A write fault and a duppage are several calls each, taken together.
  ghost predicate KernelStep(s: State, s': State, ev: Event) {
    Inv(s) && Inv(s') &&
    match ev
    case Read(x, off, b) => s' == s && x in ViewOf(s).pte && off < PGSIZE && Held(s, x, off, b)
    case Write(x, off, b) =>
      && x in ViewOf(s).pte && ViewOf(s).pte[x].perm.w && off < PGSIZE
      && var f := ViewOf(s).pte[x].frame; f < |s.data| && s' == SetData(s, f, s.data[f][off := b])
    case Fault(x) => exists s1, s2, s3, f :: FaultCalls(s, s1, s2, s3, s', x, f)
    case Dup(p, c, v) => exists s1 :: DupCalls(s, s1, s', p, c, v)
    case DupLost(p, c, v) =>
      && s' == s && p != c && c in s.pgdirs
      && (p, v) in ViewOf(s).pte && ReadOnly(ViewOf(s).pte[(p, v)].perm) && NoRoom(s, c, v)
    case New(x, perm, f) => !(perm.share && perm.cow) && AllocCall(s, s', x, perm, f)
    case Map(x, y, perm, f) =>
      MapCall(s, s', x, y, perm) && f == ViewOf(s).pte[x].frame && MapFits(ViewOf(s).pte, y, f, perm)
    case Unmap(x) => UnmapCall(s, s', x)
    case Exit(e) => e in s.pgdirs && SpaceFreed(s, s', e)
    case Idle => s' == s || OnlyScrubbed(s, s') || exists c :: SpaceAdded(s, s', c)
  }

  // Byte `off` of the page mapped at `x` is `b`.
  ghost predicate Held(s: State, x: Key, off: nat, b: bv8)
    requires Shape(s) && x in ViewOf(s).pte && off < PGSIZE
  {
    ViewOf(s).pte[x].frame < |s.data| && s.data[ViewOf(s).pte[x].frame][off] == b
  }

  lemma KernelStepIsStep(s: State, s': State, ev: Event)
    requires KernelStep(s, s', ev)
    ensures Step(ViewOf(s), ViewOf(s'), ev)
  {
    match ev
    case Read(x, off, b) => LoadIsRead(s, s', x, off, b);
    case Write(x, off, b) => StoreIsWrite(s, s', x, off, b);
    case Fault(x) => CallsAreFault(s, s', x);
    case Dup(p, c, v) => CallsAreDup(s, s', p, c, v);
    case DupLost(p, c, v) => LostStep(s, s', p, c, v);
    case New(x, perm, f) => NewStep(s, s', x, perm, f);
    case Map(x, y, perm, f) => MapStep(s, s', x, y, perm, f);
    case Unmap(x) => UnmapStep(s, s', x);
    case Exit(e) => ExitStep(s, s', e);
    case Idle => IdleStep(s, s');
  }

  // A mapping call, in the view.
  lemma MapCallView(s: State, s': State, x: Key, y: Key, perm: Perm, f: nat)
    requires MapCall(s, s', x, y, perm) && f == ViewOf(s).pte[x].frame
    ensures ViewOf(s').pte == ViewOf(s).pte[y := Pte(f, perm)] && SameBytes(ViewOf(s), ViewOf(s'))
    ensures WellMapped(ViewOf(s)) && WellMapped(ViewOf(s'))
  {
    InstalledView(s, s', y.0, y.1, f, perm);
  }

  lemma MapStep(s: State, s': State, x: Key, y: Key, perm: Perm, f: nat)
    requires KernelStep(s, s', Map(x, y, perm, f))
    ensures Step(ViewOf(s), ViewOf(s'), Map(x, y, perm, f))
  {
    MapCallView(s, s', x, y, perm, f);
  }

  lemma LostStep(s: State, s': State, p: nat, c: nat, v: nat)
    requires KernelStep(s, s', DupLost(p, c, v))
    ensures Step(ViewOf(s), ViewOf(s'), DupLost(p, c, v))
  {
    ViewSameBytes(s, s);
    if (c, v) in ViewOf(s).pte {
      MappedHasTable(s, c, v);
    }
  }

  lemma CallsAreFault(s: State, s': State, x: Key)
    requires KernelStep(s, s', Fault(x))
    ensures Step(ViewOf(s), ViewOf(s'), Fault(x))
  {
    var s1, s2, s3, f :| FaultCalls(s, s1, s2, s3, s', x, f);
    var tmp := (x.0, PFTEMP_PAGE);
    ViewMapsData(s, f);
    InstalledView(s, s1, x.0, PFTEMP_PAGE, f, USER_RW);
    CopiedView(s1, s2, x, f);
    MapCallView(s2, s3, tmp, x, USER_RW, f);
    RemovedView(s3, s', x.0, PFTEMP_PAGE);
    FaultSteps(ViewOf(s), ViewOf(s1), ViewOf(s2), ViewOf(s3), ViewOf(s'), x, tmp, f);
  }

  lemma CopiedView(s: State, s': State, x: Key, f: nat)
    requires Inv(s) && Inv(s') && PageCopied(s, s', x, f)
    ensures WellMapped(ViewOf(s)) && WellMapped(ViewOf(s'))
    ensures ViewOf(s') == ViewOf(s).(content := ViewOf(s).content[f := Load(ViewOf(s), x)])
  {
    ViewMapsData(s, f);
    SetDataView(s, f, s.data[ViewOf(s).pte[x].frame]);
    ViewMapsData(s', f);
  }

  lemma CallsAreDup(s: State, s': State, p: nat, c: nat, v: nat)
    requires KernelStep(s, s', Dup(p, c, v))
    ensures Step(ViewOf(s), ViewOf(s'), Dup(p, c, v))
  {
    var s1 :| DupCalls(s, s1, s', p, c, v);
    var pte := ViewOf(s).pte[(p, v)];
    if pte.perm.share || ReadOnly(pte.perm) {
      MapCallView(s, s', (p, v), (c, v), ChildPerm(pte.perm), pte.frame);
      OneMapIsDup(ViewOf(s), ViewOf(s'), p, c, v);
    } else {
      TwoCallsAreDup(s, s1, s', p, c, v, pte);
    }
  }

  lemma TwoCallsAreDup(s: State, s1: State, s': State, p: nat, c: nat, v: nat, pte: Pte)
    requires Inv(s) && p != c && (p, v) in ViewOf(s).pte && pte == ViewOf(s).pte[(p, v)]
    requires !pte.perm.share && (pte.perm.w || pte.perm.cow)
    requires MapCall(s, s1, (p, v), (c, v), USER_COW) && MapCall(s1, s', (p, v), (p, v), USER_COW)
    ensures Step(ViewOf(s), ViewOf(s'), Dup(p, c, v))
  {
    MapCallView(s, s1, (p, v), (c, v), USER_COW, pte.frame);
    assert ViewOf(s1).pte[(p, v)] == pte;
    MapCallView(s1, s', (p, v), (p, v), USER_COW, pte.frame);
    CowPairIsDup(ViewOf(s), ViewOf(s1), ViewOf(s'), p, c, v);
  }

  lemma LoadIsRead(s: State, s': State, x: Key, off: nat, b: bv8)
    requires KernelStep(s, s', Read(x, off, b))
    ensures Step(ViewOf(s), ViewOf(s'), Read(x, off, b))
  {
    ViewSameBytes(s, s);
  }

  lemma StoreIsWrite(s: State, s': State, x: Key, off: nat, b: bv8)
    requires KernelStep(s, s', Write(x, off, b))
    ensures Step(ViewOf(s), ViewOf(s'), Write(x, off, b))
  {
    StoreStep(s, x.0, x.1, off, b, ViewOf(s).pte[x].frame);
  }

  lemma NewStep(s: State, s': State, x: Key, perm: Perm, f: nat)
    requires KernelStep(s, s', New(x, perm, f))
    ensures Step(ViewOf(s), ViewOf(s'), New(x, perm, f))
  {
    ViewMapsData(s, f);
    InstalledView(s, s', x.0, x.1, f, perm);
  }

  lemma UnmapStep(s: State, s': State, x: Key)
    requires KernelStep(s, s', Unmap(x))
    ensures Step(ViewOf(s), ViewOf(s'), Unmap(x))
  {
    RemovedView(s, s', x.0, x.1);
  }

  lemma IdleStep(s: State, s': State)
    requires KernelStep(s, s', Idle)
    ensures Step(ViewOf(s), ViewOf(s'), Idle)
  {
    if s' == s {
      ViewSameBytes(s, s);
    } else if OnlyScrubbed(s, s') {
      ScrubbedView(s, s');
    } else {
      var c :| SpaceAdded(s, s', c);
      ViewSameBytes(s, s');
      AddedView(s, s', c);
    }
  }

  ghost predicate KernelRun(ss: seq<State>, evs: seq<Event>)
    decreases |evs|
  {
    |ss| == |evs| + 1 && Inv(ss[0]) && (evs != [] ==> KernelStep(ss[0], ss[1], evs[0]) && KernelRun(ss[1..], evs[1..]))
  }

  // Over any run of the kernel by any environments, everything read from memory is
  // what eager copying gives.
  lemma {:induction false} KernelRunRefines(ss: seq<State>, evs: seq<Event>, sp: Spec)
    requires KernelRun(ss, evs) && CowInv(ViewOf(ss[0])) && Agrees(ViewOf(ss[0]), sp)
    ensures SpecAccepts(sp, evs)
    ensures Inv(ss[|evs|]) && CowInv(ViewOf(ss[|evs|])) && Agrees(ViewOf(ss[|evs|]), SpecAfter(sp, evs))
    decreases |evs|
  {
    if evs == [] {
      AgreesOk(ViewOf(ss[0]), sp);
    } else {
      KernelStepIsStep(ss[0], ss[1], evs[0]);
      StepRefines(ViewOf(ss[0]), ViewOf(ss[1]), evs[0], sp);
      KernelRunRefines(ss[1..], evs[1..], SpecStep(sp, evs[0]));
    }
  }

  // ---- duppage -----------------------------------------------------------------------------

  lemma UsersGrow(pte: map<Key, Pte>, x: Key, f: nat, perm: Perm)
    ensures |Users(pte[x := Pte(f, perm)], f)| <= |Users(pte, f)| + 1
  {
    assert Users(pte[x := Pte(f, perm)], f) == Users(pte, f) + {x};
  }

  // Mapping a page copy-on-write twice, child first, is one Dup.
  lemma CowPairIsDup(w0: View, w1: View, w2: View, p: nat, c: nat, v: nat)
    requires WellMapped(w0) && WellMapped(w2) && p != c && (p, v) in w0.pte
    requires !w0.pte[(p, v)].perm.share && (w0.pte[(p, v)].perm.w || w0.pte[(p, v)].perm.cow)
    requires w1.pte == w0.pte[(c, v) := Pte(w0.pte[(p, v)].frame, USER_COW)] && SameBytes(w0, w1)
    requires w2.pte == w1.pte[(p, v) := Pte(w0.pte[(p, v)].frame, USER_COW)] && SameBytes(w1, w2)
    ensures Step(w0, w2, Dup(p, c, v))
  {
    forall g | 0 <= g < |w0.content| && MapsFrame(w0.pte, g) && MapsFrame(w2.pte, g) ensures w2.content[g] == w0.content[g] {
      var i :| i in w2.pte && w2.pte[i].frame == g;
      assert w1.pte[(p, v)] == w0.pte[(p, v)];
      assert i in w1.pte && w1.pte[i].frame == g;
      assert MapsFrame(w1.pte, g);
    }
  }

  // Mapping it once, with the parent's entry left alone, is one Dup too.
  lemma OneMapIsDup(w0: View, w1: View, p: nat, c: nat, v: nat)
    requires WellMapped(w0) && WellMapped(w1) && p != c && (p, v) in w0.pte
    requires w0.pte[(p, v)].perm.share || ReadOnly(w0.pte[(p, v)].perm)
    requires w1.pte == w0.pte[(c, v) := Pte(w0.pte[(p, v)].frame, ChildPerm(w0.pte[(p, v)].perm))] && SameBytes(w0, w1)
    ensures Step(w0, w1, Dup(p, c, v))
  {
    assert w1.pte == w1.pte[(p, v) := w0.pte[(p, v)]];
  }

  ghost predicate DupReady(k: Kernel, p: nat, c: nat, v: nat, pte: Pte)
    reads k
  {
    && k.Valid() && p in k.pgdirs && c in k.pgdirs && p != c && v < NUSERPAGES
    && (p, v) in ViewOf(k.Snap()).pte && ViewOf(k.Snap()).pte[(p, v)] == pte && pte.perm.p && pte.perm.u
    && |Users(ViewOf(k.Snap()).pte, pte.frame)| + 1 < MAX_REF
  }

  // duppage.  A panic is reported as failure.  The result of mapping a read-only
  // page is not looked at, so such a page can go missing without notice.
  method DupPage(k: Kernel, p: nat, c: nat, v: nat, pte: Pte) returns (ok: bool)
    requires DupReady(k, p, c, v, pte)
    modifies k
    ensures k.Valid() && k.pgdirs == old(k.pgdirs)
    ensures ok <==> !old(NoRoom(k.Snap(), c, v)) || ReadOnly(pte.perm)
    ensures if old(NoRoom(k.Snap(), c, v)) then k.Snap() == old(k.Snap()) else KernelStep(old(k.Snap()), k.Snap(), Dup(p, c, v))
    ensures ok && old(NoRoom(k.Snap(), c, v)) ==> KernelStep(old(k.Snap()), k.Snap(), DupLost(p, c, v))
    ensures old(k.list) == [] && (c, v) !in old(ViewOf(k.Snap())).pte ==> k.list == []
  {
    var r: int;
    if pte.perm.share {
      r := MapOnce(k, p, c, v, pte, pte.perm.(other := false));
      ok := r == 0;
    } else if pte.perm.w || pte.perm.cow {
      r := MapCow(k, p, c, v, pte);
      ok := r == 0;
    } else {
      r := MapOnce(k, p, c, v, pte, USER_RO);
      ok := true;
    }
  }

  method MapOnce(k: Kernel, p: nat, c: nat, v: nat, pte: Pte, perm: Perm) returns (r: int)
    requires DupReady(k, p, c, v, pte) && (pte.perm.share || ReadOnly(pte.perm)) && perm == ChildPerm(pte.perm)
    modifies k
    ensures k.Valid() && k.pgdirs == old(k.pgdirs)
    ensures r == 0 <==> !old(NoRoom(k.Snap(), c, v))
    ensures r == 0 ==> KernelStep(old(k.Snap()), k.Snap(), Dup(p, c, v))
    ensures r != 0 ==> k.Snap() == old(k.Snap())
    ensures old(k.list) == [] && (c, v) !in old(ViewOf(k.Snap())).pte ==> k.list == []
  {
    ghost var s := k.Snap();
    r := MapPage(k, p, v, c, v, perm);
    if r == 0 {
      assert DupCalls(s, s, k.Snap(), p, c, v);
    }
  }

  method MapCow(k: Kernel, p: nat, c: nat, v: nat, pte: Pte) returns (r: int)
    requires DupReady(k, p, c, v, pte) && !pte.perm.share && (pte.perm.w || pte.perm.cow)
    modifies k
    ensures k.Valid() && k.pgdirs == old(k.pgdirs)
    ensures r == 0 <==> !old(NoRoom(k.Snap(), c, v))
    ensures r == 0 ==> KernelStep(old(k.Snap()), k.Snap(), Dup(p, c, v))
    ensures r != 0 ==> k.Snap() == old(k.Snap())
    ensures old(k.list) == [] && (c, v) !in old(ViewOf(k.Snap())).pte ==> k.list == []
  {
    ghost var s := k.Snap();
    r := MapPage(k, p, v, c, v, USER_COW);
    if r == 0 {
      RemapCow(k, p, c, v, pte, s);
    }
  }

  // The second mapping of a writable page: the parent's own, which cannot fail.
  method RemapCow(k: Kernel, p: nat, c: nat, v: nat, pte: Pte, ghost s: State)
    requires k.Valid() && p in k.pgdirs && c in k.pgdirs && p != c && v < NUSERPAGES
    requires Inv(s) && (p, v) in ViewOf(s).pte && ViewOf(s).pte[(p, v)] == pte && |Users(ViewOf(s).pte, pte.frame)| + 1 < MAX_REF
    requires !pte.perm.share && (pte.perm.w || pte.perm.cow) && MapCall(s, k.Snap(), (p, v), (c, v), USER_COW)
    modifies k
    ensures k.Valid() && k.pgdirs == old(k.pgdirs)
    ensures KernelStep(s, k.Snap(), Dup(p, c, v))
    ensures old(k.list) == [] ==> k.list == []
  {
    ghost var s1 := k.Snap();
    MapCallView(s, s1, (p, v), (c, v), USER_COW, pte.frame);
    UsersGrow(ViewOf(s).pte, (c, v), pte.frame, USER_COW);
    MappedHasTable(s1, p, v);
    var r := MapPage(k, p, v, p, v, USER_COW);
    assert DupCalls(s, s1, k.Snap(), p, c, v);
  }

  // ---- fork ----------------------------------------------------------------------------------

  // The pages below `limit` that fork copies.
  ghost function UserPages(w: View, p: nat, limit: nat): set<nat> {
    set v | 0 <= v < limit && (p, v) in w.pte && w.pte[(p, v)].perm.u
  }

  // What dumbfork's loop does: each copied page of the child is its own value from
  // now on, equal to the parent's; a PTE_SHARE page is the same cell.
  ghost function EagerCopy(sp: Spec, p: nat, c: nat, copied: set<nat>): Spec
    requires forall v :: v in copied ==> (p, v) in sp.pages
  {
    sp.(pages := map x | x in sp.pages.Keys + (set v | v in copied :: (c, v)) ::
                   if x.0 == c && x.1 in copied then sp.pages[(p, x.1)] else sp.pages[x])
  }

  ghost function EagerFork(sp: Spec, p: nat, c: nat, copied: set<nat>): Spec
    requires forall v :: v in copied ==> (p, v) in sp.pages
  {
    var all := EagerCopy(sp, p, c, copied);
    all.(pages := all.pages[(c, UXSTACK_PAGE) := Private(ZeroPage(), true)])
  }

  // Part-way through fork every mapping leads where it led before, and the child's
  // lead where the parent's do.
  ghost predicate CopiedFrames(w0: View, w: View, p: nat, c: nat, copied: set<nat>) {
    && (forall v :: v in copied ==> (p, v) in w0.pte)
    && (forall x :: x in w0.pte ==> x.0 != c && x in w.pte && w.pte[x].perm.u == w0.pte[x].perm.u)
    && (forall x :: x in w.pte ==>
          if x.0 == c then x.1 in copied && w.pte[x].frame == w0.pte[(p, x.1)].frame
          else x in w0.pte && w.pte[x].frame == w0.pte[x].frame)
  }

  // Mapping every user page of `p` once more keeps every count below its limit.
  ghost predicate CountsFit(w: View, p: nat) {
    forall f :: |Users(w.pte, f)| + |set x | x in Users(w.pte, f) && x.0 == p| < MAX_REF
  }

  lemma UsersBound(w0: View, w: View, p: nat, c: nat, copied: set<nat>, v: nat)
    requires CopiedFrames(w0, w, p, c, copied) && CountsFit(w0, p)
    requires (p, v) in w0.pte && v !in copied && p != c
    ensures |Users(w.pte, w0.pte[(p, v)].frame)| + 1 < MAX_REF
  {
    var f := w0.pte[(p, v)].frame;
    var own := set x | x in Users(w0.pte, f) && x.0 == p;
    var mine := set x | x in Users(w.pte, f) && x.0 == c;
    var rest := set x | x in Users(w.pte, f) && x.0 != c;
    assert Users(w.pte, f) == rest + mine;
    CopiedUsers(w0, w, p, c, copied, v, f, mine, rest, own);
    CardMono(rest, Users(w0.pte, f));
    CardImage(mine, own - {(p, v)}, p, c);
  }

  lemma CopiedUsers(w0: View, w: View, p: nat, c: nat, copied: set<nat>, v: nat, f: nat,
                    mine: set<Key>, rest: set<Key>, own: set<Key>)
    requires CopiedFrames(w0, w, p, c, copied) && (p, v) in w0.pte && v !in copied && p != c && f == w0.pte[(p, v)].frame
    requires forall x :: x in mine ==> x in Users(w.pte, f) && x.0 == c
    requires forall x :: x in rest ==> x in Users(w.pte, f) && x.0 != c
    requires own == set x | x in Users(w0.pte, f) && x.0 == p
    ensures rest <= Users(w0.pte, f) && (p, v) in own
    ensures forall x :: x in mine ==> (p, x.1) in own - {(p, v)}
  {}

  lemma {:induction false} CardMono<T>(a: set<T>, b: set<T>)
    requires a <= b
    ensures |a| <= |b|
  {
    assert b == a + (b - a);
  }

  lemma {:induction false} CardImage(a: set<Key>, b: set<Key>, p: nat, c: nat)
    requires forall x :: x in a ==> x.0 == c && (p, x.1) in b
    ensures |a| <= |b|
    decreases a
  {
    if x :| x in a {
      CardImage(a - {x}, b - {(p, x.1)}, p, c);
    }
  }

  lemma DupCopiesFrames(w0: View, w: View, w': View, p: nat, c: nat, copied: set<nat>, v: nat)
    requires CopiedFrames(w0, w, p, c, copied) && p != c && (p, v) in w0.pte && w0.pte[(p, v)].perm.u
    requires Step(w, w', Dup(p, c, v))
    ensures CopiedFrames(w0, w', p, c, copied + {v})
  {}

  lemma EagerCopyOneMore(sp: Spec, p: nat, c: nat, copied: set<nat>, v: nat)
    requires p != c && (forall u :: u in copied ==> (p, u) in sp.pages) && (p, v) in sp.pages
    ensures (p, v) in EagerCopy(sp, p, c, copied).pages
    ensures EagerCopy(sp, p, c, copied).(pages := EagerCopy(sp, p, c, copied).pages[(c, v) := EagerCopy(sp, p, c, copied).pages[(p, v)]])
            == EagerCopy(sp, p, c, copied + {v})
  {
    var one, two := EagerCopy(sp, p, c, copied).pages, EagerCopy(sp, p, c, copied + {v}).pages;
    forall x: Key ensures x in two <==> x == (c, v) || x in one {
      assert x in one <==> x in sp.pages || (x.0 == c && x.1 in copied);
    }
    assert one[(c, v) := one[(p, v)]] == two;
  }

  lemma DupCopiesEagerly(w: View, w': View, sp: Spec, p: nat, c: nat, copied: set<nat>, v: nat)
    requires p != c && v !in copied && (forall u :: u in copied ==> (p, u) in sp.pages) && (p, v) in sp.pages
    requires CowInv(w) && Agrees(w, EagerCopy(sp, p, c, copied)) && Step(w, w', Dup(p, c, v))
    ensures CowInv(w') && Agrees(w', EagerCopy(sp, p, c, copied + {v}))
  {
    StepRefines(w, w', Dup(p, c, v), EagerCopy(sp, p, c, copied));
    EagerCopyOneMore(sp, p, c, copied, v);
  }

  ghost predicate Copying(w0: View, w: View, sp: Spec, p: nat, c: nat, copied: set<nat>) {
    && p != c && CopiedFrames(w0, w, p, c, copied) && CountsFit(w0, p) && sp.pages.Keys == w0.pte.Keys
    && CowInv(w) && Agrees(w, EagerCopy(sp, p, c, copied))
  }

  lemma CopyingOneMore(w0: View, w: View, w': View, sp: Spec, p: nat, c: nat, copied: set<nat>, v: nat)
    requires Copying(w0, w, sp, p, c, copied) && v !in copied && (p, v) in w.pte && w.pte[(p, v)].perm.u
    requires Step(w, w', Dup(p, c, v))
    ensures Copying(w0, w', sp, p, c, copied + {v})
  {
    DupCopiesFrames(w0, w, w', p, c, copied, v);
    DupCopiesEagerly(w, w', sp, p, c, copied, v);
  }

  // Which pages fork copies does not change while it copies them.
  lemma StillUserPage(w0: View, w: View, p: nat, c: nat, copied: set<nat>, v: nat)
    requires CopiedFrames(w0, w, p, c, copied) && p != c
    ensures v in UserPages(w0, p, v + 1) <==> (p, v) in w.pte && w.pte[(p, v)].perm.u
  {}

  // One round of fork's loop.
  method CopyOne(k: Kernel, p: nat, c: nat, v: nat, ghost w0: View, ghost sp: Spec, ghost copied: set<nat>)
    returns (ok: bool, ghost now: set<nat>)
    requires k.Valid() && p in k.pgdirs && c in k.pgdirs && v < NUSERPAGES
    requires Copying(w0, ViewOf(k.Snap()), sp, p, c, copied) && v !in copied
    modifies k
    ensures k.Valid() && k.pgdirs == old(k.pgdirs)
    ensures now == copied || (now == copied + {v} && v in UserPages(w0, p, v + 1))
    ensures v in UserPages(w0, p, v + 1) && now == copied ==> k.list == []
    ensures !ok || old(k.list) == [] ==> k.list == []
    ensures Copying(w0, ViewOf(k.Snap()), sp, p, c, now)
  {
    StillUserPage(w0, ViewOf(k.Snap()), p, c, copied, v);
    var pte := ReadPte(k, p, v);
    if pte.perm.p && pte.perm.u {
      ok, now := DupOne(k, p, c, v, pte, w0, sp, copied);
    } else {
      ok, now := true, copied;
    }
  }

  // uvpd and uvpt: a process reads its own page tables.
  method ReadPte(k: Kernel, e: nat, v: nat) returns (pte: Pte)
    requires k.Valid() && e in k.pgdirs && v < NUSERPAGES
    ensures (e, v) in ViewOf(k.Snap()).pte <==> pte.perm.p
    ensures (e, v) in ViewOf(k.Snap()).pte ==> pte == ViewOf(k.Snap()).pte[(e, v)]
  {
    ViewEntry(k.Snap(), e, v);
    assert k.kind[k.pgdirs[e]] == Dir(e) by {
      assert e in k.Snap().pgdirs;
    }
    pte := k.WalkAny(k.pgdirs[e], v);
  }

  method DupOne(k: Kernel, p: nat, c: nat, v: nat, pte: Pte, ghost w0: View, ghost sp: Spec, ghost copied: set<nat>)
    returns (ok: bool, ghost now: set<nat>)
    requires k.Valid() && p in k.pgdirs && c in k.pgdirs && v < NUSERPAGES
    requires Copying(w0, ViewOf(k.Snap()), sp, p, c, copied) && v !in copied
    requires (p, v) in ViewOf(k.Snap()).pte && ViewOf(k.Snap()).pte[(p, v)] == pte && pte.perm.p && pte.perm.u
    modifies k
    ensures k.Valid() && k.pgdirs == old(k.pgdirs)
    ensures now == copied || now == copied + {v}
    ensures now == copied || !ok || old(k.list) == [] ==> k.list == []
    ensures Copying(w0, ViewOf(k.Snap()), sp, p, c, now)
  {
    ghost var w := ViewOf(k.Snap());
    UsersBound(w0, w, p, c, copied, v);
    ghost var room := !NoRoom(k.Snap(), c, v);
    ok := DupPage(k, p, c, v, pte);
    now := if room then copied + {v} else copied;
    if room {
      KernelStepIsStep(old(k.Snap()), k.Snap(), Dup(p, c, v));
      CopyingOneMore(w0, w, ViewOf(k.Snap()), sp, p, c, copied, v);
    }
  }

  // Where fork's loop stands at page `v`; once a page is lost or a call panicked,
  // memory is exhausted.
  ghost predicate CopiedBelow(s: State, p: nat, c: nat, v: nat, w0: View, sp: Spec, copied: set<nat>, ok: bool) {
    && Shape(s) && p in s.pgdirs && c in s.pgdirs && Copying(w0, ViewOf(s), sp, p, c, copied)
    && copied <= UserPages(w0, p, v) && copied <= UserPages(w0, p, USTACK_PAGES)
    && (!ok || !(UserPages(w0, p, v) <= copied) ==> s.list == [])
  }

  lemma CopyEnds(s: State, p: nat, c: nat, v: nat, w0: View, sp: Spec, copied: set<nat>, ok: bool)
    requires CopiedBelow(s, p, c, v, w0, sp, copied, ok) && (ok ==> v == USTACK_PAGES)
    ensures Copying(w0, ViewOf(s), sp, p, c, copied) && copied <= UserPages(w0, p, USTACK_PAGES)
    ensures !ok || copied != UserPages(w0, p, USTACK_PAGES) ==> s.list == []
  {}

  // Exactly the pages below USTACKTOP that `p` maps with PTE_U.
  ghost predicate CopiedByAddress(w0: View, p: nat, copied: set<nat>) {
    forall v: nat :: v in copied <==> v * PGSIZE < 0xee7f_e000 && (p, v) in w0.pte && w0.pte[(p, v)].perm.u
  }

  lemma ByAddress(w0: View, p: nat, copied: set<nat>)
    requires copied == UserPages(w0, p, USTACK_PAGES)
    ensures CopiedByAddress(w0, p, copied)
  {}

  // fork's loop over the pages below USTACKTOP; on a panic it stops early.
  method CopyPages(k: Kernel, p: nat, c: nat, ghost w0: View, ghost sp: Spec)
    returns (ok: bool, v: nat, ghost copied: set<nat>)
    requires k.Valid() && CopiedBelow(k.Snap(), p, c, 0, w0, sp, {}, true)
    modifies k
    ensures k.Valid() && CopiedBelow(k.Snap(), p, c, v, w0, sp, copied, ok) && (ok ==> v == USTACK_PAGES)
    ensures ok && k.list != [] ==> CopiedByAddress(w0, p, copied)
  {
    ok, v, copied := true, 0, {};
    while ok && v < USTACK_PAGES
      invariant v <= USTACK_PAGES && k.Valid() && CopiedBelow(k.Snap(), p, c, v, w0, sp, copied, ok)
      decreases USTACK_PAGES - v
    {
      ok, copied := CopyRound(k, p, c, v, w0, sp, copied);
      v := v + 1;
    }
    if ok && k.list != [] {
      CopyEnds(k.Snap(), p, c, v, w0, sp, copied, ok);
      ByAddress(w0, p, copied);
    }
  }

  method CopyRound(k: Kernel, p: nat, c: nat, v: nat, ghost w0: View, ghost sp: Spec, ghost before: set<nat>)
    returns (ok: bool, ghost copied: set<nat>)
    requires k.Valid() && CopiedBelow(k.Snap(), p, c, v, w0, sp, before, true) && v < USTACK_PAGES
    modifies k
    ensures k.Valid() && CopiedBelow(k.Snap(), p, c, v + 1, w0, sp, copied, ok)
  {
    ok, copied := CopyOne(k, p, c, v, w0, sp, before);
    OnePageMore(w0, p, v, before, copied);
    FewerPages(w0, p, v + 1, USTACK_PAGES);
  }

  lemma OnePageMore(w: View, p: nat, v: nat, before: set<nat>, now: set<nat>)
    requires before <= UserPages(w, p, v)
    requires now == before || (now == before + {v} && v in UserPages(w, p, v + 1))
    ensures now <= UserPages(w, p, v + 1)
    ensures UserPages(w, p, v + 1) <= now <==>
            UserPages(w, p, v) <= before && (v in UserPages(w, p, v + 1) ==> now != before)
  {
    assert UserPages(w, p, v + 1) == UserPages(w, p, v) + if v in UserPages(w, p, v + 1) then {v} else {};
    assert v !in UserPages(w, p, v);
  }

  lemma FewerPages(w: View, p: nat, v: nat, limit: nat)
    requires v <= limit
    ensures UserPages(w, p, v) <= UserPages(w, p, limit)
  {}

  // sys_exofork's part in this: an empty address space for the child.
  method NewSpace(k: Kernel, c: nat) returns (r: int)
    requires k.Valid() && k.TemplateOk() && c !in k.pgdirs
    modifies k
    ensures k.Valid() && (r < 0 ==> k.Snap() == old(k.Snap()) && k.list == [])
    ensures r >= 0 ==> k.pgdirs.Keys == old(k.pgdirs).Keys + {c}
    ensures Step(old(ViewOf(k.Snap())), ViewOf(k.Snap()), Idle)
  {
    ghost var s := k.Snap();
    r := k.EnvSetupVm(c);
    ViewSameBytes(s, k.Snap());
    if r >= 0 {
      AddedView(s, k.Snap(), c);
    }
  }

  lemma AddedView(s: State, s': State, c: nat)
    requires Inv(s) && Inv(s') && SpaceAdded(s, s', c)
    ensures ViewOf(s').pte == ViewOf(s).pte
  {
    forall x: Key
      ensures x in ViewOf(s').pte <==> x in ViewOf(s).pte
      ensures x in ViewOf(s).pte ==> ViewOf(s').pte[x] == ViewOf(s).pte[x]
    {
      AddedKey(s, s', c, x);
    }
  }

  lemma AddedKey(s: State, s': State, c: nat, x: Key)
    requires Shape(s) && Shape(s') && SpaceAdded(s, s', c)
    ensures x in ViewOf(s').pte <==> x in ViewOf(s).pte
    ensures x in ViewOf(s).pte ==> ViewOf(s').pte[x] == ViewOf(s).pte[x]
  {
    if x.1 < NUSERPAGES {
      ViewEntry(s, x.0, x.1);
      ViewEntry(s', x.0, x.1);
    }
  }

  lemma NothingCopied(sp: Spec, p: nat, c: nat)
    ensures EagerCopy(sp, p, c, {}) == sp
  {
    assert EagerCopy(sp, p, c, {}).pages == sp.pages;
  }

  lemma StartCopying(w0: View, w: View, sp: Spec, p: nat, c: nat)
    requires CowInv(w0) && CountsFit(w0, p) && Agrees(w0, sp) && Step(w0, w, Idle) && p != c
    requires forall x :: x in w0.pte ==> x.0 != c
    ensures Copying(w0, w, sp, p, c, {}) && EagerCopy(sp, p, c, {}) == sp
  {
    StepRefines(w0, w, Idle, sp);
    NothingCopied(sp, p, c);
  }

  // The child's own exception stack, which is never copied.
  method ExceptionStack(k: Kernel, p: nat, c: nat, ghost w0: View, ghost sp: Spec, ghost copied: set<nat>)
    returns (ok: bool)
    requires k.Valid() && c in k.pgdirs && Copying(w0, ViewOf(k.Snap()), sp, p, c, copied)
    modifies k
    ensures k.Valid() && CowInv(ViewOf(k.Snap()))
    ensures !ok ==> |k.list| < 2
    ensures old(k.list) == [] ==> !ok
    ensures forall v :: v in copied ==> (p, v) in sp.pages
    ensures Agrees(ViewOf(k.Snap()), if ok then EagerFork(sp, p, c, copied) else EagerCopy(sp, p, c, copied))
  {
    ghost var w := ViewOf(k.Snap());
    var r: int;
    ghost var f: nat;
    r, f := AllocPage(k, c, UXSTACK_PAGE);
    ok := r == 0;
    StepRefines(w, ViewOf(k.Snap()), if ok then New((c, UXSTACK_PAGE), USER_RW, f) else Idle, EagerCopy(sp, p, c, copied));
  }

  // Below USTACKTOP the child maps page `v` exactly when the parent maps it with PTE_U, and
  // reads what the parent read; above, it has only a writable page of zeros, the one
  // that ends at UXSTACKTOP.
  ghost predicate ChildMaps(w0: View, w: View, p: nat, c: nat, v: nat)
    requires WellMapped(w0) && WellMapped(w)
  {
    if v * PGSIZE < 0xee7f_e000 then
      && ((c, v) in w.pte <==> (p, v) in w0.pte && w0.pte[(p, v)].perm.u)
      && ((c, v) in w.pte ==> Load(w, (c, v)) == Load(w0, (p, v)))
    else
      && ((c, v) in w.pte <==> v == 0xee7ff)
      && ((c, v) in w.pte ==> Load(w, (c, v)) == ZeroPage() && (w.pte[(c, v)].perm.w || w.pte[(c, v)].perm.cow))
  }

  // That of every page of the child, and everyone else reads what they read before.
  ghost predicate ForkedSpace(w0: View, w: View, p: nat, c: nat)
    requires WellMapped(w0) && WellMapped(w)
  {
    && (forall v: nat :: ChildMaps(w0, w, p, c, v))
    && (forall x :: x in w0.pte ==> x in w.pte && Load(w, x) == Load(w0, x))
  }

  // Keys and pages of the eager copy.
  lemma EagerForkAt(sp: Spec, p: nat, c: nat, copied: set<nat>, x: Key)
    requires (forall v :: v in copied ==> (p, v) in sp.pages) && (forall y :: y in sp.pages ==> y.0 != c)
    ensures var fork := EagerFork(sp, p, c, copied);
            && fork.cells == sp.cells
            && (x in fork.pages <==> x in sp.pages || (x.0 == c && x.1 in copied) || x == (c, UXSTACK_PAGE))
            && (x in sp.pages ==> fork.pages[x] == sp.pages[x])
            && (x.0 == c && x.1 in copied && x.1 != UXSTACK_PAGE ==> fork.pages[x] == sp.pages[(p, x.1)])
            && (x == (c, UXSTACK_PAGE) ==> fork.pages[x] == Private(ZeroPage(), true))
  {
    assert x in EagerCopy(sp, p, c, copied).pages <==> x in sp.pages || (x.0 == c && x.1 in copied);
  }

  // Pages that are one page of the eager machine read alike.
  lemma ReadsAlike(w0: View, sp: Spec, x: Key, w: View, sp': Spec, y: Key)
    requires WellMapped(w0) && WellMapped(w) && Agrees(w0, sp) && Agrees(w, sp') && sp'.cells == sp.cells
    requires x in w0.pte && y in sp'.pages && x in sp.pages && sp'.pages[y] == sp.pages[x]
    ensures y in w.pte && Load(w, y) == Load(w0, x)
  {
    assert PageAgrees(w0, sp, x) && PageAgrees(w, sp', y);
  }

  lemma ForkedPage(w0: View, w: View, sp: Spec, p: nat, c: nat, copied: set<nat>, v: nat)
    requires WellMapped(w0) && WellMapped(w) && Agrees(w0, sp) && p != c && (forall x :: x in w0.pte ==> x.0 != c)
    requires CopiedByAddress(w0, p, copied) && (forall u :: u in copied ==> (p, u) in sp.pages)
    requires Agrees(w, EagerFork(sp, p, c, copied))
    ensures ChildMaps(w0, w, p, c, v)
  {
    var fork := EagerFork(sp, p, c, copied);
    EagerForkAt(sp, p, c, copied, (c, v));
    if v in copied {
      ReadsAlike(w0, sp, (p, v), w, fork, (c, v));
    } else if v == UXSTACK_PAGE {
      assert PageAgrees(w, fork, (c, v));
    }
  }

  lemma ForkedChild(w0: View, w: View, sp: Spec, p: nat, c: nat, copied: set<nat>)
    requires WellMapped(w0) && WellMapped(w) && Agrees(w0, sp) && p != c && (forall x :: x in w0.pte ==> x.0 != c)
    requires CopiedByAddress(w0, p, copied) && (forall v :: v in copied ==> (p, v) in sp.pages)
    requires Agrees(w, EagerFork(sp, p, c, copied))
    ensures ForkedSpace(w0, w, p, c)
  {
    forall x | x in w0.pte ensures x in w.pte && Load(w, x) == Load(w0, x) {
      EagerForkAt(sp, p, c, copied, x);
      ReadsAlike(w0, sp, x, w, EagerFork(sp, p, c, copied), x);
    }
    forall v: nat ensures ChildMaps(w0, w, p, c, v) {
      ForkedPage(w0, w, sp, p, c, copied, v);
    }
  }

  // fork, when nothing else runs between its system calls: on success the child has
  // exactly what copying every user page below USTACKTOP eagerly would have given it,
  // plus a zeroed exception stack, and no one else's memory changed.  A lost read-only
  // page goes unnoticed when it happens, but then the exception stack cannot be had
  // either.  It fails only for lack of memory.  (ForkRuns.dfy lets others run.)
  method Fork(k: Kernel, p: nat, c: nat, ghost sp: Spec) returns (ok: bool, ghost copied: set<nat>)
    requires k.Valid() && k.TemplateOk() && p in k.pgdirs && c !in k.pgdirs
    requires CowInv(ViewOf(k.Snap())) && CountsFit(ViewOf(k.Snap()), p) && Agrees(ViewOf(k.Snap()), sp)
    modifies k
    ensures k.Valid() && CowInv(ViewOf(k.Snap())) && copied <= UserPages(old(ViewOf(k.Snap())), p, USTACK_PAGES)
    ensures forall v :: v in copied ==> (p, v) in sp.pages
    ensures ok ==> CopiedByAddress(old(ViewOf(k.Snap())), p, copied)
    ensures ok ==> ForkedSpace(old(ViewOf(k.Snap())), ViewOf(k.Snap()), p, c)
    ensures Agrees(ViewOf(k.Snap()), if ok then EagerFork(sp, p, c, copied) else EagerCopy(sp, p, c, copied))
    ensures !ok ==> |k.list| < 2
  {
    ghost var w0 := ViewOf(k.Snap());
    copied := {};
    var r := NewSpace(k, c);
    StartCopying(w0, ViewOf(k.Snap()), sp, p, c);
    if r < 0 {
      return false, copied;
    }
    var v;
    ok, v, copied := CopyPages(k, p, c, w0, sp);
    CopyEnds(k.Snap(), p, c, v, w0, sp, copied, ok);
    if ok {
      ok := ExceptionStack(k, p, c, w0, sp, copied);
    }
    if ok {
      ForkedChild(w0, ViewOf(k.Snap()), sp, p, c, copied);
    }
  }

  // ---- dumbfork's duppage ----------------------------------------------------------------------

  const UTEMP_PAGE := UTEMP / PGSIZE

  // One eager copy: the child's page is a frame of its own with the parent's bytes.
  ghost predicate EagerStep(w: View, w': View, p: nat, c: nat, v: nat) {
    && WellMapped(w) && WellMapped(w') && (p, v) in w.pte && SameBytes(w, w')
    && exists f :: Fresh(w, w', f, Load(w, (p, v))) && w'.pte == w.pte[(c, v) := Pte(f, USER_RW)]
  }

  lemma DumbSteps(w0: View, w1: View, w2: View, w3: View, w4: View, p: nat, c: nat, v: nat, f: nat)
    requires WellMapped(w0) && WellMapped(w4) && WellMapped(w2) && p != c && (p, v) in w0.pte && v != UTEMP_PAGE
    requires (p, UTEMP_PAGE) !in w0.pte && AddedFresh(w0, w1, (c, v), f)
    requires w2.pte == w1.pte[(p, UTEMP_PAGE) := Pte(f, USER_RW)] && SameBytes(w1, w2)
    requires (p, v) in w2.pte && w3 == w2.(content := w2.content[f := Load(w2, (p, v))])
    requires w4.pte == w3.pte - {(p, UTEMP_PAGE)} && SameBytes(w3, w4)
    ensures EagerStep(w0, w4, p, c, v)
  {
    assert w4.pte == w0.pte[(c, v) := Pte(f, USER_RW)];
    assert w4.pte[(c, v)].frame == f && w3.pte[(c, v)].frame == f;
    assert MapsFrame(w3.pte, f) && MapsFrame(w4.pte, f);
    assert MapsFrame(w0.pte, w0.pte[(p, v)].frame);
    DumbKeeps(w0, w1, w2, p, c, v, f, (p, v), w0.pte[(p, v)].frame);
    assert Fresh(w0, w4, f, Load(w0, (p, v)));
    forall g | 0 <= g < |w0.content| && MapsFrame(w0.pte, g) && MapsFrame(w4.pte, g) ensures w4.content[g] == w0.content[g] {
      var i :| i in w4.pte && w4.pte[i].frame == g;
      assert w3.pte[i] == w4.pte[i] && MapsFrame(w3.pte, g);
      if i != (c, v) {
        DumbKeeps(w0, w1, w2, p, c, v, f, i, g);
      }
    }
  }

  // user/dumbfork.c's duppage
  method DumbDupPage(k: Kernel, p: nat, c: nat, v: nat) returns (ok: bool)
    requires k.Valid() && p in k.pgdirs && c in k.pgdirs && p != c && v < NUSERPAGES && v != UTEMP_PAGE
    requires (p, v) in ViewOf(k.Snap()).pte && (p, UTEMP_PAGE) !in ViewOf(k.Snap()).pte
    modifies k
    ensures k.Valid() && k.pgdirs == old(k.pgdirs)
    ensures ok ==> EagerStep(old(ViewOf(k.Snap())), ViewOf(k.Snap()), p, c, v)
    ensures !ok ==> |k.list| < 2
  {
    ghost var w0 := ViewOf(k.Snap());
    ViewSameBytes(k.Snap(), k.Snap());
    var r: int;
    ghost var f: nat;
    r, f := AllocPage(k, c, v);
    ok := r == 0;
    if ok {
      ok := FillPage(k, p, c, v, f, w0);
    }
  }

  method FillPage(k: Kernel, p: nat, c: nat, v: nat, ghost f: nat, ghost w0: View) returns (ok: bool)
    requires k.Valid() && p in k.pgdirs && c in k.pgdirs && p != c && v < NUSERPAGES && v != UTEMP_PAGE
    requires WellMapped(w0) && (p, v) in w0.pte && (p, UTEMP_PAGE) !in w0.pte
    requires Step(w0, ViewOf(k.Snap()), New((c, v), USER_RW, f))
    modifies k
    ensures k.Valid() && k.pgdirs == old(k.pgdirs)
    ensures ok ==> EagerStep(w0, ViewOf(k.Snap()), p, c, v)
    ensures !ok ==> k.list == []
  {
    ghost var w1 := ViewOf(k.Snap());
    assert w1.pte == w0.pte[(c, v) := Pte(f, USER_RW)];
    assert Users(w1.pte, f) == {(c, v)};
    var r := MapPage(k, c, v, p, UTEMP_PAGE, USER_RW);
    if r < 0 {
      return false;
    }
    FillThrough(k, p, c, v, f, w0, w1);
    ok := true;
  }

  // The copy itself, through the parent's temporary mapping of the child's page.
  method FillThrough(k: Kernel, p: nat, c: nat, v: nat, ghost f: nat, ghost w0: View, ghost w1: View)
    requires k.Valid() && p in k.pgdirs && p != c && v < NUSERPAGES && v != UTEMP_PAGE
    requires WellMapped(w0) && (p, v) in w0.pte && (p, UTEMP_PAGE) !in w0.pte && AddedFresh(w0, w1, (c, v), f)
    requires ViewOf(k.Snap()).pte == w1.pte[(p, UTEMP_PAGE) := Pte(f, USER_RW)] && SameBytes(w1, ViewOf(k.Snap()))
    modifies k
    ensures k.Valid() && k.pgdirs == old(k.pgdirs)
    ensures EagerStep(w0, ViewOf(k.Snap()), p, c, v)
  {
    ghost var w2 := ViewOf(k.Snap());
    FillFacts(w0, w1, w2.pte, p, c, v, f);
    CopyPage(k, p, UTEMP_PAGE, v, f);
    DropTemp(k, p, c, v, f, w0, w1, w2);
  }

  lemma FillFacts(w0: View, w1: View, m: map<Key, Pte>, p: nat, c: nat, v: nat, f: nat)
    requires p != c && v != UTEMP_PAGE && (p, v) in w0.pte && AddedFresh(w0, w1, (c, v), f)
    requires m == w1.pte[(p, UTEMP_PAGE) := Pte(f, USER_RW)]
    ensures (p, UTEMP_PAGE) in m && m[(p, UTEMP_PAGE)].frame == f
    ensures (p, v) in m && m[(p, v)] == w0.pte[(p, v)] && m[(p, v)].frame != f
  {
    assert MapsFrame(w0.pte, w0.pte[(p, v)].frame);
  }

  method DropTemp(k: Kernel, p: nat, c: nat, v: nat, ghost f: nat, ghost w0: View, ghost w1: View, ghost w2: View)
    requires k.Valid() && p in k.pgdirs && p != c && v != UTEMP_PAGE
    requires WellMapped(w0) && (p, v) in w0.pte && (p, UTEMP_PAGE) !in w0.pte && AddedFresh(w0, w1, (c, v), f)
    requires WellMapped(w2) && w2.pte == w1.pte[(p, UTEMP_PAGE) := Pte(f, USER_RW)] && SameBytes(w1, w2)
    requires ViewOf(k.Snap()) == w2.(content := w2.content[f := Load(w2, (p, v))])
    modifies k
    ensures k.Valid() && k.pgdirs == old(k.pgdirs)
    ensures EagerStep(w0, ViewOf(k.Snap()), p, c, v)
  {
    ghost var w3 := ViewOf(k.Snap());
    var r := UnmapPage(k, p, UTEMP_PAGE);
    DumbSteps(w0, w1, w2, w3, ViewOf(k.Snap()), p, c, v, f);
  }

  // Eager copying of a private page the parent may write is, in the abstract state,
  // the very step that copy-on-write takes.
  lemma EagerIsDup(w: View, w': View, sp: Spec, p: nat, c: nat, v: nat)
    requires CowInv(w) && Agrees(w, sp) && EagerStep(w, w', p, c, v) && p != c
    requires sp.pages[(p, v)].Private? && sp.pages[(p, v)].writable
    ensures CowInv(w') && SpecOk(sp) && SpecAllows(sp, Dup(p, c, v)) && Agrees(w', SpecStep(sp, Dup(p, c, v)))
  {
    AgreesOk(w, sp);
    var f := EagerFacts(w, w', p, c, v);
    OneFreshKeepsInv(w, w', (c, v), f, USER_RW);
    assert PageAgrees(w, sp, (p, v));
    EagerPages(w, w', sp, c, v, f, sp.pages[(p, v)]);
  }

  lemma EagerFacts(w: View, w': View, p: nat, c: nat, v: nat) returns (f: nat)
    requires EagerStep(w, w', p, c, v)
    ensures WellMapped(w) && WellMapped(w') && SameBytes(w, w') && (p, v) in w.pte && !MapsFrame(w.pte, f)
    ensures w'.pte == w.pte[(c, v) := Pte(f, USER_RW)] && f < |w'.content| && w'.content[f] == Load(w, (p, v))
  {
    f :| Fresh(w, w', f, Load(w, (p, v))) && w'.pte == w.pte[(c, v) := Pte(f, USER_RW)];
  }

  lemma EagerPages(w: View, w': View, sp: Spec, c: nat, v: nat, f: nat, child: SpecPage)
    requires WellMapped(w) && WellMapped(w') && SameBytes(w, w') && Agrees(w, sp)
    requires w'.pte == w.pte[(c, v) := Pte(f, USER_RW)] && f < |w'.content| && child == Private(w'.content[f], true)
    ensures Agrees(w', sp.(pages := sp.pages[(c, v) := child]))
  {
    forall x | x in w'.pte ensures PageAgrees(w', sp.(pages := sp.pages[(c, v) := child]), x) {
      if x != (c, v) {
        KeepsAgreeing(w, w', sp, x);
      }
    }
  }

  // A page mapped before keeps its bytes while the new one is set up, even one the
  // new page replaces.
  lemma DumbKeeps(w0: View, w1: View, w2: View, p: nat, c: nat, v: nat, f: nat, j: Key, g: nat)
    requires WellMapped(w0) && WellMapped(w2) && j in w0.pte && w0.pte[j].frame == g && j != (c, v)
    requires (p, UTEMP_PAGE) !in w0.pte && AddedFresh(w0, w1, (c, v), f)
    requires w2.pte == w1.pte[(p, UTEMP_PAGE) := Pte(f, USER_RW)] && SameBytes(w1, w2)
    ensures g < |w2.content| && w2.content[g] == w0.content[g] && g != f
    ensures j in w2.pte && w2.pte[j] == w0.pte[j]
  {
    assert MapsFrame(w0.pte, g);
    assert w1.pte[j] == w0.pte[j] && MapsFrame(w1.pte, g);
    assert w2.pte[j] == w0.pte[j] && MapsFrame(w2.pte, g);
  }
}
