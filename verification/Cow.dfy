// Copy-on-write address spaces (lib/fork.c) against eager copying
// (user/dumbfork.c).  A View is what user code can observe of the kernel's page
// state: who maps which frame where, and the bytes of the frames.  A Spec has no
// frames: every private page is its own value, copied when `fork` copies it.
module Cow {
  import opened Inc
  import opened Vm

  // (environment slot, page number)
  type Key = (nat, nat)

  datatype View = View(pte: map<Key, Pte>, content: seq<Page>)

  datatype SpecPage =
    | Private(bytes: Page, writable: bool)
    | Common(cell: nat, writable: bool)

  datatype Spec = Spec(pages: map<Key, SpecPage>, cells: map<nat, Page>)

  // One observable step.  `New` is a page allocated by user code itself, `Map` a page
  // mapped once more, `Dup` one duppage of a running fork, `DupLost` a duppage whose
  // mapping call failed unnoticed, `Idle` anything that changes no one's view.
  datatype Event =
    | Read(key: Key, off: nat, b: bv8)
    | Write(key: Key, off: nat, b: bv8)
    | Fault(key: Key)
    | Dup(parent: nat, child: nat, page: nat)
    | DupLost(parent: nat, child: nat, page: nat)
    | New(key: Key, perm: Perm, cell: nat)
    | Map(from: Key, to: Key, perm: Perm, cell: nat)
    | Unmap(key: Key)
    | Exit(env: nat)
    | Idle

  const USER_RW := NO_PERM.(p := true, w := true, u := true)
  const USER_RO := NO_PERM.(p := true, u := true)
  const USER_COW := NO_PERM.(p := true, u := true, cow := true)

  ghost predicate MapsFrame(pte: map<Key, Pte>, f: nat) {
    exists k :: k in pte && pte[k].frame == f
  }

  // Frames mapped before and after hold the same bytes.
  ghost predicate SameBytes(w: View, w': View) {
    |w'.content| == |w.content| &&
    forall f :: 0 <= f < |w.content| && MapsFrame(w.pte, f) && MapsFrame(w'.pte, f) ==> w'.content[f] == w.content[f]
  }

  // A frame no one mapped starts out in `w'` with the given bytes.
  ghost predicate Fresh(w: View, w': View, f: nat, page: Page) {
    !MapsFrame(w.pte, f) && f < |w'.content| && w'.content[f] == page
  }

  ghost predicate WellMapped(w: View) {
    && (forall k :: k in w.pte ==> w.pte[k].frame < |w.content|)
    && (forall f :: 0 <= f < |w.content| ==> |w.content[f]| == PGSIZE)
  }

  // A writable mapping that is not PTE_SHARE is the only mapping of its frame;
  // whether a frame is shared on purpose is agreed by all who map it; and no page
  // is both shared and copy-on-write.
  ghost predicate CowInv(w: View) {
    && WellMapped(w)
    && (forall k, j :: k in w.pte && j in w.pte && k != j && w.pte[k].frame == w.pte[j].frame ==>
          !(w.pte[k].perm.w && !w.pte[k].perm.share) && w.pte[k].perm.share == w.pte[j].perm.share)
    && (forall k :: k in w.pte && w.pte[k].perm.share ==> !w.pte[k].perm.cow)
  }

  // What a load sees.
  ghost function Load(w: View, k: Key): Page
    requires WellMapped(w) && k in w.pte
  {
    w.content[w.pte[k].frame]
  }

  // ---- copy-on-write steps -------------------------------------------------------

  // The permissions duppage gives the child, and leaves the parent with.
  function ChildPerm(perm: Perm): Perm {
    if perm.share then perm.(other := false) else if perm.w || perm.cow then USER_COW else USER_RO
  }

  function ParentPerm(perm: Perm): Perm {
    if !perm.share && (perm.w || perm.cow) then USER_COW else perm
  }

  // On the bits: a shared page keeps its PTE_SYSCALL bits, one with PTE_W or PTE_COW set
  // becomes PTE_COW|PTE_U|PTE_P on both sides, any other is PTE_U|PTE_P in the child.
  lemma DupPermBits(bits: bv32)
    ensures ChildPerm(Flags(bits)) == Flags(if bits & 0x400 != 0 then bits & 0xE07 else if bits & 0x802 != 0 then 0x805 else 0x005)
    ensures ParentPerm(Flags(bits)) == Flags(if bits & 0x400 == 0 && bits & 0x802 != 0 then 0x805 else bits)
    ensures USER_RW == Flags(0x007) && ReadOnly(Flags(bits)) == (bits & 0xC02 == 0)
  {}

  // A page duppage maps without checking whether the call succeeded.
  predicate ReadOnly(perm: Perm) {
    !perm.share && !perm.w && !perm.cow
  }

  // Frame `f` may be mapped at `y` with these permissions: whoever else maps it agrees on
  // sharing, and unless it is shared no one may write it.
  ghost predicate MapFits(pte: map<Key, Pte>, y: Key, f: nat, perm: Perm) {
    && !(perm.share && perm.cow)
    && forall k :: k in pte && k != y && pte[k].frame == f ==>
         pte[k].perm.share == perm.share && (perm.share || (!perm.w && !pte[k].perm.w))
  }

  ghost predicate Step(w: View, w': View, ev: Event) {
    WellMapped(w) && WellMapped(w') &&
    match ev
    case Read(k, off, b) => w' == w && k in w.pte && off < PGSIZE && b == Load(w, k)[off]
    case Write(k, off, b) =>
      && k in w.pte && w.pte[k].perm.w && off < PGSIZE
      && w' == w.(content := w.content[w.pte[k].frame := Load(w, k)[off := b]])
    case Fault(k) =>
      && k in w.pte && w.pte[k].perm.cow && !w.pte[k].perm.w
      && exists g :: Fresh(w, w', g, Load(w, k)) && w'.pte == w.pte[k := Pte(g, USER_RW)] && SameBytes(w, w')
    case Dup(p, c, v) =>
      && p != c && (p, v) in w.pte && SameBytes(w, w')
      && var pte := w.pte[(p, v)];
         w'.pte == w.pte[(c, v) := Pte(pte.frame, ChildPerm(pte.perm))][(p, v) := Pte(pte.frame, ParentPerm(pte.perm))]
    case DupLost(p, c, v) =>
      && p != c && (p, v) in w.pte && ReadOnly(w.pte[(p, v)].perm) && (c, v) !in w.pte
      && w'.pte == w.pte && SameBytes(w, w')
    case Map(x, y, perm, cell) =>
      && x in w.pte && w.pte[x].frame == cell && MapFits(w.pte, y, cell, perm)
      && w'.pte == w.pte[y := Pte(cell, perm)] && SameBytes(w, w')
    case New(k, perm, g) =>
      && !(perm.share && perm.cow)
      && Fresh(w, w', g, ZeroPage()) && w'.pte == w.pte[k := Pte(g, perm)] && SameBytes(w, w')
    case Unmap(k) => w'.pte == w.pte - {k} && SameBytes(w, w')
    case Exit(e) => w'.pte == (map k | k in w.pte && k.0 != e :: w.pte[k]) && SameBytes(w, w')
    case Idle => w'.pte == w.pte && SameBytes(w, w')
  }

  // ---- the same steps, eagerly -----------------------------------------------------

  ghost predicate IsCell(sp: Spec, k: Key, c: nat) {
    k in sp.pages && sp.pages[k].Common? && sp.pages[k].cell == c
  }

  ghost predicate UsesCell(sp: Spec, c: nat) {
    exists k :: IsCell(sp, k, c)
  }

  ghost predicate SpecOk(sp: Spec) {
    forall k :: k in sp.pages ==>
      if sp.pages[k].Private? then |sp.pages[k].bytes| == PGSIZE
      else sp.pages[k].cell in sp.cells && |sp.cells[sp.pages[k].cell]| == PGSIZE
  }

  ghost function Bytes(sp: Spec, k: Key): Page
    requires SpecOk(sp) && k in sp.pages
  {
    if sp.pages[k].Private? then sp.pages[k].bytes else sp.cells[sp.pages[k].cell]
  }

  // Eager semantics: what a step may be, and where it leads.  A copied private page
  // is a value of its own from the moment of the copy.
  ghost predicate SpecAllows(sp: Spec, ev: Event)
    requires SpecOk(sp)
  {
    match ev
    case Read(k, off, b) => k in sp.pages && off < PGSIZE && b == Bytes(sp, k)[off]
    case Write(k, off, b) => k in sp.pages && sp.pages[k].writable && off < PGSIZE
    case Dup(p, c, v) => (p, v) in sp.pages
    case DupLost(p, c, v) => p != c && (p, v) in sp.pages && sp.pages[(p, v)].Private? && (c, v) !in sp.pages
    case New(k, perm, cell) => perm.share ==> !UsesCell(sp, cell)
    case Map(x, y, perm, cell) =>
      x in sp.pages &&
      (perm.share ==> (sp.pages[x].Common? && sp.pages[x].cell == cell) || forall k :: k in sp.pages && k != y ==> !IsCell(sp, k, cell))
    case _ => true
  }

  // What the eager machine has once `page` is mapped at `y`.
  ghost function MapPages(sp: Spec, y: Key, perm: Perm, cell: nat, page: Page): Spec {
    if perm.share then Spec(sp.pages[y := Common(cell, perm.w)], sp.cells[cell := page])
    else sp.(pages := sp.pages[y := Private(page, perm.w || perm.cow)])
  }

  ghost function SpecStep(sp: Spec, ev: Event): Spec
    requires SpecOk(sp) && SpecAllows(sp, ev)
  {
    match ev
    case Write(k, off, b) =>
      if sp.pages[k].Private? then
        sp.(pages := sp.pages[k := sp.pages[k].(bytes := sp.pages[k].bytes[off := b])])
      else
        sp.(cells := sp.cells[sp.pages[k].cell := Bytes(sp, k)[off := b]])
    case Dup(p, c, v) => sp.(pages := sp.pages[(c, v) := sp.pages[(p, v)]])
    case New(k, perm, cell) =>
      if perm.share then Spec(sp.pages[k := Common(cell, perm.w)], sp.cells[cell := ZeroPage()])
      else sp.(pages := sp.pages[k := Private(ZeroPage(), perm.w || perm.cow)])
    case Map(x, y, perm, cell) =>
      MapPages(sp, y, perm, cell, Bytes(sp, x))
    case Unmap(k) => sp.(pages := sp.pages - {k})
    case Exit(e) => sp.(pages := map k | k in sp.pages && k.0 != e :: sp.pages[k])
    case _ => sp
  }

  // ---- the refinement ------------------------------------------------------------------

  ghost predicate PageAgrees(w: View, sp: Spec, k: Key)
    requires WellMapped(w) && k in w.pte && k in sp.pages
  {
    var pte := w.pte[k];
    if pte.perm.share then
      sp.pages[k] == Common(pte.frame, pte.perm.w) && pte.frame in sp.cells && sp.cells[pte.frame] == Load(w, k)
    else
      sp.pages[k] == Private(Load(w, k), pte.perm.w || pte.perm.cow)
  }

  // Each mapped page reads as its eager counterpart, private pages are values,
  // shared pages are one cell for all, and writability agrees.
  ghost predicate Agrees(w: View, sp: Spec)
    requires WellMapped(w)
  {
    && sp.pages.Keys == w.pte.Keys
    && forall k :: k in w.pte ==> PageAgrees(w, sp, k)
  }

  lemma AgreesOk(w: View, sp: Spec)
    requires WellMapped(w) && Agrees(w, sp)
    ensures SpecOk(sp)
    ensures forall k :: k in w.pte ==> Bytes(sp, k) == Load(w, k)
  {
    forall k | k in sp.pages
      ensures if sp.pages[k].Private? then |sp.pages[k].bytes| == PGSIZE
              else sp.pages[k].cell in sp.cells && |sp.cells[sp.pages[k].cell]| == PGSIZE
    {
      assert PageAgrees(w, sp, k);
    }
    forall k | k in w.pte ensures Bytes(sp, k) == Load(w, k) {
      assert PageAgrees(w, sp, k);
    }
  }

  lemma StepKeepsInv(w: View, w': View, ev: Event)
    requires CowInv(w) && Step(w, w', ev)
    ensures CowInv(w')
  {
    match ev
    case Fault(k) =>
      var g :| Fresh(w, w', g, Load(w, k)) && w'.pte == w.pte[k := Pte(g, USER_RW)];
      OneFreshKeepsInv(w, w', k, g, USER_RW);
    case New(k, perm, g) => OneFreshKeepsInv(w, w', k, g, perm);
    case Dup(p, c, v) => DupKeepsInv(w, w', p, c, v);
    case Map(x, y, perm, cell) => MapKeepsInvIff(w, w', x, y, perm);
    case _ =>
  }

  // Mapping a page once more keeps the invariant exactly when it fits.
  lemma MapKeepsInvIff(w: View, w': View, x: Key, y: Key, perm: Perm)
    requires CowInv(w) && WellMapped(w') && x in w.pte && w'.pte == w.pte[y := Pte(w.pte[x].frame, perm)]
    ensures CowInv(w') <==> MapFits(w.pte, y, w.pte[x].frame, perm)
  {
    var f := w.pte[x].frame;
    assert w'.pte[y] == Pte(f, perm);
    if CowInv(w') {
      forall k | k in w.pte && k != y && w.pte[k].frame == f
        ensures w.pte[k].perm.share == perm.share && (perm.share || (!perm.w && !w.pte[k].perm.w))
      {
        assert w'.pte[k] == w.pte[k] && w'.pte[k].frame == w'.pte[y].frame;
      }
    }
    if MapFits(w.pte, y, f, perm) {
      forall k, j | k in w'.pte && j in w'.pte && k != j && w'.pte[k].frame == w'.pte[j].frame
        ensures !(w'.pte[k].perm.w && !w'.pte[k].perm.share) && w'.pte[k].perm.share == w'.pte[j].perm.share
      {
        assert k != y ==> w'.pte[k] == w.pte[k];
        assert j != y ==> w'.pte[j] == w.pte[j];
      }
    }
  }

  lemma OneFreshKeepsInv(w: View, w': View, k: Key, g: nat, perm: Perm)
    requires CowInv(w) && WellMapped(w') && !MapsFrame(w.pte, g) && w'.pte == w.pte[k := Pte(g, perm)]
    requires !(perm.share && perm.cow)
    ensures CowInv(w')
  {
    forall j | j in w.pte ensures w.pte[j].frame != g {}
  }

  lemma DupKeepsInv(w: View, w': View, p: nat, c: nat, v: nat)
    requires CowInv(w) && Step(w, w', Dup(p, c, v))
    ensures CowInv(w')
  {
    var f := w.pte[(p, v)].frame;
    forall k, j | k in w'.pte && j in w'.pte && k != j && w'.pte[k].frame == w'.pte[j].frame
      ensures !(w'.pte[k].perm.w && !w'.pte[k].perm.share) && w'.pte[k].perm.share == w'.pte[j].perm.share
    {
      if w'.pte[k].frame == f {
        assert w'.pte[k].perm.share == w.pte[(p, v)].perm.share;
        assert w'.pte[j].perm.share == w.pte[(p, v)].perm.share;
      }
    }
  }

  // Unchanged mappings of unchanged frames still agree.
  lemma KeepsAgreeing(w: View, w': View, sp: Spec, k: Key)
    requires WellMapped(w) && WellMapped(w') && Agrees(w, sp) && SameBytes(w, w')
    requires k in w.pte && k in w'.pte && w'.pte[k] == w.pte[k]
    ensures PageAgrees(w', sp, k)
  {
    assert PageAgrees(w, sp, k);
    assert MapsFrame(w.pte, w.pte[k].frame) && MapsFrame(w'.pte, w.pte[k].frame);
  }

  lemma FaultFacts(w: View, w': View, k: Key) returns (g: nat)
    requires Step(w, w', Fault(k))
    ensures WellMapped(w) && WellMapped(w') && SameBytes(w, w') && k in w.pte && w.pte[k].perm.cow
    ensures w'.pte == w.pte[k := Pte(g, USER_RW)] && g < |w'.content| && w'.content[g] == Load(w, k)
  {
    g :| Fresh(w, w', g, Load(w, k)) && w'.pte == w.pte[k := Pte(g, USER_RW)] && SameBytes(w, w');
  }

  lemma FaultAgrees(w: View, w': View, sp: Spec, k: Key)
    requires CowInv(w) && Step(w, w', Fault(k)) && Agrees(w, sp)
    ensures SpecOk(sp) && SpecAllows(sp, Fault(k)) && Agrees(w', SpecStep(sp, Fault(k)))
  {
    AgreesOk(w, sp);
    var g := FaultFacts(w, w', k);
    assert PageAgrees(w, sp, k) && !w.pte[k].perm.share;
    forall j | j in w'.pte ensures PageAgrees(w', sp, j) {
      if j != k {
        KeepsAgreeing(w, w', sp, j);
      }
    }
  }

  lemma DupFacts(w: View, w': View, p: nat, c: nat, v: nat, f: nat, perm: Perm)
    requires Step(w, w', Dup(p, c, v)) && w.pte[(p, v)] == Pte(f, perm)
    ensures WellMapped(w) && WellMapped(w') && SameBytes(w, w') && f < |w.content| && w'.content[f] == w.content[f]
    ensures w'.pte.Keys == w.pte.Keys + {(c, v)}
    ensures w'.pte[(c, v)] == Pte(f, ChildPerm(perm)) && w'.pte[(p, v)] == Pte(f, ParentPerm(perm))
    ensures forall k :: k in w.pte && k != (c, v) && k != (p, v) ==> w'.pte[k] == w.pte[k]
  {
    assert MapsFrame(w.pte, f) && w'.pte[(c, v)].frame == f && MapsFrame(w'.pte, f);
  }

  // The page in parent and child, both now leading to the same frame.
  lemma DupCopyAgrees(w: View, w': View, sp: Spec, p: nat, c: nat, v: nat, f: nat, perm: Perm, child: SpecPage)
    requires WellMapped(w) && WellMapped(w') && f < |w.content| && f < |w'.content| && w'.content[f] == w.content[f]
    requires (p, v) in w.pte && w.pte[(p, v)] == Pte(f, perm) && (p, v) in sp.pages && PageAgrees(w, sp, (p, v))
    requires (c, v) in w'.pte && w'.pte[(c, v)] == Pte(f, ChildPerm(perm))
    requires (p, v) in w'.pte && w'.pte[(p, v)] == Pte(f, ParentPerm(perm)) && p != c && child == sp.pages[(p, v)]
    ensures PageAgrees(w', sp.(pages := sp.pages[(c, v) := child]), (c, v))
    ensures PageAgrees(w', sp.(pages := sp.pages[(c, v) := child]), (p, v))
  {}

  lemma DupAgrees(w: View, w': View, sp: Spec, p: nat, c: nat, v: nat)
    requires CowInv(w) && Step(w, w', Dup(p, c, v)) && Agrees(w, sp)
    ensures SpecOk(sp) && SpecAllows(sp, Dup(p, c, v)) && Agrees(w', SpecStep(sp, Dup(p, c, v)))
  {
    AgreesOk(w, sp);
    var f, perm := w.pte[(p, v)].frame, w.pte[(p, v)].perm;
    DupFacts(w, w', p, c, v, f, perm);
    assert PageAgrees(w, sp, (p, v));
    DupCopyAgrees(w, w', sp, p, c, v, f, perm, sp.pages[(p, v)]);
    DupOthersAgree(w, w', sp, p, c, v, sp.pages[(p, v)]);
  }

  lemma DupOthersAgree(w: View, w': View, sp: Spec, p: nat, c: nat, v: nat, child: SpecPage)
    requires WellMapped(w) && WellMapped(w') && Agrees(w, sp) && SameBytes(w, w') && w'.pte.Keys == w.pte.Keys + {(c, v)}
    requires forall k :: k in w.pte && k != (c, v) && k != (p, v) ==> w'.pte[k] == w.pte[k]
    ensures forall k :: k in w'.pte && k != (c, v) && k != (p, v) ==> PageAgrees(w', sp.(pages := sp.pages[(c, v) := child]), k)
  {
    forall k | k in w'.pte && k != (c, v) && k != (p, v)
      ensures PageAgrees(w', sp.(pages := sp.pages[(c, v) := child]), k)
    {
      KeepsAgreeing(w, w', sp, k);
    }
  }

  lemma WriteAgrees(w: View, w': View, sp: Spec, k: Key, off: nat, b: bv8)
    requires CowInv(w) && Step(w, w', Write(k, off, b)) && Agrees(w, sp)
    ensures SpecOk(sp) && SpecAllows(sp, Write(k, off, b)) && Agrees(w', SpecStep(sp, Write(k, off, b)))
  {
    AgreesOk(w, sp);
    var sp' := SpecStep(sp, Write(k, off, b));
    assert PageAgrees(w, sp, k);
    forall j | j in w'.pte ensures PageAgrees(w', sp', j) {
      assert PageAgrees(w, sp, j);
    }
  }

  lemma NewAgrees(w: View, w': View, sp: Spec, k: Key, perm: Perm, g: nat)
    requires CowInv(w) && Step(w, w', New(k, perm, g)) && Agrees(w, sp)
    ensures SpecOk(sp) && SpecAllows(sp, New(k, perm, g)) && Agrees(w', SpecStep(sp, New(k, perm, g)))
  {
    AgreesOk(w, sp);
    FreshCell(w, sp, g);
    var sp' := SpecStep(sp, New(k, perm, g));
    forall j | j in w'.pte ensures PageAgrees(w', sp', j) {
      if j != k {
        NewKeeps(w, w', sp, k, perm, g, j);
      }
    }
  }

  lemma FreshCell(w: View, sp: Spec, g: nat)
    requires WellMapped(w) && Agrees(w, sp) && !MapsFrame(w.pte, g)
    ensures forall j :: j in sp.pages && sp.pages[j].Common? ==> sp.pages[j].cell != g
  {
    forall j | j in sp.pages && sp.pages[j].Common? ensures sp.pages[j].cell != g {
      assert PageAgrees(w, sp, j);
    }
  }

  lemma NewKeeps(w: View, w': View, sp: Spec, k: Key, perm: Perm, g: nat, j: Key)
    requires CowInv(w) && Step(w, w', New(k, perm, g)) && Agrees(w, sp) && SpecOk(sp) && SpecAllows(sp, New(k, perm, g))
    requires j in w.pte && j != k && forall i :: i in sp.pages && sp.pages[i].Common? ==> sp.pages[i].cell != g
    ensures j in SpecStep(sp, New(k, perm, g)).pages && PageAgrees(w', SpecStep(sp, New(k, perm, g)), j)
  {
    KeepsAgreeing(w, w', sp, j);
  }

  lemma ReadAgrees(w: View, w': View, sp: Spec, k: Key, off: nat, b: bv8)
    requires CowInv(w) && Step(w, w', Read(k, off, b)) && Agrees(w, sp)
    ensures SpecOk(sp) && SpecAllows(sp, Read(k, off, b)) && Agrees(w', SpecStep(sp, Read(k, off, b)))
  {
    AgreesOk(w, sp);
    assert Bytes(sp, k) == Load(w, k);
  }

  // Whatever a copy-on-write step does, the eager machine may do too, and the two
  // still agree on every page of every environment.
  lemma StepRefines(w: View, w': View, ev: Event, sp: Spec)
    requires CowInv(w) && Step(w, w', ev) && Agrees(w, sp)
    ensures CowInv(w') && SpecOk(sp) && SpecAllows(sp, ev) && Agrees(w', SpecStep(sp, ev))
  {
    StepKeepsInv(w, w', ev);
    if ev.Fault? || ev.Dup? || ev.DupLost? {
      ForkAgrees(w, w', ev, sp);
    } else {
      UseAgrees(w, w', ev, sp);
    }
  }

  // Steps of fork and of its fault handler.
  lemma ForkAgrees(w: View, w': View, ev: Event, sp: Spec)
    requires CowInv(w) && Step(w, w', ev) && Agrees(w, sp) && (ev.Fault? || ev.Dup? || ev.DupLost?)
    ensures SpecOk(sp) && SpecAllows(sp, ev) && Agrees(w', SpecStep(sp, ev))
  {
    match ev
    case Fault(k) => FaultAgrees(w, w', sp, k);
    case Dup(p, c, v) => DupAgrees(w, w', sp, p, c, v);
    case DupLost(p, c, v) => LostAgrees(w, w', p, c, v, sp);
  }

  // And all others.
  lemma UseAgrees(w: View, w': View, ev: Event, sp: Spec)
    requires CowInv(w) && Step(w, w', ev) && Agrees(w, sp) && !ev.Fault? && !ev.Dup? && !ev.DupLost?
    ensures SpecOk(sp) && SpecAllows(sp, ev) && Agrees(w', SpecStep(sp, ev))
  {
    match ev
    case Read(k, off, b) => ReadAgrees(w, w', sp, k, off, b);
    case Write(k, off, b) => WriteAgrees(w, w', sp, k, off, b);
    case New(k, perm, g) => NewAgrees(w, w', sp, k, perm, g);
    case Map(x, y, perm, g) => MapAgrees(w, w', sp, x, y, perm, g);
    case _ => LessAgrees(w, w', ev, sp);
  }

  lemma MapAgrees(w: View, w': View, sp: Spec, x: Key, y: Key, perm: Perm, g: nat)
    requires CowInv(w) && Step(w, w', Map(x, y, perm, g)) && Agrees(w, sp)
    ensures SpecOk(sp) && SpecAllows(sp, Map(x, y, perm, g)) && Agrees(w', SpecStep(sp, Map(x, y, perm, g)))
  {
    AgreesOk(w, sp);
    MapAllowed(w, sp, x, y, perm, g);
    assert MapsFrame(w.pte, g) && w'.pte[y].frame == g && MapsFrame(w'.pte, g);
    MapPagesAgree(w, w', sp, y, perm, g, Load(w, x));
  }

  lemma MapPagesAgree(w: View, w': View, sp: Spec, y: Key, perm: Perm, g: nat, page: Page)
    requires WellMapped(w) && WellMapped(w') && Agrees(w, sp) && SameBytes(w, w') && g < |w.content| && page == w.content[g]
    requires w'.pte == w.pte[y := Pte(g, perm)] && w'.content[g] == page
    ensures Agrees(w', MapPages(sp, y, perm, g, page))
  {
    forall j | j in w'.pte && j != y ensures PageAgrees(w', MapPages(sp, y, perm, g, page), j) {
      MapKeeps(w, w', sp, y, perm, g, page, j);
    }
  }

  lemma MapKeeps(w: View, w': View, sp: Spec, y: Key, perm: Perm, g: nat, page: Page, j: Key)
    requires WellMapped(w) && WellMapped(w') && Agrees(w, sp) && SameBytes(w, w') && g < |w.content| && page == w.content[g]
    requires j in w.pte && j != y && j in w'.pte && w'.pte[j] == w.pte[j]
    ensures PageAgrees(w', MapPages(sp, y, perm, g, page), j)
  {
    KeepsAgreeing(w, w', sp, j);
    assert PageAgrees(w, sp, j);
  }

  lemma MapAllowed(w: View, sp: Spec, x: Key, y: Key, perm: Perm, g: nat)
    requires CowInv(w) && Agrees(w, sp) && SpecOk(sp) && x in w.pte && w.pte[x].frame == g && MapFits(w.pte, y, g, perm)
    ensures SpecAllows(sp, Map(x, y, perm, g))
  {
    assert PageAgrees(w, sp, x);
    if perm.share && !w.pte[x].perm.share {
      assert x == y;
      forall k | k in sp.pages && k != y ensures !IsCell(sp, k, g) {
        assert PageAgrees(w, sp, k);
      }
    }
  }

  // Steps that at most take mappings away.
  lemma LessAgrees(w: View, w': View, ev: Event, sp: Spec)
    requires CowInv(w) && Step(w, w', ev) && Agrees(w, sp)
    requires ev.Unmap? || ev.Exit? || ev.Idle?
    ensures SpecOk(sp) && SpecAllows(sp, ev) && Agrees(w', SpecStep(sp, ev))
  {
    AgreesOk(w, sp);
    FewerAgree(w, w', sp, SpecStep(sp, ev));
  }

  lemma LostAgrees(w: View, w': View, p: nat, c: nat, v: nat, sp: Spec)
    requires CowInv(w) && Step(w, w', DupLost(p, c, v)) && Agrees(w, sp)
    ensures SpecOk(sp) && SpecAllows(sp, DupLost(p, c, v)) && Agrees(w', SpecStep(sp, DupLost(p, c, v)))
  {
    AgreesOk(w, sp);
    assert PageAgrees(w, sp, (p, v));
    FewerAgree(w, w', sp, sp);
  }

  lemma FewerAgree(w: View, w': View, sp: Spec, sp': Spec)
    requires WellMapped(w) && WellMapped(w') && Agrees(w, sp) && SameBytes(w, w')
    requires sp'.cells == sp.cells && sp'.pages.Keys == w'.pte.Keys
    requires forall j :: j in w'.pte ==> j in w.pte && w'.pte[j] == w.pte[j] && sp'.pages[j] == sp.pages[j]
    ensures Agrees(w', sp')
  {
    forall j | j in w'.pte ensures PageAgrees(w', sp', j) {
      KeepsAgreeing(w, w', sp, j);
    }
  }

  // ---- whole runs ---------------------------------------------------------------------

  ghost predicate Run(ws: seq<View>, evs: seq<Event>) {
    |ws| == |evs| + 1 && forall i :: 0 <= i < |evs| ==> Step(ws[i], ws[i + 1], evs[i])
  }

  // The eager machine can perform the events one after the other.
  ghost predicate SpecAccepts(sp: Spec, evs: seq<Event>)
    decreases evs
  {
    SpecOk(sp) && (evs == [] || (SpecAllows(sp, evs[0]) && SpecAccepts(SpecStep(sp, evs[0]), evs[1..])))
  }

  ghost function SpecAfter(sp: Spec, evs: seq<Event>): Spec
    requires SpecAccepts(sp, evs)
    decreases evs
  {
    if evs == [] then sp else SpecAfter(SpecStep(sp, evs[0]), evs[1..])
  }

  // Over any run of loads, stores, write faults, page copies, allocations, further
  // mappings, unmaps and exits by any environments, everything observed is what eager copying gives.
  lemma {:induction false} RunRefines(ws: seq<View>, evs: seq<Event>, sp: Spec)
    requires Run(ws, evs) && CowInv(ws[0]) && Agrees(ws[0], sp)
    ensures SpecAccepts(sp, evs)
    ensures CowInv(ws[|evs|]) && Agrees(ws[|evs|], SpecAfter(sp, evs))
    decreases evs
  {
    AgreesOk(ws[0], sp);
    if evs != [] {
      StepRefines(ws[0], ws[1], evs[0], sp);
      assert Run(ws[1..], evs[1..]);
      RunRefines(ws[1..], evs[1..], SpecStep(sp, evs[0]));
    }
  }
}
