// fork among other environments: its system calls as part of any run of the kernel, and
// when the child then has all that eager copying would have given it.
module ForkRuns {
  import opened Inc
  import opened Vm
  import opened VmSteps
  import opened Pmap
  import opened Cow
  import opened Fork

  // ---- the eager machine that loses nothing ---------------------------------------------

  function Eager(ev: Event): Event {
    if ev.DupLost? then Dup(ev.parent, ev.child, ev.page) else ev
  }

  function EagerEvents(evs: seq<Event>): (es: seq<Event>)
    ensures |es| == |evs| && forall i :: 0 <= i < |evs| ==> es[i] == Eager(evs[i])
  {
    seq(|evs|, i requires 0 <= i < |evs| => Eager(evs[i]))
  }

  ghost predicate SpecGoes(sp: Spec, sp': Spec, ev: Event) {
    SpecOk(sp) && SpecAllows(sp, ev) && sp' == SpecStep(sp, ev)
  }

  ghost predicate SpecRun(sps: seq<Spec>, evs: seq<Event>) {
    |sps| == |evs| + 1 && forall i :: 0 <= i < |evs| ==> SpecGoes(sps[i], sps[i + 1], evs[i])
  }

  // `full` has every page `sp` has, and besides only private ones.
  ghost predicate Ahead(full: Spec, sp: Spec) {
    && full.cells == sp.cells
    && (forall k :: k in sp.pages ==> k in full.pages && full.pages[k] == sp.pages[k])
    && (forall k :: k in full.pages && k !in sp.pages ==> full.pages[k].Private?)
  }

  lemma StepOk(sp: Spec, ev: Event)
    requires SpecOk(sp) && SpecAllows(sp, ev)
    ensures SpecOk(SpecStep(sp, ev))
  {}

  // Whatever a machine that lost pages may do, one that did not may do as well, and is
  // still ahead.
  lemma StaysAhead(full: Spec, sp: Spec, ev: Event)
    requires SpecOk(full) && SpecOk(sp) && Ahead(full, sp) && SpecAllows(sp, ev)
    ensures SpecAllows(full, Eager(ev)) && Ahead(SpecStep(full, Eager(ev)), SpecStep(sp, ev))
  {
    if ev.New? && ev.perm.share {
      forall k ensures !IsCell(full, k, ev.cell) {
        assert !IsCell(sp, k, ev.cell);
      }
    }
  }

  lemma {:induction false} BothRun(ss: seq<State>, evs: seq<Event>, sp: Spec, most: Spec) returns (sps: seq<Spec>, full: seq<Spec>)
    requires KernelRun(ss, evs) && Fits(ss[0], sp, most)
    ensures SpecRun(sps, evs) && SpecRun(full, EagerEvents(evs)) && sps[0] == sp && full[0] == most
    ensures AllFit(ss, sps, full)
    decreases |evs|
  {
    if evs == [] {
      sps, full := [sp], [most];
    } else {
      BothGo(ss[0], ss[1], evs[0], sp, most);
      var rest, restFull := BothRun(ss[1..], evs[1..], SpecStep(sp, evs[0]), SpecStep(most, Eager(evs[0])));
      sps, full := [sp] + rest, [most] + restFull;
      BothCons(ss, evs, sp, rest, most, restFull);
    }
  }

  lemma BothCons(ss: seq<State>, evs: seq<Event>, sp: Spec, rest: seq<Spec>, most: Spec, restFull: seq<Spec>)
    requires evs != [] && |ss| == |evs| + 1 && Fits(ss[0], sp, most) && AllFit(ss[1..], rest, restFull)
    requires SpecRun(rest, evs[1..]) && SpecRun(restFull, EagerEvents(evs[1..]))
    requires SpecGoes(sp, rest[0], evs[0]) && SpecGoes(most, restFull[0], Eager(evs[0]))
    ensures SpecRun([sp] + rest, evs) && SpecRun([most] + restFull, EagerEvents(evs)) && AllFit(ss, [sp] + rest, [most] + restFull)
  {
    RunCons(sp, rest, evs);
    EagerTail(evs);
    RunCons(most, restFull, EagerEvents(evs));
    FitCons(ss, sp, rest, most, restFull);
  }

  lemma EagerTail(evs: seq<Event>)
    requires evs != []
    ensures EagerEvents(evs)[1..] == EagerEvents(evs[1..])
  {}

  lemma RunCons(sp: Spec, sps: seq<Spec>, evs: seq<Event>)
    requires evs != [] && SpecRun(sps, evs[1..]) && SpecGoes(sp, sps[0], evs[0])
    ensures SpecRun([sp] + sps, evs)
  {
    forall i | 0 <= i < |evs| ensures SpecGoes(([sp] + sps)[i], ([sp] + sps)[i + 1], evs[i]) {
      if i > 0 {
        assert SpecGoes(sps[i - 1], sps[i - 1 + 1], evs[1..][i - 1]);
      }
    }
  }

  ghost predicate AllFit(ss: seq<State>, sps: seq<Spec>, full: seq<Spec>) {
    |sps| == |full| == |ss| && forall i :: 0 <= i < |ss| ==> Fits(ss[i], sps[i], full[i])
  }

  lemma FitCons(ss: seq<State>, sp: Spec, sps: seq<Spec>, most: Spec, full: seq<Spec>)
    requires ss != [] && Fits(ss[0], sp, most) && AllFit(ss[1..], sps, full)
    ensures AllFit(ss, [sp] + sps, [most] + full)
  {
    forall i | 0 <= i < |ss| ensures Fits(ss[i], ([sp] + sps)[i], ([most] + full)[i]) {
      if i > 0 {
        FitAt(ss, sps, full, i - 1, ss[i], ([sp] + sps)[i], ([most] + full)[i]);
      } else {
        SameFit(ss[0], sp, most, ss[i], ([sp] + sps)[i], ([most] + full)[i]);
      }
    }
  }

  lemma SameFit(s: State, sp: Spec, most: Spec, s1: State, sp1: Spec, most1: Spec)
    requires Fits(s, sp, most) && s1 == s && sp1 == sp && most1 == most
    ensures Fits(s1, sp1, most1)
  {}

  lemma FitAt(ss: seq<State>, sps: seq<Spec>, full: seq<Spec>, j: nat, s: State, sp: Spec, most: Spec)
    requires j < |ss| - 1 && AllFit(ss[1..], sps, full) && s == ss[j + 1] && sp == sps[j] && most == full[j]
    ensures Fits(s, sp, most)
  {
    assert ss[1..][j] == ss[j + 1];
    assert Fits(ss[1..][j], sps[j], full[j]);
  }

  // The kernel's state, the eager machine with the same losses, and the one without.
  ghost predicate Fits(s: State, sp: Spec, full: Spec) {
    Inv(s) && CowInv(ViewOf(s)) && Agrees(ViewOf(s), sp) && SpecOk(sp) && SpecOk(full) && Ahead(full, sp)
  }

  lemma BothGo(s: State, s': State, ev: Event, sp: Spec, full: Spec)
    requires Fits(s, sp, full) && KernelStep(s, s', ev)
    ensures SpecAllows(sp, ev) && SpecAllows(full, Eager(ev))
    ensures Fits(s', SpecStep(sp, ev), SpecStep(full, Eager(ev)))
  {
    KernelStepIsStep(s, s', ev);
    StepRefines(ViewOf(s), ViewOf(s'), ev, sp);
    StaysAhead(full, sp, ev);
    StepOk(sp, ev);
    StepOk(full, Eager(ev));
  }

  // ---- fork as part of a run ----------------------------------------------------------------

  // The eager machine's page `k` may be another one after the event.
  predicate Touches(ev: Event, k: Key) {
    match ev
    case Write(x, _, _) => x == k
    case Dup(_, c, v) => (c, v) == k
    case New(x, _, _) => x == k
    case Map(_, y, _, _) => y == k
    case Unmap(x) => x == k
    case Exit(e) => e == k.0
    case _ => false
  }

  lemma Untouched(sp: Spec, ev: Event, k: Key)
    requires SpecOk(sp) && SpecAllows(sp, ev) && !Touches(ev, k)
    ensures k in SpecStep(sp, ev).pages <==> k in sp.pages
    ensures k in sp.pages ==> SpecStep(sp, ev).pages[k] == sp.pages[k]
  {}

  ghost predicate UserAt(s: State, p: nat, v: nat)
    requires Shape(s)
  {
    (p, v) in ViewOf(s).pte && ViewOf(s).pte[(p, v)].perm.u
  }

  // duppage of page `v` fails without notice: the page is read-only, and there is neither a
  // page table for it in the child nor a frame to make one from.
  ghost predicate Loses(s: State, p: nat, c: nat, v: nat)
    requires Shape(s)
  {
    UserAt(s, p, v) && ReadOnly(ViewOf(s).pte[(p, v)].perm) && NoRoom(s, c, v)
  }

  // What a round of fork's loop that does not panic is, from state `s`.
  ghost predicate Round(s: State, ev: Event, p: nat, c: nat, v: nat)
    requires Shape(s)
  {
    ev == if Loses(s, p, c, v) then DupLost(p, c, v) else if UserAt(s, p, v) then Dup(p, c, v) else Idle
  }

  predicate RoundEvent(ev: Event, p: nat, c: nat, v: nat) {
    ev == DupLost(p, c, v) || ev == Dup(p, c, v) || ev == Idle
  }

  // The round of fork's loop for page `v` is event at[v], and event `top` the allocation
  // of the exception stack of the new child `c`.  All other events are other
  // environments' or p's own, and leave the child alone.
  ghost predicate Schedule(evs: seq<Event>, p: nat, c: nat, at: seq<nat>, top: nat, f: nat) {
    && |at| == USTACK_PAGES && (forall u, v :: 0 <= u < v < |at| ==> at[u] < at[v])
    && (forall v :: 0 <= v < |at| ==> at[v] < top) && top < |evs|
    && (forall v :: 0 <= v < |at| ==> RoundEvent(evs[at[v]], p, c, v))
    && evs[top] == New((c, UXSTACK_PAGE), USER_RW, f)
    && (forall i, v :: 0 <= i < |evs| && i != top && i !in at && 0 <= v ==> !Touches(Eager(evs[i]), (c, v)))
  }

  // In this run `p` forks.
  ghost predicate Forks(ss: seq<State>, evs: seq<Event>, p: nat, c: nat, at: seq<nat>, top: nat, f: nat) {
    && KernelRun(ss, evs) && p != c && (forall x :: x in ViewOf(ss[0]).pte ==> x.0 != c)
    && Schedule(evs, p, c, at, top, f)
    && (forall v :: 0 <= v < |at| ==> Shape(ss[at[v]]) && Round(ss[at[v]], evs[at[v]], p, c, v))
  }

  // Page `v` of the child is touched by nothing but its own round.
  lemma OnlyItsRound(evs: seq<Event>, p: nat, c: nat, at: seq<nat>, top: nat, f: nat, v: nat, i: nat)
    requires Schedule(evs, p, c, at, top, f) && i < |evs|
    requires if v < USTACK_PAGES then i != at[v] else v == UXSTACK_PAGE ==> i != top
    ensures !Touches(Eager(evs[i]), (c, v))
  {
    if i in at {
      var u :| 0 <= u < |at| && at[u] == i;
      assert RoundEvent(evs[at[u]], p, c, u);
    }
  }

  lemma EagerTouches(ev: Event, k: Key)
    requires !Touches(Eager(ev), k)
    ensures !Touches(ev, k)
  {}

  ghost predicate Both(ss: seq<State>, evs: seq<Event>, sps: seq<Spec>, full: seq<Spec>) {
    |ss| == |evs| + 1 && SpecRun(sps, evs) && SpecRun(full, EagerEvents(evs)) && AllFit(ss, sps, full)
  }

  lemma Goes(ss: seq<State>, evs: seq<Event>, sps: seq<Spec>, full: seq<Spec>, i: nat)
    requires Both(ss, evs, sps, full) && i < |evs|
    ensures SpecGoes(sps[i], sps[i + 1], evs[i]) && SpecGoes(full[i], full[i + 1], Eager(evs[i]))
    ensures Fits(ss[i], sps[i], full[i])
  {
    assert EagerEvents(evs)[i] == Eager(evs[i]);
    assert SpecGoes(full[i], full[i + 1], EagerEvents(evs)[i]);
  }

  lemma {:induction false} Unchanged(sps: seq<Spec>, evs: seq<Event>, k: Key, i: nat, j: nat)
    requires SpecRun(sps, evs) && i <= j <= |evs| && forall m :: i <= m < j ==> !Touches(evs[m], k)
    ensures k in sps[j].pages <==> k in sps[i].pages
    ensures k in sps[i].pages ==> sps[j].pages[k] == sps[i].pages[k]
    decreases j - i
  {
    if i < j {
      Unchanged(sps, evs, k, i, j - 1);
      assert SpecGoes(sps[j - 1], sps[j - 1 + 1], evs[j - 1]);
      Untouched(sps[j - 1], evs[j - 1], k);
    }
  }

  // A page that only event `r` touches, in both machines.
  lemma OnlyAt(evs: seq<Event>, sps: seq<Spec>, full: seq<Spec>, k: Key, r: nat)
    requires SpecRun(sps, evs) && SpecRun(full, EagerEvents(evs)) && r < |evs|
    requires forall i :: 0 <= i < |evs| && i != r ==> !Touches(Eager(evs[i]), k)
    ensures k in sps[r].pages <==> k in sps[0].pages
    ensures k in full[r].pages <==> k in full[0].pages
    ensures k in sps[|evs|].pages <==> k in sps[r + 1].pages
    ensures k in full[|evs|].pages <==> k in full[r + 1].pages
    ensures k in full[r + 1].pages ==> full[|evs|].pages[k] == full[r + 1].pages[k]
  {
    forall i | 0 <= i < |evs| && i != r ensures !Touches(evs[i], k) {
      EagerTouches(evs[i], k);
    }
    Unchanged(sps, evs, k, 0, r);
    Unchanged(sps, evs, k, r + 1, |evs|);
    Unchanged(full, EagerEvents(evs), k, 0, r);
    Unchanged(full, EagerEvents(evs), k, r + 1, |evs|);
  }

  // What the two machines finally have of page `v` of the child: the eager one the page
  // the parent had when its round came, the other one that or nothing.
  ghost predicate ChildPage(s: State, now: Spec, sp: Spec, full: Spec, p: nat, c: nat, v: nat)
    requires Shape(s)
  {
    && ((c, v) in full.pages <==> UserAt(s, p, v))
    && ((c, v) in sp.pages <==> UserAt(s, p, v) && !Loses(s, p, c, v))
    && (UserAt(s, p, v) ==> (p, v) in now.pages && full.pages[(c, v)] == now.pages[(p, v)])
  }

  lemma ChildPageIs(ss: seq<State>, evs: seq<Event>, sps: seq<Spec>, full: seq<Spec>,
                    p: nat, c: nat, at: seq<nat>, top: nat, f: nat, v: nat, r: nat)
    requires Schedule(evs, p, c, at, top, f) && Both(ss, evs, sps, full)
    requires v < USTACK_PAGES && r == at[v] < |evs| && Round(ss[r], evs[r], p, c, v)
    requires (c, v) !in full[0].pages && (c, v) !in sps[0].pages
    ensures ChildPage(ss[r], full[r], sps[|evs|], full[|evs|], p, c, v)
  {
    forall i | 0 <= i < |evs| && i != r ensures !Touches(Eager(evs[i]), (c, v)) {
      OnlyItsRound(evs, p, c, at, top, f, v, i);
    }
    OnlyAt(evs, sps, full, (c, v), r);
    Goes(ss, evs, sps, full, r);
    RoundOfPage(ss[r], evs[r], sps[r], full[r], p, c, v);
  }

  lemma RoundOfPage(s: State, ev: Event, sp: Spec, full: Spec, p: nat, c: nat, v: nat)
    requires Fits(s, sp, full) && Round(s, ev, p, c, v) && SpecAllows(sp, ev) && SpecAllows(full, Eager(ev))
    requires (c, v) !in full.pages && (c, v) !in sp.pages
    ensures var done := UserAt(s, p, v);
            && ((c, v) in SpecStep(full, Eager(ev)).pages <==> done)
            && ((c, v) in SpecStep(sp, ev).pages <==> done && !Loses(s, p, c, v))
            && (done ==> (p, v) in full.pages && SpecStep(full, Eager(ev)).pages[(c, v)] == full.pages[(p, v)])
  {}

  lemma StackPageIs(ss: seq<State>, evs: seq<Event>, sps: seq<Spec>, full: seq<Spec>,
                    p: nat, c: nat, at: seq<nat>, top: nat, f: nat)
    requires Schedule(evs, p, c, at, top, f) && Both(ss, evs, sps, full)
    ensures (c, UXSTACK_PAGE) in sps[|evs|].pages && (c, UXSTACK_PAGE) in full[|evs|].pages
    ensures full[|evs|].pages[(c, UXSTACK_PAGE)] == Private(ZeroPage(), true)
  {
    forall i | 0 <= i < |evs| && i != top ensures !Touches(Eager(evs[i]), (c, UXSTACK_PAGE)) {
      OnlyItsRound(evs, p, c, at, top, f, UXSTACK_PAGE, i);
    }
    OnlyAt(evs, sps, full, (c, UXSTACK_PAGE), top);
    Goes(ss, evs, sps, full, top);
    NewPage(sps[top], sps[top + 1], (c, UXSTACK_PAGE), f);
    NewPage(full[top], full[top + 1], (c, UXSTACK_PAGE), f);
  }

  lemma NewPage(sp: Spec, sp': Spec, k: Key, f: nat)
    requires SpecGoes(sp, sp', New(k, USER_RW, f))
    ensures k in sp'.pages && sp'.pages[k] == Private(ZeroPage(), true)
  {}

  lemma NoOtherPage(evs: seq<Event>, sps: seq<Spec>, full: seq<Spec>, p: nat, c: nat, at: seq<nat>, top: nat, f: nat, v: nat)
    requires Schedule(evs, p, c, at, top, f) && SpecRun(full, EagerEvents(evs))
    requires v >= USTACK_PAGES && v != UXSTACK_PAGE && (c, v) !in full[0].pages
    ensures (c, v) !in full[|evs|].pages
  {
    forall i | 0 <= i < |evs| ensures !Touches(EagerEvents(evs)[i], (c, v)) {
      OnlyItsRound(evs, p, c, at, top, f, v, i);
    }
    Unchanged(full, EagerEvents(evs), (c, v), 0, |evs|);
  }

  // Environment `e` has exactly the pages the eager machine gives it.
  ghost predicate SameSpace(w: View, sp: Spec, e: nat)
    requires WellMapped(w)
  {
    forall v: nat :: ((e, v) in w.pte <==> (e, v) in sp.pages) && ((e, v) in w.pte ==> PageAgrees(w, sp, (e, v)))
  }

  lemma SpaceIff(w: View, sp: Spec, full: Spec, e: nat)
    requires WellMapped(w) && Agrees(w, sp) && Ahead(full, sp)
    ensures SameSpace(w, full, e) <==> forall v: nat :: (e, v) in full.pages ==> (e, v) in sp.pages
  {
    forall v: nat | (e, v) in w.pte ensures PageAgrees(w, full, (e, v)) {
      assert PageAgrees(w, sp, (e, v));
    }
  }

  ghost predicate NothingLost(ss: seq<State>, p: nat, c: nat, at: seq<nat>)
    requires forall v :: 0 <= v < |at| ==> at[v] < |ss| && Shape(ss[at[v]])
  {
    forall v :: 0 <= v < |at| ==> !Loses(ss[at[v]], p, c, v)
  }

  // The child's page is the one the parent had then, if that was a user page.
  ghost predicate CopiedInRound(s: State, now: Spec, full: Spec, p: nat, c: nat, v: nat)
    requires Shape(s)
  {
    && ((c, v) in full.pages <==> UserAt(s, p, v))
    && (UserAt(s, p, v) ==> (p, v) in now.pages && full.pages[(c, v)] == now.pages[(p, v)])
  }

  lemma InterruptedPages(ss: seq<State>, evs: seq<Event>, p: nat, c: nat, at: seq<nat>, top: nat, f: nat, sp: Spec)
    returns (full: seq<Spec>)
    requires Forks(ss, evs, p, c, at, top, f) && CowInv(ViewOf(ss[0])) && Agrees(ViewOf(ss[0]), sp)
    ensures SpecRun(full, EagerEvents(evs)) && full[0] == sp && Inv(ss[|evs|]) && WellMapped(ViewOf(ss[|evs|]))
    ensures forall v :: 0 <= v < USTACK_PAGES ==> CopiedInRound(ss[at[v]], full[at[v]], full[|evs|], p, c, v)
    ensures (c, UXSTACK_PAGE) in full[|evs|].pages && full[|evs|].pages[(c, UXSTACK_PAGE)] == Private(ZeroPage(), true)
    ensures forall v: nat :: (c, v) in full[|evs|].pages ==> v < USTACK_PAGES || v == UXSTACK_PAGE
    ensures SameSpace(ViewOf(ss[|evs|]), full[|evs|], c) <==> NothingLost(ss, p, c, at)
  {
    AgreesOk(ViewOf(ss[0]), sp);
    var sps: seq<Spec>;
    sps, full := BothRun(ss, evs, sp, sp);
    ChildPages(ss, evs, sps, full, p, c, at, top, f);
    StackPageIs(ss, evs, sps, full, p, c, at, top, f);
    assert Fits(ss[|evs|], sps[|evs|], full[|evs|]);
    SpaceIff(ViewOf(ss[|evs|]), sps[|evs|], full[|evs|], c);
    LostIff(ss, sps[|evs|], full[|evs|], full, p, c, at);
  }

  lemma ChildPages(ss: seq<State>, evs: seq<Event>, sps: seq<Spec>, full: seq<Spec>,
                   p: nat, c: nat, at: seq<nat>, top: nat, f: nat)
    requires Forks(ss, evs, p, c, at, top, f) && Both(ss, evs, sps, full) && sps[0] == full[0]
    ensures forall v :: 0 <= v < USTACK_PAGES ==> ChildPage(ss[at[v]], full[at[v]], sps[|evs|], full[|evs|], p, c, v)
    ensures forall v: nat :: v >= USTACK_PAGES && v != UXSTACK_PAGE ==> (c, v) !in full[|evs|].pages
  {
    assert Fits(ss[0], sps[0], full[0]);
    assert forall v: nat :: (c, v) !in full[0].pages;
    forall v | 0 <= v < USTACK_PAGES ensures ChildPage(ss[at[v]], full[at[v]], sps[|evs|], full[|evs|], p, c, v) {
      ChildPageIs(ss, evs, sps, full, p, c, at, top, f, v, at[v]);
    }
    forall v: nat | v >= USTACK_PAGES && v != UXSTACK_PAGE ensures (c, v) !in full[|evs|].pages {
      NoOtherPage(evs, sps, full, p, c, at, top, f, v);
    }
  }

  lemma LostIff(ss: seq<State>, sp: Spec, last: Spec, full: seq<Spec>, p: nat, c: nat, at: seq<nat>)
    requires |at| == USTACK_PAGES && |full| == |ss| && forall v :: 0 <= v < |at| ==> at[v] < |ss| && Shape(ss[at[v]])
    requires forall v :: 0 <= v < USTACK_PAGES ==> ChildPage(ss[at[v]], full[at[v]], sp, last, p, c, v)
    requires forall v: nat :: v >= USTACK_PAGES && v != UXSTACK_PAGE ==> (c, v) !in last.pages
    requires (c, UXSTACK_PAGE) in sp.pages
    ensures (forall v: nat :: (c, v) in last.pages ==> (c, v) in sp.pages) <==> NothingLost(ss, p, c, at)
  {
    if !NothingLost(ss, p, c, at) {
      var v :| 0 <= v < |at| && Loses(ss[at[v]], p, c, v);
      assert ChildPage(ss[at[v]], full[at[v]], sp, last, p, c, v);
      assert (c, v) in last.pages && (c, v) !in sp.pages;
    } else {
      forall v: nat | (c, v) in last.pages ensures (c, v) in sp.pages {
        if v < USTACK_PAGES {
          assert ChildPage(ss[at[v]], full[at[v]], sp, last, p, c, v);
        }
      }
    }
  }

  // fork by `p` among any other events, by address.  `full` is the eager machine, in which every round
  // for a user page copies it there and then, and the child ends up with those copies and
  // a zeroed exception stack.  The real child has the same memory exactly when no round
  // met a read-only page with neither a free frame nor a page table of the child's.
  lemma InterruptedFork(ss: seq<State>, evs: seq<Event>, p: nat, c: nat, at: seq<nat>, top: nat, f: nat, sp: Spec)
    returns (full: seq<Spec>)
    requires Forks(ss, evs, p, c, at, top, f) && CowInv(ViewOf(ss[0])) && Agrees(ViewOf(ss[0]), sp)
    ensures SpecRun(full, EagerEvents(evs)) && full[0] == sp && Inv(ss[|evs|]) && WellMapped(ViewOf(ss[|evs|]))
    ensures forall v: nat :: v * PGSIZE < 0xee7f_e000 ==>
              v < |at| && CopiedInRound(ss[at[v]], full[at[v]], full[|evs|], p, c, v)
    ensures forall v: nat :: v * PGSIZE >= 0xee7f_e000 ==>
              if v * PGSIZE == 0xee7f_f000 then
                (c, v) in full[|evs|].pages && full[|evs|].pages[(c, v)] == Private(ZeroPage(), true)
              else (c, v) !in full[|evs|].pages
    ensures SameSpace(ViewOf(ss[|evs|]), full[|evs|], c) <==> NothingLost(ss, p, c, at)
  {
    full := InterruptedPages(ss, evs, p, c, at, top, f, sp);
    Layout();
  }

  // ---- a run in which fork succeeds without one of the pages -------------------------------

  lemma FreedTwo(s: State, s': State, e: nat, u: nat)
    requires Inv(s) && Inv(s') && SpaceFreed(s, s', e) && e in s.pgdirs && HasTable(s, e, u)
    ensures |s'.list| >= 2
  {
    var d := s.pgdirs[e];
    assert s.kind[d] == Dir(e);
    var t := s.tables[d][u / NPTENTRIES].frame;
    assert s.kind[t] == Table(d, u / NPTENTRIES);
    FreedExactly(s, s', e, d);
    FreedExactly(s, s', e, t);
    assert d in s'.list && t in s'.list && d != t;
  }

  // With no frame left, round `v` of fork loses its page; environment `e` exits; and the
  // exception stack can be had after all.
  lemma LostUnnoticed(s: State, s1: State, s2: State, p: nat, c: nat, v: nat, e: nat, f: nat)
    requires Inv(s) && p != c && c in s.pgdirs && Loses(s, p, c, v) && v < USTACK_PAGES && e != p && e != c
    requires KernelStep(s, s1, Exit(e)) && KernelStep(s1, s2, New((c, UXSTACK_PAGE), USER_RW, f))
    ensures KernelRun([s] + ([s] + ([s1] + [s2])), [DupLost(p, c, v)] + ([Exit(e)] + ([New((c, UXSTACK_PAGE), USER_RW, f)] + [])))
    ensures Round(s, DupLost(p, c, v), p, c, v)
    ensures UserAt(s2, p, v) && (c, v) !in ViewOf(s2).pte && (c, UXSTACK_PAGE) in ViewOf(s2).pte
  {
    KernelStepIsStep(s, s1, Exit(e));
    KernelStepIsStep(s1, s2, New((c, UXSTACK_PAGE), USER_RW, f));
    LostStep(s, s, p, c, v);
    LostViews(ViewOf(s), ViewOf(s1), ViewOf(s2), p, c, v, e, f);
    LostRun(s, s1, s2, DupLost(p, c, v), Exit(e), New((c, UXSTACK_PAGE), USER_RW, f));
  }

  lemma LostViews(w: View, w1: View, w2: View, p: nat, c: nat, v: nat, e: nat, f: nat)
    requires Step(w, w1, Exit(e)) && Step(w1, w2, New((c, UXSTACK_PAGE), USER_RW, f)) && v != UXSTACK_PAGE && p != c && p != e
    requires (p, v) in w.pte && (c, v) !in w.pte
    ensures (p, v) in w2.pte && w2.pte[(p, v)] == w.pte[(p, v)] && (c, v) !in w2.pte && (c, UXSTACK_PAGE) in w2.pte
  {}

  lemma LostRun(s: State, s1: State, s2: State, a: Event, b: Event, d: Event)
    requires Inv(s) && Inv(s2) && KernelStep(s, s, a) && KernelStep(s, s1, b) && KernelStep(s1, s2, d)
    ensures KernelRun([s] + ([s] + ([s1] + [s2])), [a] + ([b] + ([d] + [])))
  {
    assert KernelRun([s2], []);
    RunFrom(s1, [s2], d, []);
    RunFrom(s, [s1] + [s2], b, [d] + []);
    RunFrom(s, [s] + ([s1] + [s2]), a, [b] + ([d] + []));
  }

  lemma RunFrom(s: State, ss: seq<State>, ev: Event, evs: seq<Event>)
    requires KernelRun(ss, evs) && Inv(s) && KernelStep(s, ss[0], ev)
    ensures KernelRun([s] + ss, [ev] + evs)
  {
    assert ([s] + ss)[1..] == ss && ([ev] + evs)[1..] == evs;
  }

  // And the system calls do go that way.
  method ForkGoesOn(k: Kernel, p: nat, c: nat, v: nat, e: nat, ghost u: nat) returns (ok: bool)
    requires k.Valid() && p in k.pgdirs && c in k.pgdirs && e in k.pgdirs && p != c && e != p && e != c
    requires v < USTACK_PAGES && Loses(k.Snap(), p, c, v) && HasTable(k.Snap(), e, u)
    requires |Users(ViewOf(k.Snap()).pte, ViewOf(k.Snap()).pte[(p, v)].frame)| + 1 < MAX_REF
    modifies k
    ensures ok && k.Valid() && UserAt(k.Snap(), p, v) && (c, v) !in ViewOf(k.Snap()).pte
    ensures (c, UXSTACK_PAGE) in ViewOf(k.Snap()).pte
  {
    ghost var s := k.Snap();
    var pte := ReadPte(k, p, v);
    ViewEntry(s, p, v);
    ok := DupPage(k, p, c, v, pte);
    ghost var s1 := OtherExits(k, e, u, c);
    var r: int;
    ghost var f: nat;
    r, f := AllocPage(k, c, UXSTACK_PAGE);
    LostUnnoticed(s, s1, k.Snap(), p, c, v, e, f);
    ok := ok && r == 0;
  }

  method OtherExits(k: Kernel, e: nat, ghost u: nat, c: nat) returns (ghost s: State)
    requires k.Valid() && e in k.pgdirs && HasTable(k.Snap(), e, u) && c in k.pgdirs && c != e
    modifies k
    ensures k.Valid() && KernelStep(old(k.Snap()), k.Snap(), Exit(e)) && |k.list| >= 2 && s == k.Snap() && c in k.pgdirs
  {
    FreeSpace(k, e);
    s := k.Snap();
    FreedTwo(old(k.Snap()), s, e, u);
  }
}
