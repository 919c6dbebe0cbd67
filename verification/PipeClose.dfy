// Deciding whether the other end of a pipe is closed by comparing page reference
// counts (lib/pipe.c), against the order in which lib/fd.c maps and unmaps pages.
// One step is one system call, one shared read, or one context switch.
module PipeClose {
  import opened Inc

  const MAXFD := 32

  const FDTABLE := 0xD000_0000

  // Slots are the pages of the address space from FDTABLE on, past the top of memory
  // around to the page below FDTABLE.  From LAST_USER on they lie above UTOP, from
  // LOW_MEMORY on at the bottom of memory; fork copies what is below USTACKTOP.
  const SLOTS := 0x10_0000
  const LAST_COPIED := 0x1_e7fe
  const LAST_USER := 0x1_e800
  const LOW_MEMORY := 0x3_0000

  // The page system calls accept the slot.
  predicate Usable(i: nat) {
    i < LAST_USER || i >= LOW_MEMORY
  }

  predicate Copied(i: nat) {
    i < LAST_COPIED || i >= LOW_MEMORY
  }

  // The slot INDEX2FD computes from any int.
  function Slot(fdnum: int): (i: nat)
    ensures i < SLOTS
  {
    fdnum % SLOTS
  }

  // fd2data
  function DataSlot(i: nat): nat {
    if i + MAXFD < SLOTS then i + MAXFD else i + MAXFD - SLOTS
  }

  function Address(i: nat): nat {
    (FDTABLE + i * PGSIZE) % WORD
  }

  // The macros' 32-bit arithmetic, and the system calls' and fork's limits.
  lemma SlotAddress(fdnum: int, i: nat)
    requires i == Slot(fdnum)
    ensures (0xD000_0000 + fdnum * PGSIZE) % WORD == Address(i)
    ensures (0xD002_0000 + fdnum * PGSIZE) % WORD == Address(DataSlot(i))
    ensures Usable(i) <==> Address(i) < 0xee80_0000
    ensures Copied(i) <==> Address(i) < 0xee7f_e000
  {
    var k := SlotQuotient(fdnum, i);
    SameRemainder(FDTABLE + fdnum * PGSIZE, FDTABLE + i * PGSIZE, k);
    if i + MAXFD < SLOTS {
      SameRemainder(FDTABLE + (MAXFD + fdnum) * PGSIZE, FDTABLE + DataSlot(i) * PGSIZE, k);
    } else {
      SameRemainder(FDTABLE + (MAXFD + fdnum) * PGSIZE, FDTABLE + DataSlot(i) * PGSIZE, k + 1);
    }
    AddressIs(i);
  }

  lemma SlotQuotient(fdnum: int, i: nat) returns (k: int)
    requires i == Slot(fdnum)
    ensures fdnum == i + SLOTS * k
  {
    k := fdnum / SLOTS;
  }

  lemma SameRemainder(x: int, y: int, k: int)
    requires x == y + WORD * k
    ensures x % WORD == y % WORD
  {}

  lemma AddressIs(i: nat)
    requires i < SLOTS
    ensures Address(i) == if i < LOW_MEMORY then FDTABLE + i * PGSIZE else FDTABLE + i * PGSIZE - WORD
  {}

  // The two descriptor pages and the data page of pipe number `pipe`, and pages
  // that belong to no pipe.
  datatype Page = End(pipe: nat, write: bool) | Buf(pipe: nat) | Other(id: nat)

  // (process, page slot): slot i holds descriptor i, slot MAXFD + i its data page.
  type Place = (nat, nat)

  datatype Then = Return | Dup(from: nat, to: nat)

  // The library call a process is in the middle of, at its next system call or
  // shared read.
  datatype Pc =
    | Idle
    | CloseData(fd: nat, after: Then)
    | CloseAgain(fd: nat, after: Then)
    | DupData(from: nat, to: nat)
    | DupFd(from: nat, to: nat)
    | DupErrFd(to: nat)
    | DupErrData(to: nat)
    | Sample(fd: nat, fdFirst: bool)
    | SampleFirst(fd: nat, fdFirst: bool, n: nat)
    | SampleSecond(fd: nat, fdFirst: bool, n: nat, first: nat)
    | SampleEnd(fd: nat, fdFirst: bool, n: nat, ret: bool)

  datatype Proc = Proc(pc: Pc, runs: nat)

  // `cur` is the process on the CPU, and `next` the number of the next pipe.
  datatype State = State(slots: map<Place, Page>, procs: map<nat, Proc>, cur: nat, next: nat)

  // What the running process, or the kernel around it, does next.
  datatype Action =
    | Switch(to: nat)
    | Exit(proc: nat)
    | Close(fd: nat)
    | StartDup(from: nat, newfd: int)
    | StartCheck(fd: nat, fdFirst: bool)
    | MakePipe(r: nat, w: nat)
    | OpenOther(fd: nat, id: nat)
    | Fork(child: nat)
    | Advance(fails: bool)

  // ---- reference counts --------------------------------------------------------------

  ghost function Places(slots: map<Place, Page>, page: Page): set<Place> {
    set x | x in slots && slots[x] == page
  }

  // pageref() of a slot of process `p`
  ghost function PageRef(slots: map<Place, Page>, p: nat, slot: nat): nat {
    if (p, slot) in slots then |Places(slots, slots[(p, slot)])| else 0
  }

  // ---- steps ---------------------------------------------------------------------------

  ghost predicate IsEnd(slots: map<Place, Page>, p: nat, fd: nat) {
    fd < MAXFD && (p, fd) in slots && slots[(p, fd)].End?
  }

  // fd_alloc's choice
  ghost predicate LowestFree(slots: map<Place, Page>, p: nat, fd: nat) {
    fd < MAXFD && (p, fd) !in slots && forall i :: 0 <= i < fd ==> (p, i) in slots
  }

  function SetPc(st: State, pc: Pc): State
    requires st.cur in st.procs
  {
    st.(procs := st.procs[st.cur := st.procs[st.cur].(pc := pc)])
  }

  // A system call returns through env_run, which counts it.
  function Syscall(st: State, slots: map<Place, Page>, pc: Pc): State
    requires st.cur in st.procs
  {
    st.(slots := slots, procs := st.procs[st.cur := Proc(pc, st.procs[st.cur].runs + 1)])
  }

  function Resume(then_: Then): Pc {
    match then_
    case Return => Idle
    case Dup(from, to) => DupData(from, to)
  }

  // fd_close after a successful lookup: a pipe's close unmaps the descriptor first
  // and its data page after; other devices have only the descriptor unmapped.
  ghost function StartClose(st: State, fd: nat, after: Then): State
    requires st.cur in st.procs && (st.cur, fd) in st.slots
  {
    Syscall(st, st.slots - {(st.cur, fd)},
            if st.slots[(st.cur, fd)].End? then CloseData(fd, after) else Resume(after))
  }

  ghost predicate Enabled(st: State, a: Action) {
    match a
    case Switch(to) => to in st.procs
    case Exit(p) => p in st.procs && (p == st.cur || (st.cur in st.procs && st.procs[st.cur].pc.Idle?))
    case _ =>
      st.cur in st.procs &&
      var p, pc := st.cur, st.procs[st.cur].pc;
      match a
      case Close(fd) => pc.Idle? && fd < MAXFD && (p, fd) in st.slots
      case StartDup(from, to) => pc.Idle? && from < MAXFD && (p, from) in st.slots
      case StartCheck(fd, _) => pc.Idle? && IsEnd(st.slots, p, fd)
      case MakePipe(r, w) => pc.Idle? && LowestFree(st.slots, p, r) && LowestFree(st.slots[(p, r) := Other(0)], p, w)
      case OpenOther(fd, id) => pc.Idle? && LowestFree(st.slots, p, fd)
      case Fork(child) => pc.Idle? && child !in st.procs
      case _ => !pc.Idle?
  }

  ghost function Next(st: State, a: Action): State
    requires Enabled(st, a)
  {
    match a
    case Switch(to) => st.(cur := to, procs := st.procs[to := st.procs[to].(runs := st.procs[to].runs + 1)])
    case Exit(p) =>
      var st1 := if p == st.cur then st else Syscall(st, st.slots, Idle);
      st1.(slots := map x | x in st.slots && x.0 != p :: st.slots[x], procs := st1.procs - {p})
    case Close(fd) => StartClose(st, fd, Return)
    case StartDup(from, to) =>
      if 0 <= to < MAXFD && (st.cur, to) in st.slots then StartClose(st, to, Dup(from, to))
      else SetPc(st, DupData(from, Slot(to)))
    case StartCheck(fd, fdFirst) => SetPc(st, Sample(fd, fdFirst))
    case MakePipe(r, w) => Created(st, r, w)
    case OpenOther(fd, id) => Syscall(st, st.slots[(st.cur, fd) := Other(id)], Idle)
    case Fork(child) =>
      var st1 := Syscall(st, st.slots, Idle);
      st1.(slots := Forked(st.slots, st.cur, child),
           procs := st1.procs[child := Proc(Idle, 0)])
    case Advance(fails) => Advanced(st, fails)
  }

  // fork gives the child the parent's descriptor pages, all of them PTE_SHARE.
  ghost function Forked(slots: map<Place, Page>, p: nat, c: nat): map<Place, Page> {
    map x | x in slots.Keys + (set y | y in slots && y.0 == p && Copied(y.1) :: (c, y.1)) ::
      if x.0 == c && (p, x.1) in slots && Copied(x.1) then slots[(p, x.1)] else slots[x]
  }

  // sys_page_unmap
  function Unmapped(slots: map<Place, Page>, p: nat, i: nat): map<Place, Page> {
    if Usable(i) then slots - {(p, i)} else slots
  }

  ghost function PipePages(slots: map<Place, Page>, p: nat, r: nat, w: nat, k: nat): map<Place, Page> {
    slots[(p, MAXFD + r) := Buf(k)][(p, MAXFD + w) := Buf(k)][(p, r) := End(k, false)][(p, w) := End(k, true)]
  }

  // pipe(), whose pages no one else can name before it returns.
  ghost function Created(st: State, r: nat, w: nat): State
    requires st.cur in st.procs
  {
    var p, k := st.cur, st.next;
    Syscall(st, PipePages(st.slots, p, r, w, k), Idle).(next := k + 1)
  }

  // The next system call or read of the call in progress; `fails` is a mapping call
  // that runs out of memory.
  ghost function Advanced(st: State, fails: bool): State
    requires st.cur in st.procs && !st.procs[st.cur].pc.Idle?
  {
    var p, slots, pc := st.cur, st.slots, st.procs[st.cur].pc;
    match pc
    case CloseData(fd, after) => Syscall(st, slots - {(p, MAXFD + fd)}, CloseAgain(fd, after))
    case CloseAgain(fd, after) => Syscall(st, slots - {(p, fd)}, Resume(after))
    case DupData(from, to) =>
      if (p, MAXFD + from) !in slots then SetPc(st, DupFd(from, to))
      else if fails || !Usable(DataSlot(to)) then Syscall(st, slots, DupErrFd(to))
      else Syscall(st, slots[(p, DataSlot(to)) := slots[(p, MAXFD + from)]], DupFd(from, to))
    case DupFd(from, to) =>
      if (p, from) !in slots || fails || !Usable(to) then Syscall(st, slots, DupErrFd(to))
      else Syscall(st, slots[(p, to) := slots[(p, from)]], Idle)
    case DupErrFd(to) => Syscall(st, Unmapped(slots, p, to), DupErrData(to))
    case DupErrData(to) => Syscall(st, Unmapped(slots, p, DataSlot(to)), Idle)
    case Sample(fd, fdFirst) => SetPc(st, SampleFirst(fd, fdFirst, st.procs[p].runs))
    case SampleFirst(fd, fdFirst, n) =>
      SetPc(st, SampleSecond(fd, fdFirst, n, PageRef(slots, p, if fdFirst then fd else MAXFD + fd)))
    case SampleSecond(fd, fdFirst, n, first) =>
      SetPc(st, SampleEnd(fd, fdFirst, n, first == PageRef(slots, p, if fdFirst then MAXFD + fd else fd)))
    case SampleEnd(fd, fdFirst, n, ret) => SetPc(st, if n == st.procs[p].runs then Idle else Sample(fd, fdFirst))
  }

  // This step makes _pipeisclosed(fd) return true to the running process.
  ghost predicate SaysClosed(st: State, a: Action, fd: nat) {
    a.Advance? && st.cur in st.procs && st.procs[st.cur].pc.SampleEnd? &&
    var pc := st.procs[st.cur].pc;
    pc.fd == fd && pc.ret && pc.n == st.procs[st.cur].runs
  }

  // ---- what every step keeps --------------------------------------------------------------

  // A descriptor page may be here without harm: slots MAXFD to 2 * MAXFD - 1 are for data
  // pages, the data page must not be among the descriptors, and fork must copy both.
  predicate FdPlace(i: nat) {
    !(MAXFD <= i < 2 * MAXFD) && i + MAXFD < SLOTS && Copied(i) && Copied(i + MAXFD)
  }

  // Wherever a process maps an end, its data slot maps that pipe: fd_close unmaps the
  // descriptor before the data page, dup maps the data page before the descriptor.
  ghost predicate Guarded(slots: map<Place, Page>) {
    forall p, i :: (p, i) in slots && slots[(p, i)].End? ==>
      FdPlace(i) && (p, MAXFD + i) in slots && slots[(p, MAXFD + i)] == Buf(slots[(p, i)].pipe)
  }

  // Nothing at the slot below relies on slot `i` as its data page.
  ghost predicate Unguarding(slots: map<Place, Page>, p: nat, i: nat) {
    i >= MAXFD && (p, i - MAXFD) in slots ==> !slots[(p, i - MAXFD)].End?
  }

  ghost predicate Free(slots: map<Place, Page>, p: nat, fd: nat) {
    fd < MAXFD && (p, fd) !in slots
  }

  // dup closes the descriptor it is about to reuse.
  ghost predicate Reuses(after: Then, fd: nat) {
    after.Dup? ==> after.to == fd && after.from < MAXFD
  }

  // dup of descriptor `from` onto slot `to` does no harm: no open end loses its data page
  // to it, neither one at that slot nor one MAXFD slots below, and an end is only mapped
  // where it may be.
  ghost predicate DupSafe(slots: map<Place, Page>, p: nat, from: nat, to: nat) {
    && from < MAXFD && to < SLOTS
    && (Usable(DataSlot(to)) && (p, MAXFD + from) in slots && (p, to) in slots && slots[(p, to)].End? ==>
          slots[(p, MAXFD + from)] == Buf(slots[(p, to)].pipe))
    && (Usable(to) ==> Unguarding(slots, p, to))
    && ((p, from) in slots && slots[(p, from)].End? && Usable(to) && Usable(DataSlot(to)) && DataSlot(to) != from ==> FdPlace(to))
  }

  // As long as the process has not been switched away from, what it sampled is current.
  ghost predicate PcOk(st: State, p: nat)
    requires p in st.procs
  {
    var slots, runs, pc := st.slots, st.procs[p].runs, st.procs[p].pc;
    match pc
    case Idle => true
    case CloseData(fd, after) => Free(slots, p, fd) && Reuses(after, fd)
    case CloseAgain(fd, after) => Free(slots, p, fd) && Reuses(after, fd)
    case DupData(from, to) => DupSafe(slots, p, from, to)
    case DupFd(from, to) =>
      && from < MAXFD && to < SLOTS && (Usable(to) ==> Unguarding(slots, p, to))
      && ((p, from) in slots && slots[(p, from)].End? && Usable(to) ==>
            FdPlace(to) && (p, MAXFD + to) in slots && slots[(p, MAXFD + to)] == Buf(slots[(p, from)].pipe))
    case DupErrFd(to) => to < SLOTS && (Usable(to) ==> Unguarding(slots, p, to))
    case DupErrData(to) => to < SLOTS && (p, to) !in slots
    case Sample(fd, _) => IsEnd(slots, p, fd)
    case SampleFirst(fd, _, n) => IsEnd(slots, p, fd) && n <= runs
    case SampleSecond(fd, fdFirst, n, first) =>
      IsEnd(slots, p, fd) && n <= runs &&
      (n == runs && p == st.cur ==> first == PageRef(slots, p, if fdFirst then fd else MAXFD + fd))
    case SampleEnd(fd, _, n, ret) =>
      IsEnd(slots, p, fd) && n <= runs &&
      (n == runs && p == st.cur ==> ret == (PageRef(slots, p, fd) == PageRef(slots, p, MAXFD + fd)))
  }

  ghost predicate Inv(st: State) {
    && Guarded(st.slots) && InMemory(st.slots)
    && (forall p :: p in st.procs ==> PcOk(st, p))
    && Owned(st)
  }

  ghost predicate InMemory(slots: map<Place, Page>) {
    forall x :: x in slots ==> x.1 < SLOTS && Usable(x.1)
  }

  // dup's second argument is a descriptor number, which dup closes first.
  ghost predicate InTable(a: Action) {
    a.StartDup? ==> 0 <= a.newfd < MAXFD
  }

  // Or any other number whose slot is safe.
  ghost predicate Proper(st: State, a: Action) {
    InTable(a) || (a.StartDup? && DupSafe(st.slots, st.cur, a.from, Slot(a.newfd)))
  }

  lemma MapGuarded(slots: map<Place, Page>, p: nat, i: nat, page: Page)
    requires Guarded(slots)
    requires i >= MAXFD && (p, i - MAXFD) in slots && slots[(p, i - MAXFD)].End? ==> page == Buf(slots[(p, i - MAXFD)].pipe)
    requires page.End? ==> FdPlace(i) && (p, MAXFD + i) in slots && slots[(p, MAXFD + i)] == Buf(page.pipe)
    ensures Guarded(slots[(p, i) := page])
  {}

  lemma UnmapGuarded(slots: map<Place, Page>, p: nat, i: nat)
    requires Guarded(slots) && Unguarding(slots, p, i)
    ensures Guarded(slots - {(p, i)})
  {}

  lemma CreatedGuarded(slots: map<Place, Page>, p: nat, r: nat, w: nat, k: nat)
    requires Guarded(slots) && r < MAXFD && w < MAXFD && r != w && (p, r) !in slots && (p, w) !in slots
    ensures Guarded(PipePages(slots, p, r, w, k))
  {
    var s1 := slots[(p, MAXFD + r) := Buf(k)];
    MapGuarded(slots, p, MAXFD + r, Buf(k));
    var s2 := s1[(p, MAXFD + w) := Buf(k)];
    MapGuarded(s1, p, MAXFD + w, Buf(k));
    MapGuarded(s2, p, r, End(k, false));
    MapGuarded(s2[(p, r) := End(k, false)], p, w, End(k, true));
  }

  lemma DupDataGuarded(slots: map<Place, Page>, p: nat, from: nat, to: nat)
    requires Guarded(slots) && DupSafe(slots, p, from, to) && (p, MAXFD + from) in slots && Usable(DataSlot(to))
    ensures Guarded(slots[(p, DataSlot(to)) := slots[(p, MAXFD + from)]])
  {
    assert !slots[(p, MAXFD + from)].End?;
    MapGuarded(slots, p, DataSlot(to), slots[(p, MAXFD + from)]);
  }

  lemma DupFdGuarded(slots: map<Place, Page>, p: nat, from: nat, to: nat)
    requires Guarded(slots) && Unguarding(slots, p, to) && (p, from) in slots
    requires slots[(p, from)].End? ==>
               FdPlace(to) && (p, MAXFD + to) in slots && slots[(p, MAXFD + to)] == Buf(slots[(p, from)].pipe)
    ensures Guarded(slots[(p, to) := slots[(p, from)]])
  {
    MapGuarded(slots, p, to, slots[(p, from)]);
  }

  // Unmapping a descriptor page, or the data page of an unmapped one.
  lemma CloseGuarded(slots: map<Place, Page>, p: nat, fd: nat)
    requires Guarded(slots) && Free(slots, p, fd)
    ensures Guarded(slots - {(p, fd)}) && Guarded(slots - {(p, MAXFD + fd)})
  {
    assert slots - {(p, fd)} == slots;
    UnmapGuarded(slots, p, MAXFD + fd);
  }

  lemma UndoGuarded(slots: map<Place, Page>, p: nat, to: nat)
    requires Guarded(slots) && to < SLOTS
    ensures Unguarding(slots, p, to) ==> Guarded(slots - {(p, to)})
    ensures (p, to) !in slots ==> Guarded(slots - {(p, DataSlot(to))})
  {
    if Unguarding(slots, p, to) {
      UnmapGuarded(slots, p, to);
    }
    if (p, to) !in slots {
      UnmapGuarded(slots, p, DataSlot(to));
    }
  }

  lemma AdvancedGuarded(st: State, fails: bool)
    requires Guarded(st.slots) && st.cur in st.procs && PcOk(st, st.cur) && !st.procs[st.cur].pc.Idle?
    ensures Guarded(Advanced(st, fails).slots)
  {
    var p, slots := st.cur, st.slots;
    match st.procs[p].pc
    case CloseData(fd, _) => CloseGuarded(slots, p, fd);
    case CloseAgain(fd, _) => CloseGuarded(slots, p, fd);
    case DupData(from, to) =>
      if (p, MAXFD + from) in slots && Usable(DataSlot(to)) {
        DupDataGuarded(slots, p, from, to);
      }
    case DupFd(from, to) =>
      if (p, from) in slots && Usable(to) {
        DupFdGuarded(slots, p, from, to);
      }
    case DupErrFd(to) => UndoGuarded(slots, p, to);
    case DupErrData(to) => UndoGuarded(slots, p, to);
    case _ =>
  }

  lemma ForkedGuarded(slots: map<Place, Page>, p: nat, c: nat)
    requires Guarded(slots) && forall x :: x in slots ==> x.0 != c
    ensures Guarded(Forked(slots, p, c))
  {
    forall q, i | (q, i) in Forked(slots, p, c) && Forked(slots, p, c)[(q, i)].End?
      ensures FdPlace(i) && (q, MAXFD + i) in Forked(slots, p, c) &&
              Forked(slots, p, c)[(q, MAXFD + i)] == Buf(Forked(slots, p, c)[(q, i)].pipe)
    {
      ForkedPlace(slots, p, c, (q, i));
      ForkedPlace(slots, p, c, (q, MAXFD + i));
    }
  }

  lemma ForkedPlace(slots: map<Place, Page>, p: nat, c: nat, x: Place)
    requires forall y :: y in slots ==> y.0 != c
    ensures x in Forked(slots, p, c) <==> if x.0 == c then (p, x.1) in slots && Copied(x.1) else x in slots
    ensures x in Forked(slots, p, c) ==> Forked(slots, p, c)[x] == if x.0 == c then slots[(p, x.1)] else slots[x]
  {
    if x.0 == c && (p, x.1) in slots && Copied(x.1) {
      assert (p, x.1) in slots && (c, (p, x.1).1) == x;
    }
  }

  lemma NextGuarded(st: State, a: Action)
    requires Inv(st) && Enabled(st, a) && Proper(st, a)
    ensures Guarded(Next(st, a).slots)
  {
    match a
    case Fork(c) => ForkedGuarded(st.slots, st.cur, c);
    case Advance(fails) =>
      assert PcOk(st, st.cur);
      AdvancedGuarded(st, fails);
    case MakePipe(r, w) => CreatedGuarded(st.slots, st.cur, r, w, st.next);
    case OpenOther(fd, id) => MapGuarded(st.slots, st.cur, fd, Other(id));
    case _ => OnlyUnmapsGuarded(st, a);
  }

  lemma OnlyUnmapsGuarded(st: State, a: Action)
    requires Guarded(st.slots) && Enabled(st, a)
    requires a.Switch? || a.Exit? || a.Close? || a.StartDup? || a.StartCheck?
    ensures Guarded(Next(st, a).slots)
  {
    match a
    case Close(fd) => UnmapGuarded(st.slots, st.cur, fd);
    case StartDup(_, n) =>
      if 0 <= n < MAXFD {
        UnmapGuarded(st.slots, st.cur, n);
      }
    case Exit(p) => ExitGuarded(st.slots, p, Next(st, a).slots);
    case _ =>
  }

  lemma ExitGuarded(slots: map<Place, Page>, p: nat, slots': map<Place, Page>)
    requires Guarded(slots) && slots' == map x | x in slots && x.0 != p :: slots[x]
    ensures Guarded(slots')
  {}

  // ---- which dups do no harm ---------------------------------------------------------------

  // However the running process's call goes on for `n` more steps, every mapped end keeps
  // its data page.
  ghost predicate CallKeeps(st: State, n: nat)
    requires st.cur in st.procs
    decreases n
  {
    Guarded(st.slots) &&
    (n == 0 || st.procs[st.cur].pc.Idle? || forall fails: bool :: CallKeeps(Advanced(st, fails), n - 1))
  }

  // The running process's call, wherever it is, has been safe so far.
  ghost predicate Safe(st: State) {
    st.cur in st.procs && Guarded(st.slots) && InMemory(st.slots) && PcOk(st, st.cur)
  }

  lemma SafeStep(st: State, fails: bool)
    requires Safe(st) && !st.procs[st.cur].pc.Idle?
    ensures Safe(Advanced(st, fails)) && Advanced(st, fails).cur == st.cur
  {
    AdvancedGuarded(st, fails);
    AdvancedPcOk(st, fails);
    AdvancedInMemory(st, fails);
  }

  lemma {:induction false} SafeCallKeeps(st: State, n: nat)
    requires Safe(st)
    ensures CallKeeps(st, n)
    decreases n, 1
  {
    if n > 0 && !st.procs[st.cur].pc.Idle? {
      forall fails: bool ensures CallKeeps(Advanced(st, fails), n - 1) {
        SafeNext(st, n, fails);
      }
    }
  }

  lemma SafeNext(st: State, n: nat, fails: bool)
    requires Safe(st) && n > 0 && !st.procs[st.cur].pc.Idle?
    ensures CallKeeps(Advanced(st, fails), n - 1)
    decreases n, 0
  {
    SafeStep(st, fails);
    SafeCallKeeps(Advanced(st, fails), n - 1);
  }

  lemma OneStep(st: State, n: nat, fails: bool)
    requires st.cur in st.procs && CallKeeps(st, n + 1) && !st.procs[st.cur].pc.Idle?
    ensures CallKeeps(Advanced(st, fails), n) && Guarded(Advanced(st, fails).slots)
  {}

  // A number that is not a descriptor's, so that dup closes nothing, does no harm exactly
  // when its slot is safe.
  lemma DupSafeIff(st: State, from: nat, n: int)
    requires Inv(st) && Enabled(st, StartDup(from, n)) && !(0 <= n < MAXFD)
    ensures Next(st, StartDup(from, n)) == SetPc(st, DupData(from, Slot(n)))
    ensures CallKeeps(SetPc(st, DupData(from, Slot(n))), 4) <==> DupSafe(st.slots, st.cur, from, Slot(n))
  {
    var to := Slot(n);
    var st1 := SetPc(st, DupData(from, to));
    if DupSafe(st.slots, st.cur, from, to) {
      SafeCallKeeps(st1, 4);
    }
    if CallKeeps(st1, 4) {
      KeepsData(st, st1, from, to);
      KeepsBelow(st, st1, from, to);
      KeepsPlace(st, st1, from, to);
    }
  }

  lemma KeepsData(st: State, st1: State, from: nat, to: nat)
    requires Inv(st) && st.cur in st.procs && to < SLOTS && st1 == SetPc(st, DupData(from, to)) && CallKeeps(st1, 4)
    ensures Usable(DataSlot(to)) && (st.cur, MAXFD + from) in st.slots && (st.cur, to) in st.slots && st.slots[(st.cur, to)].End? ==>
              st.slots[(st.cur, MAXFD + from)] == Buf(st.slots[(st.cur, to)].pipe)
  {
    if Usable(DataSlot(to)) && (st.cur, MAXFD + from) in st.slots && (st.cur, to) in st.slots && st.slots[(st.cur, to)].End? {
      OneStep(st1, 3, false);
      var slots2 := Advanced(st1, false).slots;
      assert slots2 == st.slots[(st.cur, DataSlot(to)) := st.slots[(st.cur, MAXFD + from)]];
      assert (st.cur, to) in slots2 && slots2[(st.cur, to)] == st.slots[(st.cur, to)];
    }
  }

  lemma KeepsBelow(st: State, st1: State, from: nat, to: nat)
    requires Inv(st) && st.cur in st.procs && to < SLOTS && st1 == SetPc(st, DupData(from, to)) && CallKeeps(st1, 4)
    ensures Usable(to) ==> Unguarding(st.slots, st.cur, to)
  {
    var st2 := FailsAtOnce(st, st1, from, to);
    OneStep(st2, 1, true);
    assert Advanced(st2, true).slots == Unmapped(st.slots, st.cur, to);
    if Usable(to) {
      UnmapNeedsUnguarding(st.slots, st.cur, to);
    }
  }

  // Out of memory at the first mapping call, dup undoes what it has not done.
  lemma FailsAtOnce(st: State, st1: State, from: nat, to: nat) returns (st2: State)
    requires st.cur in st.procs && st1 == SetPc(st, DupData(from, to)) && CallKeeps(st1, 4)
    ensures st2.slots == st.slots && st2.cur == st.cur && st.cur in st2.procs && st2.procs[st.cur].pc == DupErrFd(to) && CallKeeps(st2, 2)
  {
    OneStep(st1, 3, true);
    st2 := Advanced(st1, true);
    if (st.cur, MAXFD + from) !in st.slots {
      OneStep(st2, 2, true);
      st2 := Advanced(st2, true);
    } else {
      CallShorter(st2, 2);
    }
  }

  lemma {:induction false} CallShorter(st: State, n: nat)
    requires st.cur in st.procs && CallKeeps(st, n + 1)
    ensures CallKeeps(st, n)
    decreases n
  {
    if n > 0 && !st.procs[st.cur].pc.Idle? {
      forall fails: bool ensures CallKeeps(Advanced(st, fails), n - 1) {
        CallShorter(Advanced(st, fails), n - 1);
      }
    }
  }

  lemma UnmapNeedsUnguarding(slots: map<Place, Page>, p: nat, i: nat)
    requires Guarded(slots) && Guarded(slots - {(p, i)})
    ensures Unguarding(slots, p, i)
  {}

  lemma KeepsPlace(st: State, st1: State, from: nat, to: nat)
    requires Inv(st) && st.cur in st.procs && to < SLOTS && st1 == SetPc(st, DupData(from, to)) && CallKeeps(st1, 4)
    requires from < MAXFD && (st.cur, from) in st.slots
    ensures st.slots[(st.cur, from)].End? && Usable(to) && Usable(DataSlot(to)) && DataSlot(to) != from ==> FdPlace(to)
  {
    if st.slots[(st.cur, from)].End? && Usable(to) && Usable(DataSlot(to)) && DataSlot(to) != from {
      OneStep(st1, 3, false);
      var st2 := Advanced(st1, false);
      assert st2.procs[st.cur].pc == DupFd(from, to) && st2.slots[(st.cur, from)] == st.slots[(st.cur, from)];
      OneStep(st2, 2, false);
      assert Advanced(st2, false).slots[(st.cur, to)].End?;
    }
  }

  // ---- each process's own progress --------------------------------------------------------

  // A step leaves the mappings of every process but the running one as they were,
  // unless that process ends or is born by it.
  lemma OthersKeep(st: State, a: Action, p: nat)
    requires Inv(st) && Enabled(st, a) && p in st.procs && p in Next(st, a).procs && p != st.cur
    ensures forall i :: (p, i) in Next(st, a).slots <==> (p, i) in st.slots
    ensures forall i :: (p, i) in st.slots ==> Next(st, a).slots[(p, i)] == st.slots[(p, i)]
    ensures Next(st, a).procs[p].pc == st.procs[p].pc
    ensures if a == Switch(p) then Next(st, a).procs[p].runs == st.procs[p].runs + 1
            else Next(st, a).procs[p].runs == st.procs[p].runs && Next(st, a).cur != p
  {
    match a
    case Advance(fails) => OthersAdvance(st, fails, p);
    case MakePipe(r, w) =>
    case Fork(c) => OthersFork(st, c, p);
    case _ => OthersStart(st, a, p);
  }

  lemma OthersAdvance(st: State, fails: bool, p: nat)
    requires st.cur in st.procs && !st.procs[st.cur].pc.Idle? && p in st.procs && p != st.cur
    ensures forall i :: (p, i) in Advanced(st, fails).slots <==> (p, i) in st.slots
    ensures forall i :: (p, i) in st.slots ==> Advanced(st, fails).slots[(p, i)] == st.slots[(p, i)]
    ensures p in Advanced(st, fails).procs && Advanced(st, fails).procs[p] == st.procs[p] && Advanced(st, fails).cur == st.cur
  {}

  lemma OthersFork(st: State, c: nat, p: nat)
    requires Owned(st) && Enabled(st, Fork(c)) && p in st.procs && p != st.cur
    ensures forall i :: (p, i) in Next(st, Fork(c)).slots <==> (p, i) in st.slots
    ensures forall i :: (p, i) in st.slots ==> Next(st, Fork(c)).slots[(p, i)] == st.slots[(p, i)]
    ensures p in Next(st, Fork(c)).procs && Next(st, Fork(c)).procs[p] == st.procs[p] && Next(st, Fork(c)).cur == st.cur
  {
    forall i: nat ensures (p, i) in Forked(st.slots, st.cur, c) <==> (p, i) in st.slots
                  ensures (p, i) in st.slots ==> Forked(st.slots, st.cur, c)[(p, i)] == st.slots[(p, i)]
    {
      ForkedPlace(st.slots, st.cur, c, (p, i));
    }
  }

  lemma OthersStart(st: State, a: Action, p: nat)
    requires Enabled(st, a) && p in st.procs && p in Next(st, a).procs && p != st.cur
    requires !a.Advance? && !a.Fork? && !a.MakePipe?
    ensures forall i :: (p, i) in Next(st, a).slots <==> (p, i) in st.slots
    ensures forall i :: (p, i) in st.slots ==> Next(st, a).slots[(p, i)] == st.slots[(p, i)]
    ensures Next(st, a).procs[p].pc == st.procs[p].pc
    ensures if a == Switch(p) then Next(st, a).procs[p].runs == st.procs[p].runs + 1
            else Next(st, a).procs[p].runs == st.procs[p].runs && Next(st, a).cur != p
  {}

  // What PcOk says of a process that is not running depends on its own mappings only.
  lemma OtherPcOk(st: State, a: Action, p: nat)
    requires Inv(st) && Enabled(st, a) && p in st.procs && p in Next(st, a).procs && p != st.cur
    ensures PcOk(Next(st, a), p)
  {
    assert PcOk(st, p);
    OthersKeep(st, a, p);
    SamePcOk(st, Next(st, a), p);
  }

  lemma SamePcOk(st: State, st': State, p: nat)
    requires p in st.procs && p in st'.procs && PcOk(st, p) && st'.procs[p].pc == st.procs[p].pc && p != st.cur
    requires forall i :: (p, i) in st'.slots <==> (p, i) in st.slots
    requires forall i :: (p, i) in st.slots ==> st'.slots[(p, i)] == st.slots[(p, i)]
    requires st'.procs[p].runs >= st.procs[p].runs && (st'.cur == p ==> st'.procs[p].runs > st.procs[p].runs)
    ensures PcOk(st', p)
  {
    var pc := st.procs[p].pc;
    if pc.DupData? {
      SameDupSafe(st.slots, st'.slots, p, pc.from, pc.to);
    }
  }

  lemma SameDupSafe(slots: map<Place, Page>, slots': map<Place, Page>, p: nat, from: nat, to: nat)
    requires DupSafe(slots, p, from, to)
    requires forall i :: (p, i) in slots' <==> (p, i) in slots
    requires forall i :: (p, i) in slots ==> slots'[(p, i)] == slots[(p, i)]
    ensures DupSafe(slots', p, from, to)
  {}

  lemma AdvancedPcOk(st: State, fails: bool)
    requires st.cur in st.procs && PcOk(st, st.cur) && !st.procs[st.cur].pc.Idle? && Guarded(st.slots) && InMemory(st.slots)
    ensures PcOk(Advanced(st, fails), st.cur)
  {
    match st.procs[st.cur].pc
    case CloseAgain(fd, after) => ResumePcOk(st, Advanced(st, fails), fd, after);
    case DupData(from, to) => DupDataPcOk(st, fails, from, to);
    case _ =>
  }

  // The descriptor dup is about to reuse is closed by now.
  lemma ResumePcOk(st: State, st': State, fd: nat, after: Then)
    requires st'.cur == st.cur && st'.cur in st'.procs && st'.procs[st'.cur].pc == Resume(after)
    requires fd < MAXFD && (st.cur, fd) !in st'.slots && Reuses(after, fd)
    ensures PcOk(st', st'.cur)
  {}

  lemma DupDataPcOk(st: State, fails: bool, from: nat, to: nat)
    requires st.cur in st.procs && st.procs[st.cur].pc == DupData(from, to) && DupSafe(st.slots, st.cur, from, to)
    requires Guarded(st.slots)
    ensures PcOk(Advanced(st, fails), st.cur)
  {
    var p, slots := st.cur, st.slots;
    if (p, from) in slots && slots[(p, from)].End? {
      assert (p, MAXFD + from) in slots && slots[(p, MAXFD + from)] == Buf(slots[(p, from)].pipe);
    }
  }

  lemma OwnPcOk(st: State, a: Action)
    requires Inv(st) && Enabled(st, a) && Proper(st, a) && st.cur in st.procs && st.cur in Next(st, a).procs
    ensures PcOk(Next(st, a), st.cur)
  {
    assert PcOk(st, st.cur);
    if a.Advance? {
      AdvancedPcOk(st, a.fails);
    } else {
      StartedPcOk(st, a);
    }
  }

  lemma StartedPcOk(st: State, a: Action)
    requires st.cur in st.procs && PcOk(st, st.cur) && Enabled(st, a) && Proper(st, a) && !a.Advance? && st.cur in Next(st, a).procs
    ensures PcOk(Next(st, a), st.cur)
  {
    match a
    case Close(fd) => CloseStartsOk(st, fd, Return);
    case StartDup(from, n) => DupStartsOk(st, from, n);
    case MakePipe(r, w) => assert Next(st, a).procs[st.cur].pc == Idle;
    case Fork(c) => assert Next(st, a).procs[st.cur].pc == Idle;
    case _ =>
  }

  lemma DupStartsOk(st: State, from: nat, n: int)
    requires st.cur in st.procs && Enabled(st, StartDup(from, n)) && Proper(st, StartDup(from, n))
    ensures PcOk(Next(st, StartDup(from, n)), st.cur)
  {
    if 0 <= n < MAXFD {
      TableSlot(n);
      if (st.cur, n) in st.slots {
        CloseStartsOk(st, n, Dup(from, n));
      }
    }
  }

  lemma TableSlot(n: nat)
    requires n < MAXFD
    ensures Slot(n) == n && DataSlot(n) == MAXFD + n
  {}

  lemma CloseStartsOk(st: State, fd: nat, after: Then)
    requires st.cur in st.procs && fd < MAXFD && (st.cur, fd) in st.slots && Reuses(after, fd)
    ensures PcOk(StartClose(st, fd, after), st.cur)
  {
    if !st.slots[(st.cur, fd)].End? {
      ResumePcOk(st, StartClose(st, fd, after), fd, after);
    }
  }

  lemma NextInMemory(st: State, a: Action)
    requires Inv(st) && Enabled(st, a)
    ensures InMemory(Next(st, a).slots)
  {
    match a
    case Fork(c) =>
      forall x | x in Next(st, a).slots ensures x.1 < SLOTS && Usable(x.1) {
        ForkedPlace(st.slots, st.cur, c, x);
      }
    case Advance(fails) =>
      assert PcOk(st, st.cur);
      AdvancedInMemory(st, fails);
    case _ =>
  }

  lemma AdvancedInMemory(st: State, fails: bool)
    requires InMemory(st.slots) && st.cur in st.procs && PcOk(st, st.cur) && !st.procs[st.cur].pc.Idle?
    ensures InMemory(Advanced(st, fails).slots)
  {}

  lemma NextKeepsInv(st: State, a: Action)
    requires Inv(st) && Enabled(st, a) && Proper(st, a)
    ensures Inv(Next(st, a))
  {
    NextGuarded(st, a);
    NextOwned(st, a);
    NextInMemory(st, a);
    forall p | p in Next(st, a).procs ensures PcOk(Next(st, a), p) {
      if p !in st.procs {
        assert Next(st, a).procs[p].pc == Idle;
      } else if p == st.cur {
        OwnPcOk(st, a);
      } else {
        OtherPcOk(st, a, p);
      }
    }
  }

  ghost predicate Owned(st: State) {
    && (forall x :: x in st.slots ==> x.0 in st.procs)
    && (forall x :: x in st.slots && !st.slots[x].Other? ==> st.slots[x].pipe < st.next)
  }

  lemma NextOwned(st: State, a: Action)
    requires Owned(st) && Enabled(st, a)
    ensures Owned(Next(st, a))
  {
    match a
    case Advance(fails) => AdvancedOwned(st, fails);
    case _ =>
  }

  lemma AdvancedOwned(st: State, fails: bool)
    requires Owned(st) && st.cur in st.procs && !st.procs[st.cur].pc.Idle?
    ensures Owned(Advanced(st, fails))
  {}

  // ---- closed means closed --------------------------------------------------------------------

  lemma {:induction false} AtLeast(a: set<Place>, b: set<Place>)
    requires forall x :: x in a ==> (x.0, MAXFD + x.1) in b
    ensures |a| <= |b|
    decreases a
  {
    if x :| x in a {
      AtLeast(a - {x}, b - {(x.0, MAXFD + x.1)});
    }
  }

  // References to the data page are at least those to both ends together.
  lemma EndsBounded(slots: map<Place, Page>, k: nat)
    requires Guarded(slots)
    ensures |Places(slots, Buf(k))| >= |Places(slots, End(k, false))| + |Places(slots, End(k, true))|
  {
    var r, w := Places(slots, End(k, false)), Places(slots, End(k, true));
    assert |r + w| == |r| + |w| by {
      assert r !! w;
    }
    AtLeast(r + w, Places(slots, Buf(k)));
  }

  // When _pipeisclosed returns true, no process maps the other end.
  lemma ClosedIsClosed(st: State, a: Action, fd: nat)
    requires Inv(st) && SaysClosed(st, a, fd)
    ensures IsEnd(st.slots, st.cur, fd)
    ensures var end := st.slots[(st.cur, fd)]; Places(st.slots, End(end.pipe, !end.write)) == {}
  {
    assert PcOk(st, st.cur);
    var end := st.slots[(st.cur, fd)];
    EndsBounded(st.slots, end.pipe);
    assert st.slots[(st.cur, MAXFD + fd)] == Buf(end.pipe);
    assert |Places(st.slots, end)| == |Places(st.slots, Buf(end.pipe))|;
    assert end == End(end.pipe, end.write);
  }

  // An end no one maps can never be mapped again.
  lemma StaysClosed(st: State, a: Action, k: nat, write: bool)
    requires Inv(st) && Enabled(st, a) && k < st.next && Places(st.slots, End(k, write)) == {}
    ensures Places(Next(st, a).slots, End(k, write)) == {} && k < Next(st, a).next
  {
    forall x | x in Next(st, a).slots ensures Next(st, a).slots[x] != End(k, write) {
      NoNewPages(st, a, x);
      if y :| y in st.slots && st.slots[y] == Next(st, a).slots[x] {
        assert y !in Places(st.slots, End(k, write));
      }
    }
  }

  // Every page mapped after a step was mapped before it, or is new.
  lemma NoNewPages(st: State, a: Action, x: Place)
    requires Inv(st) && Enabled(st, a) && x in Next(st, a).slots
    ensures (exists y :: y in st.slots && st.slots[y] == Next(st, a).slots[x]) || Next(st, a).slots[x].Other? ||
            Next(st, a).slots[x].pipe == st.next
  {
    match a
    case Fork(c) =>
      ForkedPlace(st.slots, st.cur, c, x);
    case Advance(fails) => AdvancedPages(st, fails, x);
    case _ =>
  }

  lemma AdvancedPages(st: State, fails: bool, x: Place)
    requires st.cur in st.procs && !st.procs[st.cur].pc.Idle? && x in Advanced(st, fails).slots
    ensures exists y :: y in st.slots && st.slots[y] == Advanced(st, fails).slots[x]
  {
    if x in st.slots && st.slots[x] == Advanced(st, fails).slots[x] {
    } else {
      var pc := st.procs[st.cur].pc;
      assert pc.DupData? || pc.DupFd?;
      if pc.DupData? {
        assert (st.cur, MAXFD + pc.from) in st.slots;
      } else {
        assert (st.cur, pc.from) in st.slots;
      }
    }
  }

  // ---- whole runs ---------------------------------------------------------------------------------

  ghost predicate Run(sts: seq<State>, acts: seq<Action>) {
    |sts| == |acts| + 1 &&
    forall i :: 0 <= i < |acts| ==> Enabled(sts[i], acts[i]) && Proper(sts[i], acts[i]) && sts[i + 1] == Next(sts[i], acts[i])
  }

  // Processes that have no pipe yet.
  ghost predicate Initial(st: State) {
    && (forall x :: x in st.slots ==> x.0 in st.procs && st.slots[x].Other? && x.1 < SLOTS && Usable(x.1))
    && (forall p :: p in st.procs ==> st.procs[p].pc.Idle?)
  }

  lemma {:induction false} RunKeepsInv(sts: seq<State>, acts: seq<Action>, i: nat)
    requires Run(sts, acts) && Initial(sts[0]) && i <= |acts|
    ensures Inv(sts[i])
  {
    if i > 0 {
      RunKeepsInv(sts, acts, i - 1);
      NextKeepsInv(sts[i - 1], acts[i - 1]);
    }
  }

  lemma {:induction false} ClosedForGood(sts: seq<State>, acts: seq<Action>, i: nat, j: nat, k: nat, write: bool)
    requires Run(sts, acts) && Initial(sts[0]) && i <= j <= |acts|
    requires k < sts[i].next && Places(sts[i].slots, End(k, write)) == {}
    ensures Places(sts[j].slots, End(k, write)) == {} && k < sts[j].next
    decreases j - i
  {
    if i < j {
      RunKeepsInv(sts, acts, i);
      StaysClosed(sts[i], acts[i], k, write);
      ClosedForGood(sts, acts, i + 1, j, k, write);
    }
  }

  // In any run, from the moment _pipeisclosed says so, no process ever again maps
  // the other end.  The run may dup onto any number that is safe (DupSafeIff).
  lemma CloseDetectionIsSound(sts: seq<State>, acts: seq<Action>, i: nat, fd: nat, j: nat, x: Place)
    requires Run(sts, acts) && Initial(sts[0]) && i < |acts| && SaysClosed(sts[i], acts[i], fd)
    requires i <= j <= |acts| && x in sts[j].slots
    ensures IsEnd(sts[i].slots, sts[i].cur, fd)
    ensures var end := sts[i].slots[(sts[i].cur, fd)]; sts[j].slots[x] != End(end.pipe, !end.write)
  {
    RunKeepsInv(sts, acts, i);
    ClosedIsClosed(sts[i], acts[i], fd);
    var end := sts[i].slots[(sts[i].cur, fd)];
    ClosedForGood(sts, acts, i, j, end.pipe, !end.write);
    assert x !in Places(sts[j].slots, End(end.pipe, !end.write));
  }

  // ---- and open means open, once everyone is done ------------------------------------------------

  // The process is between the two mapping calls that give or take descriptor `fd`.
  ghost predicate Midway(pc: Pc, fd: nat) {
    match pc
    case CloseData(i, _) => i == fd
    case DupFd(_, to) => to == fd
    case DupErrFd(to) => to == fd
    case DupErrData(to) => to == fd
    case _ => false
  }

  ghost predicate EndOf(slots: map<Place, Page>, p: nat, fd: nat, k: nat) {
    (p, fd) in slots && slots[(p, fd)].End? && slots[(p, fd)].pipe == k
  }

  ghost predicate MapsBuf(slots: map<Place, Page>, p: nat, fd: nat, k: nat) {
    (p, MAXFD + fd) in slots && slots[(p, MAXFD + fd)] == Buf(k)
  }

  // A process maps a pipe's data page only next to one of its ends, but for a call
  // half done.
  ghost predicate Paired(slots: map<Place, Page>, p: nat, pc: Pc) {
    && (forall i, k :: MapsBuf(slots, p, i, k) ==> EndOf(slots, p, i, k) || Midway(pc, i))
    && (pc.DupFd? ==> forall k :: MapsBuf(slots, p, pc.to, k) ==> EndOf(slots, p, pc.from, k))
    && (forall i: nat :: (p, i) in slots && slots[(p, i)].Buf? ==> MAXFD <= i < 2 * MAXFD)
    && PcInTable(pc) && (pc.DupData? ==> (p, pc.to) !in slots)
  }

  // The call in progress is about existing descriptor numbers only.
  ghost predicate PcInTable(pc: Pc) {
    match pc
    case CloseData(fd, after) => fd < MAXFD
    case CloseAgain(fd, after) => fd < MAXFD
    case DupData(_, to) => to < MAXFD
    case DupFd(_, to) => to < MAXFD
    case DupErrFd(to) => to < MAXFD
    case DupErrData(to) => to < MAXFD
    case _ => true
  }

  ghost predicate AllPaired(st: State) {
    forall p :: p in st.procs ==> Paired(st.slots, p, st.procs[p].pc)
  }

  ghost predicate OwnAdvance(st: State) {
    Inv(st) && st.cur in st.procs && !st.procs[st.cur].pc.Idle? && PcOk(st, st.cur) &&
    Paired(st.slots, st.cur, st.procs[st.cur].pc)
  }

  lemma AdvancedPairedAt(st: State, fails: bool, i: nat, k: nat)
    requires OwnAdvance(st) && MapsBuf(Advanced(st, fails).slots, st.cur, i, k)
    ensures EndOf(Advanced(st, fails).slots, st.cur, i, k) || Midway(Advanced(st, fails).procs[st.cur].pc, i)
  {
    var pc := st.procs[st.cur].pc;
    if pc.DupData? && i == pc.to {
      assert MapsBuf(st.slots, st.cur, i, k) || MapsBuf(st.slots, st.cur, pc.from, k);
    } else {
      assert MapsBuf(st.slots, st.cur, i, k);
    }
  }

  lemma AdvancedDupFd(st: State, fails: bool, k: nat)
    requires OwnAdvance(st) && Advanced(st, fails).procs[st.cur].pc.DupFd?
    requires MapsBuf(Advanced(st, fails).slots, st.cur, Advanced(st, fails).procs[st.cur].pc.to, k)
    ensures EndOf(Advanced(st, fails).slots, st.cur, Advanced(st, fails).procs[st.cur].pc.from, k)
  {
    var pc := st.procs[st.cur].pc;
    assert MapsBuf(st.slots, st.cur, pc.to, k) || MapsBuf(st.slots, st.cur, pc.from, k);
  }

  lemma AdvancedPaired(st: State, fails: bool)
    requires OwnAdvance(st)
    ensures Paired(Advanced(st, fails).slots, st.cur, Advanced(st, fails).procs[st.cur].pc)
  {
    var st' := Advanced(st, fails);
    forall i, k | MapsBuf(st'.slots, st.cur, i, k) ensures EndOf(st'.slots, st.cur, i, k) || Midway(st'.procs[st.cur].pc, i) {
      AdvancedPairedAt(st, fails, i, k);
    }
    if st'.procs[st.cur].pc.DupFd? {
      forall k | MapsBuf(st'.slots, st.cur, st'.procs[st.cur].pc.to, k) ensures EndOf(st'.slots, st.cur, st'.procs[st.cur].pc.from, k) {
        AdvancedDupFd(st, fails, k);
      }
    }
    AdvancedBufs(st, fails);
    AdvancedPc(st, fails);
  }

  lemma AdvancedPc(st: State, fails: bool)
    requires OwnAdvance(st)
    ensures var st' := Advanced(st, fails);
            PcInTable(st'.procs[st.cur].pc) && (st'.procs[st.cur].pc.DupData? ==> (st.cur, st'.procs[st.cur].pc.to) !in st'.slots)
  {}

  lemma AdvancedBufs(st: State, fails: bool)
    requires OwnAdvance(st)
    ensures forall i: nat :: (st.cur, i) in Advanced(st, fails).slots && Advanced(st, fails).slots[(st.cur, i)].Buf? ==>
              MAXFD <= i < 2 * MAXFD
  {
    match st.procs[st.cur].pc
    case DupFd(from, to) =>
      assert (st.cur, from) in st.slots && st.slots[(st.cur, from)].Buf? ==> from >= MAXFD;
    case _ =>
  }

  lemma StartedPaired(st: State, a: Action)
    requires Inv(st) && Enabled(st, a) && InTable(a) && !a.Advance? && st.cur in st.procs && st.cur in Next(st, a).procs
    requires Paired(st.slots, st.cur, st.procs[st.cur].pc)
    ensures Paired(Next(st, a).slots, st.cur, Next(st, a).procs[st.cur].pc)
  {
    var st' := Next(st, a);
    StartedPc(st, a, st'.slots, st'.procs[st.cur].pc);
    StartedBufs(st, a, st'.slots);
    forall i, k | MapsBuf(st'.slots, st.cur, i, k) ensures EndOf(st'.slots, st.cur, i, k) || Midway(st'.procs[st.cur].pc, i) {
      StartedPairedAt(st, a, i, k);
    }
  }

  lemma StartedPc(st: State, a: Action, slots': map<Place, Page>, pc': Pc)
    requires Enabled(st, a) && InTable(a) && !a.Advance? && st.cur in st.procs && st.cur in Next(st, a).procs
    requires slots' == Next(st, a).slots && pc' == Next(st, a).procs[st.cur].pc
    requires PcInTable(st.procs[st.cur].pc) && (st.procs[st.cur].pc.DupFd? ==> a.Switch? || a.Exit?)
    requires st.procs[st.cur].pc.DupData? ==> (st.cur, st.procs[st.cur].pc.to) !in st.slots
    ensures PcInTable(pc') && (pc'.DupData? ==> (st.cur, pc'.to) !in slots') && (pc'.DupFd? ==> pc' == st.procs[st.cur].pc)
  {
    match a
    case StartDup(_, n) => TableSlot(n);
    case Fork(c) =>
    case MakePipe(_, _) =>
    case _ =>
  }

  lemma StartedBufs(st: State, a: Action, slots': map<Place, Page>)
    requires Inv(st) && Enabled(st, a) && !a.Advance? && st.cur in st.procs && slots' == Next(st, a).slots
    requires forall i: nat :: (st.cur, i) in st.slots && st.slots[(st.cur, i)].Buf? ==> MAXFD <= i < 2 * MAXFD
    requires !a.Fork? || st.cur != a.child
    ensures forall i: nat :: (st.cur, i) in slots' && slots'[(st.cur, i)].Buf? ==> MAXFD <= i < 2 * MAXFD
  {
    if a.Fork? {
      forall i: nat ensures (st.cur, i) in slots' <==> (st.cur, i) in st.slots
                    ensures (st.cur, i) in slots' ==> slots'[(st.cur, i)] == st.slots[(st.cur, i)]
      {
        ForkedPlace(st.slots, st.cur, a.child, (st.cur, i));
      }
    }
  }

  lemma StartedPairedAt(st: State, a: Action, i: nat, k: nat)
    requires Inv(st) && Enabled(st, a) && InTable(a) && !a.Advance? && st.cur in st.procs && st.cur in Next(st, a).procs
    requires Paired(st.slots, st.cur, st.procs[st.cur].pc) && MapsBuf(Next(st, a).slots, st.cur, i, k)
    ensures EndOf(Next(st, a).slots, st.cur, i, k) || Midway(Next(st, a).procs[st.cur].pc, i)
  {
    assert PcOk(st, st.cur);
    if a.MakePipe? {
      PipePairedAt(st, a.r, a.w, i, k);
    } else {
      assert MapsBuf(st.slots, st.cur, i, k);
    }
  }

  lemma PipePairedAt(st: State, r: nat, w: nat, i: nat, k: nat)
    requires Enabled(st, MakePipe(r, w)) && st.cur in st.procs && Paired(st.slots, st.cur, Idle)
    requires MapsBuf(PipePages(st.slots, st.cur, r, w, st.next), st.cur, i, k)
    ensures EndOf(PipePages(st.slots, st.cur, r, w, st.next), st.cur, i, k)
  {
    if i != r && i != w {
      assert MapsBuf(st.slots, st.cur, i, k);
    }
  }

  lemma ForkedPaired(st: State, c: nat)
    requires Inv(st) && Enabled(st, Fork(c)) && Paired(st.slots, st.cur, Idle)
    ensures Paired(Next(st, Fork(c)).slots, c, Idle)
  {
    var slots' := Next(st, Fork(c)).slots;
    forall i: nat ensures (c, i) in slots' <==> (st.cur, i) in st.slots && Copied(i)
                  ensures (c, i) in slots' ==> slots'[(c, i)] == st.slots[(st.cur, i)]
    {
      ForkedPlace(st.slots, st.cur, c, (c, i));
    }
    forall i, k | MapsBuf(slots', c, i, k) ensures EndOf(slots', c, i, k) {
      assert MapsBuf(st.slots, st.cur, i, k);
    }
  }

  // OthersKeep makes the mappings of a process that did not run look the same.
  lemma SamePaired(slots: map<Place, Page>, slots': map<Place, Page>, p: nat, pc: Pc)
    requires Paired(slots, p, pc)
    requires forall i :: (p, i) in slots' <==> (p, i) in slots
    requires forall i :: (p, i) in slots ==> slots'[(p, i)] == slots[(p, i)]
    ensures Paired(slots', p, pc)
  {
    forall i, k | MapsBuf(slots', p, i, k) ensures EndOf(slots', p, i, k) || Midway(pc, i) {
      assert MapsBuf(slots, p, i, k);
    }
    if pc.DupFd? {
      forall k | MapsBuf(slots', p, pc.to, k) ensures EndOf(slots', p, pc.from, k) {
        assert MapsBuf(slots, p, pc.to, k);
      }
    }
  }

  lemma NextPaired(st: State, a: Action)
    requires Inv(st) && Enabled(st, a) && InTable(a) && AllPaired(st)
    ensures AllPaired(Next(st, a))
  {
    forall p | p in Next(st, a).procs ensures Paired(Next(st, a).slots, p, Next(st, a).procs[p].pc) {
      if p !in st.procs {
        ForkedPaired(st, p);
      } else if p != st.cur {
        OthersKeep(st, a, p);
        SamePaired(st.slots, Next(st, a).slots, p, st.procs[p].pc);
      } else if a.Advance? {
        AdvancedPaired(st, a.fails);
      } else {
        StartedPaired(st, a);
      }
    }
  }

  lemma {:induction false} AtMost(a: set<Place>, b: set<Place>)
    requires forall x: Place :: x in a ==> x.1 >= MAXFD && (x.0, (x.1 - MAXFD) as nat) in b
    ensures |a| <= |b|
    decreases a
  {
    if x :| x in a {
      AtMost(a - {x}, b - {(x.0, (x.1 - MAXFD) as nat)});
    }
  }

  // No process is between the two mapping calls of a close or dup.
  ghost predicate Quiet(st: State) {
    forall p, i :: p in st.procs ==> !Midway(st.procs[p].pc, i)
  }

  lemma QuietCounts(st: State, k: nat)
    requires Inv(st) && AllPaired(st) && Quiet(st)
    ensures |Places(st.slots, Buf(k))| == |Places(st.slots, End(k, false))| + |Places(st.slots, End(k, true))|
  {
    EndsBounded(st.slots, k);
    var r, w := Places(st.slots, End(k, false)), Places(st.slots, End(k, true));
    assert |r + w| == |r| + |w| by {
      assert r !! w;
    }
    forall x: Place | x in Places(st.slots, Buf(k)) ensures x.1 >= MAXFD && (x.0, (x.1 - MAXFD) as nat) in r + w {
      QuietPlace(st, k, x);
    }
    AtMost(Places(st.slots, Buf(k)), r + w);
  }

  lemma QuietPlace(st: State, k: nat, x: Place)
    requires Owned(st) && AllPaired(st) && Quiet(st) && x in st.slots && st.slots[x] == Buf(k)
    ensures x.1 >= MAXFD && EndOf(st.slots, x.0, x.1 - MAXFD, k)
  {
    assert Paired(st.slots, x.0, st.procs[x.0].pc);
    assert (x.0, x.1) in st.slots;
    var i: nat := x.1 - MAXFD;
    assert MapsBuf(st.slots, x.0, i, k);
    assert !Midway(st.procs[x.0].pc, i);
  }

  // With no close or dup half done, _pipeisclosed returns true exactly when no process
  // maps the other end: a reader sees end-of-file once the last writer has closed.
  lemma CheckIsExact(st: State, fd: nat)
    requires Inv(st) && AllPaired(st) && Quiet(st) && st.cur in st.procs
    requires var pc := st.procs[st.cur].pc; pc.SampleEnd? && pc.fd == fd && pc.n == st.procs[st.cur].runs
    ensures IsEnd(st.slots, st.cur, fd)
    ensures var end := st.slots[(st.cur, fd)];
            st.procs[st.cur].pc.ret <==> Places(st.slots, End(end.pipe, !end.write)) == {}
  {
    assert PcOk(st, st.cur);
    var end := st.slots[(st.cur, fd)];
    QuietCounts(st, end.pipe);
    assert st.slots[(st.cur, MAXFD + fd)] == Buf(end.pipe);
    assert end == End(end.pipe, end.write);
  }

  lemma {:induction false} RunKeepsPaired(sts: seq<State>, acts: seq<Action>, i: nat)
    requires Run(sts, acts) && Initial(sts[0]) && i <= |acts| && forall j :: 0 <= j < i ==> InTable(acts[j])
    ensures AllPaired(sts[i])
  {
    if i > 0 {
      RunKeepsInv(sts, acts, i - 1);
      RunKeepsPaired(sts, acts, i - 1);
      NextPaired(sts[i - 1], acts[i - 1]);
    } else {
      InitialPaired(sts[0]);
    }
  }

  lemma InitialPaired(st: State)
    requires Initial(st)
    ensures AllPaired(st)
  {}

  // ---- what unsafe dups lead to --------------------------------------------------------------

  // Pipe `k` is short of a data page: then whoever holds one end is told that the other is
  // closed exactly when that one is mapped once.
  ghost predicate Short(slots: map<Place, Page>, k: nat) {
    |Places(slots, Buf(k))| + 1 == |Places(slots, End(k, false))| + |Places(slots, End(k, true))|
  }

  lemma ShortMisleads(slots: map<Place, Page>, k: nat, write: bool)
    requires Short(slots, k)
    ensures |Places(slots, End(k, write))| == |Places(slots, Buf(k))| <==> |Places(slots, End(k, !write))| == 1
  {}

  ghost predicate Exact(slots: map<Place, Page>, k: nat) {
    |Places(slots, Buf(k))| == |Places(slots, End(k, false))| + |Places(slots, End(k, true))|
  }

  lemma PlacesMore(slots: map<Place, Page>, x: Place, page: Page)
    requires x !in slots || slots[x] != page
    ensures |Places(slots[x := page], page)| == |Places(slots, page)| + 1
  {
    assert Places(slots[x := page], page) == Places(slots, page) + {x};
  }

  lemma PlacesLess(slots: map<Place, Page>, x: Place, page: Page, other: Page)
    requires x in slots && slots[x] == other && page != other
    ensures |Places(slots[x := page], other)| == |Places(slots, other)| - 1
  {
    assert Places(slots[x := page], other) == Places(slots, other) - {x};
  }

  lemma PlacesSame(slots: map<Place, Page>, x: Place, page: Page, other: Page)
    requires page != other && (x !in slots || slots[x] != other)
    ensures Places(slots[x := page], other) == Places(slots, other)
  {}

  // One more mapping of an end, and none of the data page.
  lemma EndMoreIsShort(slots: map<Place, Page>, x: Place, k: nat, write: bool)
    requires Exact(slots, k) && x !in slots
    ensures Short(slots[x := End(k, write)], k)
  {
    PlacesMore(slots, x, End(k, write));
    PlacesSame(slots, x, End(k, write), Buf(k));
    PlacesSame(slots, x, End(k, write), End(k, !write));
  }

  // One fewer of the data page.
  lemma BufLessIsShort(slots: map<Place, Page>, x: Place, k: nat, page: Page)
    requires Exact(slots, k) && x in slots && slots[x] == Buf(k) && page.Buf? && page != Buf(k)
    ensures Short(slots[x := page], k)
  {
    PlacesLess(slots, x, page, Buf(k));
    PlacesSame(slots, x, page, End(k, false));
    PlacesSame(slots, x, page, End(k, true));
  }

  // The data page and an end, both once more.
  lemma PairIsExact(slots: map<Place, Page>, x: Place, y: Place, k: nat, write: bool)
    requires Exact(slots, k) && x !in slots && y !in slots && x != y
    ensures Exact(slots[x := Buf(k)][y := End(k, write)], k)
  {
    PlacesMore(slots, x, Buf(k));
    PlacesSame(slots, x, Buf(k), End(k, false));
    PlacesSame(slots, x, Buf(k), End(k, true));
    PlacesMore(slots[x := Buf(k)], y, End(k, write));
    PlacesSame(slots[x := Buf(k)], y, End(k, write), Buf(k));
    PlacesSame(slots[x := Buf(k)], y, End(k, write), End(k, !write));
  }

  // The running process may start a dup of an end of pipe `k`.
  ghost predicate HoldsEnd(st: State, from: nat, k: nat, write: bool) {
    && st.cur in st.procs && st.procs[st.cur].pc.Idle? && from < MAXFD
    && (st.cur, from) in st.slots && st.slots[(st.cur, from)] == End(k, write)
    && (st.cur, MAXFD + from) in st.slots && st.slots[(st.cur, MAXFD + from)] == Buf(k)
  }

  // A number that wraps to the slot of descriptor `to`, an end of another pipe, closes
  // nothing; after the first mapping call that pipe is short.
  lemma AliasLeavesShort(st: State, from: nat, n: int, k: nat, write: bool, k': nat)
    requires HoldsEnd(st, from, k, write) && !(0 <= n < MAXFD) && Slot(n) < MAXFD && k' != k && Exact(st.slots, k')
    requires (st.cur, Slot(n)) in st.slots && (st.cur, MAXFD + Slot(n)) in st.slots && st.slots[(st.cur, MAXFD + Slot(n))] == Buf(k')
    ensures var st2 := Advanced(Next(st, StartDup(from, n)), false);
            Enabled(st, StartDup(from, n)) && Short(st2.slots, k') && st2.slots[(st.cur, Slot(n))] == st.slots[(st.cur, Slot(n))]
  {
    TableSlot(Slot(n));
    BufLessIsShort(st.slots, (st.cur, MAXFD + Slot(n)), k', Buf(k));
  }

  // A dup that runs without failing.
  lemma DupLands(st: State, from: nat, n: int, k: nat, write: bool, to: nat) returns (st3: State)
    requires HoldsEnd(st, from, k, write) && !(0 <= n < MAXFD) && to == Slot(n) && Usable(to) && Usable(DataSlot(to))
    requires DataSlot(to) != from
    ensures DupDone(st, from, n, st3)
    ensures st3.cur == st.cur && st3.cur in st3.procs && st3.procs[st3.cur].pc.Idle?
    ensures st3.slots == st.slots[(st.cur, DataSlot(to)) := Buf(k)][(st.cur, to) := End(k, write)]
  {
    st3 := Advanced(Advanced(Next(st, StartDup(from, n)), false), false);
  }

  // The call's two mappings, neither of which fails.
  ghost predicate DupDone(st: State, from: nat, n: int, st3: State) {
    Enabled(st, StartDup(from, n)) && st.cur in Next(st, StartDup(from, n)).procs &&
    var st1 := Next(st, StartDup(from, n));
    st1.cur == st.cur && st1.procs[st.cur].pc.DupData? &&
    var st2 := Advanced(st1, false);
    st2.cur == st.cur && st2.procs[st.cur].pc.DupFd? && st3 == Advanced(st2, false)
  }

  // A negative number from -32 on maps the data page over descriptor 32 + n.  Closing that
  // descriptor leaves the pipe short.
  lemma NegativeLeavesShort(st: State, from: nat, n: int, k: nat, write: bool) returns (st3: State)
    requires HoldsEnd(st, from, k, write) && -MAXFD <= n < 0 && MAXFD + n != from && Exact(st.slots, k)
    requires (st.cur, Slot(n)) !in st.slots && (st.cur, MAXFD + n) !in st.slots
    ensures DupDone(st, from, n, st3) && Enabled(st3, Close(MAXFD + n)) && Short(Next(st3, Close(MAXFD + n)).slots, k)
  {
    var to, d := Slot(n), MAXFD + n;
    NegativeSlot(n, to);
    st3 := DupLands(st, from, n, k, write, to);
    EndMoreIsShort(st.slots, (st.cur, to), k, write);
    CloseUnmaps(st3, d, st3.slots);
    assert st3.slots - {(st.cur, d)} == st.slots[(st.cur, to) := End(k, write)];
  }

  lemma NegativeSlot(n: int, to: nat)
    requires -MAXFD <= n < 0 && to == Slot(n)
    ensures to == SLOTS + n && DataSlot(to) == MAXFD + n
  {}

  // close of a descriptor number at which a data page is mapped
  lemma CloseUnmaps(st: State, d: nat, slots: map<Place, Page>)
    requires st.cur in st.procs && st.procs[st.cur].pc.Idle? && st.slots == slots && d < MAXFD
    requires (st.cur, d) in slots && slots[(st.cur, d)].Buf?
    ensures Enabled(st, Close(d)) && Next(st, Close(d)).slots == slots - {(st.cur, d)}
  {}

  // A number from 32 to 63 whose slot nothing is mapped at: the end then looks like the
  // data page of descriptor n - 32, and dup of that one maps it once more, alone.
  lemma DataPlaceLeavesShort(st: State, from: nat, n: nat, k: nat, write: bool, y: nat) returns (st3: State)
    requires HoldsEnd(st, from, k, write) && MAXFD <= n < 2 * MAXFD && Exact(st.slots, k)
    requires (st.cur, n) !in st.slots && (st.cur, n + MAXFD) !in st.slots && (st.cur, n - MAXFD) in st.slots
    requires y < MAXFD && y != n - MAXFD && (st.cur, y) !in st.slots && (st.cur, MAXFD + y) !in st.slots
    ensures DupDone(st, from, n, st3) && Enabled(st3, StartDup(n - MAXFD, y))
    ensures Short(Advanced(Next(st3, StartDup(n - MAXFD, y)), false).slots, k)
  {
    assert Slot(n) == n && DataSlot(n) == n + MAXFD;
    st3 := DupLands(st, from, n, k, write, n);
    DupMapsData(st3, n - MAXFD, y, st3.slots);
    PairIsExact(st.slots, (st.cur, n + MAXFD), (st.cur, n), k, write);
    EndMoreIsShort(st3.slots, (st.cur, MAXFD + y), k, write);
  }

  // The first mapping call of a dup onto a closed descriptor.
  lemma DupMapsData(st: State, from: nat, y: nat, slots: map<Place, Page>)
    requires st.cur in st.procs && st.procs[st.cur].pc.Idle? && st.slots == slots && from < MAXFD && y < MAXFD
    requires (st.cur, from) in slots && (st.cur, MAXFD + from) in slots && (st.cur, y) !in slots
    ensures Enabled(st, StartDup(from, y))
    ensures Advanced(Next(st, StartDup(from, y)), false).slots == slots[(st.cur, MAXFD + y) := slots[(st.cur, MAXFD + from)]]
  {
    TableSlot(y);
  }

  // Just below USTACKTOP: fork copies the end but not the page MAXFD slots on.
  lemma ForkLeavesData(slots: map<Place, Page>, p: nat, c: nat, to: nat, k: nat, write: bool)
    requires (forall x :: x in slots ==> x.0 != c) && LAST_COPIED - MAXFD <= to < LAST_COPIED
    requires (p, to) in slots && slots[(p, to)] == End(k, write)
    ensures (c, to) in Forked(slots, p, c) && Forked(slots, p, c)[(c, to)] == End(k, write) && (c, DataSlot(to)) !in Forked(slots, p, c)
  {
    ForkedPlace(slots, p, c, (c, to));
    ForkedPlace(slots, p, c, (c, DataSlot(to)));
  }

  // ---- dup onto a number past the descriptor table ---------------------------------------------------

  // All descriptors but `r` and `w` are open on something else.
  ghost function Crowded(r: nat, w: nat): State {
    State(map i | 0 <= i < MAXFD && i != r && i != w :: (0, i) := Other(1), map[0 := Proc(Idle, 0)], 0, 0)
  }

  // The only process, after the only pipe was made.
  ghost function Alone(slots: map<Place, Page>, pc: Pc, runs: nat): State {
    State(slots, map[0 := Proc(pc, runs)], 0, 1)
  }

  ghost predicate Reaches(st: State, acts: seq<Action>, last: State)
    decreases |acts|
  {
    if acts == [] then st == last else Enabled(st, acts[0]) && Reaches(Next(st, acts[0]), acts[1..], last)
  }

  lemma OneBefore(st: State, a: Action, st': State, acts: seq<Action>, last: State)
    requires Enabled(st, a) && Next(st, a) == st' && Reaches(st', acts, last)
    ensures Reaches(st, [a] + acts, last)
  {
    assert ([a] + acts)[1..] == acts;
  }

  lemma CrowdedMakesPipe(r: nat, w: nat)
    requires r < w < MAXFD
    ensures Enabled(Crowded(r, w), MakePipe(r, w))
    ensures Next(Crowded(r, w), MakePipe(r, w)) == Alone(PipePages(Crowded(r, w).slots, 0, r, w, 0), Idle, 1)
  {
    CrowdedSlots(r, w);
  }

  lemma CrowdedSlots(r: nat, w: nat)
    ensures forall i: nat :: (0, i) in Crowded(r, w).slots <==> i < MAXFD && i != r && i != w
  {}

  lemma FirstThePipe(r: nat, w: nat, acts: seq<Action>, last: State)
    requires r < w < MAXFD && Reaches(Alone(PipePages(Crowded(r, w).slots, 0, r, w, 0), Idle, 1), acts, last)
    ensures Reaches(Crowded(r, w), [MakePipe(r, w)] + acts, last)
  {
    CrowdedMakesPipe(r, w);
    OneBefore(Crowded(r, w), MakePipe(r, w), Alone(PipePages(Crowded(r, w).slots, 0, r, w, 0), Idle, 1), acts, last);
  }

  lemma DupStarts(slots: map<Place, Page>, x: nat, to: nat)
    requires x < MAXFD <= to < 2 * MAXFD && (0, x) in slots
    ensures Enabled(Alone(slots, Idle, 1), StartDup(x, to))
    ensures Next(Alone(slots, Idle, 1), StartDup(x, to)) == Alone(slots, DupData(x, to), 1)
  {
    assert Slot(to) == to;
  }

  // dup of a descriptor without a data page is one mapping call.
  lemma DupMapsOne(slots: map<Place, Page>, x: nat, to: nat, acts: seq<Action>, last: State)
    requires x < MAXFD && MAXFD <= to < 2 * MAXFD && (0, x) in slots && (0, MAXFD + x) !in slots
    requires Reaches(Alone(slots[(0, to) := slots[(0, x)]], Idle, 2), acts, last)
    ensures Reaches(Alone(slots, Idle, 1), [StartDup(x, to)] + ([Advance(false)] + ([Advance(false)] + acts)), last)
  {
    DupTwoCalls(slots, x, to, acts, last);
    DupStarts(slots, x, to);
    OneBefore(Alone(slots, Idle, 1), StartDup(x, to), Alone(slots, DupData(x, to), 1),
              [Advance(false)] + ([Advance(false)] + acts), last);
  }

  lemma DupFindsNoData(slots: map<Place, Page>, x: nat, to: nat, acts: seq<Action>, last: State)
    requires (0, MAXFD + x) !in slots && Reaches(Alone(slots, DupFd(x, to), 1), acts, last)
    ensures Reaches(Alone(slots, DupData(x, to), 1), [Advance(false)] + acts, last)
  {
    OneBefore(Alone(slots, DupData(x, to), 1), Advance(false), Alone(slots, DupFd(x, to), 1), acts, last);
  }

  lemma DupMapsFd(slots: map<Place, Page>, x: nat, to: nat, acts: seq<Action>, last: State)
    requires to < 2 * MAXFD && (0, x) in slots && Reaches(Alone(slots[(0, to) := slots[(0, x)]], Idle, 2), acts, last)
    ensures Reaches(Alone(slots, DupFd(x, to), 1), [Advance(false)] + acts, last)
  {
    OneBefore(Alone(slots, DupFd(x, to), 1), Advance(false), Alone(slots[(0, to) := slots[(0, x)]], Idle, 2), acts, last);
  }

  lemma DupTwoCalls(slots: map<Place, Page>, x: nat, to: nat, acts: seq<Action>, last: State)
    requires to < 2 * MAXFD && (0, x) in slots && (0, MAXFD + x) !in slots
    requires Reaches(Alone(slots[(0, to) := slots[(0, x)]], Idle, 2), acts, last)
    ensures Reaches(Alone(slots, DupData(x, to), 1), [Advance(false)] + ([Advance(false)] + acts), last)
  {
    DupMapsFd(slots, x, to, acts, last);
    DupFindsNoData(slots, x, to, [Advance(false)] + acts, last);
  }

  ghost function CheckActs(fd: nat): (acts: seq<Action>)
    ensures |acts| == 4
  {
    [StartCheck(fd, true)] + ([Advance(false)] + ([Advance(false)] + ([Advance(false)] + [])))
  }

  lemma SamplesEnd(slots: map<Place, Page>, fd: nat)
    requires IsEnd(slots, 0, fd) && PageRef(slots, 0, fd) == PageRef(slots, 0, MAXFD + fd) == 1
    ensures Reaches(Alone(slots, SampleFirst(fd, true, 2), 2), [Advance(false)] + ([Advance(false)] + []),
                    Alone(slots, SampleEnd(fd, true, 2, true), 2))
  {
    var s7, s8, a := Alone(slots, SampleSecond(fd, true, 2, 1), 2), Alone(slots, SampleEnd(fd, true, 2, true), 2), Advance(false);
    OneBefore(s7, a, s8, [], s8);
    OneBefore(Alone(slots, SampleFirst(fd, true, 2), 2), a, s7, [a] + [], s8);
  }

  lemma SamplesClosed(slots: map<Place, Page>, fd: nat)
    requires IsEnd(slots, 0, fd) && PageRef(slots, 0, fd) == PageRef(slots, 0, MAXFD + fd) == 1
    ensures Reaches(Alone(slots, Idle, 2), CheckActs(fd), Alone(slots, SampleEnd(fd, true, 2, true), 2))
  {
    var s5, s6 := Alone(slots, Sample(fd, true), 2), Alone(slots, SampleFirst(fd, true, 2), 2);
    var s8, a := Alone(slots, SampleEnd(fd, true, 2, true), 2), Advance(false);
    SamplesEnd(slots, fd);
    OneBefore(s5, a, s6, [a] + ([a] + []), s8);
    OneBefore(Alone(slots, Idle, 2), StartCheck(fd, true), s5, [a] + ([a] + ([a] + [])), s8);
  }

  // A dup over a data page, then a check that finds equal counts.
  ghost function DupActs(x: nat, to: nat, fd: nat): (acts: seq<Action>)
    ensures |acts| == 7 && acts[0] == StartDup(x, to)
  {
    [StartDup(x, to)] + ([Advance(false)] + ([Advance(false)] + CheckActs(fd)))
  }

  lemma DupThenCheck(slots: map<Place, Page>, slots': map<Place, Page>, x: nat, to: nat, fd: nat)
    requires x < MAXFD <= to < 2 * MAXFD && (0, x) in slots && (0, MAXFD + x) !in slots && slots' == slots[(0, to) := slots[(0, x)]]
    requires IsEnd(slots', 0, fd) && PageRef(slots', 0, fd) == PageRef(slots', 0, MAXFD + fd) == 1
    ensures Reaches(Alone(slots, Idle, 1), DupActs(x, to, fd), Alone(slots', SampleEnd(fd, true, 2, true), 2))
  {
    SamplesClosed(slots', fd);
    DupMapsOne(slots, x, to, CheckActs(fd), Alone(slots', SampleEnd(fd, true, 2, true), 2));
  }

  lemma OverwrittenCounts(r: nat, w: nat, j: nat, fd: nat, slots: map<Place, Page>)
    requires r < w < MAXFD && (j == r || j == w) && fd == r + w - j
    requires slots == PipePages(Crowded(r, w).slots, 0, r, w, 0)[(0, MAXFD + j) := Other(1)]
    ensures PageRef(slots, 0, fd) == PageRef(slots, 0, MAXFD + fd) == 1
    ensures IsEnd(slots, 0, fd) && slots[(0, fd)] == End(0, fd == w) && (0, j) in slots && slots[(0, j)] == End(0, j == w)
  {
    assert Places(slots, End(0, fd == w)) == {(0, fd)};
    assert Places(slots, Buf(0)) == {(0, MAXFD + fd)};
  }

  lemma OthersStayOpen(r: nat, w: nat, x: nat, slots: map<Place, Page>)
    requires r < w < MAXFD && x < MAXFD && x != r && x != w && slots == PipePages(Crowded(r, w).slots, 0, r, w, 0)
    ensures (0, x) in slots && slots[(0, x)] == Other(1) && (0, MAXFD + x) !in slots
  {}

  // dup does not check its second argument.  Given MAXFD + j, it maps a descriptor
  // over the data page of descriptor j; if j is one end of a pipe, the other end is
  // then told that it is closed while j is still open.
  lemma OutOfRangeDupMisleads(r: nat, w: nat, j: nat, x: nat)
    returns (acts: seq<Action>, last: State, fd: nat)
    requires r < w < MAXFD && (j == r || j == w) && x < MAXFD && x != r && x != w
    ensures |acts| > 1 && acts[0] == MakePipe(r, w) && acts[1] == StartDup(x, MAXFD + j) && Reaches(Crowded(r, w), acts, last)
    ensures SaysClosed(last, Advance(false), fd) && last.cur == 0 && IsEnd(last.slots, 0, fd)
    ensures (0, j) in last.slots && last.slots[(0, j)] == End(last.slots[(0, fd)].pipe, !last.slots[(0, fd)].write)
  {
    fd := r + w - j;
    var slots := PipePages(Crowded(r, w).slots, 0, r, w, 0);
    var slots' := slots[(0, MAXFD + j) := Other(1)];
    last := Alone(slots', SampleEnd(fd, true, 2, true), 2);
    OverwrittenCounts(r, w, j, fd, slots');
    OthersStayOpen(r, w, x, slots);
    DupThenCheck(slots, slots', x, MAXFD + j, fd);
    FirstThePipe(r, w, DupActs(x, MAXFD + j, fd), last);
    acts := [MakePipe(r, w)] + DupActs(x, MAXFD + j, fd);
  }
}
