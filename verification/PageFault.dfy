// A user page fault and its return: the frame page_fault_handler pushes
// (kern/trap.c), and the instructions of _pgfault_upcall that undo it
// (lib/pfentry.S), over memory made of bytes.
module PageFault {
  import opened Inc

  // sizeof(struct UTrapframe), in bytes and in words
  const UTF_SIZE := 52
  const UTF_WORDS := 13

  type Mem = int -> nat

  // The general registers but esp, in pushal order: edi, esi, ebp, ebx, edx, ecx, eax.
  const EBX := 3
  const EAX := 6

  datatype Cpu = Cpu(regs: seq<nat>, esp: int, eip: nat, eflags: nat)

  datatype Machine = Machine(cpu: Cpu, mem: Mem)

  predicate WordOk(w: int) {
    0 <= w < WORD
  }

  predicate CpuOk(c: Cpu) {
    |c.regs| == 7 && WordOk(c.esp) && WordOk(c.eip) && WordOk(c.eflags) && forall i :: 0 <= i < 7 ==> WordOk(c.regs[i])
  }

  // ---- memory ----------------------------------------------------------------------

  // A little-endian word at any address.
  function Get(m: Mem, a: int): nat {
    m(a) + 0x100 * m(a + 1) + 0x1_0000 * m(a + 2) + 0x100_0000 * m(a + 3)
  }

  function Put(m: Mem, a: int, w: int): Mem {
    x =>
      if x == a then w % 0x100
      else if x == a + 1 then w / 0x100 % 0x100
      else if x == a + 2 then w / 0x1_0000 % 0x100
      else if x == a + 3 then w / 0x100_0000 % 0x100
      else m(x)
  }

  lemma GetPut(m: Mem, a: int, w: int)
    requires WordOk(w)
    ensures Get(Put(m, a, w), a) == w
  {
    var m' := Put(m, a, w);
    assert m'(a) == w % 0x100 && m'(a + 1) == w / 0x100 % 0x100;
    assert m'(a + 2) == w / 0x1_0000 % 0x100 && m'(a + 3) == w / 0x100_0000 % 0x100;
    FourBytes(w);
  }

  lemma FourBytes(w: nat)
    requires w < WORD
    ensures w % 0x100 + 0x100 * (w / 0x100 % 0x100) + 0x1_0000 * (w / 0x1_0000 % 0x100) +
            0x100_0000 * (w / 0x100_0000 % 0x100) == w
  {}

  lemma PutElsewhere(m: Mem, a: int, w: int, b: int)
    requires b + 4 <= a || a + 4 <= b
    ensures Get(Put(m, a, w), b) == Get(m, b)
  {}

  lemma PutByte(m: Mem, a: int, w: int, x: int)
    requires x < a || x >= a + 4
    ensures Put(m, a, w)(x) == m(x)
  {}

  function PutWords(m: Mem, a: int, ws: seq<nat>): Mem
    decreases |ws|
  {
    if ws == [] then m else Put(PutWords(m, a, ws[..|ws| - 1]), a + 4 * (|ws| - 1), ws[|ws| - 1])
  }

  lemma {:induction false} GetPutWords(m: Mem, a: int, ws: seq<nat>, i: nat)
    requires i < |ws| && forall j :: 0 <= j < |ws| ==> WordOk(ws[j])
    ensures Get(PutWords(m, a, ws), a + 4 * i) == ws[i]
    decreases |ws|
  {
    var k := |ws| - 1;
    GetPut(PutWords(m, a, ws[..k]), a + 4 * k, ws[k]);
    if i < k {
      GetPutWords(m, a, ws[..k], i);
      PutElsewhere(PutWords(m, a, ws[..k]), a + 4 * k, ws[k], a + 4 * i);
    }
  }

  lemma {:induction false} PutWordsElsewhere(m: Mem, a: int, ws: seq<nat>, x: int)
    requires x < a || x >= a + 4 * |ws|
    ensures PutWords(m, a, ws)(x) == m(x)
    decreases |ws|
  {
    if ws != [] {
      PutWordsElsewhere(m, a, ws[..|ws| - 1], x);
    }
  }

  // ---- the kernel's side -------------------------------------------------------------

  predicate OnExceptionStack(esp: int) {
    UXSTACKTOP - PGSIZE <= esp <= UXSTACKTOP - 1
  }

  // Where the frame goes; a nested one leaves a word free below the trap-time esp.
  function UtfAddr(esp: int): int {
    if OnExceptionStack(esp) then esp - UTF_SIZE - 4 else UXSTACKTOP - UTF_SIZE
  }

  // The registers once eax and ebx have been set.
  function WithScratch(regs: seq<nat>, eax: nat, ebx: nat): (r: seq<nat>)
    requires |regs| == 7
    ensures |r| == 7 && r == regs[6 := eax][3 := ebx]
  {
    regs[EAX := eax][EBX := ebx]
  }

  // struct UTrapframe, with the useless copy of esp among the registers.
  function Frame(c: Cpu, va: nat, err: nat): (ws: seq<nat>)
    requires CpuOk(c)
    ensures |ws| == UTF_WORDS
  {
    [va, err] + c.regs[..3] + [0] + c.regs[3..] + [c.eip, c.eflags, c.esp]
  }

  function KernelPush(s: Machine, va: nat, err: nat, upcall: nat): Machine
    requires CpuOk(s.cpu)
  {
    var u := UtfAddr(s.cpu.esp);
    Machine(s.cpu.(eip := upcall, esp := u), PutWords(s.mem, u, Frame(s.cpu, va, err)))
  }

  // ---- the upcall, instruction by instruction -------------------------------------------

  // movl %esp, %eax; movl 40(%esp), %ebx; movl 48(%esp), %esp
  function SwitchStack(s: Machine): Machine
    requires |s.cpu.regs| == 7 && s.cpu.esp >= 0
  {
    s.(cpu := s.cpu.(regs := s.cpu.regs[EAX := s.cpu.esp][EBX := Get(s.mem, s.cpu.esp + 40)], esp := Get(s.mem, s.cpu.esp + 48)))
  }

  // pushl %ebx
  function PushEip(s: Machine): Machine
    requires |s.cpu.regs| == 7
  {
    Machine(s.cpu.(esp := s.cpu.esp - 4), Put(s.mem, s.cpu.esp - 4, s.cpu.regs[EBX]))
  }

  // movl %esp, 48(%eax); movl %eax, %esp
  function SaveStack(s: Machine): Machine
    requires |s.cpu.regs| == 7
  {
    Machine(s.cpu.(esp := s.cpu.regs[EAX]), Put(s.mem, s.cpu.regs[EAX] + 48, s.cpu.esp))
  }

  // addl $4, %esp, twice, then popal; the first two change the flags
  function PopRegisters(s: Machine, flags: nat): Machine {
    var u := s.cpu.esp;
    s.(cpu := s.cpu.(
      regs := [Get(s.mem, u + 8), Get(s.mem, u + 12), Get(s.mem, u + 16), Get(s.mem, u + 24), Get(s.mem, u + 28),
               Get(s.mem, u + 32), Get(s.mem, u + 36)],
      esp := u + 40, eflags := flags))
  }

  // addl $4, %esp; popfl; popl %esp
  function PopFlagsAndStack(s: Machine): Machine {
    s.(cpu := s.cpu.(eflags := Get(s.mem, s.cpu.esp + 4), esp := Get(s.mem, s.cpu.esp + 8)))
  }

  // ret
  function Ret(s: Machine): Machine {
    s.(cpu := s.cpu.(eip := Get(s.mem, s.cpu.esp), esp := s.cpu.esp + 4))
  }

  // What follows the handler's return, from `esp` at the frame on.
  function AfterPush(s: Machine, flags: nat): Machine
    requires |s.cpu.regs| == 7
  {
    Ret(PopFlagsAndStack(PopRegisters(SaveStack(s), flags)))
  }

  function Epilogue(s: Machine, flags: nat): Machine
    requires |s.cpu.regs| == 7 && s.cpu.esp >= 0
  {
    AfterPush(PushEip(SwitchStack(s)), flags)
  }

  // ---- returning ----------------------------------------------------------------------------

  // The frame for trap-time state `c` is intact at address `u`.
  ghost predicate FrameAt(m: Mem, u: int, c: Cpu) {
    CpuOk(c) && exists va: nat, err: nat :: HasWords(m, u, Frame(c, va, err))
  }

  ghost predicate HasWords(m: Mem, u: int, ws: seq<nat>) {
    forall i {:trigger ws[i]} :: 0 <= i < |ws| ==> Get(m, u + 4 * i) == ws[i]
  }

  // All but the last word, the trap-time esp.
  ghost predicate HasRegisters(m: Mem, u: int, ws: seq<nat>)
    requires |ws| == UTF_WORDS
  {
    forall i {:trigger ws[i]} :: 0 <= i < UTF_WORDS - 1 ==> Get(m, u + 4 * i) == ws[i]
  }

  // The word below the trap-time esp is not part of the frame.
  predicate SlotOutside(esp: int, u: int) {
    esp <= u || esp - 4 >= u + UTF_SIZE
  }

  // With the frame where the kernel puts it, this only fails within four bytes of
  // the top of the exception stack.
  lemma SlotOutsideIff(esp: int)
    ensures SlotOutside(esp, UtfAddr(esp)) <==> !(UXSTACKTOP <= esp < UXSTACKTOP + 4)
  {}

  // The epilogue restores the whole trap-time processor state, and writes nothing
  // but the word below the trap-time esp and one word of the used-up frame.
  lemma EpilogueRestores(s: Machine, c: Cpu, flags: nat)
    requires |s.cpu.regs| == 7 && s.cpu.esp >= 0 && FrameAt(s.mem, s.cpu.esp, c)
    requires SlotOutside(c.esp, s.cpu.esp) && c.esp >= 4
    ensures Epilogue(s, flags).cpu == c
    ensures forall x :: !(c.esp - 4 <= x < c.esp) && !(s.cpu.esp + 48 <= x < s.cpu.esp + UTF_SIZE) ==>
              Epilogue(s, flags).mem(x) == s.mem(x)
  {
    var va: nat, err: nat :| HasWords(s.mem, s.cpu.esp, Frame(c, va, err));
    EpilogueOverFrame(s, c, Frame(c, va, err), va, err, flags);
    EpilogueMem(s, c, Frame(c, va, err), va, err, flags);
    TwoPuts(s.mem, c.esp - 4, c.eip, s.cpu.esp + 48, c.esp - 4);
  }

  lemma EpilogueOverFrame(s: Machine, c: Cpu, f: seq<nat>, va: nat, err: nat, flags: nat)
    requires |s.cpu.regs| == 7 && s.cpu.esp >= 0 && CpuOk(c) && f == Frame(c, va, err) && HasWords(s.mem, s.cpu.esp, f)
    requires SlotOutside(c.esp, s.cpu.esp) && c.esp >= 4
    ensures Epilogue(s, flags).cpu == c
  {
    var t := PushEip(SwitchStack(s));
    PushesEip(s, c, f, va, err);
    PushKeepsFrame(s.mem, s.cpu.esp, c.esp, c.eip, f);
    FrameWords(c, va, err);
    PopsState(t, s.cpu.esp, c, f, flags);
  }

  lemma EpilogueMem(s: Machine, c: Cpu, f: seq<nat>, va: nat, err: nat, flags: nat)
    requires |s.cpu.regs| == 7 && s.cpu.esp >= 0 && CpuOk(c) && f == Frame(c, va, err) && HasWords(s.mem, s.cpu.esp, f)
    ensures Epilogue(s, flags).mem == Put(Put(s.mem, c.esp - 4, c.eip), s.cpu.esp + 48, c.esp - 4)
  {
    PushesEip(s, c, f, va, err);
    AfterPushMem(PushEip(SwitchStack(s)), Put(s.mem, c.esp - 4, c.eip), s.cpu.esp, c.esp - 4, flags);
  }

  lemma TwoPuts(m: Mem, a: int, v: int, b: int, w: int)
    ensures forall x :: !(a <= x < a + 4) && !(b <= x < b + 4) ==> Put(Put(m, a, v), b, w)(x) == m(x)
  {}

  lemma AfterPushMem(t: Machine, m: Mem, u: int, e: int, flags: nat)
    requires |t.cpu.regs| == 7 && t.mem == m && t.cpu.regs[EAX] == u && t.cpu.esp == e
    ensures AfterPush(t, flags).mem == Put(m, u + 48, e)
  {}

  // The push leaves the frame's registers as they are.
  lemma PushKeepsFrame(m: Mem, u: int, e: int, eip: nat, f: seq<nat>)
    requires |f| == UTF_WORDS && HasRegisters(m, u, f) && SlotOutside(e, u) && WordOk(eip)
    ensures HasRegisters(Put(m, e - 4, eip), u, f) && Get(Put(m, e - 4, eip), e - 4) == eip
  {
    forall i {:trigger f[i]} | 0 <= i < UTF_WORDS - 1 ensures Get(Put(m, e - 4, eip), u + 4 * i) == f[i] {
      PutElsewhere(m, e - 4, eip, u + 4 * i);
    }
    GetPut(m, e - 4, eip);
  }

  lemma PushesEip(s: Machine, c: Cpu, f: seq<nat>, va: nat, err: nat)
    requires |s.cpu.regs| == 7 && s.cpu.esp >= 0 && CpuOk(c) && f == Frame(c, va, err) && HasWords(s.mem, s.cpu.esp, f)
    ensures var t := PushEip(SwitchStack(s));
            t.mem == Put(s.mem, c.esp - 4, c.eip) && t.cpu.esp == c.esp - 4 && t.cpu.regs[EAX] == s.cpu.esp
  {
    FrameWords(c, va, err);
    assert Get(s.mem, s.cpu.esp + 4 * 10) == f[10];
    assert Get(s.mem, s.cpu.esp + 4 * 12) == f[12];
  }

  // From the push of eip on, with the frame at `u` and eip below the trap-time esp.
  lemma PopsState(t: Machine, u: int, c: Cpu, f: seq<nat>, flags: nat)
    requires |t.cpu.regs| == 7 && CpuOk(c) && |f| == UTF_WORDS && HasRegisters(t.mem, u, f)
    requires f[2..5] == c.regs[..3] && f[6..10] == c.regs[3..] && f[11] == c.eflags
    requires t.cpu.regs[EAX] == u && t.cpu.esp == c.esp - 4 && c.esp >= 4 && SlotOutside(c.esp, u)
    requires Get(t.mem, c.esp - 4) == c.eip
    ensures AfterPush(t, flags).cpu == c
  {
    SavedWords(t.mem, u, c.esp, f);
    PopsFrame(SaveStack(t), u, c, f, flags);
  }

  lemma SavedWords(m: Mem, u: int, e: int, f: seq<nat>)
    requires |f| == UTF_WORDS && HasRegisters(m, u, f) && SlotOutside(e, u) && WordOk(e) && e >= 4
    ensures HasRegisters(Put(m, u + 48, e - 4), u, f)
    ensures Get(Put(m, u + 48, e - 4), u + 48) == e - 4
    ensures Get(Put(m, u + 48, e - 4), e - 4) == Get(m, e - 4)
  {
    forall i {:trigger f[i]} | 0 <= i < 12 ensures Get(Put(m, u + 48, e - 4), u + 4 * i) == f[i] {
      PutElsewhere(m, u + 48, e - 4, u + 4 * i);
    }
    GetPut(m, u + 48, e - 4);
    PutElsewhere(m, u + 48, e - 4, e - 4);
  }

  lemma PopsFrame(t: Machine, u: int, c: Cpu, f: seq<nat>, flags: nat)
    requires CpuOk(c) && |f| == UTF_WORDS && t.cpu.esp == u
    requires f[2..5] == c.regs[..3] && f[6..10] == c.regs[3..] && f[11] == c.eflags
    requires HasRegisters(t.mem, u, f)
    requires Get(t.mem, u + 48) == c.esp - 4 && Get(t.mem, c.esp - 4) == c.eip
    ensures Ret(PopFlagsAndStack(PopRegisters(t, flags))).cpu == c
  {
    Registers(t.mem, u, f, c);
    assert Get(t.mem, u + 4 * 11) == f[11];
    var t1 := PopRegisters(t, flags);
    assert t1.cpu.regs == c.regs && t1.mem == t.mem && t1.cpu.esp == u + 40;
    var t2 := PopFlagsAndStack(t1);
    assert t2.cpu.eflags == c.eflags && t2.cpu.esp == c.esp - 4 && t2.mem == t.mem;
  }

  lemma FrameWords(c: Cpu, va: nat, err: nat)
    requires CpuOk(c)
    ensures var f := Frame(c, va, err);
            f[2..5] == c.regs[..3] && f[6..10] == c.regs[3..] && f[10] == c.eip && f[11] == c.eflags && f[12] == c.esp
  {}

  // The return address the epilogue goes to when the trap-time esp is `d` bytes above
  // the exception stack: the word below it overlaps the frame's last word, which is
  // written after it.
  function Mixed(eip: nat, d: nat): nat
    requires d < 4
  {
    if d == 0 then UXSTACKTOP - 4
    else if d == 1 then (UXSTACKTOP - 3) / 0x100 + 0x100_0000 * (eip / 0x100_0000)
    else if d == 2 then (UXSTACKTOP - 2) / 0x1_0000 + 0x1_0000 * (eip / 0x1_0000)
    else (UXSTACKTOP - 1) / 0x100_0000 + 0x100 * (eip / 0x100)
  }

  lemma MixedWord(m: Mem, eip: nat, d: nat)
    requires d < 4 && WordOk(eip)
    ensures Get(Put(Put(m, UXSTACKTOP - 4 + d, eip), UXSTACKTOP - 4, UXSTACKTOP - 4 + d), UXSTACKTOP - 4 + d) == Mixed(eip, d)
  {
    var a := UXSTACKTOP - 4 + d;
    var m2 := Put(Put(m, a, eip), UXSTACKTOP - 4, a);
    FourBytes(a);
    assert m2(UXSTACKTOP - 4) == a % 0x100 && m2(UXSTACKTOP - 3) == a / 0x100 % 0x100;
    assert m2(UXSTACKTOP - 2) == a / 0x1_0000 % 0x100 && m2(UXSTACKTOP - 1) == a / 0x100_0000 % 0x100;
    assert d >= 1 ==> m2(a + 3) == eip / 0x100_0000 % 0x100 == eip / 0x100_0000;
    assert d >= 2 ==> m2(a + 2) == eip / 0x1_0000 % 0x100;
    assert d == 3 ==> m2(a + 1) == eip / 0x100 % 0x100;
    UpperBytes(eip);
  }

  lemma UpperBytes(w: nat)
    requires w < WORD
    ensures w / 0x100_0000 < 0x100
    ensures w / 0x1_0000 == w / 0x1_0000 % 0x100 + 0x100 * (w / 0x100_0000)
    ensures w / 0x100 == w / 0x100 % 0x100 + 0x100 * (w / 0x1_0000 % 0x100) + 0x1_0000 * (w / 0x100_0000)
  {}

  // With a trap-time esp within four bytes above the exception stack everything but the
  // return address is restored, and that only if it happens to be the mixture.
  lemma TopOfStackMisreturns(s: Machine, c: Cpu, flags: nat)
    requires |s.cpu.regs| == 7 && s.cpu.esp == UtfAddr(c.esp) && FrameAt(s.mem, s.cpu.esp, c)
    requires UXSTACKTOP <= c.esp < UXSTACKTOP + 4
    ensures Epilogue(s, flags).cpu == c.(eip := Mixed(c.eip, c.esp - UXSTACKTOP))
    ensures Epilogue(s, flags).cpu == c <==> c.eip == Mixed(c.eip, c.esp - UXSTACKTOP)
  {
    var va: nat, err: nat :| HasWords(s.mem, s.cpu.esp, Frame(c, va, err));
    PushesEip(s, c, Frame(c, va, err), va, err);
    FrameWords(c, va, err);
    MixedReturn(PushEip(SwitchStack(s)), s.mem, c, Frame(c, va, err), Mixed(c.eip, c.esp - UXSTACKTOP), flags);
  }

  // From the push of eip on.
  lemma MixedReturn(t: Machine, m: Mem, c: Cpu, f: seq<nat>, eip: nat, flags: nat)
    requires |t.cpu.regs| == 7 && CpuOk(c) && UXSTACKTOP <= c.esp < UXSTACKTOP + 4 && |f| == UTF_WORDS
    requires f[2..5] == c.regs[..3] && f[6..10] == c.regs[3..] && f[11] == c.eflags && eip == Mixed(c.eip, c.esp - UXSTACKTOP)
    requires HasRegisters(m, UXSTACKTOP - UTF_SIZE, f) && t.mem == Put(m, c.esp - 4, c.eip)
    requires t.cpu.esp == c.esp - 4 && t.cpu.regs[EAX] == UXSTACKTOP - UTF_SIZE
    ensures AfterPush(t, flags).cpu == c.(eip := eip)
  {
    var u := UXSTACKTOP - UTF_SIZE;
    LaterKeepsRegisters(m, u, c.esp - 4, c.eip, f);
    LaterKeepsRegisters(t.mem, u, u + 48, c.esp - 4, f);
    GetPut(t.mem, u + 48, c.esp - 4);
    MixedWord(m, c.eip, c.esp - UXSTACKTOP);
    PopsFrame(SaveStack(t), u, c.(eip := eip), f, flags);
  }

  lemma LaterKeepsRegisters(m: Mem, u: int, a: int, w: nat, f: seq<nat>)
    requires |f| == UTF_WORDS && HasRegisters(m, u, f) && a >= u + 48
    ensures HasRegisters(Put(m, a, w), u, f)
  {
    forall i {:trigger f[i]} | 0 <= i < UTF_WORDS - 1 ensures Get(Put(m, a, w), u + 4 * i) == f[i] {
      PutElsewhere(m, a, w, u + 4 * i);
    }
  }

  // The seven registers in a frame.
  lemma Registers(m: Mem, u: int, f: seq<nat>, c: Cpu)
    requires CpuOk(c) && |f| == UTF_WORDS && f[2..5] == c.regs[..3] && f[6..10] == c.regs[3..]
    requires HasRegisters(m, u, f)
    ensures [Get(m, u + 8), Get(m, u + 12), Get(m, u + 16), Get(m, u + 24), Get(m, u + 28), Get(m, u + 32), Get(m, u + 36)] == c.regs
  {
    assert Get(m, u + 4 * 2) == f[2] == f[2..5][0] && Get(m, u + 4 * 3) == f[3] == f[2..5][1];
    assert Get(m, u + 4 * 4) == f[4] == f[2..5][2] && Get(m, u + 4 * 6) == f[6] == f[6..10][0];
    assert Get(m, u + 4 * 7) == f[7] == f[6..10][1] && Get(m, u + 4 * 8) == f[8] == f[6..10][2];
    assert Get(m, u + 4 * 9) == f[9] == f[6..10][3];
  }

  // ---- handlers that fault themselves ------------------------------------------------------------

  // What code does while it runs: stores, changes of processor state, and page faults
  // handled by other code.
  datatype Work =
    | Done
    | Store(a: int, w: nat, rest: Work)
    | Move(c: Cpu, rest: Work)
    | Fault(va: nat, err: nat, handler: Work, rest: Work)

  // Code addresses, and the flags `addl` leaves, none of which matter.
  datatype Code = Code(upcall: nat, handler: nat, back: nat, flags: nat)

  // The kernel's push, then `pushl %esp; movl _pgfault_handler, %eax; call *%eax`.
  function Entered(s: Machine, va: nat, err: nat, k: Code): Machine
    requires CpuOk(s.cpu) && UtfAddr(s.cpu.esp) >= 0
  {
    var t := KernelPush(s, va, err, k.upcall);
    Machine(t.cpu.(esp := t.cpu.esp - 8, eip := k.handler, regs := t.cpu.regs[EAX := k.handler]),
            Put(Put(t.mem, t.cpu.esp - 4, t.cpu.esp), t.cpu.esp - 8, k.back))
  }

  // The return from a fault; `after` is the machine at the handler's `ret`, which with
  // the `addl $4, %esp` after it takes the stack back to the frame at `u`.
  function Returned(after: Machine, u: nat, k: Code): Machine
    requires |after.cpu.regs| == 7
  {
    Epilogue(after.(cpu := after.cpu.(esp := u)), k.flags)
  }

  function Exec(s: Machine, w: Work, k: Code): Machine
    decreases w
  {
    match w
    case Done => s
    case Store(a, v, rest) => Exec(s.(mem := Put(s.mem, a, v)), rest, k)
    case Move(c, rest) => Exec(s.(cpu := c), rest, k)
    case Fault(va, err, handler, rest) =>
      if CpuOk(s.cpu) && UtfAddr(s.cpu.esp) >= 0 then
        var after := Exec(Entered(s, va, err, k), handler, k);
        if |after.cpu.regs| == 7 then Exec(Returned(after, UtfAddr(s.cpu.esp), k), rest, k) else after
      else s
  }

  // The exception stack has room for a frame and for calling the handler.
  predicate HasRoom(esp: int) {
    UtfAddr(esp) - 8 >= UXSTACKTOP - PGSIZE
  }

  // C code on the exception stack below `floor`: it stores nothing into the stack from
  // `floor` up, and a handler returns with the stack as it found it.
  ghost predicate Behaves(s: Machine, w: Work, floor: int, k: Code)
    decreases w, 0
  {
    match w
    case Done => true
    case Store(a, v, rest) =>
      (a + 4 <= floor || a >= UXSTACKTOP) && Behaves(s.(mem := Put(s.mem, a, v)), rest, floor, k)
    case Move(c, rest) => CpuOk(c) && OnExceptionStack(c.esp) && c.esp <= floor && Behaves(s.(cpu := c), rest, floor, k)
    case Fault(va, err, handler, rest) =>
      && CpuOk(s.cpu) && WordOk(va) && WordOk(err) && OnExceptionStack(s.cpu.esp) && s.cpu.esp <= floor
      && HandlerBehaves(s, va, err, handler, k)
      && Behaves(Returned(Exec(Entered(s, va, err, k), handler, k), UtfAddr(s.cpu.esp), k), rest, floor, k)
  }

  ghost predicate HandlerBehaves(s: Machine, va: nat, err: nat, handler: Work, k: Code)
    requires CpuOk(s.cpu)
    decreases handler, 1
  {
    && HasRoom(s.cpu.esp) && WordOk(va) && WordOk(err)
    && Behaves(Entered(s, va, err, k), handler, UtfAddr(s.cpu.esp), k)
    && CpuOk(Exec(Entered(s, va, err, k), handler, k).cpu)
    && Exec(Entered(s, va, err, k), handler, k).cpu.esp == UtfAddr(s.cpu.esp) - 8
  }

  lemma GetSame(m: Mem, m': Mem, a: int)
    requires forall x :: a <= x < a + 4 ==> m'(x) == m(x)
    ensures Get(m', a) == Get(m, a)
  {}

  // The frame is still there when a well-behaved handler returns.
  lemma FrameSurvives(s: Machine, va: nat, err: nat, m: Mem, k: Code)
    requires CpuOk(s.cpu) && HasRoom(s.cpu.esp) && WordOk(va) && WordOk(err)
    requires forall x :: UtfAddr(s.cpu.esp) <= x < UXSTACKTOP ==> m(x) == Entered(s, va, err, k).mem(x)
    ensures HasWords(m, UtfAddr(s.cpu.esp), Frame(s.cpu, va, err))
  {
    var u, f := UtfAddr(s.cpu.esp), Frame(s.cpu, va, err);
    forall i | 0 <= i < |f| ensures Get(m, u + 4 * i) == f[i] {
      GetPutWords(s.mem, u, f, i);
      GetSame(PutWords(s.mem, u, f), m, u + 4 * i);
    }
  }

  // What the handler starts with: esp at its return address, above that its argument, the
  // address of the frame, and in the frame, at the offsets of struct UTrapframe, the
  // faulting address, the error code and the interrupted code's registers.
  lemma HandlerSees(s: Machine, va: nat, err: nat, k: Code)
    requires CpuOk(s.cpu) && HasRoom(s.cpu.esp) && WordOk(va) && WordOk(err) && WordOk(k.back)
    ensures var t, u, c := Entered(s, va, err, k), UtfAddr(s.cpu.esp), s.cpu;
            && u == (if 0xee7f_f000 <= c.esp < 0xee80_0000 then c.esp - 56 else 0xee7f_ffcc)
            && KernelPush(s, va, err, k.upcall).cpu == c.(eip := k.upcall, esp := u)
            && t.cpu == c.(eip := k.handler, esp := u - 8, regs := c.regs[6 := k.handler])
            && Get(t.mem, u - 8) == k.back && Get(t.mem, u - 4) == u
            && Get(t.mem, u) == va && Get(t.mem, u + 4) == err
            && [Get(t.mem, u + 8), Get(t.mem, u + 12), Get(t.mem, u + 16), Get(t.mem, u + 24),
                Get(t.mem, u + 28), Get(t.mem, u + 32), Get(t.mem, u + 36)] == c.regs
            && Get(t.mem, u + 40) == c.eip && Get(t.mem, u + 44) == c.eflags && Get(t.mem, u + 48) == c.esp
  {
    var m, u, f := Entered(s, va, err, k).mem, UtfAddr(s.cpu.esp), Frame(s.cpu, va, err);
    FrameSurvives(s, va, err, m, k);
    CallWords(PutWords(s.mem, u, f), u, k.back);
    FrameHolds(m, u, f, s.cpu, va, err);
  }

  lemma FrameHolds(m: Mem, u: int, f: seq<nat>, c: Cpu, va: nat, err: nat)
    requires CpuOk(c) && f == Frame(c, va, err) && HasWords(m, u, f)
    ensures Get(m, u) == va && Get(m, u + 4) == err
    ensures [Get(m, u + 8), Get(m, u + 12), Get(m, u + 16), Get(m, u + 24), Get(m, u + 28), Get(m, u + 32), Get(m, u + 36)] == c.regs
    ensures Get(m, u + 40) == c.eip && Get(m, u + 44) == c.eflags && Get(m, u + 48) == c.esp
  {
    FrameWords(c, va, err);
    Registers(m, u, f, c);
    OtherWords(m, u, f);
  }

  lemma OtherWords(m: Mem, u: int, f: seq<nat>)
    requires |f| == UTF_WORDS && HasWords(m, u, f)
    ensures Get(m, u) == f[0] && Get(m, u + 4) == f[1] && Get(m, u + 40) == f[10] && Get(m, u + 44) == f[11] && Get(m, u + 48) == f[12]
  {
    assert Get(m, u + 4 * 0) == f[0] && Get(m, u + 4 * 1) == f[1];
    assert Get(m, u + 4 * 10) == f[10] && Get(m, u + 4 * 11) == f[11] && Get(m, u + 4 * 12) == f[12];
  }

  lemma CallWords(m: Mem, u: int, back: nat)
    requires WordOk(u) && WordOk(back)
    ensures Get(Put(Put(m, u - 4, u), u - 8, back), u - 4) == u
    ensures Get(Put(Put(m, u - 4, u), u - 8, back), u - 8) == back
  {
    GetPut(m, u - 4, u);
    PutElsewhere(Put(m, u - 4, u), u - 8, back, u - 4);
    GetPut(Put(m, u - 4, u), u - 8, back);
  }

  // Nothing above the trap-time esp, and nothing outside the exception stack, changes
  // when the frame is pushed and the handler called.
  lemma EnteringKeeps(s: Machine, va: nat, err: nat, k: Code, x: int)
    requires CpuOk(s.cpu) && HasRoom(s.cpu.esp)
    requires x < UXSTACKTOP - PGSIZE || x >= UtfAddr(s.cpu.esp) + UTF_SIZE
    ensures Entered(s, va, err, k).mem(x) == s.mem(x)
  {
    PutWordsElsewhere(s.mem, UtfAddr(s.cpu.esp), Frame(s.cpu, va, err), x);
  }

  // A fault and its return are the identity on the processor, whatever faults the
  // handler itself takes.
  lemma ReturnsIfKept(s: Machine, va: nat, err: nat, after: Machine, k: Code)
    requires CpuOk(s.cpu) && s.cpu.esp >= 4 && HasRoom(s.cpu.esp) && WordOk(va) && WordOk(err)
    requires !(UXSTACKTOP <= s.cpu.esp < UXSTACKTOP + 4)
    requires CpuOk(after.cpu)
    requires forall x :: UtfAddr(s.cpu.esp) <= x < UXSTACKTOP ==> after.mem(x) == Entered(s, va, err, k).mem(x)
    ensures Returned(after, UtfAddr(s.cpu.esp), k).cpu == s.cpu
    ensures forall x :: !(s.cpu.esp - 4 <= x < s.cpu.esp) &&
                        !(UtfAddr(s.cpu.esp) + 48 <= x < UtfAddr(s.cpu.esp) + UTF_SIZE) ==>
              Returned(after, UtfAddr(s.cpu.esp), k).mem(x) == after.mem(x)
  {
    var u := UtfAddr(s.cpu.esp);
    FrameSurvives(s, va, err, after.mem, k);
    SlotOutsideIff(s.cpu.esp);
    var t := after.(cpu := after.cpu.(esp := u));
    assert FrameAt(t.mem, u, s.cpu);
    EpilogueRestores(t, s.cpu, k.flags);
  }

  // A nested fault, from push to return, changes no byte its handler does not, but for
  // those below the trap-time esp.
  lemma FaultKeeps(s: Machine, va: nat, err: nat, after: Machine, k: Code, x: int)
    requires CpuOk(s.cpu) && OnExceptionStack(s.cpu.esp) && HasRoom(s.cpu.esp) && WordOk(va) && WordOk(err) && CpuOk(after.cpu)
    requires forall y :: UtfAddr(s.cpu.esp) <= y < UXSTACKTOP ==> after.mem(y) == Entered(s, va, err, k).mem(y)
    requires x < UXSTACKTOP - PGSIZE || x >= s.cpu.esp
    requires after.mem(x) == Entered(s, va, err, k).mem(x)
    ensures Returned(after, UtfAddr(s.cpu.esp), k).mem(x) == s.mem(x)
  {
    EnteringKeeps(s, va, err, k, x);
    ReturnsIfKept(s, va, err, after, k);
  }

  // Code on the exception stack leaves everything from its floor up alone, at any
  // depth of nested faults: no frame overlaps another, nor a reserved scratch word.
  lemma {:induction false} KeepsAbove(s: Machine, w: Work, floor: int, k: Code, x: int)
    requires Behaves(s, w, floor, k) && floor <= x < UXSTACKTOP
    ensures Exec(s, w, k).mem(x) == s.mem(x)
    decreases w, 0
  {
    match w
    case Done =>
    case Store(a, v, rest) =>
      PutByte(s.mem, a, v, x);
      KeepsAbove(s.(mem := Put(s.mem, a, v)), rest, floor, k, x);
    case Move(c, rest) => KeepsAbove(s.(cpu := c), rest, floor, k, x);
    case Fault(va, err, handler, rest) =>
      HandlerKeepsAbove(s, va, err, handler, k);
      var after := Exec(Entered(s, va, err, k), handler, k);
      FaultKeeps(s, va, err, after, k, x);
      var s2 := Returned(after, UtfAddr(s.cpu.esp), k);
      KeepsAbove(s2, rest, floor, k, x);
      assert Exec(s, w, k) == Exec(s2, rest, k);
  }

  lemma {:induction false} HandlerKeepsAbove(s: Machine, va: nat, err: nat, handler: Work, k: Code)
    requires CpuOk(s.cpu) && HandlerBehaves(s, va, err, handler, k)
    ensures var s1 := Entered(s, va, err, k);
            forall y :: UtfAddr(s.cpu.esp) <= y < UXSTACKTOP ==> Exec(s1, handler, k).mem(y) == s1.mem(y)
    decreases handler, 1
  {
    var s1 := Entered(s, va, err, k);
    forall y | UtfAddr(s.cpu.esp) <= y < UXSTACKTOP ensures Exec(s1, handler, k).mem(y) == s1.mem(y) {
      KeepsAbove(s1, handler, UtfAddr(s.cpu.esp), k, y);
    }
  }

  predicate OffExceptionStack(x: int) {
    x < UXSTACKTOP - PGSIZE || x >= UXSTACKTOP
  }

  // No store in the code, at any depth, touches byte `x`.
  predicate NeverStores(w: Work, x: int)
    decreases w
  {
    match w
    case Done => true
    case Store(a, v, rest) => (x < a || x >= a + 4) && NeverStores(rest, x)
    case Move(c, rest) => NeverStores(rest, x)
    case Fault(va, err, handler, rest) => NeverStores(handler, x) && NeverStores(rest, x)
  }

  lemma {:induction false} KeepsOutside(s: Machine, w: Work, floor: int, k: Code, x: int)
    requires Behaves(s, w, floor, k) && NeverStores(w, x) && OffExceptionStack(x)
    requires floor <= UXSTACKTOP
    ensures Exec(s, w, k).mem(x) == s.mem(x)
    decreases w
  {
    match w
    case Done =>
    case Store(a, v, rest) =>
      PutByte(s.mem, a, v, x);
      KeepsOutside(s.(mem := Put(s.mem, a, v)), rest, floor, k, x);
    case Move(c, rest) => KeepsOutside(s.(cpu := c), rest, floor, k, x);
    case Fault(va, err, handler, rest) =>
      HandlerKeepsAbove(s, va, err, handler, k);
      KeepsOutside(Entered(s, va, err, k), handler, UtfAddr(s.cpu.esp), k, x);
      var after := Exec(Entered(s, va, err, k), handler, k);
      FaultKeeps(s, va, err, after, k, x);
      var s2 := Returned(after, UtfAddr(s.cpu.esp), k);
      KeepsOutside(s2, rest, floor, k, x);
      assert Exec(s, w, k) == Exec(s2, rest, k);
  }

  // The whole of it: with a handler that behaves, however deeply it faults itself, the
  // interrupted code finds every register as it was; outside the exception stack only
  // the handler's own stores and the word below the trap-time esp have changed.
  lemma FaultReturnIsIdentity(s: Machine, va: nat, err: nat, handler: Work, k: Code)
    requires CpuOk(s.cpu) && s.cpu.esp >= 4 && !(UXSTACKTOP <= s.cpu.esp < UXSTACKTOP + 4)
    requires HandlerBehaves(s, va, err, handler, k)
    ensures var s' := Returned(Exec(Entered(s, va, err, k), handler, k), UtfAddr(s.cpu.esp), k);
            && s'.cpu == s.cpu
            && (forall x :: OffExceptionStack(x) && !(s.cpu.esp - 4 <= x < s.cpu.esp) && NeverStores(handler, x) ==>
                  s'.mem(x) == s.mem(x))
            && (OnExceptionStack(s.cpu.esp) ==> forall x :: s.cpu.esp <= x < UXSTACKTOP ==> s'.mem(x) == s.mem(x))
  {
    var u, s1 := UtfAddr(s.cpu.esp), Entered(s, va, err, k);
    var after := Exec(s1, handler, k);
    HandlerKeepsAbove(s, va, err, handler, k);
    ReturnsIfKept(s, va, err, after, k);
    forall x | OffExceptionStack(x) && NeverStores(handler, x) ensures after.mem(x) == s.mem(x) {
      EnteringKeeps(s, va, err, k, x);
      KeepsOutside(s1, handler, u, k, x);
    }
    if OnExceptionStack(s.cpu.esp) {
      forall x | s.cpu.esp <= x < UXSTACKTOP ensures after.mem(x) == s.mem(x) {
        EnteringKeeps(s, va, err, k, x);
      }
    }
  }

  // ---- a fault on the push -------------------------------------------------------------------

  // The epilogue when `pushl %ebx` itself faults: esp already points to the trap-time
  // stack, so the kernel starts a new frame at the top of the exception stack, over the
  // one being unwound.  Then the push is done again, and the epilogue goes on.
  ghost function FaultingEpilogue(t: Machine, va: nat, err: nat, handler: Work, k: Code): Machine
    requires CpuOk(t.cpu) && UtfAddr(t.cpu.esp) >= 0
  {
    var after := Exec(Entered(t, va, err, k), handler, k);
    if |after.cpu.regs| == 7 && |Returned(after, UtfAddr(t.cpu.esp), k).cpu.regs| == 7 then
      AfterPush(PushEip(Returned(after, UtfAddr(t.cpu.esp), k)), k.flags)
    else after
  }

  // The interrupted code then resumes where it was, on its own stack, but with the
  // registers the epilogue had: eax holds the address of the frame and ebx the eip.
  lemma PushFaultLosesRegisters(s: Machine, c: Cpu, va: nat, err: nat, handler: Work, k: Code)
    requires CpuOk(s.cpu) && s.cpu.esp == UXSTACKTOP - UTF_SIZE && FrameAt(s.mem, s.cpu.esp, c)
    requires 4 <= c.esp < UXSTACKTOP - PGSIZE
    requires CpuOk(SwitchStack(s).cpu) && HandlerBehaves(SwitchStack(s), va, err, handler, k)
    ensures FaultingEpilogue(SwitchStack(s), va, err, handler, k).cpu ==
            Cpu(WithScratch(s.cpu.regs, 0xee7f_ffcc, c.eip), c.esp, c.eip, s.cpu.eflags)
    ensures c.regs[EAX] != UXSTACKTOP - UTF_SIZE ==> FaultingEpilogue(SwitchStack(s), va, err, handler, k).cpu != c
  {
    SwitchedCpu(s, c);
    var t := SwitchStack(s);
    var after := Exec(Entered(t, va, err, k), handler, k);
    ReturnsToPush(t, va, err, handler, k);
    PushedAgain(Returned(after, s.cpu.esp, k), t.cpu, c.eip, va, err, k.flags);
  }

  lemma ReturnsToPush(t: Machine, va: nat, err: nat, handler: Work, k: Code)
    requires CpuOk(t.cpu) && 4 <= t.cpu.esp < UXSTACKTOP - PGSIZE && HandlerBehaves(t, va, err, handler, k)
    ensures var s2 := Returned(Exec(Entered(t, va, err, k), handler, k), UXSTACKTOP - UTF_SIZE, k);
            s2.cpu == t.cpu && HasRegisters(s2.mem, UXSTACKTOP - UTF_SIZE, Frame(t.cpu, va, err))
  {
    FaultReturnIsIdentity(t, va, err, handler, k);
    HandlerKeepsAbove(t, va, err, handler, k);
    OldFrameOverwritten(t, va, err, Exec(Entered(t, va, err, k), handler, k), k);
  }

  // The push done again, over a frame that holds the registers of the push itself.
  lemma PushedAgain(s2: Machine, c: Cpu, eip: nat, va: nat, err: nat, flags: nat)
    requires CpuOk(c) && s2.cpu == c && 4 <= c.esp < UXSTACKTOP - PGSIZE && WordOk(eip)
    requires c.regs[EAX] == UXSTACKTOP - UTF_SIZE && c.regs[EBX] == eip
    requires HasRegisters(s2.mem, UXSTACKTOP - UTF_SIZE, Frame(c, va, err))
    ensures AfterPush(PushEip(s2), flags).cpu == c.(eip := eip)
  {
    FrameWords(c, va, err);
    PushKeepsFrame(s2.mem, UXSTACKTOP - UTF_SIZE, c.esp, eip, Frame(c, va, err));
    PopsState(PushEip(s2), UXSTACKTOP - UTF_SIZE, c.(eip := eip), Frame(c, va, err), flags);
  }

  lemma SwitchedCpu(s: Machine, c: Cpu)
    requires CpuOk(s.cpu) && FrameAt(s.mem, s.cpu.esp, c)
    ensures SwitchStack(s).cpu == Cpu(WithScratch(s.cpu.regs, s.cpu.esp, c.eip), c.esp, s.cpu.eip, s.cpu.eflags)
    ensures CpuOk(SwitchStack(s).cpu)
  {
    var va: nat, err: nat :| HasWords(s.mem, s.cpu.esp, Frame(c, va, err));
    var f := Frame(c, va, err);
    FrameWords(c, va, err);
    assert Get(s.mem, s.cpu.esp + 4 * 10) == f[10];
    assert Get(s.mem, s.cpu.esp + 4 * 12) == f[12];
  }

  // After the nested return the top of the exception stack still holds the nested
  // frame's registers, not those of the frame it replaced.
  lemma OldFrameOverwritten(t: Machine, va: nat, err: nat, after: Machine, k: Code)
    requires CpuOk(t.cpu) && 4 <= t.cpu.esp < UXSTACKTOP - PGSIZE && WordOk(va) && WordOk(err) && CpuOk(after.cpu)
    requires forall x :: UtfAddr(t.cpu.esp) <= x < UXSTACKTOP ==> after.mem(x) == Entered(t, va, err, k).mem(x)
    ensures HasRegisters(Returned(after, UtfAddr(t.cpu.esp), k).mem, UtfAddr(t.cpu.esp), Frame(t.cpu, va, err))
  {
    var u, f := UtfAddr(t.cpu.esp), Frame(t.cpu, va, err);
    FrameSurvives(t, va, err, after.mem, k);
    ReturnsIfKept(t, va, err, after, k);
    KeptRegisters(after.mem, Returned(after, u, k).mem, u, f);
  }

  lemma KeptRegisters(m: Mem, m': Mem, u: int, f: seq<nat>)
    requires |f| == UTF_WORDS && HasWords(m, u, f)
    requires forall x :: u <= x < u + 48 ==> m'(x) == m(x)
    ensures HasRegisters(m', u, f)
  {
    forall i {:trigger f[i]} | 0 <= i < UTF_WORDS - 1 ensures Get(m', u + 4 * i) == f[i] {
      GetSame(m, m', u + 4 * i);
    }
  }
}
