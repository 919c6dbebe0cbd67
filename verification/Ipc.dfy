// Message passing: sys_ipc_try_send and sys_ipc_recv (kern/syscall.c) and the library
// calls around them (lib/ipc.c), over the address spaces of Pmap.dfy.
module Ipc {
  import opened Inc
  import opened Vm
  import opened VmSteps
  import opened Pmap

  // The fields of struct Env that message passing uses.  `inRecv` is where the
  // environment's own code is: between entering ipc_recv and reading the result.
  datatype Env = Env(status: Status, recving: bool, dstva: nat, value: nat, from: int, perm: Perm, inRecv: bool)

  datatype Message = Message(from: int, value: nat, perm: Perm)

  // What was sent to an environment with success, and what its receives returned.
  datatype History = History(sent: seq<Message>, received: seq<Message>)

  function CanRun(e: Env): bool {
    e.status == Runnable || e.status == Running
  }

  // Receives return the messages sent, in order and once each; only the last one can
  // be under way, and a blocked receiver has none to come and cannot run.
  ghost predicate InStep(e: Env, h: History) {
    && h.received <= h.sent
    && (e.recving ==> e.inRecv && !CanRun(e))
    && (e.recving || !e.inRecv ==> h.received == h.sent)
    && (!e.recving && e.inRecv ==> h.sent == h.received + [Message(e.from, e.value, e.perm)])
  }

  // sys_ipc_try_send as the receiver sees it.
  function Sent(e: Env, from: int, value: nat, perm: Perm): Env {
    e.(perm := perm, recving := false, from := from, value := value, status := Runnable)
  }

  // sys_ipc_recv
  function Blocked(e: Env, dstva: nat): Env {
    e.(dstva := if dstva < UTOP then dstva else UTOP, recving := true, status := NotRunnable, inRecv := true)
  }

  lemma SendKeepsStep(e: Env, h: History, from: int, value: nat, perm: Perm)
    requires InStep(e, h) && e.recving
    ensures InStep(Sent(e, from, value, perm), h.(sent := h.sent + [Message(from, value, perm)]))
  {}

  lemma RecvKeepsStep(e: Env, h: History, dstva: nat)
    requires InStep(e, h) && !e.inRecv
    ensures InStep(Blocked(e, dstva), h)
  {}

  // The rest of ipc_recv: it returns whatever the fields hold.
  function Finished(e: Env): Env {
    e.(inRecv := false)
  }

  ghost function Received(e: Env, h: History): History {
    h.(received := h.received + [Message(e.from, e.value, e.perm)])
  }

  // The receive that completes returns exactly the oldest message not yet received.
  lemma FinishKeepsStep(e: Env, h: History)
    requires InStep(e, h) && e.inRecv && CanRun(e)
    ensures |h.received| < |h.sent| && h.sent[|h.received|] == Message(e.from, e.value, e.perm)
    ensures InStep(Finished(e), Received(e, h))
  {}

  // A change of status keeps deliveries in step exactly when it does not make a blocked
  // receiver runnable.
  lemma StatusKeepsStepIff(e: Env, h: History, status: Status)
    requires InStep(e, h) && (status == Status.Free || status == Runnable || status == NotRunnable)
    ensures InStep(e.(status := status), h) <==> !(e.recving && status == Runnable)
  {}

  // A blocked receiver woken that way returns a message nobody sent: what it received
  // is no longer a beginning of what was sent to it.
  lemma ForcedWakeupBreaks(e: Env, h: History)
    requires InStep(e, h) && e.recving
    ensures var woken := e.(status := Runnable);
            CanRun(woken) && !(Received(woken, h).received <= h.sent) && !InStep(Finished(woken), Received(woken, h))
  {
    assert |Received(e, h).received| > |h.sent|;
  }

  // Why a page may not be sent: the alignment test of srcva only rejects odd addresses.
  ghost predicate BadPage(s: State, cur: nat, srcva: nat, perm: Perm)
    requires Shape(s) && cur in s.pgdirs
  {
    srcva < UTOP &&
    (srcva % 2 == 1 || !SyscallPerm(perm) ||
     !Entry(s, cur, srcva / PGSIZE).perm.p || (perm.w && !Entry(s, cur, srcva / PGSIZE).perm.w))
  }

  // A page the receiver asked for, with no page table to map it in and no frame to make
  // one from.
  ghost predicate NoTable(s: State, env: nat, srcva: nat, dstva: nat)
    requires Shape(s) && env in s.pgdirs
  {
    srcva < UTOP && dstva < UTOP && s.list == [] &&
    s.pgdirs[env] < |s.tables| && !s.tables[s.pgdirs[env]][dstva / PGSIZE / NPTENTRIES].perm.p
  }

  lemma OddIsUnaligned(a: nat)
    ensures a % 2 == 1 ==> a % PGSIZE != 0
  {
    assert a == a / PGSIZE * PGSIZE + a % PGSIZE;
  }

  // The page is mapped where the receiver wants it, or nowhere if it wants none.
  ghost predicate PageGiven(s: State, s': State, env: nat, dstva: nat, frame: nat, perm: Perm) {
    && Shape(s) && Shape(s') && Typed(s) && env in s.pgdirs
    && if dstva < UTOP then Installed(s, s', env, dstva / PGSIZE, frame, perm) else s' == s
  }

  class System {
    var envs: seq<Env>
    const ids: seq<int>
    ghost var hist: seq<History>

    ghost predicate Valid()
      reads this
    {
      |envs| == NENV && |hist| == NENV && |ids| == NENV && forall e :: 0 <= e < NENV ==> InStep(envs[e], hist[e])
    }

    // The call as made by environment `cur`; `env` is what envid2env found, or NULL.
    // On failure the receiver is untouched.
    method SysIpcTrySend(k: Kernel, cur: nat, env: int, value: nat, srcva: nat, perm: Perm) returns (r: int)
      requires Valid() && k.Valid() && cur < NENV && cur in k.pgdirs
      requires env != NULL ==> 0 <= env < NENV && env in k.pgdirs
      requires srcva < UTOP && Entry(k.Snap(), cur, srcva / PGSIZE).perm.p ==> k.CanCount(Entry(k.Snap(), cur, srcva / PGSIZE).frame)
      modifies `envs, `hist, k
      ensures Valid() && k.Valid()
      ensures r != 0 ==> envs == old(envs) && hist == old(hist) && k.Snap() == old(k.Snap())
      ensures env == NULL <==> r == -E_BAD_ENV
      ensures env != NULL ==> (r == -E_IPC_NOT_RECV <==> !old(envs)[env].recving)
      ensures env != NULL && old(envs)[env].recving ==>
                r == if BadPage(old(k.Snap()), cur, srcva, perm) then -E_INVAL
                     else if NoTable(old(k.Snap()), env, srcva, old(envs)[env].dstva) then -E_NO_MEM else 0
      ensures r == 0 ==>
                && env != NULL && old(envs)[env].recving
                && envs[env].from == ids[cur] && envs[env].value == value
                && envs[env].perm == (if srcva < UTOP then perm else NO_PERM)
                && envs[env].status == Runnable && !envs[env].recving
                && envs[env].dstva == old(envs)[env].dstva && envs[env].inRecv == old(envs)[env].inRecv
                && envs == old(envs)[env := envs[env]]
                && hist[env].sent == old(hist)[env].sent + [Message(envs[env].from, value, envs[env].perm)]
                && hist[env].received == old(hist)[env].received
                && hist == old(hist)[env := hist[env]]
      ensures r == 0 && srcva >= UTOP ==> k.Snap() == old(k.Snap())
      ensures r == 0 && srcva < UTOP ==>
                PageGiven(old(k.Snap()), k.Snap(), env, old(envs)[env].dstva,
                          old(Entry(k.Snap(), cur, srcva / PGSIZE)).frame, perm)
    {
      if env == NULL {
        return -E_BAD_ENV;
      }
      if !envs[env].recving {
        return -E_IPC_NOT_RECV;
      }
      r := PassPage(k, cur, env, envs[env].dstva, srcva, perm);
      if r == 0 {
        Deliver(cur, env, value, if srcva < UTOP then perm else NO_PERM);
      }
    }

    // The page, if one is sent.
    method PassPage(k: Kernel, cur: nat, env: nat, dstva: nat, srcva: nat, perm: Perm) returns (r: int)
      requires k.Valid() && cur in k.pgdirs && env in k.pgdirs
      requires srcva < UTOP && Entry(k.Snap(), cur, srcva / PGSIZE).perm.p ==> k.CanCount(Entry(k.Snap(), cur, srcva / PGSIZE).frame)
      modifies k
      ensures k.Valid()
      ensures r == if BadPage(old(k.Snap()), cur, srcva, perm) then -E_INVAL
                   else if NoTable(old(k.Snap()), env, srcva, dstva) then -E_NO_MEM else 0
      ensures r != 0 || srcva >= UTOP ==> k.Snap() == old(k.Snap())
      ensures r == 0 && srcva < UTOP ==>
                PageGiven(old(k.Snap()), k.Snap(), env, dstva, old(Entry(k.Snap(), cur, srcva / PGSIZE)).frame, perm)
    {
      r := 0;
      OddIsUnaligned(srcva);
      if srcva < UTOP {
        if srcva % PGSIZE != 0 && srcva % 2 == 1 {
          return -E_INVAL;
        }
        if !perm.u || !perm.p || perm.other {
          return -E_INVAL;
        }
        r := SendPage(k, cur, srcva / PGSIZE, env, dstva, perm);
      }
    }

    // The page part: looked up in the sender, mapped in the receiver if it asked.
    method SendPage(k: Kernel, cur: nat, sv: nat, env: nat, dstva: nat, perm: Perm) returns (r: int)
      requires k.Valid() && cur in k.pgdirs && env in k.pgdirs && sv < NUSERPAGES && perm.p
      requires Entry(k.Snap(), cur, sv).perm.p ==> k.CanCount(Entry(k.Snap(), cur, sv).frame)
      modifies k
      ensures k.Valid() && (r == 0 || r == -E_INVAL || r == -E_NO_MEM)
      ensures r != 0 ==> k.Snap() == old(k.Snap())
      ensures r == -E_INVAL <==> !old(Entry(k.Snap(), cur, sv)).perm.p || (perm.w && !old(Entry(k.Snap(), cur, sv)).perm.w)
      ensures r != -E_INVAL ==> (r == -E_NO_MEM <==> NoTable(old(k.Snap()), env, 0, dstva))
      ensures r == 0 ==> PageGiven(old(k.Snap()), k.Snap(), env, dstva, old(Entry(k.Snap(), cur, sv)).frame, perm)
    {
      var page := k.SourcePage(cur, sv, perm);
      if page == NULL {
        return -E_INVAL;
      }
      if dstva < UTOP {
        r := k.InstallAt(page, env, dstva / PGSIZE, perm);
      } else {
        r := 0;
      }
    }

    method Deliver(cur: nat, env: nat, value: nat, perm: Perm)
      requires Valid() && cur < NENV && env < NENV && envs[env].recving
      modifies `envs, `hist
      ensures Valid() && envs == old(envs)[env := Sent(old(envs)[env], ids[cur], value, perm)]
      ensures hist == old(hist)[env := old(hist)[env].(sent := old(hist)[env].sent + [Message(ids[cur], value, perm)])]
    {
      SendKeepsStep(envs[env], hist[env], ids[cur], value, perm);
      envs := envs[env := envs[env].(perm := perm, recving := false, from := ids[cur], value := value, status := Runnable)];
      hist := hist[env := hist[env].(sent := hist[env].sent + [Message(ids[cur], value, perm)])];
    }

    // Blocks the caller; the system call returns when a message comes.
    method SysIpcRecv(cur: nat, dstva: nat) returns (r: int)
      requires Valid() && cur < NENV && !envs[cur].inRecv
      modifies `envs
      ensures Valid()
      ensures r == if dstva < UTOP && dstva % PGSIZE != 0 then -E_INVAL else 0
      ensures r != 0 ==> envs == old(envs)
      ensures r == 0 ==>
                && envs[cur].dstva == (if dstva < UTOP then dstva else UTOP)
                && envs[cur].recving && envs[cur].status == NotRunnable && envs[cur].inRecv
                && envs[cur].from == old(envs)[cur].from && envs[cur].value == old(envs)[cur].value
                && envs[cur].perm == old(envs)[cur].perm
                && envs == old(envs)[cur := envs[cur]]
    {
      if dstva < UTOP {
        if dstva != 0 && dstva % PGSIZE != 0 {
          return -E_INVAL;
        }
        envs := envs[cur := envs[cur].(dstva := dstva)];
      } else {
        envs := envs[cur := envs[cur].(dstva := UTOP)];
      }
      RecvKeepsStep(old(envs)[cur], hist[cur], dstva);
      envs := envs[cur := envs[cur].(recving := true, status := NotRunnable, inRecv := true)];
      r := 0;
    }

    // The rest of ipc_recv, once the environment runs again.  Unless someone forced it
    // awake, it returns the oldest message not yet received.
    method FinishRecv(cur: nat) returns (from: int, value: nat, perm: Perm)
      requires |envs| == NENV && |hist| == NENV && cur < NENV && envs[cur].inRecv && CanRun(envs[cur])
      modifies `envs, `hist
      ensures from == old(envs)[cur].from && value == old(envs)[cur].value && perm == old(envs)[cur].perm
      ensures envs == old(envs)[cur := old(envs)[cur].(inRecv := false)]
      ensures |hist| == NENV && hist[cur].received == old(hist)[cur].received + [Message(from, value, perm)]
      ensures hist[cur].sent == old(hist)[cur].sent && hist == old(hist)[cur := hist[cur]]
      ensures old(Valid()) ==> Valid() && old(|hist[cur].received| < |hist[cur].sent|)
      ensures old(Valid()) ==> Message(from, value, perm) == old(hist[cur].sent[|hist[cur].received|])
    {
      from, value, perm := envs[cur].from, envs[cur].value, envs[cur].perm;
      if InStep(envs[cur], hist[cur]) {
        FinishKeepsStep(envs[cur], hist[cur]);
      }
      envs := envs[cur := envs[cur].(inRecv := false)];
      hist := hist[cur := hist[cur].(received := hist[cur].received + [Message(from, value, perm)])];
    }

    // sys_env_set_status, for the environment envid2env found, or NULL.  It accepts
    // ENV_FREE, and does not ask whether the environment is waiting for a message.
    method SysEnvSetStatus(env: int, status: Status) returns (r: int)
      requires Valid() && (env != NULL ==> 0 <= env < NENV)
      modifies `envs
      ensures env == NULL ==> r == -E_BAD_ENV
      ensures env != NULL ==> r == if status == Dying || status == Running then -E_INVAL else 0
      ensures r != 0 ==> envs == old(envs)
      ensures r == 0 ==> envs == old(envs)[env := old(envs)[env].(status := status)]
      ensures r == 0 ==> (Valid() <==> !(old(envs)[env].recving && status == Runnable))
    {
      if env == NULL {
        return -E_BAD_ENV;
      }
      if status != Status.Free && status != Runnable && status != NotRunnable {
        return -E_INVAL;
      }
      StatusKeepsStepIff(envs[env], hist[env], status);
      envs := envs[env := envs[env].(status := status)];
      r := 0;
    }

    // The scheduler changes the status of environments that can run, and nothing else.
    method Schedule(e: nat, running: bool)
      requires Valid() && e < NENV && (envs[e].status == Runnable || envs[e].status == Running)
      modifies `envs
      ensures Valid() && envs == old(envs)[e := old(envs)[e].(status := if running then Running else Runnable)]
    {
      envs := envs[e := envs[e].(status := if running then Running else Runnable)];
    }
  }
}
