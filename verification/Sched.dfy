// Round-robin scheduling (kern/sched.c, env_run of kern/env.c).
module Sched {
  import opened Inc

  // Only the environment on the CPU is marked running.
  ghost predicate OneRunning(status: seq<Status>, curenv: int) {
    && |status| == NENV && -1 <= curenv < NENV
    && forall e :: 0 <= e < NENV && status[e] == Running ==> e == curenv
  }

  // Where sched_yield starts from.
  function Last(curenv: int): (e: nat)
    requires -1 <= curenv < NENV
    ensures e < NENV
  {
    if curenv == NULL then NENV - 1 else curenv
  }

  // The n'th environment after `cur`.
  function Nth(cur: nat, n: nat): (e: nat)
    ensures e < NENV
  {
    (cur + n) % NENV
  }

  lemma NextOne(cur: nat, n: nat)
    requires cur < NENV && 1 <= n <= NENV
    ensures Nth(cur, n + 1) == (Nth(cur, n) + 1) % NENV
    ensures Nth(cur, n) == cur <==> n == NENV
  {}

  // How far environment `e` is ahead of `cur`: 1 for the next one, NENV for itself.
  function Ahead(cur: nat, e: nat): (n: nat)
    requires cur < NENV && e < NENV
    ensures 1 <= n <= NENV && Nth(cur, n) == e
  {
    if e > cur then e - cur else e + NENV - cur
  }

  // The environment sched_yield runs, or NULL when it halts: the first runnable one
  // after `cur`, else `cur` itself if it can go on.
  ghost predicate Chosen(status: seq<Status>, cur: nat, e: int)
    requires |status| == NENV && cur < NENV
  {
    if e == NULL then
      (forall i :: 0 <= i < NENV && i != cur ==> status[i] != Runnable) && status[cur] != Runnable && status[cur] != Running
    else
      && 0 <= e < NENV
      && (forall i :: 0 <= i < NENV && Ahead(cur, i) < Ahead(cur, e) ==> status[i] != Runnable)
      && (status[e] == Runnable || (e == cur && status[e] == Running))
  }

  // What one call of sched_yield does to the statuses: the environment chosen runs, the
  // one it takes the CPU from can go on later, and every other one is left as it was.
  ghost predicate Switched(status: seq<Status>, curenv: int, status': seq<Status>, ran: int) {
    && |status| == NENV && |status'| == NENV && -1 <= curenv < NENV
    && Chosen(status, Last(curenv), ran)
    && (ran != NULL ==> status'[ran] == Running)
    && forall i :: 0 <= i < NENV && i != ran ==>
         status'[i] == if ran != NULL && i == curenv && status[i] == Running then Runnable else status[i]
  }

  // How often any environment was run.
  function AllRuns(runs: seq<nat>): nat {
    if runs == [] then 0 else AllRuns(runs[..|runs| - 1]) + runs[|runs| - 1]
  }

  lemma {:induction false} OneMoreRun(runs: seq<nat>, e: nat)
    requires e < |runs|
    ensures AllRuns(runs[e := runs[e] + 1]) == AllRuns(runs) + 1
    decreases |runs|
  {
    var n, more := |runs| - 1, runs[e := runs[e] + 1];
    if e < n {
      OneMoreRun(runs[..n], e);
      assert more[..n] == runs[..n][e := runs[e] + 1];
    } else {
      assert more[..n] == runs[..n];
    }
  }

  class Cpu {
    var status: seq<Status>
    var curenv: int
    var runs: seq<nat>

    ghost predicate Valid()
      reads this
    {
      OneRunning(status, curenv) && |runs| == NENV
    }

    method EnvRun(e: nat)
      requires Valid() && e < NENV && curenv != NULL
      modifies this
      ensures Valid() && curenv == e && status[e] == Running
      ensures runs == old(runs)[e := old(runs)[e] + 1]
      ensures forall i :: 0 <= i < NENV && i != e ==>
                status[i] == if i == old(curenv) && old(status)[i] == Running then Runnable else old(status)[i]
    {
      if curenv != e && status[curenv] == Running {
        status := status[curenv := Runnable];
      }
      curenv := e;
      status := status[e := Running];
      runs := runs[e := runs[e] + 1];
    }

    // Returns the environment run, or NULL when the CPU was halted.
    method SchedYield() returns (ran: int)
      requires Valid()
      modifies this
      ensures Valid() && curenv == ran && Switched(old(status), old(curenv), status, ran)
      ensures runs == if ran == NULL then old(runs) else old(runs)[ran := old(runs)[ran] + 1]
    {
      ghost var cur := Last(curenv);
      if curenv == NULL {
        curenv := NENV - 1;
      }
      var e := (curenv + 1) % NENV;
      ghost var n := 1;
      while e != curenv && status[e] != Runnable
        invariant 1 <= n <= NENV && e == Nth(cur, n) && curenv == cur && status == old(status) && runs == old(runs)
        invariant forall m :: 1 <= m < n ==> status[Nth(cur, m)] != Runnable
        decreases NENV - n
      {
        NextOne(cur, n);
        e := (e + 1) % NENV;
        n := n + 1;
      }
      NextOne(cur, n);
      StoppedAt(status, cur, n);
      if status[e] == Runnable || status[e] == Running {
        EnvRun(e);
        return e;
      }
      curenv := NULL;
      return NULL;
    }

    // One call after another, until environment `i` has the CPU.  When `i` had it at
    // first and could go on, it is back within NENV calls.
    method YieldUntil(i: nat) returns (calls: nat)
      requires Valid() && i < NENV && curenv != NULL && CanGoOn(status, curenv, i)
      modifies this
      ensures Valid() && curenv == i && status[i] == Running && runs[i] == old(runs)[i] + 1
      ensures 1 <= calls <= old(if i > curenv then i - curenv else i + NENV - curenv)
      ensures AllRuns(runs) == AllRuns(old(runs)) + calls
    {
      ghost var was, now := status, curenv;
      ghost var counted := runs;
      var ran := SchedYield();
      OneMoreRun(counted, ran);
      calls := 1;
      while ran != i
        invariant Valid() && ran == curenv && runs[i] == old(runs)[i] + if ran == i then 1 else 0
        invariant 0 <= now < NENV && Switched(was, now, status, ran) && CanGoOn(was, now, i)
        invariant AllRuns(runs) == AllRuns(old(runs)) + calls
        invariant 1 <= calls && calls + Ahead(now, i) <= Ahead(old(curenv), i) + 1
        decreases Ahead(now, i)
      {
        CloserToItsTurn(was, now, status, ran, i);
        was, now, counted := status, curenv, runs;
        ran := SchedYield();
        OneMoreRun(counted, ran);
        calls := calls + 1;
      }
    }

    // ---- the other places that write env_status ---------------------------------------

    // env_alloc, for the slot it takes, and sys_exofork, which then holds the child back.
    method EnvAlloc(e: nat, fork: bool)
      requires Valid() && e < NENV && status[e] == Free
      modifies `status
      ensures Valid() && status == old(status)[e := if fork then NotRunnable else Runnable]
    {
      status := status[e := Runnable];
      if fork {
        status := status[e := NotRunnable];
      }
    }

    // env_destroy: when the environment on the CPU destroys itself, another one runs.
    method EnvDestroy(e: nat) returns (ran: int)
      requires Valid() && e < NENV
      modifies this
      ensures Valid() && ran == curenv
      ensures e != old(curenv) ==> ran == old(curenv) && status == old(status)[e := Free] && runs == old(runs)
      ensures e == old(curenv) ==> Switched(old(status)[e := Free], NULL, status, ran)
      ensures e == old(curenv) ==> runs == if ran == NULL then old(runs) else old(runs)[ran := old(runs)[ran] + 1]
      ensures forall i :: 0 <= i < NENV && i != ran ==> status[i] == if i == e then Free else old(status)[i]
      ensures ran != e
    {
      status := status[e := Free];
      if curenv == e {
        curenv := NULL;
        ran := SchedYield();
        return;
      }
      ran := curenv;
    }

    // sys_env_set_status, with a status it accepts.
    method SysEnvSetStatus(e: nat, st: Status)
      requires Valid() && e < NENV && (st == Free || st == Runnable || st == NotRunnable)
      modifies `status
      ensures Valid() && status == old(status)[e := st]
    {
      status := status[e := st];
    }

    // sys_ipc_recv: the caller blocks and gives up the CPU.
    method BlockCaller() returns (ran: int)
      requires Valid() && curenv != NULL
      modifies this
      ensures Valid() && ran == curenv && ran != old(curenv)
      ensures Switched(old(status)[old(curenv) := NotRunnable], old(curenv), status, ran)
      ensures forall i :: 0 <= i < NENV && i != ran ==>
                status[i] == if i == old(curenv) then NotRunnable else old(status)[i]
      ensures runs == if ran == NULL then old(runs) else old(runs)[ran := old(runs)[ran] + 1]
    {
      status := status[curenv := NotRunnable];
      ran := SchedYield();
    }

    // sys_ipc_try_send: the receiver can run again.
    method WakeReceiver(e: nat)
      requires Valid() && e < NENV
      modifies `status
      ensures Valid() && status == old(status)[e := Runnable]
    {
      status := status[e := Runnable];
    }
  }

  // What the scanning loop has established when it stops after `n` steps.
  lemma StoppedAt(status: seq<Status>, cur: nat, n: nat)
    requires |status| == NENV && cur < NENV && 1 <= n <= NENV
    requires forall m :: 1 <= m < n ==> status[Nth(cur, m)] != Runnable
    ensures Ahead(cur, Nth(cur, n)) == n
    ensures forall i :: 0 <= i < NENV && Ahead(cur, i) < n ==> status[i] != Runnable
    ensures n == NENV ==> Nth(cur, n) == cur && forall i :: 0 <= i < NENV && i != cur ==> status[i] != Runnable
  {
    forall i | 0 <= i < NENV && Ahead(cur, i) < n ensures status[i] != Runnable {
      assert status[Nth(cur, Ahead(cur, i))] != Runnable;
    }
    if n == NENV {
      forall i | 0 <= i < NENV && i != cur ensures status[i] != Runnable {
        assert Ahead(cur, i) < n;
      }
    }
  }

  // ---- fairness ----------------------------------------------------------------------

  // It would run if the CPU came to it.
  ghost predicate CanGoOn(status: seq<Status>, curenv: int, i: nat)
    requires |status| == NENV && i < NENV
  {
    status[i] == Runnable || (i == curenv && status[i] == Running)
  }

  // An environment that can go on and is passed over is strictly closer to its turn,
  // and can still go on.
  lemma CloserToItsTurn(status: seq<Status>, cur: nat, status': seq<Status>, ran: int, i: nat)
    requires cur < NENV && i < NENV && Switched(status, cur, status', ran) && CanGoOn(status, cur, i) && ran != i
    ensures 0 <= ran < NENV && Ahead(ran, i) < Ahead(cur, i) && status'[i] == Runnable
  {
    assert Ahead(cur, ran) <= Ahead(cur, i);
    assert ran == Nth(cur, Ahead(cur, ran));
  }

  // The calls of sched_yield in a run: call k finds status `before[k]` and environment
  // `cur[k]` on the CPU, and leaves `after[k]` with `cur[k + 1]` running.  Between calls
  // statuses change freely, but the environment on the CPU is not destroyed.
  ghost predicate Yields(before: seq<seq<Status>>, after: seq<seq<Status>>, cur: seq<nat>) {
    && |after| == |before| && |cur| == |before| + 1
    && (forall k :: 0 <= k < |cur| ==> cur[k] < NENV)
    && (forall k :: 0 <= k < |before| ==> |before[k]| == NENV)
    && (forall k :: 0 <= k < |after| ==> |after[k]| == NENV)
    && (forall k :: 0 <= k < |before| ==> Switched(before[k], cur[k], after[k], cur[k + 1]))
  }

  // Between the calls nobody changes the status of environment `i`.
  ghost predicate LeftAlone(before: seq<seq<Status>>, after: seq<seq<Status>>, cur: seq<nat>, i: nat)
    requires Yields(before, after, cur) && i < NENV
  {
    forall k, l {:trigger before[l], after[k]} :: 0 <= k < |before| && l == k + 1 < |before| ==> before[l][i] == after[k][i]
  }

  // An environment that can go on when the first call comes, the one then preempted
  // among them, is run within as many calls as it is slots ahead, hence within NENV.
  lemma {:induction false} RunsInTurn(before: seq<seq<Status>>, after: seq<seq<Status>>, cur: seq<nat>, i: nat)
    returns (k: nat)
    requires Yields(before, after, cur) && i < NENV && |before| >= Ahead(cur[0], i)
    requires Switched(before[0], cur[0], after[0], cur[1]) && CanGoOn(before[0], cur[0], i)
    requires LeftAlone(before, after, cur, i)
    ensures k < Ahead(cur[0], i) && k < |before| && cur[k + 1] == i
    decreases |before|
  {
    if cur[1] == i {
      k := 0;
    } else {
      CloserToItsTurn(before[0], cur[0], after[0], cur[1], i);
      assert |before| > 1 && before[1][i] == after[0][i];
      assert Switched(before[1], cur[1], after[1], cur[2]);
      k := RunsInTurn(before[1..], after[1..], cur[1..], i);
      k := k + 1;
    }
  }

  // Environment k % 2 runs and environment 2 waits to; the other slots are free.
  function PairAt(k: nat): (status: seq<Status>) {
    seq(NENV, j => if j == k % 2 then Running else if j == 2 then Runnable else Status.Free)
  }

  // Destroying the environment on the CPU starts the next round at slot 0.  Two
  // environments that each start the other and exit keep a third from ever running,
  // although it can go on at every call.
  lemma ExitsStarve(k: nat)
    ensures var e, other := k % 2, (k + 1) % 2;
            && OneRunning(PairAt(k), e) && PairAt(k)[other] == Status.Free && PairAt(k)[2] == Runnable
            && Switched(PairAt(k)[other := Runnable][e := Status.Free], NULL, PairAt(k + 1), other)
  {
    var e, other := k % 2, (k + 1) % 2;
    var status := PairAt(k)[other := Runnable][e := Status.Free];
    assert Chosen(status, NENV - 1, other);
  }
}
