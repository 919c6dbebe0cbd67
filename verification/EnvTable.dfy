// The environment table (kern/env.c): slots, the free list that env_init links in a
// circle, and environment ids.
module EnvTable {
  import opened Inc

  const GENERATION := 0x1000
  const NGENERATIONS := 0x8_0000 - 1

  datatype Env = Env(link: int, id: int, parent: int, status: Status)

  // ---- ids ------------------------------------------------------------------------

  // The generation and slot an id is made of.
  function MakeId(gen: nat, slot: nat): int {
    gen * GENERATION + slot
  }

  ghost predicate IsId(id: int, slot: nat) {
    exists gen: nat :: 1 <= gen <= NGENERATIONS && id == MakeId(gen, slot)
  }

  // A 32-bit signed sum.
  function Int32(x: int): (r: int)
    ensures -0x8000_0000 <= r < 0x8000_0000 && (r - x) % WORD == 0
  {
    (x + 0x8000_0000) % 0x1_0000_0000 - 0x8000_0000
  }

  // env_alloc's arithmetic on the id the slot had before; masking with ~(NENV - 1)
  // rounds down.
  function NextId(id: int, slot: nat): int {
    var sum := Int32(id + GENERATION);
    var generation := sum - sum % NENV;
    (if generation <= 0 then GENERATION else generation) + slot
  }

  function NextGeneration(gen: nat): nat {
    if gen >= NGENERATIONS then 1 else gen + 1
  }

  lemma NextIdIs(gen: nat, slot: nat)
    requires gen <= NGENERATIONS && slot < NENV
    ensures NextId(if gen == 0 then 0 else MakeId(gen, slot), slot) == MakeId(NextGeneration(gen), slot)
  {
    var id := if gen == 0 then 0 else MakeId(gen, slot);
    if gen == NGENERATIONS {
      assert Int32(id + GENERATION) == -0x8000_0000 + slot;
    } else if gen == 0 {
      assert Int32(id + GENERATION) == GENERATION;
    } else {
      assert Int32(id + GENERATION) == (gen + 1) * GENERATION + slot;
      SlotIsRest(4 * (gen + 1), slot);
    }
  }

  lemma SlotIsRest(q: int, r: nat)
    requires r < NENV
    ensures (q * NENV + r) % NENV == r
  {}

  // The generation after `k` more allocations of the slot.
  function Later(gen: nat, k: nat): nat {
    if k == 0 then gen else NextGeneration(Later(gen, k - 1))
  }

  lemma {:induction false} LaterIs(gen: nat, k: nat)
    requires 1 <= gen <= NGENERATIONS
    ensures Later(gen, k) == (gen - 1 + k) % NGENERATIONS + 1
  {
    if k > 0 {
      LaterIs(gen, k - 1);
      var m := gen - 1 + (k - 1);
      ModStep(m);
    }
  }

  lemma ModStep(m: nat)
    ensures (m + 1) % NGENERATIONS == if m % NGENERATIONS == NGENERATIONS - 1 then 0 else m % NGENERATIONS + 1
  {}

  // Two ids of one slot, `k` allocations apart, are equal exactly when `k` is a multiple
  // of 2^19 - 1.
  lemma IdComesBack(gen: nat, slot: nat, k: nat)
    requires 1 <= gen <= NGENERATIONS && slot < NENV
    ensures MakeId(Later(gen, k), slot) == MakeId(gen, slot) <==> k % NGENERATIONS == 0
  {
    LaterIs(gen, k);
    AddMultiple(gen - 1, k);
  }

  lemma AddMultiple(g: nat, k: nat)
    requires g < NGENERATIONS
    ensures (g + k) % NGENERATIONS == g <==> k % NGENERATIONS == 0
  {
    var q, r := k / NGENERATIONS, k % NGENERATIONS;
    assert g + k == q * NGENERATIONS + (g + r);
    if g + r < NGENERATIONS {
      RestIs(q, g + r);
    } else {
      assert g + k == (q + 1) * NGENERATIONS + (g + r - NGENERATIONS);
      RestIs(q + 1, g + r - NGENERATIONS);
    }
  }

  lemma RestIs(q: nat, r: nat)
    requires r < NGENERATIONS
    ensures (q * NGENERATIONS + r) % NGENERATIONS == r
  {}

  // The id a slot has after its `n`'th allocation.
  function IdAfter(n: nat, slot: nat): int {
    if n == 0 then 0 else MakeId(Later(1, n - 1), slot)
  }

  lemma IdAfterIs(n: nat, slot: nat)
    requires slot < NENV
    ensures n > 0 ==> IsId(IdAfter(n, slot), slot)
    ensures NextId(IdAfter(n, slot), slot) == IdAfter(n + 1, slot)
  {
    if n == 0 {
      NextIdIs(0, slot);
    } else {
      LaterIs(1, n - 1);
      NextIdIs(Later(1, n - 1), slot);
    }
  }

  // The ids of a slot's m'th and n'th allocations are the same id exactly when
  // 2^19 - 1 divides n - m.
  lemma SameIdIff(m: nat, n: nat, slot: nat)
    requires 1 <= m <= n && slot < NENV
    ensures IdAfter(n, slot) == IdAfter(m, slot) <==> (n - m) % NGENERATIONS == 0
  {
    LaterIs(1, m - 1);
    LaterAdds(1, m - 1, n - m);
    IdComesBack(Later(1, m - 1), slot, n - m);
  }

  lemma {:induction false} LaterAdds(gen: nat, j: nat, k: nat)
    ensures Later(gen, j + k) == Later(Later(gen, j), k)
  {
    if k > 0 {
      LaterAdds(gen, j, k - 1);
    }
  }

  // Ids are positive, carry their slot, and differ between slots.
  lemma IdsAreDistinct(id: int, slot: nat, id': int, slot': nat)
    requires IsId(id, slot) && IsId(id', slot') && slot < NENV && slot' < NENV
    ensures 0 < id < 0x8000_0000 && id % NENV == slot
    ensures slot != slot' ==> id != id'
  {
    SlotOfId(id, slot);
    SlotOfId(id', slot');
  }

  lemma SlotOfId(id: int, slot: nat)
    requires IsId(id, slot) && slot < NENV
    ensures 0 < id < 0x8000_0000 && id % NENV == slot
  {
    var gen: nat :| 1 <= gen <= NGENERATIONS && id == MakeId(gen, slot);
    SlotIsRest(4 * gen, slot);
  }

  // ENVX
  function IdSlot(id: int): nat {
    id % NENV
  }

  // ---- the table -------------------------------------------------------------------

  class Table {
    var envs: seq<Env>
    var freeList: int
    var curenv: int
    // the slots on the free list before it runs into slots in use
    ghost var free: seq<nat>
    // how many times each slot has been allocated
    ghost var count: seq<nat>

    ghost predicate Shape()
      reads this
    {
      && |envs| == NENV && 0 <= freeList < NENV && -1 <= curenv < NENV
      && (forall i :: 0 <= i < |free| ==> free[i] < NENV)
      && (forall i, j :: 0 <= i < j < |free| ==> free[i] != free[j])
    }

    // What follows the free slots on the list is slot 0.
    ghost predicate Listed()
      requires Shape()
      reads this
    {
      && freeList == (if free == [] then 0 else free[0])
      && forall i {:trigger envs[free[i]]} :: 0 <= i < |free| ==> envs[free[i]].link == LinkAfter(free, i)
    }

    ghost predicate Valid()
      reads this
    {
      && Shape() && Listed()
      && (forall e :: 0 <= e < NENV ==> (envs[e].status == Free <==> e in free))
      && |count| == NENV && (forall e :: 0 <= e < NENV ==> envs[e].id == IdAfter(count[e], e))
      && (forall e :: 0 <= e < NENV && envs[e].status != Free ==> count[e] > 0)
    }

    // The environment slot `e` now holds is named by `envid`.
    predicate Names(envid: int, e: nat)
      requires |envs| == NENV && e < NENV
      reads this
    {
      envs[e].status != Free && envs[e].id == envid
    }

    // An id issued by the m'th allocation of a slot names the environment there now
    // exactly when the slot is in use and a multiple of 2^19 - 1 allocations have come
    // since: a stale id is rejected until then.
    lemma StaleIdRejected(e: nat, m: nat)
      requires Valid() && e < NENV && 1 <= m <= count[e]
      ensures IdSlot(IdAfter(m, e)) == e && IdAfter(m, e) > 0
      ensures Names(IdAfter(m, e), e) <==> envs[e].status != Free && (count[e] - m) % NGENERATIONS == 0
    {
      IdAfterIs(m, e);
      SlotOfId(IdAfter(m, e), e);
      SameIdIff(m, count[e], e);
    }

    // Live ids are positive, carry their slot, and are all different.
    lemma LiveIdsDistinct(e: nat, e': nat)
      requires Valid() && e < NENV && e' < NENV && envs[e].status != Free && envs[e'].status != Free
      ensures 0 < envs[e].id < 0x8000_0000 && IdSlot(envs[e].id) == e
      ensures e != e' ==> envs[e].id != envs[e'].id
    {
      IdAfterIs(count[e], e);
      IdAfterIs(count[e'], e');
      IdsAreDistinct(envs[e].id, e, envs[e'].id, e');
    }

    // env_init
    constructor ()
      ensures Valid() && curenv == NULL && free == seq(NENV, i => i) && count == seq(NENV, i => 0)
    {
      envs := seq(NENV, i => Env((i + 1) % NENV, 0, 0, Free));
      freeList := 0;
      curenv := NULL;
      free := seq(NENV, i => i);
      count := seq(NENV, i => 0);
      new;
      forall e | 0 <= e < NENV ensures e in free {
        assert free[e] == e;
      }
    }

    // Returns a slot whose status was ENV_FREE exactly when one is left.  Since the
    // list is a circle, running out of slots is not noticed: slot 0 is then handed
    // out again while in use.  `memory` is whether env_setup_vm succeeds.
    method EnvAlloc(parent: int, memory: bool) returns (r: int, e: int)
      requires Valid()
      modifies this
      ensures r == (if memory then 0 else -E_NO_MEM) && |envs| == NENV
      ensures r != 0 ==> Valid() && envs == old(envs) && freeList == old(freeList) && free == old(free) && count == old(count)
      ensures r == 0 ==> 0 <= e < NENV && (old(free) == [] ==> e == 0) && (old(free) != [] ==> e == old(free)[0])
      ensures r == 0 ==> (old(envs)[e].status == Free <==> old(free) != [])
      ensures r == 0 && old(free) != [] ==> Valid() && free == old(free)[1..]
      ensures r == 0 ==> envs[e].status == Runnable && envs[e].parent == parent
      ensures r == 0 ==> count == old(count)[e := old(count)[e] + 1] && envs[e].id == IdAfter(count[e], e)
      ensures r == 0 ==> forall i :: 0 <= i < NENV && i != e ==> envs[i] == old(envs)[i]
      ensures curenv == old(curenv) && (r == 0 ==> freeList == envs[e].link == old(envs)[e].link)
    {
      e := freeList;
      if !memory {
        return -E_NO_MEM, e;
      }
      ghost var was := envs;
      IdAfterIs(count[e], e);
      envs := envs[e := envs[e].(id := NextId(envs[e].id, e), parent := parent, status := Runnable)];
      freeList := envs[e].link;
      count := count[e := count[e] + 1];
      if free != [] {
        PopsHead(was, free);
        free := free[1..];
      }
      r := 0;
    }

    method EnvFree(e: nat)
      requires Valid() && e < NENV && envs[e].status != Free
      modifies this
      ensures Valid() && free == [e] + old(free) && curenv == old(curenv) && count == old(count)
      ensures envs == old(envs)[e := old(envs)[e].(status := Free, link := old(freeList))]
    {
      envs := envs[e := envs[e].(status := Free, link := freeList)];
      freeList := e;
      assert forall i :: 0 < i < |free| + 1 ==> ([e] + free)[i] == free[i - 1];
      free := [e] + free;
    }

    // Returns the slot, or NULL.  A call without `checkperm` succeeds exactly for 0 and
    // for the current id of a slot in use.
    method Envid2env(envid: int, checkperm: bool) returns (r: int, e: int)
      requires Shape() && (checkperm ==> curenv != NULL)
      ensures r == 0 || (r == -E_BAD_ENV && e == NULL)
      ensures envid == 0 ==> r == 0 && e == curenv
      ensures envid != 0 ==>
                (r == 0 <==> Names(envid, IdSlot(envid)) &&
                             (checkperm ==> IdSlot(envid) == curenv || envs[IdSlot(envid)].parent == envs[curenv].id))
      ensures envid != 0 && r == 0 ==> e == IdSlot(envid) && envs[e].id == envid
    {
      if envid == 0 {
        return 0, curenv;
      }
      e := IdSlot(envid);
      if envs[e].status == Free || envs[e].id != envid {
        return -E_BAD_ENV, NULL;
      }
      if checkperm && e != curenv && envs[e].parent != envs[curenv].id {
        return -E_BAD_ENV, NULL;
      }
      r := 0;
    }
  }

  function LinkAfter(free: seq<nat>, i: nat): nat {
    if i + 1 < |free| then free[i + 1] else 0
  }

  lemma PopsHead(envs: seq<Env>, free: seq<nat>)
    requires |envs| == NENV && free != [] && forall i :: 0 <= i < |free| ==> free[i] < NENV
    requires forall i {:trigger envs[free[i]]} :: 0 <= i < |free| ==> envs[free[i]].link == LinkAfter(free, i)
    ensures envs[free[0]].link == if free[1..] == [] then 0 else free[1..][0]
    ensures forall i {:trigger envs[free[1..][i]]} :: 0 <= i < |free| - 1 ==> envs[free[1..][i]].link == LinkAfter(free[1..], i)
  {
    assert envs[free[0]].link == LinkAfter(free, 0);
    forall i | 0 <= i < |free| - 1 ensures envs[free[1..][i]].link == LinkAfter(free[1..], i) {
      assert free[1..][i] == free[i + 1] && envs[free[i + 1]].link == LinkAfter(free, i + 1);
    }
  }
}
