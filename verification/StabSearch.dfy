// stab_binsearch (kern/kdebug.c): a binary search over a table in which only the
// entries of one type are in order.
module StabSearch {
  import opened Inc

  datatype Stab = Stab(kind: int, value: nat)

  datatype Region = Region(left: int, right: int)

  predicate Typed(stabs: seq<Stab>, kind: int, i: int) {
    0 <= i < |stabs| && stabs[i].kind == kind
  }

  // ---- what the loops compute ----------------------------------------------------

  // The largest index in [l, m] of the wanted type, or l - 1.
  function LastTyped(stabs: seq<Stab>, kind: int, l: int, m: int): (i: int)
    requires 0 <= l && l - 1 <= m < |stabs|
    ensures l - 1 <= i <= m && (i >= l ==> stabs[i].kind == kind)
    ensures forall j :: i < j <= m ==> !Typed(stabs, kind, j)
    decreases m - l
  {
    if m < l || stabs[m].kind == kind then m else LastTyped(stabs, kind, l, m - 1)
  }

  // The variables of the main loop: the range left to search, the address, the region
  // found so far, and whether anything matched.
  datatype Progress = Progress(l: int, r: int, addr: nat, region: Region, any: bool)

  predicate InBounds(stabs: seq<Stab>, p: Progress) {
    0 <= p.l <= p.r + 1 && p.r < |stabs|
  }

  predicate InRange(stabs: seq<Stab>, p: Progress) {
    InBounds(stabs, p) && 0 <= p.region.left && p.region.right < |stabs|
  }

  // One for a left end that an exact match could still stop at.
  function Unpassed(stabs: seq<Stab>, kind: int, p: Progress): nat {
    if Typed(stabs, kind, p.l) && stabs[p.l].value != p.addr then 0 else 1
  }

  // One round.  After an exact match the left end may stay where it is, but the
  // address moves on.
  function Step(stabs: seq<Stab>, kind: int, p: Progress): (q: Progress)
    requires InBounds(stabs, p) && p.l <= p.r
    ensures InBounds(stabs, q)
    ensures q.r - q.l < p.r - p.l || (q.r - q.l == p.r - p.l && Unpassed(stabs, kind, q) < Unpassed(stabs, kind, p))
  {
    var trueM := (p.l + p.r) / 2;
    var m := LastTyped(stabs, kind, p.l, trueM);
    if m < p.l then p.(l := trueM + 1)
    else if stabs[m].value < p.addr then p.(l := trueM + 1, region := p.region.(left := m), any := true)
    else if stabs[m].value > p.addr then p.(r := m - 1, region := p.region.(right := m - 1), any := true)
    else p.(l := m, addr := (p.addr + 1) % WORD, region := p.region.(left := m), any := true)
  }

  function Bisect(stabs: seq<Stab>, kind: int, p: Progress): (end: Progress)
    requires InBounds(stabs, p)
    ensures InRange(stabs, p) ==> InRange(stabs, end)
    decreases p.r + 1 - p.l, Unpassed(stabs, kind, p)
  {
    if p.l > p.r then p else Bisect(stabs, kind, Step(stabs, kind, p))
  }

  function Search(stabs: seq<Stab>, kind: int, left: nat, right: int, addr: nat): (end: Progress)
    requires left - 1 <= right < |stabs|
    ensures InRange(stabs, end)
  {
    Bisect(stabs, kind, Progress(left, right, addr, Region(left, right), false))
  }

  // Where the last loop leaves its index.
  function Settle(stabs: seq<Stab>, kind: int, left: int, l: int): int
    requires 0 <= left && l < |stabs|
    decreases l - left
  {
    if l <= left || stabs[l].kind == kind then l else Settle(stabs, kind, left, l - 1)
  }

  // ---- the loops --------------------------------------------------------------------

  // Looks for the entry `addr0` belongs to among entries `left` to `right`, a range that
  // may be empty.
  method StabBinsearch(stabs: seq<Stab>, left: nat, right: int, kind: int, addr0: nat) returns (region: Region)
    requires left - 1 <= right < |stabs|
    ensures region == Outcome(stabs, kind, Search(stabs, kind, left, right, addr0))
    ensures forall i :: Findable(stabs, kind, left, right, addr0, i) ==>
              region.left == i && EndsBefore(stabs, kind, right, i, region.right)
    ensures (forall i :: left <= i <= right ==> !Typed(stabs, kind, i)) ==> region == Region(left, left - 1)
  {
    region := Region(left, right);
    ghost var end := Search(stabs, kind, left, right, addr0);
    var l, r, anyMatches := left, right, false;
    var addr: nat := addr0;
    while l <= r
      invariant 0 <= l <= r + 1 && r < |stabs|
      invariant Bisect(stabs, kind, Progress(l, r, addr, region, anyMatches)) == end
      decreases r + 1 - l, Unpassed(stabs, kind, Progress(l, r, addr, region, anyMatches))
    {
      ghost var p := Progress(l, r, addr, region, anyMatches);
      var trueM := (l + r) / 2;
      var m := SkipOthers(stabs, kind, l, trueM);
      StepIs(stabs, kind, p, trueM, m);
      if m < l {
        l := trueM + 1;
      } else {
        anyMatches := true;
        if stabs[m].value < addr {
          region := region.(left := m);
          l := trueM + 1;
        } else if stabs[m].value > addr {
          region := region.(right := m - 1);
          r := m - 1;
        } else {
          region := region.(left := m);
          l := m;
          addr := (addr + 1) % WORD;
        }
      }
      assert Progress(l, r, addr, region, anyMatches) == Step(stabs, kind, p) && Bisect(stabs, kind, Step(stabs, kind, p)) == end;
    }
    if !anyMatches {
      region := region.(right := region.left - 1);
    } else {
      l := SettleDown(stabs, kind, region.left, region.right);
      region := region.(left := l);
    }
    FindsEach(stabs, kind, left, right, addr0);
    NoneTyped(stabs, kind, left, right, addr0);
  }

  lemma StepIs(stabs: seq<Stab>, kind: int, p: Progress, trueM: int, m: int)
    requires InBounds(stabs, p) && p.l <= p.r && trueM == (p.l + p.r) / 2 && m == LastTyped(stabs, kind, p.l, trueM)
    ensures Bisect(stabs, kind, p) == Bisect(stabs, kind, Step(stabs, kind, p))
    ensures Step(stabs, kind, p) ==
            if m < p.l then p.(l := trueM + 1)
            else if stabs[m].value < p.addr then Progress(trueM + 1, p.r, p.addr, p.region.(left := m), true)
            else if stabs[m].value > p.addr then Progress(p.l, m - 1, p.addr, p.region.(right := m - 1), true)
            else Progress(m, p.r, (p.addr + 1) % WORD, p.region.(left := m), true)
  {}

  // The inner loop, down to an entry of the wanted type.
  method SkipOthers(stabs: seq<Stab>, kind: int, l: nat, trueM: int) returns (m: int)
    requires l - 1 <= trueM < |stabs|
    ensures m == LastTyped(stabs, kind, l, trueM)
  {
    m := trueM;
    while m >= l && stabs[m].kind != kind
      invariant l - 1 <= m <= trueM
      invariant LastTyped(stabs, kind, l, m) == LastTyped(stabs, kind, l, trueM)
    {
      m := m - 1;
    }
  }

  // The last loop, from the right end of the region down to the entry it belongs to.
  method SettleDown(stabs: seq<Stab>, kind: int, left: int, right: int) returns (l: int)
    requires 0 <= left && right < |stabs|
    ensures l == Settle(stabs, kind, left, right)
  {
    l := right;
    while l > left && stabs[l].kind != kind
      invariant l < |stabs| && Settle(stabs, kind, left, l) == Settle(stabs, kind, left, right)
      decreases l - left
    {
      l := l - 1;
    }
  }

  // What the region is set to in the end.
  function Outcome(stabs: seq<Stab>, kind: int, end: Progress): Region
    requires 0 <= end.region.left && end.region.right < |stabs|
  {
    if end.any then Region(Settle(stabs, kind, end.region.left, end.region.right), end.region.right)
    else Region(end.region.left, end.region.left - 1)
  }

  // ---- what it finds --------------------------------------------------------------------

  ghost predicate Increasing(stabs: seq<Stab>, kind: int, left: int, right: int) {
    forall i, j :: left <= i < j <= right && Typed(stabs, kind, i) && Typed(stabs, kind, j) ==>
      stabs[i].value < stabs[j].value
  }

  // An entry at `addr` is not followed by one at addr + 1, and addr + 1 is an address.
  // Entries at least two apart always satisfy this, below the very last address.
  ghost predicate NoSuccessor(stabs: seq<Stab>, kind: int, left: int, right: int, addr: nat) {
    forall i, j :: left <= i <= right && left <= j <= right && Typed(stabs, kind, i) && Typed(stabs, kind, j) &&
                   stabs[i].value == addr ==>
      addr + 1 < WORD && stabs[j].value != addr + 1
  }

  // `i` is the last entry of the wanted type at or below `addr`.
  ghost predicate LastAt(stabs: seq<Stab>, kind: int, addr: nat, left: int, right: int, i: int) {
    left <= i <= right && Typed(stabs, kind, i) && stabs[i].value <= addr &&
    forall j :: i < j <= right && Typed(stabs, kind, j) ==> stabs[j].value > addr
  }

  // `r` is just before the next entry of that type after `i`, or the old right end.
  ghost predicate EndsBefore(stabs: seq<Stab>, kind: int, right: int, i: int, r: int) {
    i <= r <= right && (forall j :: i < j <= r ==> !Typed(stabs, kind, j)) && (r < right ==> Typed(stabs, kind, r + 1))
  }

  // The conditions on the table under which the search finds entry `i`.
  ghost predicate Findable(stabs: seq<Stab>, kind: int, left: nat, right: int, addr: nat, i: int) {
    right < |stabs| && addr < WORD && Increasing(stabs, kind, left, right) && NoSuccessor(stabs, kind, left, right, addr) &&
    LastAt(stabs, kind, addr, left, right, i)
  }

  // Where the search stands relative to its goal `i`: entries left of `l` are passed,
  // the region's right end is `r`, and after an exact match the address is one more.
  ghost predicate Towards(stabs: seq<Stab>, kind: int, left: int, right: int, addr0: nat, i: int, p: Progress) {
    && left <= p.l <= p.r + 1 && i <= p.r <= right && p.region.right == p.r && left <= p.region.left
    && (p.r < right ==> Typed(stabs, kind, p.r + 1))
    && (p.addr == addr0 || (p.addr == addr0 + 1 < WORD && Typed(stabs, kind, i) && stabs[i].value == addr0))
    && (forall j :: left <= j < p.l && Typed(stabs, kind, j) ==> j <= p.region.left && j <= i)
    && (p.region.left == left || (p.region.left <= i && Typed(stabs, kind, p.region.left)))
    && (!p.any ==> p.region.left == left && forall j :: left <= j < p.l ==> !Typed(stabs, kind, j))
  }

  lemma StepsPast(stabs: seq<Stab>, kind: int, left: nat, right: int, addr: nat, i: int, p: Progress, m: int)
    requires Findable(stabs, kind, left, right, addr, i) && p.l <= p.r && Towards(stabs, kind, left, right, addr, i, p)
    requires m == LastTyped(stabs, kind, p.l, (p.l + p.r) / 2) >= p.l && stabs[m].value < p.addr
    ensures Towards(stabs, kind, left, right, addr, i, Step(stabs, kind, p))
  {
    assert Typed(stabs, kind, m) && m <= i;
    assert forall j :: left <= j < p.l && Typed(stabs, kind, j) ==> j < m;
  }

  lemma StepsDown(stabs: seq<Stab>, kind: int, left: nat, right: int, addr: nat, i: int, p: Progress, m: int)
    requires Findable(stabs, kind, left, right, addr, i) && p.l <= p.r && Towards(stabs, kind, left, right, addr, i, p)
    requires m == LastTyped(stabs, kind, p.l, (p.l + p.r) / 2) >= p.l && stabs[m].value > p.addr
    ensures Towards(stabs, kind, left, right, addr, i, Step(stabs, kind, p))
  {
    assert Typed(stabs, kind, m) && m > i;
  }

  lemma StepsOnto(stabs: seq<Stab>, kind: int, left: nat, right: int, addr: nat, i: int, p: Progress, m: int)
    requires Findable(stabs, kind, left, right, addr, i) && p.l <= p.r && Towards(stabs, kind, left, right, addr, i, p)
    requires m == LastTyped(stabs, kind, p.l, (p.l + p.r) / 2) >= p.l && stabs[m].value == p.addr
    ensures Towards(stabs, kind, left, right, addr, i, Step(stabs, kind, p))
  {
    assert Typed(stabs, kind, m) && Typed(stabs, kind, i);
    assert p.addr == addr;
    assert m == i;
  }

  lemma StepsOver(stabs: seq<Stab>, kind: int, left: nat, right: int, addr: nat, i: int, p: Progress)
    requires Findable(stabs, kind, left, right, addr, i) && p.l <= p.r && Towards(stabs, kind, left, right, addr, i, p)
    requires LastTyped(stabs, kind, p.l, (p.l + p.r) / 2) < p.l
    ensures Towards(stabs, kind, left, right, addr, i, Step(stabs, kind, p))
  {
    assert forall j :: left <= j <= (p.l + p.r) / 2 && Typed(stabs, kind, j) ==> j < p.l;
  }

  lemma StepTowards(stabs: seq<Stab>, kind: int, left: nat, right: int, addr: nat, i: int, p: Progress)
    requires Findable(stabs, kind, left, right, addr, i) && p.l <= p.r && Towards(stabs, kind, left, right, addr, i, p)
    ensures Towards(stabs, kind, left, right, addr, i, Step(stabs, kind, p))
  {
    var m := LastTyped(stabs, kind, p.l, (p.l + p.r) / 2);
    if m < p.l {
      StepsOver(stabs, kind, left, right, addr, i, p);
    } else if stabs[m].value < p.addr {
      StepsPast(stabs, kind, left, right, addr, i, p, m);
    } else if stabs[m].value > p.addr {
      StepsDown(stabs, kind, left, right, addr, i, p, m);
    } else {
      StepsOnto(stabs, kind, left, right, addr, i, p, m);
    }
  }

  lemma {:induction false} BisectFinds(stabs: seq<Stab>, kind: int, left: nat, right: int, addr: nat, i: int, p: Progress)
    requires Findable(stabs, kind, left, right, addr, i) && Towards(stabs, kind, left, right, addr, i, p)
    ensures var end := Bisect(stabs, kind, p);
            end.any && end.region.left == i && EndsBefore(stabs, kind, right, i, end.region.right)
    decreases p.r + 1 - p.l, Unpassed(stabs, kind, p)
  {
    if p.l > p.r {
      assert i < p.l;
    } else {
      StepTowards(stabs, kind, left, right, addr, i, p);
      BisectFinds(stabs, kind, left, right, addr, i, Step(stabs, kind, p));
    }
  }

  // In a table whose entries of the wanted type are increasing, with `addr` not one
  // below another entry it also equals, the search ends at the last entry at or below
  // `addr`, and its right end just before the next one.
  lemma SearchFinds(stabs: seq<Stab>, kind: int, left: nat, right: int, addr: nat, i: int)
    requires left <= right && Findable(stabs, kind, left, right, addr, i)
    ensures var region := Outcome(stabs, kind, Search(stabs, kind, left, right, addr));
            region.left == i && EndsBefore(stabs, kind, right, i, region.right)
  {
    BisectFinds(stabs, kind, left, right, addr, i, Progress(left, right, addr, Region(left, right), false));
    SettlesAt(stabs, kind, i, Search(stabs, kind, left, right, addr).region.right);
  }

  lemma FindsEach(stabs: seq<Stab>, kind: int, left: nat, right: int, addr: nat)
    requires left - 1 <= right < |stabs|
    ensures var region := Outcome(stabs, kind, Search(stabs, kind, left, right, addr));
            forall i :: Findable(stabs, kind, left, right, addr, i) ==>
              region.left == i && EndsBefore(stabs, kind, right, i, region.right)
  {
    var region := Outcome(stabs, kind, Search(stabs, kind, left, right, addr));
    forall i | Findable(stabs, kind, left, right, addr, i)
      ensures region.left == i && EndsBefore(stabs, kind, right, i, region.right)
    {
      SearchFinds(stabs, kind, left, right, addr, i);
    }
  }

  // Without an entry of the wanted type the region comes back empty.
  lemma NoneTyped(stabs: seq<Stab>, kind: int, left: nat, right: int, addr: nat)
    requires left - 1 <= right < |stabs|
    ensures (forall i :: left <= i <= right ==> !Typed(stabs, kind, i)) ==>
              Outcome(stabs, kind, Search(stabs, kind, left, right, addr)) == Region(left, left - 1)
  {
    if forall i :: left <= i <= right ==> !Typed(stabs, kind, i) {
      BisectNone(stabs, kind, left, right, Progress(left, right, addr, Region(left, right), false));
    }
  }

  lemma {:induction false} BisectNone(stabs: seq<Stab>, kind: int, left: nat, right: int, p: Progress)
    requires InBounds(stabs, p) && left <= p.l && p.r <= right < |stabs| && !p.any
    requires forall i :: left <= i <= right ==> !Typed(stabs, kind, i)
    ensures !Bisect(stabs, kind, p).any && Bisect(stabs, kind, p).region == p.region
    decreases p.r + 1 - p.l, Unpassed(stabs, kind, p)
  {
    if p.l <= p.r {
      var m := LastTyped(stabs, kind, p.l, (p.l + p.r) / 2);
      assert m >= p.l ==> Typed(stabs, kind, m);
      BisectNone(stabs, kind, left, right, Step(stabs, kind, p));
    }
  }

  lemma {:induction false} SettlesAt(stabs: seq<Stab>, kind: int, i: nat, l: int)
    requires i <= l < |stabs| && forall j :: i < j <= l ==> !Typed(stabs, kind, j)
    ensures Settle(stabs, kind, i, l) == i
    decreases l - i
  {
    if l > i {
      assert !Typed(stabs, kind, l);
      SettlesAt(stabs, kind, i, l - 1);
    }
  }

  ghost predicate Spaced(stabs: seq<Stab>, kind: int, left: nat, right: int) {
    && right < |stabs| && (forall i :: 0 <= i < |stabs| ==> stabs[i].value < WORD)
    && forall j, k :: left <= j < k <= right && Typed(stabs, kind, j) && Typed(stabs, kind, k) ==>
         stabs[j].value + 2 <= stabs[k].value
  }

  lemma SpacedIsFindable(stabs: seq<Stab>, kind: int, left: nat, right: int, addr: nat, i: int)
    requires Spaced(stabs, kind, left, right) && addr < WORD && LastAt(stabs, kind, addr, left, right, i)
    requires addr + 1 < WORD || stabs[i].value != addr
    ensures Findable(stabs, kind, left, right, addr, i)
  {
    forall j, k | left <= j <= right && left <= k <= right && Typed(stabs, kind, j) && Typed(stabs, kind, k) &&
                  stabs[j].value == addr
      ensures addr + 1 < WORD && stabs[k].value != addr + 1
    {
      assert j == i;
      if k != j {
        assert stabs[j].value + 2 <= stabs[k].value || stabs[k].value + 2 <= stabs[j].value;
      }
    }
  }

  // With entries at least two apart the search is right exactly when the entry it
  // should find is not at the very last address: one past that is address 0.
  lemma SpacedFoundIff(stabs: seq<Stab>, kind: int, left: nat, right: int, addr: nat, i: int)
    requires Spaced(stabs, kind, left, right) && addr < WORD && LastAt(stabs, kind, addr, left, right, i)
    ensures var region := Outcome(stabs, kind, Search(stabs, kind, left, right, addr));
            (region.left == i && EndsBefore(stabs, kind, right, i, region.right)) <==> !(stabs[i].value == addr == WORD - 1)
  {
    if stabs[i].value == addr == WORD - 1 {
      BisectWraps(stabs, kind, left, right, i, Progress(left, right, addr, Region(left, right), false));
    } else {
      SpacedIsFindable(stabs, kind, left, right, addr, i);
      SearchFinds(stabs, kind, left, right, addr, i);
    }
  }

  // Looking for an entry at the last address, the search comes to it, goes on for
  // address 0, and leaves the region ending before it.
  lemma {:induction false} BisectWraps(stabs: seq<Stab>, kind: int, left: nat, right: int, i: int, p: Progress)
    requires Spaced(stabs, kind, left, right) && left <= p.l <= i <= p.r <= right && p.addr == WORD - 1
    requires Typed(stabs, kind, i) && stabs[i].value == WORD - 1
    ensures var end := Bisect(stabs, kind, p); end.any && end.region.left == i && end.region.right == i - 1
    decreases p.r + 1 - p.l, Unpassed(stabs, kind, p)
  {
    var trueM := (p.l + p.r) / 2;
    var m := LastTyped(stabs, kind, p.l, trueM);
    var q := Step(stabs, kind, p);
    if m >= p.l {
      assert Typed(stabs, kind, m);
    }
    if m >= p.l && stabs[m].value == WORD - 1 {
      assert m == i;
      WrapsDown(stabs, kind, left, right, i, q);
    } else {
      assert i > trueM;
      BisectWraps(stabs, kind, left, right, i, q);
    }
  }

  lemma WrapsDown(stabs: seq<Stab>, kind: int, left: nat, right: int, i: int, q: Progress)
    requires Spaced(stabs, kind, left, right) && left <= i <= q.r <= right && q.l == i && q.addr == 0 && q.region.left == i
    requires Typed(stabs, kind, i) && stabs[i].value == WORD - 1
    ensures var end := Bisect(stabs, kind, q); end.any && end.region.left == i && end.region.right == i - 1
  {
    var m := LastTyped(stabs, kind, i, (i + q.r) / 2);
    assert m >= i && Typed(stabs, kind, m) && m == i;
    var z := Step(stabs, kind, q);
    assert z.l > z.r && Bisect(stabs, kind, z) == z;
  }

  // ---- an entry followed by one at the very next address -------------------------------

  // Entry `i` is at `addr`, and `n`, the next one of the type, at addr + 1.
  ghost predicate Adjacent(stabs: seq<Stab>, kind: int, left: nat, right: int, addr: nat, i: int, n: int) {
    && right < |stabs| && Increasing(stabs, kind, left, right) && left <= i < n <= right
    && Typed(stabs, kind, i) && stabs[i].value == addr && Typed(stabs, kind, n) && stabs[n].value == addr + 1
    && forall j :: left <= j <= right && Typed(stabs, kind, j) ==> stabs[j].value < WORD
  }

  // The right end of the range still searched when the search comes to an entry at the
  // address it looks for.
  function HitRight(stabs: seq<Stab>, kind: int, p: Progress): int
    requires InBounds(stabs, p)
    decreases p.r + 1 - p.l, Unpassed(stabs, kind, p)
  {
    if p.l > p.r then p.r
    else
      var m := LastTyped(stabs, kind, p.l, (p.l + p.r) / 2);
      if m >= p.l && stabs[m].value == p.addr then p.r else HitRight(stabs, kind, Step(stabs, kind, p))
  }

  ghost predicate Looking(stabs: seq<Stab>, kind: int, left: nat, right: int, i: int, p: Progress) {
    && right < |stabs| && left <= p.l <= i <= p.r <= right && p.region.right == p.r
    && (p.r < right ==> Typed(stabs, kind, p.r + 1))
  }

  // What a match at entry `i` makes of the variables.
  function Matched(p: Progress, i: int): Progress {
    p.(l := i, addr := (p.addr + 1) % WORD, region := p.region.(left := i), any := true)
  }

  lemma LookingStep(stabs: seq<Stab>, kind: int, left: nat, right: int, addr: nat, i: int, n: int, p: Progress)
    requires Adjacent(stabs, kind, left, right, addr, i, n) && Looking(stabs, kind, left, right, i, p) && p.addr == addr
    ensures var m := LastTyped(stabs, kind, p.l, (p.l + p.r) / 2);
            if m >= p.l && stabs[m].value == addr then m == i && Step(stabs, kind, p) == Matched(p, i)
            else Looking(stabs, kind, left, right, i, Step(stabs, kind, p)) && Step(stabs, kind, p).addr == addr
  {
    var m := LastTyped(stabs, kind, p.l, (p.l + p.r) / 2);
    if m >= p.l {
      assert Typed(stabs, kind, m);
    }
  }

  // With the next entry out of the range, nothing more is found.
  lemma {:induction false} MatchKept(stabs: seq<Stab>, kind: int, left: nat, right: int, addr: nat, i: int, n: int, q: Progress)
    requires Adjacent(stabs, kind, left, right, addr, i, n) && left <= i <= q.l <= q.r + 1 <= n
    requires q.addr == addr + 1 && q.any && q.region.left == i && (forall j :: i < j < n ==> !Typed(stabs, kind, j))
    ensures Bisect(stabs, kind, q).any && Bisect(stabs, kind, q).region == q.region
    decreases q.r + 1 - q.l, Unpassed(stabs, kind, q)
  {
    if q.l <= q.r {
      var m := LastTyped(stabs, kind, q.l, (q.l + q.r) / 2);
      if m >= q.l {
        assert Typed(stabs, kind, m) && m == i;
      }
      MatchKept(stabs, kind, left, right, addr, i, n, Step(stabs, kind, q));
    }
  }

  // The search has passed entry `n`, or has it in its range.
  ghost predicate Beyond(stabs: seq<Stab>, kind: int, left: nat, right: int, n: int, q: Progress) {
    && left <= n <= right < |stabs| && left <= q.l <= q.r + 1 <= right + 1
    && q.any && q.region.right == q.r && left <= q.region.left <= q.l
    && (q.region.left >= n || q.l <= n)
    && n <= q.r && stabs[n].value <= q.addr < WORD && (stabs[n].value == WORD - 1 ==> q.l <= n)
  }

  lemma BeyondStep(stabs: seq<Stab>, kind: int, left: nat, right: int, addr: nat, i: int, n: int, q: Progress, m: int)
    requires Adjacent(stabs, kind, left, right, addr, i, n) && Beyond(stabs, kind, left, right, n, q) && q.l <= q.r
    requires m == LastTyped(stabs, kind, q.l, (q.l + q.r) / 2) && !(m >= q.l && stabs[m].value == q.addr == WORD - 1)
    ensures Beyond(stabs, kind, left, right, n, Step(stabs, kind, q))
  {
    var trueM := (q.l + q.r) / 2;
    assert q.l <= n <= trueM ==> m >= n;
    if m >= q.l {
      assert Typed(stabs, kind, m);
    }
  }

  // Entry `n` or one further up, but for the wrap past the last address.
  ghost predicate Past(stabs: seq<Stab>, addr: nat, left: nat, n: int, end: Progress) {
    && end.any && left <= end.region.left && n <= end.region.left && end.region.right < |stabs|
    && (if addr + 2 == WORD then end.region == Region(n, n - 1) else end.region.right >= n)
  }

  lemma {:induction false} MatchLost(stabs: seq<Stab>, kind: int, left: nat, right: int, addr: nat, i: int, n: int, q: Progress,
                                     end: Progress)
    requires Adjacent(stabs, kind, left, right, addr, i, n) && Beyond(stabs, kind, left, right, n, q)
    requires end == Bisect(stabs, kind, q)
    ensures Past(stabs, addr, left, n, end)
    decreases q.r + 1 - q.l, Unpassed(stabs, kind, q)
  {
    if q.l <= q.r {
      var m := LastTyped(stabs, kind, q.l, (q.l + q.r) / 2);
      assert end == Bisect(stabs, kind, Step(stabs, kind, q));
      if m >= q.l && stabs[m].value == q.addr == WORD - 1 {
        WrapAfter(stabs, kind, left, right, addr, i, n, q, m);
      } else {
        BeyondStep(stabs, kind, left, right, addr, i, n, q, m);
        MatchLost(stabs, kind, left, right, addr, i, n, Step(stabs, kind, q), end);
      }
    }
  }

  lemma WrapAfter(stabs: seq<Stab>, kind: int, left: nat, right: int, addr: nat, i: int, n: int, q: Progress, m: int)
    requires Adjacent(stabs, kind, left, right, addr, i, n) && Beyond(stabs, kind, left, right, n, q) && q.l <= q.r
    requires m == LastTyped(stabs, kind, q.l, (q.l + q.r) / 2) >= q.l && stabs[m].value == q.addr == WORD - 1
    ensures Past(stabs, addr, left, n, Bisect(stabs, kind, Step(stabs, kind, q)))
  {
    assert Typed(stabs, kind, m) && m >= n;
    WrapEnds(stabs, kind, left, right, m, Step(stabs, kind, q));
  }

  // After a match at the last address the search goes on for address 0, and stops.
  lemma WrapEnds(stabs: seq<Stab>, kind: int, left: nat, right: int, m: int, z: Progress)
    requires right < |stabs| && Increasing(stabs, kind, left, right) && left <= m == z.l <= z.r <= right && z.addr == 0
    requires Typed(stabs, kind, m) && stabs[m].value == WORD - 1
    requires forall j :: left <= j <= right && Typed(stabs, kind, j) ==> stabs[j].value < WORD
    ensures Bisect(stabs, kind, z) == z.(r := m - 1, region := z.region.(right := m - 1), any := true)
  {
    var k := LastTyped(stabs, kind, z.l, (z.l + z.r) / 2);
    assert k >= z.l && Typed(stabs, kind, k) && k == m;
    var e := Step(stabs, kind, z);
    assert e.l > e.r && Bisect(stabs, kind, e) == e;
  }

  lemma {:induction false} SettleRange(stabs: seq<Stab>, kind: int, left: int, l: int)
    requires 0 <= left && l < |stabs|
    ensures if l <= left then Settle(stabs, kind, left, l) == l else left <= Settle(stabs, kind, left, l) <= l
    decreases l - left
  {
    if l > left {
      SettleRange(stabs, kind, left, l - 1);
    }
  }

  // How the search ends when it came to entry `i` with the range ending at `hit`.
  ghost predicate Ended(stabs: seq<Stab>, kind: int, left: nat, right: int, addr: nat, i: int, n: int, hit: int, end: Progress) {
    && end.any && left <= end.region.left && end.region.right < |stabs|
    && if hit < n then end.region == Region(i, hit) && i <= hit <= right && (0 <= hit < right ==> Typed(stabs, kind, hit + 1))
       else Past(stabs, addr, left, n, end)
  }

  lemma AtMatch(stabs: seq<Stab>, kind: int, left: nat, right: int, addr: nat, i: int, n: int, p: Progress)
    requires Adjacent(stabs, kind, left, right, addr, i, n) && (forall j :: i < j < n ==> !Typed(stabs, kind, j))
    requires Looking(stabs, kind, left, right, i, p) && p.addr == addr
    ensures Ended(stabs, kind, left, right, addr, i, n, p.r, Bisect(stabs, kind, Matched(p, i)))
  {
    var q := Matched(p, i);
    if p.r < n {
      MatchKept(stabs, kind, left, right, addr, i, n, q);
    } else {
      MatchLost(stabs, kind, left, right, addr, i, n, q, Bisect(stabs, kind, q));
    }
  }

  // One round before the match leads to the same end.
  lemma RoundBefore(stabs: seq<Stab>, kind: int, p: Progress)
    requires InBounds(stabs, p) && p.l <= p.r
    ensures Bisect(stabs, kind, p) == Bisect(stabs, kind, Step(stabs, kind, p))
    ensures var m := LastTyped(stabs, kind, p.l, (p.l + p.r) / 2);
            HitRight(stabs, kind, p) == if m >= p.l && stabs[m].value == p.addr then p.r else HitRight(stabs, kind, Step(stabs, kind, p))
  {}

  lemma {:induction false} MatchIff(stabs: seq<Stab>, kind: int, left: nat, right: int, addr: nat, i: int, n: int, p: Progress,
                                    hit: int, end: Progress)
    requires Adjacent(stabs, kind, left, right, addr, i, n) && (forall j :: i < j < n ==> !Typed(stabs, kind, j))
    requires Looking(stabs, kind, left, right, i, p) && p.addr == addr
    requires hit == HitRight(stabs, kind, p) && end == Bisect(stabs, kind, p)
    ensures Ended(stabs, kind, left, right, addr, i, n, hit, end)
    decreases p.r + 1 - p.l, Unpassed(stabs, kind, p)
  {
    LookingStep(stabs, kind, left, right, addr, i, n, p);
    RoundBefore(stabs, kind, p);
    var m := LastTyped(stabs, kind, p.l, (p.l + p.r) / 2);
    if m >= p.l && stabs[m].value == addr {
      AtMatch(stabs, kind, left, right, addr, i, n, p);
      assert hit == p.r && end == Bisect(stabs, kind, Matched(p, i));
    } else {
      MatchIff(stabs, kind, left, right, addr, i, n, Step(stabs, kind, p), hit, end);
    }
  }

  // An entry followed by one at the very next address is found exactly when the range
  // had already been narrowed to before that one when the search came to it.  (Or when
  // the two are neighbours in the table and the next address is the very last one.)
  lemma AdjacentFoundIff(stabs: seq<Stab>, kind: int, left: nat, right: int, addr: nat, i: int, n: int)
    requires Adjacent(stabs, kind, left, right, addr, i, n) && forall j :: i < j < n ==> !Typed(stabs, kind, j)
    ensures var region := Outcome(stabs, kind, Search(stabs, kind, left, right, addr));
            (region.left == i && EndsBefore(stabs, kind, right, i, region.right)) <==>
            HitRight(stabs, kind, Progress(left, right, addr, Region(left, right), false)) < n ||
            (addr + 2 == WORD && n == i + 1)
  {
    var p := Progress(left, right, addr, Region(left, right), false);
    var end := Bisect(stabs, kind, p);
    MatchIff(stabs, kind, left, right, addr, i, n, p, HitRight(stabs, kind, p), end);
    if HitRight(stabs, kind, p) < n {
      SettlesAt(stabs, kind, i, end.region.right);
    } else {
      SettleRange(stabs, kind, end.region.left, end.region.right);
    }
  }

  // Entries one apart are not: looking for 10 among 10 and 11 ends at 11.
  lemma AdjacentMisleads(kind: int)
    ensures var stabs := [Stab(kind, 10), Stab(kind, 11)];
            LastAt(stabs, kind, 10, 0, 1, 0) &&
            Outcome(stabs, kind, Search(stabs, kind, 0, 1, 10)) == Region(1, 1)
  {
    var stabs := [Stab(kind, 10), Stab(kind, 11)];
    var p0 := Progress(0, 1, 10, Region(0, 1), false);
    var p1 := Step(stabs, kind, p0);
    assert p1 == Progress(0, 1, 11, Region(0, 1), true);
    var p2 := Step(stabs, kind, p1);
    assert p2 == Progress(1, 1, 11, Region(0, 1), true);
    var p3 := Step(stabs, kind, p2);
    assert p3 == Progress(1, 1, 12, Region(1, 1), true);
    var p4 := Step(stabs, kind, p3);
    assert p4 == Progress(2, 1, 12, Region(1, 1), true);
    assert Bisect(stabs, kind, p3) == p4;
    assert Bisect(stabs, kind, p1) == p4;
    assert Bisect(stabs, kind, p0) == p4;
  }
}
