// Building a new program's memory (lib/spawn.c): its stack page with the arguments,
// and the pages of a segment of its executable.
module Spawn {
  import opened Inc

  // A byte is a number below 256, a C string a sequence of non-zero bytes.
  type Bytes = seq<nat>

  predicate CString(s: Bytes) {
    forall i :: 0 <= i < |s| ==> 0 < s[i] < 0x100
  }

  // ---- words in memory ---------------------------------------------------------------

  function GetWord(m: Bytes, o: nat): nat
    requires o + 4 <= |m|
  {
    m[o] + 0x100 * m[o + 1] + 0x1_0000 * m[o + 2] + 0x100_0000 * m[o + 3]
  }

  function PutWord(m: Bytes, o: nat, w: nat): (m': Bytes)
    requires o + 4 <= |m|
    ensures |m'| == |m|
    ensures forall i :: 0 <= i < |m| && !(o <= i < o + 4) ==> m'[i] == m[i]
  {
    m[o := w % 0x100][o + 1 := w / 0x100 % 0x100][o + 2 := w / 0x1_0000 % 0x100][o + 3 := w / 0x100_0000 % 0x100]
  }

  lemma GetPut(m: Bytes, o: nat, w: nat)
    requires o + 4 <= |m| && w < WORD
    ensures GetWord(PutWord(m, o, w), o) == w
  {
    var m' := PutWord(m, o, w);
    assert m'[o] == w % 0x100 && m'[o + 1] == w / 0x100 % 0x100;
    assert m'[o + 2] == w / 0x1_0000 % 0x100 && m'[o + 3] == w / 0x100_0000 % 0x100;
    FourBytes(w);
  }

  lemma FourBytes(w: nat)
    requires w < WORD
    ensures w % 0x100 + 0x100 * (w / 0x100 % 0x100) + 0x1_0000 * (w / 0x1_0000 % 0x100) +
            0x100_0000 * (w / 0x100_0000 % 0x100) == w
  {}

  lemma GetSame(m: Bytes, m': Bytes, o: nat)
    requires o + 4 <= |m| && o + 4 <= |m'| && forall i :: o <= i < o + 4 ==> m'[i] == m[i]
    ensures GetWord(m', o) == GetWord(m, o)
  {}

  // The string `s` with its terminator at offset `o`.
  ghost predicate StringAt(m: Bytes, o: nat, s: Bytes) {
    o + |s| + 1 <= |m| && m[o..o + |s|] == s && m[o + |s|] == 0
  }

  // ---- init_stack: the layout -----------------------------------------------------------

  // Bytes of the first n strings with their terminators.
  function Total(argv: seq<Bytes>, n: nat): (t: nat)
    requires n <= |argv|
    ensures t >= n
  {
    if n == 0 then 0 else Total(argv, n - 1) + |argv[n - 1]| + 1
  }

  function RoundDown4(x: int): int {
    x - x % 4
  }

  // Offsets in the page of the first string and of the pointer array.
  function StringsStart(argv: seq<Bytes>): int {
    PGSIZE - Total(argv, |argv|)
  }

  function ArgvStart(argv: seq<Bytes>): int {
    RoundDown4(StringsStart(argv)) - 4 * (|argv| + 1)
  }

  // argc, argv, the pointers and the strings fit in one page.
  predicate Fits(argv: seq<Bytes>) {
    ArgvStart(argv) - 8 >= 0
  }

  // Where init_stack would store argc, before its address is cut to 32 bits.
  function LowestWord(argv: seq<Bytes>): int {
    UTEMP + ArgvStart(argv) - 8
  }

  // The test init_stack makes.
  predicate TestFails(argv: seq<Bytes>) {
    LowestWord(argv) % WORD < UTEMP
  }

  // The address where argc would go comes out below zero and, cut to 32 bits, above the
  // page: only then does the test pass arguments that do not fit.  (Pointers may repeat,
  // so the strings may add up to any length.)
  predicate TestRight(argv: seq<Bytes>) {
    LowestWord(argv) >= 0 || LowestWord(argv) % WORD < UTEMP
  }

  lemma TestIsRightIff(argv: seq<Bytes>)
    ensures (TestFails(argv) <==> !Fits(argv)) <==> TestRight(argv)
  {
    assert LowestWord(argv) < WORD;
  }

  lemma SameRemainder(x: int, y: int, k: int)
    requires x == y + WORD * k
    ensures x % WORD == y % WORD
    ensures 0 <= x < WORD && 0 <= y < WORD ==> x == y
  {}

  lemma RoundsAlike(x: int, y: int, k: int)
    requires x == y + WORD * k
    ensures RoundDown4(x) == RoundDown4(y) + WORD * k
  {}

  // The sums and differences init_stack computes are all cut to 32 bits, and that makes
  // no difference to its test, nor to the addresses of arguments that fit.
  lemma CutToWord(argv: seq<Bytes>, size: int, store: int, pointers: int)
    requires size == Total(argv, |argv|) % WORD && store == (UTEMP + PGSIZE - size) % WORD
    requires pointers == (RoundDown4(store) - 4 * (|argv| + 1)) % WORD
    ensures (pointers - 8) % WORD == LowestWord(argv) % WORD
    ensures Fits(argv) ==> store == UTEMP + StringsStart(argv) && pointers == UTEMP + ArgvStart(argv)
  {
    ArgvAddress(argv);
    CutTwice(Total(argv, |argv|), |argv|, size, store, pointers, UTEMP + StringsStart(argv), UTEMP + ArgvStart(argv));
  }

  lemma ArgvAddress(argv: seq<Bytes>)
    ensures UTEMP + ArgvStart(argv) == RoundDown4(UTEMP + StringsStart(argv)) - 4 * (|argv| + 1)
  {}

  lemma CutTwice(total: nat, n: nat, size: int, store: int, pointers: int, start: int, base: int)
    requires size == total % WORD && store == (UTEMP + PGSIZE - size) % WORD && start == UTEMP + PGSIZE - total
    requires pointers == (RoundDown4(store) - 4 * (n + 1)) % WORD && base == RoundDown4(start) - 4 * (n + 1)
    ensures (pointers - 8) % WORD == (base - 8) % WORD
    ensures base >= 0 ==> store == start && pointers == base
  {
    var c := CutSum(total, size, store);
    var k := CutDifference(RoundDown4(store) - 4 * (n + 1), pointers);
    RoundsAlike(start, store, c);
    SameRemainder(base - 8, pointers - 8, c + k);
    SameRemainder(start, store, c);
    SameRemainder(base, pointers, c + k);
  }

  lemma CutSum(total: nat, size: int, store: int) returns (c: int)
    requires size == total % WORD && store == (UTEMP + PGSIZE - size) % WORD
    ensures UTEMP + PGSIZE - total == store + WORD * c
  {
    c := (UTEMP + PGSIZE - size) / WORD - total / WORD;
  }

  lemma CutDifference(x: int, y: int) returns (d: int)
    requires y == x % WORD
    ensures x == y + WORD * d
  {
    d := x / WORD;
  }

  // One string of more than four megabytes passes it.
  lemma TestMissesHugeStrings(s: Bytes)
    requires |s| == UTEMP + PGSIZE
    ensures !Fits([s]) && !TestFails([s])
  {
    assert Total([s], 0) == 0;
    assert Total([s], 1) == |s| + 1;
  }

  // Where a byte of the page is in the child.
  function ChildAddr(o: int): int {
    o + USTACKTOP - PGSIZE
  }

  // The stack page of a new program, in numbers.
  const STACK_PAGE := 0xee7f_d000

  // What the child finds from its initial stack pointer on: argc, then argv, then
  // through it the strings it was given, and a null pointer after the last.
  ghost predicate ReadsArguments(m: Bytes, argv: seq<Bytes>, esp: int) {
    var o := esp - STACK_PAGE;
    && |m| == PGSIZE && 0 <= o && o + 8 <= PGSIZE
    && GetWord(m, o) == |argv|
    && var a := GetWord(m, o + 4) - STACK_PAGE;
       && 0 <= a && a + 4 * (|argv| + 1) <= PGSIZE
       && (forall i :: 0 <= i < |argv| ==> PointsTo(m, a + 4 * i, argv[i]))
       && GetWord(m, a + 4 * |argv|) == 0
  }

  ghost predicate PointsTo(m: Bytes, o: int, s: Bytes) {
    0 <= o && o + 4 <= |m| && var p := GetWord(m, o) - STACK_PAGE; 0 <= p && StringAt(m, p, s)
  }

  // ---- init_stack ------------------------------------------------------------------------

  // strcpy into the page
  method Strcpy(page: array<nat>, o: nat, s: Bytes)
    requires o + |s| + 1 <= page.Length
    modifies page
    ensures StringAt(page[..], o, s)
    ensures forall i :: 0 <= i < page.Length && !(o <= i < o + |s| + 1) ==> page[i] == old(page[i])
  {
    var j := 0;
    while j < |s|
      invariant 0 <= j <= |s|
      invariant forall i :: 0 <= i < j ==> page[o + i] == s[i]
      invariant forall i :: 0 <= i < page.Length && !(o <= i < o + j) ==> page[i] == old(page[i])
    {
      page[o + j] := s[j];
      j := j + 1;
    }
    page[o + |s|] := 0;
    assert page[..][o..o + |s|] == s;
  }

  method StoreWord(page: array<nat>, o: nat, w: nat)
    requires o + 4 <= page.Length
    modifies page
    ensures page[..] == PutWord(old(page[..]), o, w)
  {
    page[o] := w % 0x100;
    page[o + 1] := w / 0x100 % 0x100;
    page[o + 2] := w / 0x1_0000 % 0x100;
    page[o + 3] := w / 0x100_0000 % 0x100;
  }

  // The pointers and strings of the first `n` arguments are in place.
  ghost predicate Placed(m: Bytes, argv: seq<Bytes>, n: nat) {
    |m| == PGSIZE && Fits(argv) && n <= |argv| &&
    forall i :: 0 <= i < n ==> PlacedAt(m, argv, i)
  }

  ghost predicate PlacedAt(m: Bytes, argv: seq<Bytes>, i: nat)
    requires |m| == PGSIZE && Fits(argv) && i < |argv|
  {
    && GetWord(m, ArgvStart(argv) + 4 * i) == ChildAddr(StringsStart(argv) + Total(argv, i))
    && StringAt(m, StringsStart(argv) + Total(argv, i), argv[i])
  }

  lemma {:induction false} TotalMono(argv: seq<Bytes>, i: nat, n: nat)
    requires i < n <= |argv|
    ensures Total(argv, i) + |argv[i]| + 1 <= Total(argv, n)
  {
    if i + 1 < n {
      TotalMono(argv, i, n - 1);
    }
  }

  // Where things are: the pointers end before the strings begin.
  lemma Layout(argv: seq<Bytes>, i: nat)
    requires Fits(argv) && i < |argv|
    ensures 8 <= ArgvStart(argv) && ArgvStart(argv) + 4 * (|argv| + 1) <= StringsStart(argv)
    ensures StringsStart(argv) + Total(argv, i) + |argv[i]| + 1 <= PGSIZE
  {
    TotalMono(argv, i, |argv|);
  }

  ghost predicate Agree(m: Bytes, m': Bytes, from: int, to: int) {
    |m'| == |m| && 0 <= from && to <= |m| && forall x :: from <= x < to ==> m'[x] == m[x]
  }

  // Bytes that matter to argument `i` did not change.
  lemma PlacedAtKept(m: Bytes, m': Bytes, argv: seq<Bytes>, i: nat, p: int, o: int)
    requires |m| == PGSIZE && Fits(argv) && i < |argv| && PlacedAt(m, argv, i)
    requires p == ArgvStart(argv) + 4 * i && o == StringsStart(argv) + Total(argv, i)
    requires Agree(m, m', p, p + 4) && Agree(m, m', o, o + |argv[i]| + 1)
    ensures PlacedAt(m', argv, i)
  {
    Layout(argv, i);
    GetSame(m, m', p);
    assert m'[o..o + |argv[i]|] == m[o..o + |argv[i]|];
  }

  lemma PutAgrees(m: Bytes, o: nat, w: nat, from: int, to: int)
    requires o + 4 <= |m| && 0 <= from && to <= |m| && (to <= o || o + 4 <= from)
    ensures Agree(m, PutWord(m, o, w), from, to)
  {}

  lemma AgreeTrans(m: Bytes, m1: Bytes, m2: Bytes, from: int, to: int)
    requires Agree(m, m1, from, to) && Agree(m1, m2, from, to)
    ensures Agree(m, m2, from, to)
  {}

  lemma AgreeWithin(m: Bytes, m': Bytes, from: int, to: int, from': int, to': int)
    requires Agree(m, m', from, to) && from <= from' && to' <= to
    ensures Agree(m, m', from', to')
  {}

  // One more pointer and string, at offsets `p` and `o`.
  lemma PlacedMore(m: Bytes, m1: Bytes, m2: Bytes, argv: seq<Bytes>, n: nat, p: nat, o: nat)
    requires n < |argv| && Placed(m, argv, n) && p == ArgvStart(argv) + 4 * n && o == StringsStart(argv) + Total(argv, n)
    requires p + 4 <= o && o + |argv[n]| + 1 <= PGSIZE
    requires m1 == PutWord(m, p, ChildAddr(o)) && |m2| == PGSIZE && StringAt(m2, o, argv[n])
    requires Agree(m1, m2, 0, o) && Agree(m1, m2, o + |argv[n]| + 1, PGSIZE)
    ensures Placed(m2, argv, n + 1)
  {
    forall i | 0 <= i < n ensures PlacedAt(m2, argv, i) {
      EarlierKept(m, m1, m2, argv, n, p, o, i);
    }
    GetPut(m, p, ChildAddr(o));
    GetSame(m1, m2, p);
  }

  lemma EarlierKept(m: Bytes, m1: Bytes, m2: Bytes, argv: seq<Bytes>, n: nat, p: nat, o: nat, i: nat)
    requires i < n < |argv| && Placed(m, argv, n) && p == ArgvStart(argv) + 4 * n && o == StringsStart(argv) + Total(argv, n)
    requires p + 4 <= o <= PGSIZE && m1 == PutWord(m, p, ChildAddr(o)) && Agree(m1, m2, 0, o)
    ensures |m2| == PGSIZE && PlacedAt(m2, argv, i)
  {
    Layout(argv, i);
    TotalMono(argv, i, n);
    assert PlacedAt(m, argv, i);
    var p', o' := ArgvStart(argv) + 4 * i, StringsStart(argv) + Total(argv, i);
    PutAgrees(m, p, ChildAddr(o), p', p' + 4);
    PutAgrees(m, p, ChildAddr(o), o', o' + |argv[i]| + 1);
    AgreeWithin(m1, m2, 0, o, p', p' + 4);
    AgreeWithin(m1, m2, 0, o, o', o' + |argv[i]| + 1);
    AgreeTrans(m, m1, m2, p', p' + 4);
    AgreeTrans(m, m1, m2, o', o' + |argv[i]| + 1);
    PlacedAtKept(m, m2, argv, i, p', o');
  }

  // The three words written last are not part of any argument.
  lemma ReadsBack(m: Bytes, m1: Bytes, m2: Bytes, m3: Bytes, argv: seq<Bytes>, a: nat)
    requires Placed(m, argv, |argv|) && |argv| < WORD && a == ArgvStart(argv) && 8 <= a && a + 4 * |argv| + 4 <= StringsStart(argv)
    requires m1 == PutWord(m, a + 4 * |argv|, 0) && m2 == PutWord(m1, a - 4, ChildAddr(a)) && m3 == PutWord(m2, a - 8, |argv|)
    ensures ReadsArguments(m3, argv, ChildAddr(a - 8))
  {
    forall i | 0 <= i < |argv| ensures PointsTo(m3, a + 4 * i, argv[i]) {
      LastWordsKeep(m, m1, m2, m3, argv, a, i);
    }
    LastWords(m, m1, m2, m3, a, |argv|);
    ReadsFrom(m3, argv, a);
  }

  lemma ReadsFrom(m: Bytes, argv: seq<Bytes>, a: nat)
    requires |m| == PGSIZE && 8 <= a && a + 4 * (|argv| + 1) <= PGSIZE
    requires GetWord(m, a - 8) == |argv| && GetWord(m, a - 4) == ChildAddr(a) && GetWord(m, a + 4 * |argv|) == 0
    requires forall i :: 0 <= i < |argv| ==> PointsTo(m, a + 4 * i, argv[i])
    ensures ReadsArguments(m, argv, ChildAddr(a - 8))
  {}

  lemma LastWords(m: Bytes, m1: Bytes, m2: Bytes, m3: Bytes, a: nat, argc: nat)
    requires |m| == PGSIZE && argc < WORD && 8 <= a && a + 4 * argc + 4 <= PGSIZE
    requires m1 == PutWord(m, a + 4 * argc, 0) && m2 == PutWord(m1, a - 4, ChildAddr(a)) && m3 == PutWord(m2, a - 8, argc)
    ensures GetWord(m3, a - 8) == argc && GetWord(m3, a - 4) == ChildAddr(a) && GetWord(m3, a + 4 * argc) == 0
  {
    GetPut(m, a + 4 * argc, 0);
    GetSame(m1, m3, a + 4 * argc);
    GetPut(m1, a - 4, ChildAddr(a));
    GetSame(m2, m3, a - 4);
    GetPut(m2, a - 8, argc);
  }

  lemma LastWordsKeep(m: Bytes, m1: Bytes, m2: Bytes, m3: Bytes, argv: seq<Bytes>, a: nat, i: nat)
    requires Placed(m, argv, |argv|) && a == ArgvStart(argv) && 8 <= a && a + 4 * |argv| + 4 <= StringsStart(argv) && i < |argv|
    requires m1 == PutWord(m, a + 4 * |argv|, 0) && m2 == PutWord(m1, a - 4, ChildAddr(a)) && m3 == PutWord(m2, a - 8, |argv|)
    ensures PointsTo(m3, a + 4 * i, argv[i])
  {
    Layout(argv, i);
    assert PlacedAt(m, argv, i);
    var p, o := a + 4 * i, StringsStart(argv) + Total(argv, i);
    assert Agree(m, m3, p, p + 4);
    assert Agree(m, m3, o, o + |argv[i]| + 1);
    PlacedAtKept(m, m3, argv, i, p, o);
  }

  // Builds the stack page at UTEMP, for arguments on which the test is right; then
  // either everything fits, or nothing is written.  Addresses are 32 bits wide.
  // `memory` is whether sys_page_alloc finds a page.
  method InitStack(argv: seq<Bytes>, page: array<nat>, memory: bool) returns (r: int, esp: int)
    requires page.Length == PGSIZE && forall i :: 0 <= i < |argv| ==> CString(argv[i])
    requires TestRight(argv)
    modifies page
    ensures r == if Fits(argv) && memory then 0 else -E_NO_MEM
    ensures r == 0 ==> ReadsArguments(page[..], argv, esp)
    ensures r != 0 ==> page[..] == old(page[..])
  {
    esp := 0;
    var stringSize := 0;
    var argc := 0;
    while argc < |argv|
      invariant 0 <= argc <= |argv| && stringSize == Total(argv, argc) % WORD
    {
      stringSize := (stringSize + |argv[argc]| + 1) % WORD;
      argc := argc + 1;
    }
    var stringStore := (UTEMP + PGSIZE - stringSize) % WORD;
    var argvStore := (RoundDown4(stringStore) - 4 * (argc + 1)) % WORD;
    CutToWord(argv, stringSize, stringStore, argvStore);
    TestIsRightIff(argv);
    if (argvStore - 8) % WORD < UTEMP {
      return -E_NO_MEM, esp;
    }
    if !memory {
      return -E_NO_MEM, esp;
    }
    PlaceArguments(page, argv, argvStore - UTEMP, stringStore - UTEMP);
    FinishStack(page, argv, argvStore - UTEMP);
    return 0, ChildAddr(argvStore - UTEMP - 8);
  }

  // The loop that stores each pointer and copies its string.
  method PlaceArguments(page: array<nat>, argv: seq<Bytes>, argvStore: nat, stringStore0: nat)
    requires page.Length == PGSIZE && Fits(argv) && argvStore == ArgvStart(argv) && stringStore0 == StringsStart(argv)
    modifies page
    ensures Placed(page[..], argv, |argv|)
  {
    var stringStore := stringStore0;
    var i := 0;
    while i < |argv|
      invariant 0 <= i <= |argv| && stringStore == StringsStart(argv) + Total(argv, i)
      invariant Placed(page[..], argv, i)
    {
      Layout(argv, i);
      ghost var m := page[..];
      StoreWord(page, argvStore + 4 * i, ChildAddr(stringStore));
      ghost var m1 := page[..];
      Strcpy(page, stringStore, argv[i]);
      PlacedMore(m, m1, page[..], argv, i, argvStore + 4 * i, stringStore);
      stringStore := stringStore + |argv[i]| + 1;
      i := i + 1;
    }
  }

  // The null pointer, argv and argc.
  method FinishStack(page: array<nat>, argv: seq<Bytes>, argvStore: nat)
    requires Placed(page[..], argv, |argv|) && |argv| < WORD && argvStore == ArgvStart(argv) && 8 <= argvStore
    requires argvStore + 4 * |argv| + 4 <= StringsStart(argv)
    modifies page
    ensures ReadsArguments(page[..], argv, ChildAddr(argvStore - 8))
  {
    ghost var m := page[..];
    StoreWord(page, argvStore + 4 * |argv|, 0);
    ghost var m1 := page[..];
    StoreWord(page, argvStore - 4, ChildAddr(argvStore));
    ghost var m2 := page[..];
    StoreWord(page, argvStore - 8, |argv|);
    ReadsBack(m, m1, m2, page[..], argv, argvStore);
  }

  // ---- map_segment -------------------------------------------------------------------------

  // A byte of the segment: from the file, zero past its end, zero past filesz.
  function SegmentByte(file: Bytes, fileoffset: int, filesz: nat, d: int): nat {
    if 0 <= d < filesz && 0 <= fileoffset + d < |file| then file[fileoffset + d] else 0
  }

  // Page `v` of the child holds the bytes the segment has there, given where the
  // segment's page-aligned start is in memory and in the file.
  ghost predicate PageHolds(pages: map<nat, Bytes>, v: nat, start: nat, file: Bytes, offset: nat, size: nat) {
    v in pages && |pages[v]| == PGSIZE &&
    forall j :: 0 <= j < PGSIZE ==> pages[v][j] == SegmentByte(file, offset, size, (v - start) * PGSIZE + j)
  }

  lemma PageIndex(start: nat, va: nat, i: nat)
    requires va == start * PGSIZE && i % PGSIZE == 0
    ensures (va + i) / PGSIZE == start + i / PGSIZE && (va + i) / PGSIZE * PGSIZE == va + i
    ensures (i + PGSIZE) / PGSIZE == i / PGSIZE + 1 && (i + PGSIZE) % PGSIZE == 0 && i / PGSIZE * PGSIZE == i
  {}

  lemma PastEnd(start: nat, va: nat, i: nat, memsz: nat)
    requires va == start * PGSIZE && i % PGSIZE == 0 && i < memsz + PGSIZE
    ensures forall v :: v * PGSIZE >= va + memsz ==> v >= start + i / PGSIZE
  {
    forall v | v * PGSIZE >= va + memsz ensures v >= start + i / PGSIZE {
      assert (v - start + 1) * PGSIZE > i;
    }
  }

  lemma ByteIndex(start: nat, va: nat, size: nat, a: nat)
    requires va == start * PGSIZE && size % PGSIZE == 0 && va <= a < va + size
    ensures start <= a / PGSIZE < start + size / PGSIZE && (a / PGSIZE - start) * PGSIZE + a % PGSIZE == a - va
  {}

  // Pages that many bytes take from a page boundary on.
  function PagesFor(n: nat): nat {
    (n + PGSIZE - 1) / PGSIZE
  }

  lemma MorePages(i: nat, n: nat)
    requires i % PGSIZE == 0 && i < n
    ensures i / PGSIZE < PagesFor(n) && (i + PGSIZE) / PGSIZE == i / PGSIZE + 1
  {}

  lemma NoMorePages(i: nat, n: nat)
    requires i % PGSIZE == 0 && n <= i < n + PGSIZE
    ensures i / PGSIZE == PagesFor(n)
  {}

  class Child {
    var pages: map<nat, Bytes>
    // pages the system can still allocate
    var memory: nat

    // One page of the segment at offset `i`: read from the file if any of it is there,
    // else blank.
    method MapPage(v: nat, file: Bytes, offset: nat, size: nat, i: nat) returns (r: int)
      modifies this
      ensures r == if old(memory) == 0 then -E_NO_MEM else 0
      ensures r != 0 ==> pages == old(pages) && memory == 0
      ensures r == 0 ==> memory == old(memory) - 1
      ensures r == 0 ==>
                && v in pages && |pages[v]| == PGSIZE && pages == old(pages)[v := pages[v]]
                && forall j :: 0 <= j < PGSIZE ==> pages[v][j] == SegmentByte(file, offset, size, i + j)
    {
      if memory == 0 {
        return -E_NO_MEM;
      }
      memory := memory - 1;
      var page := seq(PGSIZE, _ => 0);
      if i < size {
        page := Readn(file, offset + i, page, if PGSIZE < size - i then PGSIZE else size - i);
      }
      pages := pages[v := page];
      r := 0;
    }

    // Reads up to `n` bytes at file position `pos` into the start of a page.
    method Readn(file: Bytes, pos: nat, page: Bytes, n: nat) returns (got: Bytes)
      requires |page| == PGSIZE && n <= PGSIZE
      ensures |got| == PGSIZE
      ensures forall j :: 0 <= j < PGSIZE ==> got[j] == if j < n && pos + j < |file| then file[pos + j] else page[j]
    {
      got := page;
      var j := 0;
      while j < n && pos + j < |file|
        invariant 0 <= j <= n && |got| == PGSIZE
        invariant forall x :: 0 <= x < PGSIZE ==> got[x] == if x < j && pos + x < |file| then file[pos + x] else page[x]
      {
        got := got[j := file[pos + j]];
        j := j + 1;
      }
    }

    // Every page that holds a byte of the segment is mapped, with the file's bytes up
    // to filesz and zeros after; unless memory runs out.
    method MapSegment(va0: nat, memsz0: nat, file: Bytes, filesz0: nat, fileoffset0: nat) returns (r: int)
      requires fileoffset0 >= va0 % PGSIZE
      modifies this
      ensures r == 0 || r == -E_NO_MEM
      ensures r == 0 ==> forall a :: va0 <= a < va0 + memsz0 ==>
                a / PGSIZE in pages && |pages[a / PGSIZE]| == PGSIZE &&
                pages[a / PGSIZE][a % PGSIZE] == SegmentByte(file, fileoffset0, filesz0, a - va0)
      ensures forall v :: v in old(pages) && (v < va0 / PGSIZE || v * PGSIZE >= va0 + memsz0) ==>
                v in pages && pages[v] == old(pages)[v]
      ensures r == 0 ==> memory == old(memory) - PagesFor(va0 % PGSIZE + memsz0)
      ensures r != 0 ==> memory == 0 && old(memory) < PagesFor(va0 % PGSIZE + memsz0)
    {
      var va, memsz, filesz, fileoffset := va0, memsz0, filesz0, fileoffset0;
      var i := va % PGSIZE;
      if i != 0 {
        va := va - i;
        memsz := memsz + i;
        filesz := filesz + i;
        fileoffset := fileoffset - i;
      }
      ghost var start := va / PGSIZE;
      i := 0;
      while i < memsz
        invariant i % PGSIZE == 0 && i < memsz + PGSIZE && memory == old(memory) - i / PGSIZE
        invariant forall v :: start <= v < start + i / PGSIZE ==> PageHolds(pages, v, start, file, fileoffset, filesz)
        invariant forall v :: v in old(pages) && (v < start || v >= start + i / PGSIZE) ==> v in pages && pages[v] == old(pages)[v]
      {
        PageIndex(start, va, i);
        PastEnd(start, va, i, memsz);
        MorePages(i, memsz);
        ghost var was := pages;
        r := MapPage((va + i) / PGSIZE, file, fileoffset, filesz, i);
        if r != 0 {
          return;
        }
        assert PageHolds(pages, start + i / PGSIZE, start, file, fileoffset, filesz);
        forall v | start <= v < start + i / PGSIZE ensures PageHolds(pages, v, start, file, fileoffset, filesz) {
          assert PageHolds(was, v, start, file, fileoffset, filesz);
        }
        i := i + PGSIZE;
      }
      PastEnd(start, va, i, memsz);
      NoMorePages(i, memsz);
      forall a | va0 <= a < va0 + memsz0
        ensures a / PGSIZE in pages && |pages[a / PGSIZE]| == PGSIZE &&
                pages[a / PGSIZE][a % PGSIZE] == SegmentByte(file, fileoffset0, filesz0, a - va0)
      {
        ByteIndex(start, va, i, a);
        assert PageHolds(pages, a / PGSIZE, start, file, fileoffset, filesz);
      }
      r := 0;
    }
  }
}
