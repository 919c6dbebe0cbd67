// Printing numbers (lib/printfmt.c) and reading them back (lib/string.c).
module NumFmt {
  import opened Inc

  const LONG_MAX := 0x7FFF_FFFF

  // ---- printing ------------------------------------------------------------------

  function Digit(d: nat): (c: char)
    requires d < 16
  {
    "0123456789abcdef"[d]
  }

  // The digits of a number, most significant first, without padding.
  function Digits(num: nat, base: nat): (s: string)
    requires 2 <= base <= 16
    ensures |s| >= 1
    decreases num
  {
    if num < base then [Digit(num)] else Digits(num / base, base) + [Digit(num % base)]
  }

  lemma DivMod(num: nat, base: nat)
    requires base >= 2
    ensures 0 <= num % base < base && num / base * base + num % base == num
    ensures num >= base ==> num / base < num
  {
    if num / base >= num {
      assert num / base * base >= num * base;
    }
  }

  function Pad(n: int, padc: char): (s: string)
    ensures |s| == if n < 0 then 0 else n
  {
    seq(if n < 0 then 0 else n, _ => padc)
  }

  // A number right-aligned in a field.
  function Padded(num: nat, base: nat, width: int, padc: char): (s: string)
    requires 2 <= base <= 16
    ensures |s| == if width > |Digits(num, base)| then width else |Digits(num, base)|
  {
    Pad(width - |Digits(num, base)|, padc) + Digits(num, base)
  }

  // The last digit of a padded number, and what is before it.
  lemma PaddedStep(num: nat, base: nat, width: int, padc: char)
    requires 2 <= base <= 16
    ensures Padded(num, base, width, padc) ==
            (if num >= base then Padded(num / base, base, width - 1, padc) else Pad(width - 1, padc)) + [Digit(num % base)]
  {
    if num < base {
      DivMod(num, base);
      assert num % base == num && Digits(num, base) == [Digit(num % base)];
    } else {
      PaddedMore(num, num / base, base, width, padc, Digit(num % base));
    }
  }

  lemma PaddedMore(num: nat, most: nat, base: nat, width: int, padc: char, last: char)
    requires 2 <= base <= 16 && Digits(num, base) == Digits(most, base) + [last]
    ensures Padded(num, base, width, padc) == Padded(most, base, width - 1, padc) + [last]
  {
    var pad := Pad(width - 1 - |Digits(most, base)|, padc);
    assert pad + (Digits(most, base) + [last]) == (pad + Digits(most, base)) + [last];
  }

  // Where characters go: `putch` and its argument.
  class Output {
    var text: string

    constructor ()
      ensures text == ""
    {
      text := "";
    }

    method Putch(ch: char)
      modifies this
      ensures text == old(text) + [ch]
    {
      text := text + [ch];
    }
  }

  // The field width shrinks with each digit still to come, and the padding is printed
  // at the first digit.
  method Printnum(out: Output, num: nat, base: nat, width: int, padc: char)
    requires 2 <= base <= 16
    modifies out
    ensures out.text == old(out.text) + Padded(num, base, width, padc)
    decreases num
  {
    DivMod(num, base);
    PaddedStep(num, base, width, padc);
    if num >= base {
      Printnum(out, num / base, base, width - 1, padc);
    } else {
      PrintPad(out, width, padc);
    }
    out.Putch(Digit(num % base));
  }

  // `while (--width > 0) putch(padc, putdat);`
  method PrintPad(out: Output, width0: int, padc: char)
    modifies out
    ensures out.text == old(out.text) + Pad(width0 - 1, padc)
  {
    var width := width0 - 1;
    ghost var n := 0;
    while width > 0
      invariant n == width0 - 1 - width && out.text == old(out.text) + Pad(n, padc)
      invariant width >= 0 || n == 0
    {
      out.Putch(padc);
      n := n + 1;
      assert Pad(n, padc) == Pad(n - 1, padc) + [padc];
      width := width - 1;
    }
  }

  // ---- parsing -------------------------------------------------------------------

  // A C string: past its end there is only the terminator.
  function CharAt(s: string, i: nat): char {
    if i < |s| then s[i] else '\0'
  }

  function DigitValue(c: char): int {
    if '0' <= c <= '9' then c as int - '0' as int
    else if 'a' <= c <= 'z' then c as int - 'a' as int + 10
    else if 'A' <= c <= 'Z' then c as int - 'A' as int + 10
    else -1
  }

  // A 32-bit signed result.
  function Long(x: int): (r: int)
    ensures -LONG_MAX - 1 <= r <= LONG_MAX && (r - x) % 0x1_0000_0000 == 0
  {
    (x + 0x8000_0000) % 0x1_0000_0000 - 0x8000_0000
  }

  predicate Blank(c: char) {
    c == ' ' || c == '\t'
  }

  function SkipBlanks(s: string, i: nat): (j: nat)
    ensures j >= i
    decreases |s| - i
  {
    if i < |s| && Blank(s[i]) then SkipBlanks(s, i + 1) else i
  }

  // The digit loop from position `i` on: the value and where it stops.
  function ReadDigits(s: string, i: nat, base: int, val: int): (int, nat)
    decreases |s| - i
  {
    if i < |s| && 0 <= DigitValue(s[i]) < base then ReadDigits(s, i + 1, base, Long(val * base + DigitValue(s[i])))
    else (val, i)
  }

  function Parsed(s: string, base: nat): (int, nat)
  {
    var i := SkipBlanks(s, 0);
    var neg := CharAt(s, i) == '-';
    var j := if neg || CharAt(s, i) == '+' then i + 1 else i;
    var prefix := (base == 0 || base == 16) && CharAt(s, j) == '0' && CharAt(s, j + 1) == 'x';
    var k := if prefix then j + 2 else if base == 0 && CharAt(s, j) == '0' then j + 1 else j;
    var b := if prefix then 16 else if base == 0 && CharAt(s, j) == '0' then 8 else if base == 0 then 10 else base;
    var (val, end) := ReadDigits(s, k, b, 0);
    (if neg then Long(-val) else val, end)
  }

  method Strtol(s: string, base0: nat) returns (r: int, end: nat)
    requires '\0' !in s
    ensures (r, end) == Parsed(s, base0)
    ensures forall num: nat, width: nat, padc :: Printed(s, num, base0, width, padc) ==> r == num && end == |s|
  {
    ParsesPrinted(s, base0);
    var neg, base := false, base0;
    var val: int;
    var p := 0;
    while CharAt(s, p) == ' ' || CharAt(s, p) == '\t'
      invariant SkipBlanks(s, p) == SkipBlanks(s, 0)
      decreases |s| - p
    {
      p := p + 1;
    }
    if CharAt(s, p) == '+' {
      p := p + 1;
    } else if CharAt(s, p) == '-' {
      p := p + 1;
      neg := true;
    }
    if (base == 0 || base == 16) && CharAt(s, p) == '0' && CharAt(s, p + 1) == 'x' {
      p := p + 2;
      base := 16;
    } else if base == 0 && CharAt(s, p) == '0' {
      p := p + 1;
      base := 8;
    } else if base == 0 {
      base := 10;
    }
    val, end := ReadNumber(s, p, base);
    r := if neg then Long(-val) else val;
  }

  // strtol's digit loop
  method ReadNumber(s: string, start: nat, base: int) returns (val: int, end: nat)
    requires '\0' !in s
    ensures (val, end) == ReadDigits(s, start, base, 0)
  {
    var p := start;
    val := 0;
    while true
      invariant ReadDigits(s, p, base, val) == ReadDigits(s, start, base, 0)
      decreases |s| - p
    {
      var dig := DigitValue(CharAt(s, p));
      if dig < 0 || dig >= base {
        break;
      }
      p := p + 1;
      val := Long(val * base + dig);
    }
    end := p;
  }

  // ---- printing and parsing are inverse -------------------------------------------

  // Every digit printed is one the parser takes, and none is a blank, a sign or an x.
  lemma {:induction false} DigitsAreDigits(num: nat, base: nat, i: nat)
    requires 2 <= base <= 16 && i < |Digits(num, base)|
    ensures 0 <= DigitValue(Digits(num, base)[i]) < base
    ensures Digits(num, base)[i] != 'x' && !Blank(Digits(num, base)[i])
    ensures Digits(num, base)[i] != '+' && Digits(num, base)[i] != '-'
    decreases num
  {
    DivMod(num, base);
    DigitTable(num % base);
    if num >= base && i < |Digits(num / base, base)| {
      DigitsAreDigits(num / base, base, i);
    }
  }

  lemma DigitTable(d: nat)
    requires d < 16
    ensures DigitValue(Digit(d)) == d && Digit(d) != 'x' && !Blank(Digit(d)) && Digit(d) != '+' && Digit(d) != '-'
  {
    assert Digit(d) == "0123456789abcdef"[d];
  }

  // One more digit at the end of what was read to its end.
  lemma {:induction false} ReadOneMore(s: string, c: char, i: nat, base: int, val: int)
    requires i <= |s| && ReadDigits(s, i, base, val).1 == |s| && 0 <= DigitValue(c) < base
    ensures ReadDigits(s + [c], i, base, val) == (Long(ReadDigits(s, i, base, val).0 * base + DigitValue(c)), |s| + 1)
    decreases |s| - i
  {
    if i < |s| {
      assert (s + [c])[i] == s[i];
      if 0 <= DigitValue(s[i]) < base {
        ReadOneMore(s, c, i + 1, base, Long(val * base + DigitValue(s[i])));
      }
    } else {
      assert (s + [c])[i] == c;
      assert ReadDigits(s + [c], i + 1, base, Long(val * base + DigitValue(c))).1 == |s| + 1;
    }
  }

  lemma {:induction false} ReadsBack(pre: string, num: nat, base: nat)
    requires 2 <= base <= 16 && num <= LONG_MAX
    ensures ReadDigits(pre + Digits(num, base), |pre|, base, 0) == (num, |pre| + |Digits(num, base)|)
    decreases num
  {
    if num < base {
      ReadsOne(pre, num, base);
    } else {
      var q, d := num / base, num % base;
      DivMod(num, base);
      DigitTable(d);
      ReadsBack(pre, q, base);
      ReadOneMore(pre + Digits(q, base), Digit(d), |pre|, base, 0);
      assert q * base + d == num;
      LongKeeps(num);
      assert Digits(num, base) == Digits(q, base) + [Digit(d)];
      assert pre + Digits(num, base) == pre + Digits(q, base) + [Digit(d)];
    }
  }

  lemma ReadsOne(pre: string, num: nat, base: nat)
    requires 2 <= base <= 16 && num < base
    ensures ReadDigits(pre + Digits(num, base), |pre|, base, 0) == (num, |pre| + |Digits(num, base)|)
  {
    DigitTable(num);
    LongKeeps(num);
    assert ReadDigits(pre, |pre|, base, 0) == (0, |pre|);
    ReadOneMore(pre, Digit(num), |pre|, base, 0);
  }

  lemma LongKeeps(x: int)
    requires -LONG_MAX - 1 <= x <= LONG_MAX
    ensures Long(x) == x
  {}

  // Leading zeros do not change the value.
  lemma {:induction false} ReadZeros(n: nat, t: string, i: nat, base: nat)
    requires i <= n && base >= 2
    ensures ReadDigits(Pad(n, '0') + t, i, base, 0) == ReadDigits(Pad(n, '0') + t, n, base, 0)
    decreases n - i
  {
    if i < n {
      assert (Pad(n, '0') + t)[i] == '0';
      ReadZeros(n, t, i + 1, base);
    }
  }

  lemma {:induction false} SkipsPad(n: nat, t: string, i: nat)
    requires i <= n && |t| > 0 && !Blank(t[0])
    ensures SkipBlanks(Pad(n, ' ') + t, i) == n
    decreases n - i
  {
    var s := Pad(n, ' ') + t;
    if i < n {
      assert s[i] == ' ';
      SkipsPad(n, t, i + 1);
    } else {
      assert s[n] == t[0];
    }
  }

  lemma NoPrefix(num: nat, base: nat, n: nat, padc: char)
    requires 2 <= base <= 16 && padc != 'x'
    ensures forall j :: 0 <= j < n + |Digits(num, base)| ==> (Pad(n, padc) + Digits(num, base))[j] != 'x'
  {
    forall j | 0 <= j < n + |Digits(num, base)| ensures (Pad(n, padc) + Digits(num, base))[j] != 'x' {
      if j >= n {
        DigitsAreDigits(num, base, j - n);
      }
    }
  }

  // Any number a long can hold, printed in base 8, 10 or 16 with any width, and
  // padded with blanks or zeros, is read back whole.
  lemma PrintThenParse(num: nat, base: nat, width: int, padc: char)
    requires base in {8, 10, 16} && num <= LONG_MAX && (padc == ' ' || padc == '0')
    ensures Parsed(Padded(num, base, width, padc), base) == (num, |Padded(num, base, width, padc)|)
  {
    var digits := Digits(num, base);
    var n := if width > |digits| then width - |digits| else 0;
    var pre := Pad(n, padc);
    var s := pre + digits;
    assert s == Padded(num, base, width, padc);
    DigitsAreDigits(num, base, 0);
    ReadsBack(pre, num, base);
    NoPrefix(num, base, n, padc);
    if padc == ' ' {
      SkipsPad(n, digits, 0);
      assert s[n] == digits[0];
    } else {
      assert s[0] == (if n > 0 then '0' else digits[0]);
      ReadZeros(n, digits, 0, base);
    }
  }

  // ---- signs, prefixes and what follows the number ----------------------------------

  // A number written in base `b` with this prefix may be parsed with base `base0`.
  predicate Form(base0: nat, b: nat, prefix: string, num: nat) {
    && 2 <= b <= 16
    && (|| (prefix == "" && b == base0)
        || (prefix == "" && base0 == 0 && b == 10 && num > 0)
        || (prefix == "0" && base0 == 0 && b == 8)
        || (prefix == "0x" && (base0 == 0 || base0 == 16) && b == 16))
  }

  // What may follow: nothing, or a character that cannot belong to the number.
  predicate Ends(rest: string, b: nat) {
    rest == "" || (!(0 <= DigitValue(rest[0]) < b) && rest[0] != 'x')
  }

  // Letters are digits from 10 up in either case.
  lemma LowerValue(d: nat)
    requires d < 36
    ensures DigitValue("0123456789abcdefghijklmnopqrstuvwxyz"[d]) == d
  {
    assert "0123456789abcdefghijklmnopqrstuvwxyz"[d] as int == if d < 10 then 48 + d else 87 + d;
  }

  lemma UpperValue(d: nat)
    requires d < 26
    ensures DigitValue("ABCDEFGHIJKLMNOPQRSTUVWXYZ"[d]) == d + 10
  {
    assert "ABCDEFGHIJKLMNOPQRSTUVWXYZ"[d] as int == 65 + d;
  }

  lemma {:induction false} FirstDigit(num: nat, base: nat)
    requires 2 <= base <= 16 && num > 0
    ensures Digits(num, base)[0] != '0'
    decreases num
  {
    DivMod(num, base);
    if num >= base {
      assert num / base > 0;
      FirstDigit(num / base, base);
    } else {
      assert Digit(num) == "0123456789abcdef"[num];
    }
  }

  lemma {:induction false} SkipsBlanks(pre: string, t: string, i: nat)
    requires i <= |pre| && (forall j :: 0 <= j < |pre| ==> Blank(pre[j])) && |t| > 0 && !Blank(t[0])
    ensures SkipBlanks(pre + t, i) == |pre|
    decreases |pre| - i
  {
    if i < |pre| {
      assert (pre + t)[i] == pre[i];
      SkipsBlanks(pre, t, i + 1);
    } else {
      assert (pre + t)[i] == t[0];
    }
  }

  // The digit loop does not look past the number.
  lemma {:induction false} StopsAt(s: string, rest: string, i: nat, base: int, val: int)
    requires i <= |s| && (rest == "" || !(0 <= DigitValue(rest[0]) < base))
    ensures ReadDigits(s + rest, i, base, val) == ReadDigits(s, i, base, val)
    decreases |s| - i
  {
    if i < |s| {
      assert (s + rest)[i] == s[i];
      if 0 <= DigitValue(s[i]) < base {
        StopsAt(s, rest, i + 1, base, Long(val * base + DigitValue(s[i])));
      }
    } else if rest != "" {
      assert (s + rest)[i] == rest[0];
    }
  }

  // The number itself, and what the parser sees of it when it looks for a prefix.
  lemma NumberReads(pre: string, num: nat, b: nat, rest: string)
    requires 2 <= b <= 16 && num <= LONG_MAX && Ends(rest, b)
    ensures var s := pre + Digits(num, b) + rest;
            && ReadDigits(s, |pre|, b, 0) == (num, |pre| + |Digits(num, b)|)
            && CharAt(s, |pre|) == Digits(num, b)[0] && CharAt(s, |pre|) != 'x' && CharAt(s, |pre| + 1) != 'x'
            && !Blank(CharAt(s, |pre|)) && CharAt(s, |pre|) != '+' && CharAt(s, |pre|) != '-'
  {
    var s, digits := pre + Digits(num, b) + rest, Digits(num, b);
    ReadsBack(pre, num, b);
    StopsAt(pre + digits, rest, |pre|, b, 0);
    DigitsAreDigits(num, b, 0);
    if |digits| > 1 {
      DigitsAreDigits(num, b, 1);
      assert s[|pre| + 1] == digits[1];
    } else if rest != "" {
      assert s[|pre| + 1] == rest[0];
    }
  }

  // The branches strtol takes, from the characters it looks at.
  lemma ParsedAt(s: string, base0: nat, b: nat, sign: string, prefix: string, i: nat, j: nat, k: nat, num: nat, end: nat)
    requires SkipBlanks(s, 0) == i && j == i + |sign| && k == j + |prefix|
    requires if sign == "" then CharAt(s, i) != '-' && CharAt(s, i) != '+' else sign == [CharAt(s, i)] && CharAt(s, i) in "+-"
    requires if prefix == "" then CharAt(s, j + 1) != 'x' && (base0 == 0 ==> CharAt(s, j) != '0')
             else CharAt(s, j) == '0' && (prefix == "0x" <==> CharAt(s, j + 1) == 'x')
    requires Form(base0, b, prefix, num) && ReadDigits(s, k, b, 0) == (num, end)
    ensures Parsed(s, base0) == (if sign == "-" then Long(-(num as int)) else num as int, end)
  {}

  // Any such number, after any blanks and with or without a sign, is read back whole,
  // and `end` is where it ends.
  lemma SignedThenParse(blanks: string, sign: string, prefix: string, num: nat, rest: string, base0: nat, b: nat)
    requires (forall j :: 0 <= j < |blanks| ==> Blank(blanks[j])) && sign in {"", "+", "-"}
    requires Form(base0, b, prefix, num) && num <= LONG_MAX && Ends(rest, b)
    ensures Parsed(blanks + sign + prefix + Digits(num, b) + rest, base0) ==
            (if sign == "-" then -(num as int) else num as int, |blanks| + |sign| + |prefix| + |Digits(num, b)|)
  {
    var pre, digits := blanks + sign + prefix, Digits(num, b);
    var s := pre + digits + rest;
    NumberReads(pre, num, b, rest);
    BlanksSkipped(s, blanks, sign, prefix, digits, rest);
    CharsAre(blanks, sign, prefix, digits, rest);
    FormParses(s, base0, b, sign, prefix, |blanks|, |blanks + sign|, |pre|, num, |pre| + |digits|);
    NegKeeps(num);
  }

  lemma FormParses(s: string, base0: nat, b: nat, sign: string, prefix: string, i: nat, j: nat, k: nat, num: nat, end: nat)
    requires SkipBlanks(s, 0) == i && j == i + |sign| && k == j + |prefix| && sign in {"", "+", "-"}
    requires Form(base0, b, prefix, num) && ReadDigits(s, k, b, 0) == (num, end)
    requires CharAt(s, k) == Digits(num, b)[0] && CharAt(s, k) != 'x' && CharAt(s, k + 1) != 'x'
    requires CharAt(s, k) != '+' && CharAt(s, k) != '-'
    requires CharAt(s, i) == if sign != "" then sign[0] else if prefix != "" then '0' else CharAt(s, k)
    requires prefix != "" ==> CharAt(s, j) == '0'
    requires prefix != "" ==> CharAt(s, j + 1) == if prefix == "0x" then 'x' else CharAt(s, k)
    ensures Parsed(s, base0) == (if sign == "-" then Long(-(num as int)) else num as int, end)
  {
    if num > 0 {
      FirstDigit(num, b);
    }
    ParsedAt(s, base0, b, sign, prefix, i, j, k, num, end);
  }

  lemma NegKeeps(num: nat)
    requires num <= LONG_MAX
    ensures Long(-(num as int)) == -(num as int)
  {}

  lemma CharsAre(blanks: string, sign: string, prefix: string, digits: string, rest: string)
    requires sign in {"", "+", "-"} && prefix in {"", "0", "0x"} && digits != ""
    ensures var s := blanks + sign + prefix + digits + rest;
            && CharAt(s, |blanks|) == (if sign != "" then sign[0] else if prefix != "" then '0' else digits[0])
            && CharAt(s, |blanks + sign|) == (if prefix != "" then '0' else digits[0])
            && (prefix != "" ==> CharAt(s, |blanks + sign| + 1) == if prefix == "0x" then 'x' else digits[0])
  {}

  lemma BlanksSkipped(s: string, blanks: string, sign: string, prefix: string, digits: string, rest: string)
    requires s == blanks + sign + prefix + digits + rest && forall j :: 0 <= j < |blanks| ==> Blank(blanks[j])
    requires sign in {"", "+", "-"} && prefix in {"", "0", "0x"} && digits != "" && !Blank(digits[0])
    ensures SkipBlanks(s, 0) == |blanks|
  {
    var body := sign + prefix + digits + rest;
    HeadIs(sign, prefix, digits, rest);
    assert s == blanks + body;
    SkipsBlanks(blanks, body, 0);
  }

  lemma HeadIs(sign: string, prefix: string, digits: string, rest: string)
    requires sign in {"", "+", "-"} && prefix in {"", "0", "0x"} && digits != "" && !Blank(digits[0])
    ensures !Blank((sign + prefix + digits + rest)[0])
  {}

  // `s` is a number a long can hold as printnum prints it.
  ghost predicate Printed(s: string, num: nat, base: nat, width: nat, padc: char) {
    base in {8, 10, 16} && num <= LONG_MAX && (padc == ' ' || padc == '0') && s == Padded(num, base, width, padc)
  }

  lemma ParsesPrinted(s: string, base: nat)
    ensures forall num: nat, width: nat, padc :: Printed(s, num, base, width, padc) ==> Parsed(s, base) == (num, |s|)
  {
    forall num: nat, width: nat, padc | Printed(s, num, base, width, padc) ensures Parsed(s, base) == (num, |s|) {
      PrintThenParse(num, base, width, padc);
    }
  }

  // ---- vsnprintf -----------------------------------------------------------------------

  // struct sprintbuf over an array: `pos` is buf and `end` is ebuf.
  class Sprintbuf {
    const buf: array<char>
    var pos: nat
    const end: nat
    var cnt: nat

    constructor (buf: array<char>, end: nat)
      ensures this.buf == buf && pos == 0 && this.end == end && cnt == 0
    {
      this.buf := buf;
      this.end := end;
      pos := 0;
      cnt := 0;
    }

    method Sprintputch(ch: char)
      requires pos <= end && end < buf.Length
      modifies `pos, `cnt, buf
      ensures cnt == old(cnt) + 1
      ensures pos == if old(pos) < end then old(pos) + 1 else old(pos)
      ensures buf[..] == if old(pos) < end then old(buf[..])[old(pos) := ch] else old(buf[..])
    {
      cnt := cnt + 1;
      if pos < end {
        buf[pos] := ch;
        pos := pos + 1;
      }
    }
  }

  lemma StoredOneMore(out: string, was: string, p: nat)
    requires p < |out| && p < |was|
    ensures (out[..p] + was[p..])[p := out[p]] == out[..p + 1] + was[p + 1..]
  {}

  // `out` is everything vprintfmt passes to putch.  The buffer gets as much of it as
  // fits before the terminator; the result is its full length.
  method Vsnprintf(buf: array?<char>, n: int, out: string) returns (r: int)
    requires buf != null ==> n <= buf.Length
    modifies if buf == null then {} else {buf}
    ensures r == if buf == null || n < 1 then -E_INVAL else |out|
    ensures buf != null && n < 1 ==> buf[..] == old(buf[..])
    ensures buf != null && n >= 1 ==>
              var k := if |out| < n then |out| else n - 1;
              buf[..k] == out[..k] && buf[k] == '\0' && buf[k + 1..] == old(buf[k + 1..])
  {
    if buf == null || n < 1 {
      return -E_INVAL;
    }
    var b := new Sprintbuf(buf, n - 1);
    ghost var was := buf[..];
    var i := 0;
    while i < |out|
      invariant 0 <= i <= |out| && b.cnt == i && b.pos == (if i < n then i else n - 1)
      invariant buf[..] == out[..b.pos] + was[b.pos..]
    {
      if b.pos < n - 1 {
        StoredOneMore(out, was, b.pos);
      }
      b.Sprintputch(out[i]);
      i := i + 1;
    }
    buf[b.pos] := '\0';
    r := b.cnt;
  }
}
