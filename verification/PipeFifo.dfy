// The pipe's ring buffer (lib/pipe.c): first as one reader and one writer racing at
// single loads and stores of the shared page, then as the loops of devpipe_read and
// devpipe_write run without interruption.
module PipeFifo {

  const PIPEBUFSIZ := 32

  type Byte = bv8

  // Where devpipe_read's loop body stands: the loads of the emptiness test, in
  // either order, then `buf[i] = p_buf[p_rpos % PIPEBUFSIZ]`, then `p_rpos++`.
  datatype Reader =
    | RTest
    | RHaveR(r: nat)
    | RHaveW(w: nat)
    | RIndex
    | RTake(r: nat)
    | RLoad
    | RStore(r: nat)

  // The same for devpipe_write; from WCommit on, byte `b` is in the buffer.
  datatype Writer =
    | WTest
    | WHaveW(w: nat)
    | WHaveR(r: nat)
    | WIndex
    | WPut(w: nat)
    | WLoad(b: Byte)
    | WStore(w: nat, b: Byte)

  // `delivered` is what the reader has copied out so far and `sent` what the writer
  // has made available; neither is stored by the program.
  datatype State = State(rpos: nat, wpos: nat, buf: seq<Byte>, reader: Reader, writer: Writer,
                         delivered: seq<Byte>, sent: seq<Byte>)

  // One load or store by one side.  `flip` picks the operand a test loads first, and
  // `b` is the next byte the writer was asked to write.
  datatype Action = ReaderStep(flip: bool) | WriterStep(flip: bool, b: Byte)

  ghost predicate Shape(s: State) {
    |s.buf| == PIPEBUFSIZ
  }

  ghost function ReaderNext(s: State, flip: bool): State
    requires Shape(s)
  {
    match s.reader
    case RTest => s.(reader := if flip then RHaveW(s.wpos) else RHaveR(s.rpos))
    case RHaveR(r) => s.(reader := if r == s.wpos then RTest else RIndex)
    case RHaveW(w) => s.(reader := if s.rpos == w then RTest else RIndex)
    case RIndex => s.(reader := RTake(s.rpos))
    case RTake(r) => s.(reader := RLoad, delivered := s.delivered + [s.buf[r % PIPEBUFSIZ]])
    case RLoad => s.(reader := RStore(s.rpos))
    case RStore(r) => s.(reader := RTest, rpos := r + 1)
  }

  ghost function WriterNext(s: State, flip: bool, b: Byte): State
    requires Shape(s)
  {
    match s.writer
    case WTest => s.(writer := if flip then WHaveR(s.rpos) else WHaveW(s.wpos))
    case WHaveW(w) => s.(writer := if w >= s.rpos + PIPEBUFSIZ then WTest else WIndex)
    case WHaveR(r) => s.(writer := if s.wpos >= r + PIPEBUFSIZ then WTest else WIndex)
    case WIndex => s.(writer := WPut(s.wpos))
    case WPut(w) => s.(writer := WLoad(b), buf := s.buf[w % PIPEBUFSIZ := b])
    case WLoad(c) => s.(writer := WStore(s.wpos, c))
    case WStore(w, c) => s.(writer := WTest, wpos := w + 1, sent := s.sent + [c])
  }

  ghost function Next(s: State, a: Action): State
    requires Shape(s)
  {
    match a
    case ReaderStep(flip) => ReaderNext(s, flip)
    case WriterStep(flip, b) => WriterNext(s, flip, b)
  }

  // Unread bytes sit in the buffer, at most a buffer full, and everything delivered
  // is the beginning of what was sent.
  ghost predicate Inv(s: State) {
    && Shape(s)
    && s.rpos <= s.wpos <= s.rpos + PIPEBUFSIZ && |s.sent| == s.wpos
    && (forall i {:trigger s.sent[i]} :: s.rpos <= i < s.wpos ==> s.buf[i % PIPEBUFSIZ] == s.sent[i])
    && ReaderOk(s) && WriterOk(s)
  }

  ghost predicate ReaderOk(s: State)
    requires |s.sent| == s.wpos && s.rpos <= s.wpos
  {
    match s.reader
    case RTest => s.delivered == s.sent[..s.rpos]
    case RHaveR(r) => s.delivered == s.sent[..s.rpos] && r == s.rpos
    case RHaveW(w) => s.delivered == s.sent[..s.rpos] && s.rpos <= w <= s.wpos
    case RIndex => s.delivered == s.sent[..s.rpos] && s.rpos < s.wpos
    case RTake(r) => s.delivered == s.sent[..s.rpos] && r == s.rpos < s.wpos
    case RLoad => s.rpos < s.wpos && s.delivered == s.sent[..s.rpos + 1]
    case RStore(r) => r == s.rpos < s.wpos && s.delivered == s.sent[..s.rpos + 1]
  }

  ghost predicate WriterOk(s: State)
    requires Shape(s)
  {
    match s.writer
    case WTest => true
    case WHaveW(w) => w == s.wpos
    case WHaveR(r) => r <= s.rpos
    case WIndex => s.wpos < s.rpos + PIPEBUFSIZ
    case WPut(w) => w == s.wpos < s.rpos + PIPEBUFSIZ
    case WLoad(b) => s.wpos < s.rpos + PIPEBUFSIZ && s.buf[s.wpos % PIPEBUFSIZ] == b
    case WStore(w, b) => w == s.wpos < s.rpos + PIPEBUFSIZ && s.buf[s.wpos % PIPEBUFSIZ] == b
  }

  lemma ReaderKeepsInv(s: State, flip: bool)
    requires Inv(s)
    ensures Inv(ReaderNext(s, flip))
  {
    if s.reader.RTake? {
      assert s.sent[..s.rpos + 1] == s.sent[..s.rpos] + [s.sent[s.rpos]];
    }
  }

  lemma WriterKeepsInv(s: State, flip: bool, b: Byte)
    requires Inv(s)
    ensures Inv(WriterNext(s, flip, b))
  {
    if s.writer.WPut? {
      PutKeepsInv(s, flip, b);
    } else if s.writer.WStore? {
      StoreKeepsInv(s, flip, b);
    }
  }

  lemma PutKeepsInv(s: State, flip: bool, b: Byte)
    requires Inv(s) && s.writer.WPut?
    ensures Inv(WriterNext(s, flip, b))
  {
    forall i | s.rpos <= i < s.wpos ensures i % PIPEBUFSIZ != s.wpos % PIPEBUFSIZ {
      DistinctSlots(i, s.wpos);
    }
  }

  lemma StoreKeepsInv(s: State, flip: bool, b: Byte)
    requires Inv(s) && s.writer.WStore?
    ensures Inv(WriterNext(s, flip, b))
  {
    var s' := WriterNext(s, flip, b);
    assert s'.sent[..s.rpos] == s.sent[..s.rpos];
    assert s.rpos < s.wpos ==> s'.sent[..s.rpos + 1] == s.sent[..s.rpos + 1];
  }

  lemma DistinctSlots(i: nat, w: nat)
    requires i < w < i + PIPEBUFSIZ
    ensures i % PIPEBUFSIZ != w % PIPEBUFSIZ
  {}

  ghost predicate Run(ss: seq<State>, acts: seq<Action>) {
    |ss| == |acts| + 1 && forall i :: 0 <= i < |acts| ==> Shape(ss[i]) && ss[i + 1] == Next(ss[i], acts[i])
  }

  ghost predicate Empty(s: State) {
    Shape(s) && s.rpos == 0 && s.wpos == 0 && s.reader == RTest && s.writer == WTest && s.delivered == [] && s.sent == []
  }

  lemma {:induction false} RunKeepsInv(ss: seq<State>, acts: seq<Action>, i: nat)
    requires Run(ss, acts) && Empty(ss[0]) && i <= |acts|
    ensures Inv(ss[i])
  {
    if i > 0 {
      RunKeepsInv(ss, acts, i - 1);
      match acts[i - 1]
      case ReaderStep(flip) => ReaderKeepsInv(ss[i - 1], flip);
      case WriterStep(flip, b) => WriterKeepsInv(ss[i - 1], flip, b);
    }
  }

  // In any interleaving the bytes delivered are a prefix of the bytes sent, in order,
  // and no more than a buffer full is ever outstanding.
  lemma DeliversInOrder(ss: seq<State>, acts: seq<Action>, i: nat)
    requires Run(ss, acts) && Empty(ss[0]) && i <= |acts|
    ensures ss[i].delivered <= ss[i].sent && |ss[i].sent| <= |ss[i].delivered| + 32
    ensures ss[i].rpos <= ss[i].wpos <= ss[i].rpos + 32
  {
    RunKeepsInv(ss, acts, i);
  }

  // No store ever lands on a byte that was sent and not yet delivered.
  lemma NeverOverwrites(ss: seq<State>, acts: seq<Action>, i: nat, n: nat)
    requires Run(ss, acts) && Empty(ss[0]) && i < |acts| && |ss[i].delivered| <= n < |ss[i].sent|
    ensures ss[i + 1].buf[n % PIPEBUFSIZ] == ss[i].buf[n % PIPEBUFSIZ] == ss[i].sent[n]
  {
    RunKeepsInv(ss, acts, i);
    RunKeepsInv(ss, acts, i + 1);
    assert ss[i + 1].sent[n] == ss[i].sent[n];
    if ss[i].writer.WPut? {
      DistinctSlots(n, ss[i].wpos);
    }
  }

  // ---- what a whole round does -------------------------------------------------------

  ghost function ReaderSteps(s: State, flip: bool, n: nat): (s': State)
    requires Shape(s)
    ensures Shape(s')
  {
    if n == 0 then s else ReaderNext(ReaderSteps(s, flip, n - 1), flip)
  }

  ghost function WriterSteps(s: State, flip: bool, b: Byte, n: nat): (s': State)
    requires Shape(s)
    ensures Shape(s')
  {
    if n == 0 then s else WriterNext(WriterSteps(s, flip, b, n - 1), flip, b)
  }

  // When the writer's test goes back to waiting the buffer is full, or was when it
  // loaded the read position; the reader's, empty, or was when it loaded the write
  // position.
  lemma WaitsIff(s: State, flip: bool, b: Byte)
    requires Inv(s)
    ensures s.writer.WHaveW? ==> (WriterNext(s, flip, b).writer == WTest <==> |s.sent| == s.rpos + 32)
    ensures s.writer.WHaveR? ==> (WriterNext(s, flip, b).writer == WTest <==> |s.sent| >= s.writer.r + 32)
    ensures s.reader.RHaveR? ==> (ReaderNext(s, flip).reader == RTest <==> |s.delivered| == |s.sent|)
    ensures s.reader.RHaveW? ==> (ReaderNext(s, flip).reader == RTest <==> |s.delivered| == s.reader.w)
  {}

  // From its test on, with the other side at rest, the writer sends the byte when there
  // is room, and otherwise is back at its test with nothing changed.
  lemma WriterRound(s: State, flip: bool, b: Byte)
    requires Inv(s) && s.writer == WTest
    ensures if |s.sent| < s.rpos + 32 then
              var s' := WriterSteps(s, flip, b, 6);
              s'.writer == WTest && s'.sent == s.sent + [b] && s'.rpos == s.rpos && s'.delivered == s.delivered
            else WriterSteps(s, flip, b, 2) == s
  {
    var s1 := WriterNext(s, flip, b);
    var s2 := WriterNext(s1, flip, b);
    assert WriterSteps(s, flip, b, 1) == s1 && WriterSteps(s, flip, b, 2) == s2;
    if |s.sent| < s.rpos + 32 {
      var s4 := WriterNext(WriterNext(s2, flip, b), flip, b);
      assert WriterSteps(s, flip, b, 3) == WriterNext(s2, flip, b) && WriterSteps(s, flip, b, 4) == s4;
      assert WriterSteps(s, flip, b, 5) == WriterNext(s4, flip, b);
    }
  }

  // And the reader delivers the oldest byte when there is one.
  lemma ReaderRound(s: State, flip: bool)
    requires Inv(s) && s.reader == RTest
    ensures if s.rpos < |s.sent| then
              var s' := ReaderSteps(s, flip, 6);
              s'.reader == RTest && s'.delivered == s.delivered + [s.sent[s.rpos]] && s'.rpos == s.rpos + 1 && s'.sent == s.sent
            else ReaderSteps(s, flip, 2) == s
  {
    var s1 := ReaderNext(s, flip);
    var s2 := ReaderNext(s1, flip);
    assert ReaderSteps(s, flip, 1) == s1 && ReaderSteps(s, flip, 2) == s2;
    if s.rpos < |s.sent| {
      var s4 := ReaderNext(ReaderNext(s2, flip), flip);
      assert ReaderSteps(s, flip, 3) == ReaderNext(s2, flip) && ReaderSteps(s, flip, 4) == s4;
      assert ReaderSteps(s, flip, 5) == ReaderNext(s4, flip);
    }
  }

  // ---- the loops, uninterrupted -----------------------------------------------------

  class Pipe {
    var rpos: nat
    var wpos: nat
    const buf: array<Byte>

    ghost predicate Valid()
      reads this, buf
    {
      buf.Length == PIPEBUFSIZ && rpos <= wpos <= rpos + PIPEBUFSIZ
    }

    // The bytes waiting to be read, oldest first.
    ghost function Contents(): (s: seq<Byte>)
      requires Valid()
      reads this, buf
    {
      seq(wpos - rpos, i requires 0 <= i && buf.Length == PIPEBUFSIZ reads this, buf => buf[(rpos + i) % PIPEBUFSIZ])
    }

    // devpipe_read until it returns, or would have to wait for a writer (got == []).
    method Read(n: nat) returns (got: seq<Byte>)
      requires Valid()
      modifies `rpos
      ensures Valid()
      ensures |got| == (if n <= |old(Contents())| then n else |old(Contents())|)
      ensures got + Contents() == old(Contents())
    {
      got := [];
      var i := 0;
      while i < n
        invariant 0 <= i <= n && |got| == i && Valid() && i <= |old(Contents())|
        invariant rpos == old(rpos) + i && got == old(Contents())[..i]
      {
        if rpos == wpos {
          break;
        }
        got := got + [buf[rpos % PIPEBUFSIZ]];
        rpos := rpos + 1;
        i := i + 1;
      }
      assert Contents() == old(Contents())[i..];
    }

    // devpipe_write until everything is written or the buffer is full.
    method Write(data: seq<Byte>) returns (n: nat)
      requires Valid()
      modifies `wpos, buf
      ensures Valid() && rpos == old(rpos)
      ensures n == if |old(Contents())| + |data| <= 32 then |data| else 32 - |old(Contents())|
      ensures Contents() == old(Contents()) + data[..n]
    {
      n := 0;
      while n < |data|
        invariant n <= |data| && Valid() && rpos == old(rpos) && wpos == old(wpos) + n
        invariant Contents() == old(Contents()) + data[..n]
      {
        if wpos >= rpos + PIPEBUFSIZ {
          break;
        }
        WriteByte(data[n]);
        assert data[..n + 1] == data[..n] + [data[n]];
        n := n + 1;
      }
    }

    // One round of that loop.
    method WriteByte(b: Byte)
      requires Valid() && wpos < rpos + PIPEBUFSIZ
      modifies `wpos, buf
      ensures Valid() && wpos == old(wpos) + 1 && Contents() == old(Contents()) + [b]
    {
      ghost var was := Contents();
      buf[wpos % PIPEBUFSIZ] := b;
      forall i | 0 <= i < |was| ensures buf[(rpos + i) % PIPEBUFSIZ] == was[i] {
        DistinctSlots(rpos + i, wpos);
      }
      wpos := wpos + 1;
    }
  }
}
