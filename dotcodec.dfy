/**
 * The dot-encoding of section 4.5.2 of RFC 5321 as decoded by `dotReader.Read`
 * (mail-textproto/reader.go): a byte-at-a-time state machine that drops the
 * stuffed leading dot, rewrites "\r\n" into "\n" and stops after the line
 * holding a lone dot. The input is the whole stream `data`; `pos` is how far
 * the underlying buffered reader has got.
 */
module DotCodec {
  import opened Bytes
  import opened Wrappers

  /** The states of `dotReader`; `Done` is the source's `stateEOF`. */
  datatype DotState = BeginLine | Dot | DotCr | Cr | Data | Done

  /** The two states whose byte may be pushed back with `UnreadByte`. */
  function Rank(st: DotState): nat {
    if st == DotCr || st == Cr then 1 else 0
  }

  /** Decreases with every pass of the loop, whether or not the byte is consumed. */
  function Measure(st: DotState, data: seq<byte>, pos: nat): nat
    requires pos <= |data|
  {
    2 * (|data| - pos) + Rank(st)
  }

  /** What one pass of the loop does: the next state, the byte written to `b` (if any), and whether the byte read stays consumed. */
  datatype Step = Step(next: DotState, emit: Option<byte>, consumed: bool)

  function StepOn(st: DotState, c: byte): Step
  {
    match st
    case BeginLine =>
      if c == DOT then Step(Dot, None, true)
      else if c == CR then Step(Cr, None, true)
      else Step(Data, Some(c), true)
    case Dot =>
      if c == CR then Step(DotCr, None, true)
      else if c == LF then Step(Done, None, true)
      else Step(Data, Some(c), true)
    case DotCr =>
      // not ".\r\n": the dot is dropped, the saved "\r" is written, c is read again
      if c == LF then Step(Done, None, true) else Step(Data, Some(CR), false)
    case Cr =>
      // not "\r\n": the saved "\r" is written, c is read again
      if c == LF then Step(BeginLine, Some(LF), true) else Step(Data, Some(CR), false)
    case Data =>
      if c == CR then Step(Cr, None, true)
      else if c == LF then Step(BeginLine, Some(LF), true)
      else Step(Data, Some(c), true)
    case Done => Step(Done, None, true)
  }

  /** The byte a step writes, as a sequence of length 0 or 1. */
  function Emitted(step: Step): seq<byte> {
    if step.emit.Some? then [step.emit.value] else []
  }

  /** The input bytes a step consumes: none when the byte is pushed back. */
  function Used(step: Step): nat {
    if step.consumed then 1 else 0
  }

  /** A pushed-back byte only ever leaves `DotCr` or `Cr` for `Data`, so the measure falls. */
  lemma StepShrinks(st: DotState, data: seq<byte>, pos: nat)
    requires st != Done && pos < |data|
    ensures var step := StepOn(st, data[pos]);
      Measure(step.next, data, pos + Used(step)) < Measure(st, data, pos) && |Emitted(step)| <= 1
  {
  }

  /** The outcome of one `Read`: bytes written, final state, input bytes consumed, error. */
  datatype Run = Run(out: seq<byte>, state: DotState, consumed: nat, err: Option<Error>)

  function Prepend(e: seq<byte>, n: nat, r: Run): Run {
    Run(e + r.out, r.state, n + r.consumed, r.err)
  }

  /**
   * `Read(b)` with `room == len(b)` in state `st`, the input read up to `pos`:
   * at most `room` bytes are written and no byte past the input is consumed.
   */
  function Read(st: DotState, data: seq<byte>, pos: nat, room: nat): (r: Run)
    requires pos <= |data|
    ensures |r.out| <= room && pos + r.consumed <= |data|
    decreases Measure(st, data, pos), 1
  {
    if st == Done then Run([], Done, 0, Some(EOF))
    else if room == 0 then Run([], st, 0, None)
    else if pos == |data| then Run([], st, 0, Some(UnexpectedEOF))
    else ReadByte(st, data, pos, room)
  }

  /** One pass of the loop on the byte at `pos`, then the rest of the call. */
  function ReadByte(st: DotState, data: seq<byte>, pos: nat, room: nat): (r: Run)
    requires st != Done && room > 0 && pos < |data|
    ensures |r.out| <= room && pos + r.consumed <= |data|
    decreases Measure(st, data, pos), 0
  {
    var step := StepOn(st, data[pos]);
    StepShrinks(st, data, pos);
    Prepend(Emitted(step), Used(step), Read(step.next, data, pos + Used(step), room - |Emitted(step)|))
  }

  /**
   * How a `Read` ends: with no error the buffer is full; `io.EOF` exactly when
   * the end line was consumed; `io.ErrUnexpectedEOF` only once the whole input is
   * consumed; no other error.
   */
  lemma {:induction false} ReadOutcome(st: DotState, data: seq<byte>, pos: nat, room: nat)
    requires pos <= |data|
    ensures var r := Read(st, data, pos, room);
      (r.err == None ==> |r.out| == room && r.state != Done) &&
      (r.err == Some(EOF) <==> r.state == Done) &&
      (r.err == Some(UnexpectedEOF) ==> pos + r.consumed == |data|) &&
      (r.err == None || r.err == Some(EOF) || r.err == Some(UnexpectedEOF))
    decreases Measure(st, data, pos)
  {
    if st != Done && room > 0 && pos < |data| {
      var e, q, next := Pass(st, data, pos, room);
      ReadOutcome(next, data, q, room - |e|);
    }
  }

  /** One pass of the loop, as an equation. */
  lemma Unfold(st: DotState, data: seq<byte>, pos: nat, room: nat)
    requires st != Done && room > 0 && pos < |data|
    ensures var step := StepOn(st, data[pos]);
      |Emitted(step)| <= room &&
      Read(st, data, pos, room)
        == Prepend(Emitted(step), Used(step), Read(step.next, data, pos + Used(step), room - |Emitted(step)|))
  {
    StepShrinks(st, data, pos);
  }

  /** What `closeDot` leaves behind: the input bytes it discards and the state it stops in. */
  datatype Drained = Drained(consumed: nat, state: DotState)

  /** `closeDot`: reading on until the end line, or the end of the input. */
  function Drain(st: DotState, data: seq<byte>, pos: nat): (d: Drained)
    requires pos <= |data|
    ensures pos + d.consumed <= |data|
    decreases Measure(st, data, pos), 1
  {
    if st == Done || pos == |data| then Drained(0, st) else DrainByte(st, data, pos)
  }

  function DrainByte(st: DotState, data: seq<byte>, pos: nat): (d: Drained)
    requires st != Done && pos < |data|
    ensures pos + d.consumed <= |data|
    decreases Measure(st, data, pos), 0
  {
    var step := StepOn(st, data[pos]);
    StepShrinks(st, data, pos);
    var rest := Drain(step.next, data, pos + Used(step));
    Drained(Used(step) + rest.consumed, rest.state)
  }

  /** One pass of the draining loop, as an equation. */
  lemma DrainUnfold(st: DotState, data: seq<byte>, pos: nat)
    requires st != Done && pos < |data|
    ensures var step := StepOn(st, data[pos]);
      var rest := Drain(step.next, data, pos + Used(step));
      Drain(st, data, pos) == Drained(Used(step) + rest.consumed, rest.state)
  {
    StepShrinks(st, data, pos);
  }

  /** A `Read` that fills its buffer leaves a smaller measure: `closeDot` terminates. */
  lemma {:induction false} ReadProgress(st: DotState, data: seq<byte>, pos: nat, room: nat)
    requires pos <= |data|
    ensures var r := Read(st, data, pos, room);
      Measure(r.state, data, pos + r.consumed) <= Measure(st, data, pos) &&
      (st != Done && room > 0 && pos < |data| ==> Measure(r.state, data, pos + r.consumed) < Measure(st, data, pos))
    decreases Measure(st, data, pos)
  {
    if st != Done && room > 0 && pos < |data| {
      var e, q, next := Pass(st, data, pos, room);
      ReadProgress(next, data, q, room - |e|);
    }
  }

  /** Draining after a partial `Read` discards the same bytes as draining at once. */
  lemma {:induction false} ReadThenDrain(st: DotState, data: seq<byte>, pos: nat, room: nat)
    requires pos <= |data|
    ensures var r := Read(st, data, pos, room);
      DrainsAfter(Drain(st, data, pos), r, Drain(r.state, data, pos + r.consumed))
    decreases Measure(st, data, pos)
  {
    if st != Done && room > 0 && pos < |data| {
      var e, q, next := Pass(st, data, pos, room);
      var inner := Read(next, data, q, room - |e|);
      ReadThenDrain(next, data, q, room - |e|);
      var rest := Drain(inner.state, data, q + inner.consumed);
      DrainCombine(Read(st, data, pos, room), inner, e, q - pos, Drain(st, data, pos), Drain(next, data, q), rest);
    }
  }

  /**
   * One pass of both loops, with the byte's step named only by what it
   * writes (`e`), where the input goes on (`q`) and the next state.
   */
  lemma Pass(st: DotState, data: seq<byte>, pos: nat, room: nat) returns (e: seq<byte>, q: nat, next: DotState)
    requires st != Done && room > 0 && pos < |data|
    ensures pos <= q <= |data| && |e| <= room && Measure(next, data, q) < Measure(st, data, pos)
    ensures Read(st, data, pos, room) == Prepend(e, q - pos, Read(next, data, q, room - |e|))
    ensures Drain(st, data, pos) == Drained(q - pos + Drain(next, data, q).consumed, Drain(next, data, q).state)
  {
    var step := StepOn(st, data[pos]);
    e, q, next := Emitted(step), pos + Used(step), step.next;
    Unfold(st, data, pos, room);
    DrainUnfold(st, data, pos);
  }

  /**
   * Draining `d` is the run `r` followed, when `r` stopped only for a full
   * buffer, by the draining `rest` of what comes after it.
   */
  predicate DrainsAfter(d: Drained, r: Run, rest: Drained) {
    if r.err == None then d == Drained(r.consumed + rest.consumed, rest.state) else d == Drained(r.consumed, r.state)
  }

  /** One pass in front of a `Read` whose draining is known, with the runs and drains as plain values. */
  lemma DrainCombine(r: Run, inner: Run, e: seq<byte>, u: nat, d: Drained, dn: Drained, rest: Drained)
    requires r == Prepend(e, u, inner) && d == Drained(u + dn.consumed, dn.state)
    requires DrainsAfter(dn, inner, rest)
    ensures DrainsAfter(d, r, rest)
  {
  }

  /** The dot-stuffing of one line: a leading '.' is doubled. */
  function Stuff(line: seq<byte>): seq<byte> {
    if line != [] && line[0] == DOT then [DOT] + line else line
  }

  /** The encoder that is the partner of the decoder: each line stuffed and ended by "\r\n", then ".\r\n". */
  function DotEncode(lines: seq<seq<byte>>): seq<byte>
    decreases |lines|
  {
    if lines == [] then [DOT, CR, LF] else Stuff(lines[0]) + [CR, LF] + DotEncode(lines[1..])
  }

  /** The decoded text: each line followed by "\n". */
  function Terminated(lines: seq<seq<byte>>): seq<byte>
    decreases |lines|
  {
    if lines == [] then [] else lines[0] + [LF] + Terminated(lines[1..])
  }

  predicate PlainLines(lines: seq<seq<byte>>) {
    forall i :: 0 <= i < |lines| ==> NoneIn(lines[i], CRLF)
  }

  lemma PrependPrepend(a: seq<byte>, b: seq<byte>, n: nat, m: nat, r: Run)
    ensures Prepend(a, n, Prepend(b, m, r)) == Prepend(a + b, n + m, r)
  {
    assert a + (b + r.out) == (a + b) + r.out;
  }

  /** In the middle of a line, a run without CR or LF is copied and "\r\n" becomes "\n". */
  lemma {:induction false} DataLine(data: seq<byte>, i: nat, j: nat, room: nat)
    requires i <= j && j + 2 <= |data|
    requires NoneInRange(data, i, j, CRLF) && data[j] == CR && data[j + 1] == LF
    requires room > j - i
    ensures Read(Data, data, i, room)
         == Prepend(data[i..j] + [LF], j - i + 2, Read(BeginLine, data, j + 2, room - (j - i) - 1))
    decreases j - i
  {
    if i == j {
      assert StepOn(Data, data[i]) == Step(Cr, None, true);
      Unfold(Data, data, i, room);
      assert StepOn(Cr, data[i + 1]) == Step(BeginLine, Some(LF), true);
      Unfold(Cr, data, i + 1, room);
      assert data[i..j] == [];
    } else {
      assert data[i] !in CRLF;
      assert StepOn(Data, data[i]) == Step(Data, Some(data[i]), true);
      Unfold(Data, data, i, room);
      DataLine(data, i + 1, j, room - 1);
      var r1 := Read(BeginLine, data, j + 2, room - (j - i) - 1);
      PrependPrepend([data[i]], data[i + 1..j] + [LF], 1, j - (i + 1) + 2, r1);
      assert [data[i]] + (data[i + 1..j] + [LF]) == data[i..j] + [LF];
    }
  }

  /** The end line ".\r\n" at the start of a line: nothing is written and the block ends. */
  lemma EndLine(data: seq<byte>, p: nat, room: nat)
    requires p + 3 <= |data| && data[p] == DOT && data[p + 1] == CR && data[p + 2] == LF
    requires room > 0
    ensures Read(BeginLine, data, p, room) == Run([], Done, 3, Some(EOF))
  {
    assert StepOn(BeginLine, data[p]) == Step(Dot, None, true);
    Unfold(BeginLine, data, p, room);
    assert StepOn(Dot, data[p + 1]) == Step(DotCr, None, true);
    Unfold(Dot, data, p + 1, room);
    assert StepOn(DotCr, data[p + 2]) == Step(Done, None, true);
    Unfold(DotCr, data, p + 2, room);
  }

  /** The end line written with a bare "\n" ends the block too. */
  lemma EndLineBareLf(data: seq<byte>, p: nat, room: nat)
    requires p + 2 <= |data| && data[p] == DOT && data[p + 1] == LF
    requires room > 0
    ensures Read(BeginLine, data, p, room) == Run([], Done, 2, Some(EOF))
  {
    assert StepOn(BeginLine, data[p]) == Step(Dot, None, true);
    Unfold(BeginLine, data, p, room);
    assert StepOn(Dot, data[p + 1]) == Step(Done, None, true);
    Unfold(Dot, data, p + 1, room);
  }

  /** The plain run `data[k..q]` equals `l[1..]`, read off a match of the line. */
  lemma MatchedRun(data: seq<byte>, p: nat, off: nat, l: seq<byte>)
    requires l != [] && NoneIn(l, CRLF)
    requires Matches(data, p + off, l[1..]) && p + off <= p + off + |l| - 1 <= |data|
    ensures data[p + off..p + off + |l| - 1] == l[1..]
    ensures NoneInRange(data, p + off, p + off + |l| - 1, CRLF)
  {
    var k := p + off;
    forall t | k <= t < k + |l| - 1 ensures data[t] == l[1..][t - k] {
      assert data[k + (t - k)] == l[1..][t - k];
    }
    forall t | k <= t < k + |l| - 1 ensures data[t] !in CRLF {
      assert l[1..][t - k] == l[t - k + 1];
    }
  }

  /** An empty line decodes to "\n". */
  lemma EmptyLineRoundTrip(data: seq<byte>, p: nat, room: nat)
    requires p + 2 <= |data| && data[p] == CR && data[p + 1] == LF && room > 0
    ensures Read(BeginLine, data, p, room) == Prepend([LF], 2, Read(BeginLine, data, p + 2, room - 1))
  {
    assert StepOn(BeginLine, data[p]) == Step(Cr, None, true);
    Unfold(BeginLine, data, p, room);
    assert StepOn(Cr, data[p + 1]) == Step(BeginLine, Some(LF), true);
    Unfold(Cr, data, p + 1, room);
  }

  /**
   * A line sent with a leading '.' before it loses that dot: ".abc\r\n" decodes
   * to "abc\n", whatever the line is, as long as it is not empty.
   */
  lemma DotLineRoundTrip(data: seq<byte>, p: nat, l: seq<byte>, room: nat)
    requires l != [] && NoneIn(l, CRLF)
    requires p < |data| && data[p] == DOT
    requires Matches(data, p + 1, l) && p + |l| + 3 <= |data|
    requires data[p + |l| + 1] == CR && data[p + |l| + 2] == LF
    requires room > |l|
    ensures Read(BeginLine, data, p, room)
         == Prepend(l + [LF], |l| + 3, Read(BeginLine, data, p + |l| + 3, room - |l| - 1))
  {
    assert data[p + 1 + 0] == l[0];
    assert Matches(data, p + 2, l[1..]) by {
      forall k | 0 <= k < |l[1..]| ensures data[p + 2 + k] == l[1..][k] {
        assert data[p + 1 + (k + 1)] == l[k + 1];
      }
    }
    MatchedRun(data, p, 2, l);
    DataLine(data, p + 2, p + |l| + 1, room - 1);
    DotStart(data, p, room);
    PrependChain(Read(BeginLine, data, p, room), Read(Data, data, p + 2, room - 1),
      Read(BeginLine, data, p + |l| + 3, room - |l| - 1), [l[0]], l[1..] + [LF], 2, |l| + 1);
    assert [l[0]] + (l[1..] + [LF]) == l + [LF];
  }

  /** A line that starts with '.' arrives stuffed as ".." and decodes to itself and "\n". */
  lemma StuffedLineRoundTrip(data: seq<byte>, p: nat, l: seq<byte>, room: nat)
    requires l != [] && l[0] == DOT && NoneIn(l, CRLF)
    requires p + 2 <= |data| && data[p] == DOT && data[p + 1] == DOT
    requires Matches(data, p + 2, l[1..]) && p + |l| + 3 <= |data|
    requires data[p + |l| + 1] == CR && data[p + |l| + 2] == LF
    requires room > |l|
    ensures Read(BeginLine, data, p, room)
         == Prepend(l + [LF], |l| + 3, Read(BeginLine, data, p + |l| + 3, room - |l| - 1))
  {
    assert Matches(data, p + 1, l) by {
      forall k | 0 <= k < |l| ensures data[p + 1 + k] == l[k] {
        if k > 0 {
          assert data[p + 2 + (k - 1)] == l[1..][k - 1];
        }
      }
    }
    DotLineRoundTrip(data, p, l, room);
  }

  /** A '.' at the start of a line followed by a byte other than CR or LF: the dot is dropped, the byte written, and the line goes on. */
  lemma DotStart(data: seq<byte>, p: nat, room: nat)
    requires p + 2 <= |data| && data[p] == DOT && data[p + 1] !in CRLF && room > 1
    ensures Read(BeginLine, data, p, room) == Prepend([data[p + 1]], 2, Read(Data, data, p + 2, room - 1))
  {
    assert StepOn(BeginLine, data[p]) == Step(Dot, None, true);
    Unfold(BeginLine, data, p, room);
    assert StepOn(Dot, data[p + 1]) == Step(Data, Some(data[p + 1]), true);
    Unfold(Dot, data, p + 1, room);
  }

  lemma PrependChain(x: Run, y: Run, r: Run, a: seq<byte>, b: seq<byte>, n: nat, m: nat)
    requires x == Prepend(a, n, y) && y == Prepend(b, m, r)
    ensures x == Prepend(a + b, n + m, r)
  {
    PrependPrepend(a, b, n, m, r);
  }

  /** A line that does not start with '.' decodes to itself and "\n". */
  lemma PlainLineRoundTrip(data: seq<byte>, p: nat, l: seq<byte>, room: nat)
    requires l != [] && l[0] != DOT && NoneIn(l, CRLF)
    requires p < |data| && data[p] == l[0]
    requires Matches(data, p + 1, l[1..]) && p + |l| + 2 <= |data|
    requires data[p + |l|] == CR && data[p + |l| + 1] == LF
    requires room > |l|
    ensures Read(BeginLine, data, p, room)
         == Prepend(l + [LF], |l| + 2, Read(BeginLine, data, p + |l| + 2, room - |l| - 1))
  {
    MatchedRun(data, p, 1, l);
    DataLine(data, p + 1, p + |l|, room - 1);
    assert l[0] !in CRLF;
    assert StepOn(BeginLine, data[p]) == Step(Data, Some(l[0]), true);
    Unfold(BeginLine, data, p, room);
    var r1 := Read(BeginLine, data, p + |l| + 2, room - |l| - 1);
    PrependPrepend([l[0]], l[1..] + [LF], 1, |l| + 1, r1);
    assert [l[0]] + (l[1..] + [LF]) == l + [LF];
  }

  /** One encoded line decodes to the line and "\n", and the next line starts in `BeginLine`. */
  lemma LineRoundTrip(data: seq<byte>, p: nat, l: seq<byte>, room: nat)
    requires NoneIn(l, CRLF)
    requires Matches(data, p, Stuff(l) + [CR, LF])
    requires room > |l|
    ensures Read(BeginLine, data, p, room)
         == Prepend(l + [LF], |Stuff(l)| + 2, Read(BeginLine, data, p + |Stuff(l)| + 2, room - |l| - 1))
  {
    var e := Stuff(l) + [CR, LF];
    var n := |Stuff(l)|;
    assert data[p + n] == e[n] && data[p + n + 1] == e[n + 1];
    if l == [] {
      EmptyLineRoundTrip(data, p, room);
    } else if l[0] == DOT {
      assert data[p] == e[0] && data[p + 1] == e[1];
      assert Matches(data, p + 2, l[1..]) by {
        forall k | 0 <= k < |l[1..]| ensures data[p + 2 + k] == l[1..][k] { assert data[p + (k + 2)] == e[k + 2]; }
      }
      StuffedLineRoundTrip(data, p, l, room);
    } else {
      assert data[p] == e[0];
      assert Matches(data, p + 1, l[1..]) by {
        forall k | 0 <= k < |l[1..]| ensures data[p + 1 + k] == l[1..][k] { assert data[p + (k + 1)] == e[k + 1]; }
      }
      PlainLineRoundTrip(data, p, l, room);
    }
  }

  /** `DotEncode` splits into the first stuffed line with its "\r\n", and the rest. */
  lemma EncodeSplit(data: seq<byte>, p: nat, lines: seq<seq<byte>>)
    requires lines != [] && Matches(data, p, DotEncode(lines))
    ensures Matches(data, p, Stuff(lines[0]) + [CR, LF])
    ensures Matches(data, p + |Stuff(lines[0])| + 2, DotEncode(lines[1..]))
  {
    var a := Stuff(lines[0]) + [CR, LF];
    var rest := DotEncode(lines[1..]);
    var e := DotEncode(lines);
    assert e == a + rest;
    forall k | 0 <= k < |a| ensures data[p + k] == a[k] { assert e[k] == a[k]; }
    forall k | 0 <= k < |rest| ensures data[p + |a| + k] == rest[k] {
      assert data[p + (|a| + k)] == e[|a| + k];
    }
  }

  /** Decoding what `DotEncode` produced gives back the lines, each ended by "\n", and stops at the end line with `io.EOF`. */
  lemma {:induction false} DotRoundTrip(lines: seq<seq<byte>>, data: seq<byte>, p: nat, room: nat)
    requires PlainLines(lines)
    requires Matches(data, p, DotEncode(lines))
    requires room > |Terminated(lines)|
    ensures Read(BeginLine, data, p, room) == Run(Terminated(lines), Done, |DotEncode(lines)|, Some(EOF))
    decreases |lines|
  {
    if lines == [] {
      var e := DotEncode(lines);
      assert data[p] == e[0] && data[p + 1] == e[1] && data[p + 2] == e[2];
      EndLine(data, p, room);
    } else {
      var q, room', n := FirstLineRoundTrip(lines, data, p, room);
      DotRoundTrip(lines[1..], data, q, room');
      ChainEnd(data, p, q, room, room', lines[0] + [LF], Terminated(lines[1..]), n, |DotEncode(lines[1..])|);
    }
  }

  /** The first encoded line of a block decodes to itself and "\n"; the rest of the block follows at `q`. */
  lemma FirstLineRoundTrip(lines: seq<seq<byte>>, data: seq<byte>, p: nat, room: nat) returns (q: nat, room': nat, n: nat)
    requires lines != [] && PlainLines(lines)
    requires Matches(data, p, DotEncode(lines))
    requires room > |Terminated(lines)|
    ensures p <= |data| && q <= |data|
    ensures Read(BeginLine, data, p, room) == Prepend(lines[0] + [LF], n, Read(BeginLine, data, q, room'))
    ensures PlainLines(lines[1..]) && Matches(data, q, DotEncode(lines[1..])) && room' > |Terminated(lines[1..])|
    ensures Terminated(lines) == lines[0] + [LF] + Terminated(lines[1..])
    ensures |DotEncode(lines)| == n + |DotEncode(lines[1..])|
  {
    var l := lines[0];
    n := |Stuff(l)| + 2;
    q := p + n;
    room' := room - |l| - 1;
    PlainLinesTail(lines);
    EncodeSplit(data, p, lines);
    LineRoundTrip(data, p, l, room);
  }

  lemma PlainLinesTail(lines: seq<seq<byte>>)
    requires lines != [] && PlainLines(lines)
    ensures NoneIn(lines[0], CRLF) && PlainLines(lines[1..])
  {
    assert forall i :: 0 <= i < |lines[1..]| ==> lines[1..][i] == lines[i + 1];
  }

  /** A line decoded in front of a decoding that reaches the end line. */
  lemma ChainEnd(data: seq<byte>, p: nat, q: nat, room: nat, room': nat, e: seq<byte>, t: seq<byte>, n: nat, m: nat)
    requires p <= |data| && q <= |data|
    requires Read(BeginLine, data, p, room) == Prepend(e, n, Read(BeginLine, data, q, room'))
    requires Read(BeginLine, data, q, room') == Run(t, Done, m, Some(EOF))
    ensures Read(BeginLine, data, p, room) == Run(e + t, Done, n + m, Some(EOF))
  {
  }

  /** A "\r" that is not followed by "\n" is written as it is. */
  lemma LoneCarriageReturn(data: seq<byte>, p: nat, room: nat)
    requires p + 2 <= |data| && data[p] == CR && data[p + 1] != LF && room > 0
    ensures Read(Data, data, p, room) == Prepend([CR], 1, Read(Data, data, p + 1, room - 1))
  {
    assert StepOn(Data, data[p]) == Step(Cr, None, true);
    Unfold(Data, data, p, room);
    assert StepOn(Cr, data[p + 1]) == Step(Data, Some(CR), false);
    Unfold(Cr, data, p + 1, room);
  }

  /**
   * In state `BeginLine` a bare "\n" moves to `Data`, not back to `BeginLine`, so
   * after an empty LF-only line a "." line is copied instead of ending the block.
   */
  lemma BareLfBeforeDotLine()
    ensures Read(BeginLine, [LF, DOT, LF], 0, 4) == Run([LF, DOT, LF], BeginLine, 3, Some(UnexpectedEOF))
  {
    var s: seq<byte> := [LF, DOT, LF];
    assert StepOn(BeginLine, s[0]) == Step(Data, Some(LF), true);
    Unfold(BeginLine, s, 0, 4);
    assert StepOn(Data, s[1]) == Step(Data, Some(DOT), true);
    Unfold(Data, s, 1, 3);
    assert StepOn(Data, s[2]) == Step(BeginLine, Some(LF), true);
    Unfold(Data, s, 2, 2);
  }
}
