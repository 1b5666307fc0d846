/**
 * The `Reader` of the text-protocol package: a cursor `pos` over the whole
 * input `data` (the `bufio.Reader` with everything buffered) and the dot
 * reader that may be open on it. Every method is proved to compute what the
 * functions of TextProto and DotCodec say.
 */
module TextReader {
  import opened Wrappers
  import opened Bytes
  import opened MimeHeader
  import opened DotCodec
  import opened TextProto

  /** `trim`: the leading and the trailing runs of spaces and tabs cut off. */
  method Trim(s: seq<byte>) returns (r: seq<byte>)
    ensures r == TrimSet(s, WSP)
  {
    var i := 0;
    while i < |s| && (s[i] == SP || s[i] == TAB)
      invariant 0 <= i <= |s|
      invariant forall j :: 0 <= j < i ==> s[j] in WSP
    {
      i := i + 1;
    }
    var n := |s|;
    while n > i && (s[n - 1] == SP || s[n - 1] == TAB)
      invariant i <= n <= |s|
      invariant forall j :: n <= j < |s| ==> s[j] in WSP
    {
      n := n - 1;
    }
    TrimSetAt(s, WSP, i, n);
    r := s[i..n];
  }

  class Reader {
    /** The whole input the `bufio.Reader` delivers. */
    const data: seq<byte>
    /** How much of it has been read. */
    var pos: nat
    /** `r.dot != nil`: a dot reader is open. */
    var dotOpen: bool
    /** The state of the open dot reader. */
    var dotState: DotState

    predicate Valid()
      reads this
    {
      pos <= |data|
    }

    /** `NewReader`: nothing read, no dot reader. */
    constructor (input: seq<byte>)
      ensures Valid() && data == input && pos == 0 && !dotOpen && dotState == BeginLine
    {
      data := input;
      pos := 0;
      dotOpen := false;
      dotState := BeginLine;
    }

    /** One pass of the loop of `dotReader.Read` keeps its outcome. */
    lemma DotStep(st0: DotState, p0: nat, room: nat, out: seq<byte>, st: DotState, p: nat,
                  out': seq<byte>, p': nat, st': DotState)
      requires p0 <= p < |data| && st != Done && |out| < room
      requires Read(st0, data, p0, room) == Prepend(out, p - p0, Read(st, data, p, room - |out|))
      requires var step := StepOn(st, data[p]);
        out' == out + Emitted(step) && p' == p + Used(step) && st' == step.next
      ensures p0 <= p' <= |data| && |out'| <= room
      ensures Read(st0, data, p0, room) == Prepend(out', p' - p0, Read(st', data, p', room - |out'|))
    {
      var step := StepOn(st, data[p]);
      Unfold(st, data, p, room - |out|);
      PrependPrepend(out, Emitted(step), p - p0, Used(step), Read(step.next, data, p + Used(step), room - |out| - |Emitted(step)|));
    }

    /**
     * `dotReader.Read(b)` on the open dot reader: the state machine run byte by
     * byte until `b` is full, the end line is consumed or the input ends. The
     * reader is closed by any error, `io.EOF` included.
     */
    method DotRead(b: array<byte>) returns (n: nat, err: Option<Error>)
      requires Valid() && dotOpen
      modifies this, b
      ensures Valid()
      ensures var r := Read(old(dotState), data, old(pos), b.Length);
        n == |r.out| && b[..n] == r.out && (forall j :: n <= j < b.Length ==> b[j] == old(b[j])) &&
        pos == old(pos) + r.consumed && dotState == r.state && err == r.err && dotOpen == (r.err == None)
    {
      ghost var p0 := pos;
      ghost var st0 := dotState;
      ghost var b0 := b[..];
      n := 0;
      err := None;
      while n < b.Length && dotState != Done
        invariant Valid() && p0 <= pos && n <= b.Length && err == None && dotOpen
        invariant forall j :: n <= j < b.Length ==> b[j] == b0[j]
        invariant Read(st0, data, p0, b.Length) == Prepend(b[..n], pos - p0, Read(dotState, data, pos, b.Length - n))
        decreases Measure(dotState, data, pos)
      {
        if pos == |data| {
          err := Some(UnexpectedEOF);
          break;
        }
        // one pass of the `switch d.state`: the byte is read, maybe pushed back, maybe written
        var step := StepOn(dotState, data[pos]);
        ghost var out, st, p := b[..n], dotState, pos;
        StepShrinks(dotState, data, pos);
        pos := pos + Used(step);
        dotState := step.next;
        if step.emit.Some? {
          b[n] := step.emit.value;
          n := n + 1;
        }
        assert b[..n] == out + Emitted(step);
        DotStep(st0, p0, b.Length, out, st, p, b[..n], pos, dotState);
      }
      ghost var rest := Read(dotState, data, pos, b.Length - n);
      assert rest.out == [] && rest.consumed == 0 && rest.state == dotState;
      if err == None && dotState == Done {
        err := Some(EOF);
      }
      assert rest.err == err;
      assert b[..n] + rest.out == b[..n];
      if err.Some? {
        dotOpen := false;
      }
    }
 
    /** `closeDot`: an open dot reader is read to its end in 128-byte reads, then dropped. */
    method CloseDot()
      requires Valid()
      modifies this
      ensures Valid() && !dotOpen
      ensures pos == ClosedPos(data, old(pos), old(dotOpen), old(dotState))
    {
      if !dotOpen {
        return;
      }
      var buf := new byte[128];
      ghost var p0 := pos;
      ghost var d0 := Drain(dotState, data, pos);
      while dotOpen
        invariant Valid() && p0 <= pos && buf.Length == 128
        invariant dotOpen ==> pos - p0 <= d0.consumed && Drain(dotState, data, pos) == Drained(d0.consumed - (pos - p0), d0.state)
        invariant !dotOpen ==> pos == p0 + d0.consumed
        decreases if dotOpen then 1 else 0, Measure(dotState, data, pos)
      {
        ReadThenDrain(dotState, data, pos, 128);
        ReadProgress(dotState, data, pos, 128);
        var n, err := DotRead(buf);
      }
    }

    /** `DotReader`: the previous dot reader is closed and a new one starts at a line start. */
    method OpenDot()
      requires Valid()
      modifies this
      ensures Valid() && dotOpen && dotState == BeginLine
      ensures pos == ClosedPos(data, old(pos), old(dotOpen), old(dotState))
    {
      CloseDot();
      dotOpen := true;
      dotState := BeginLine;
    }

    /**
     * `readLineSlice`: after closing the dot reader, the next line as
     * `bufio.Reader.ReadLine` gives it, twice (the text and the raw line are the
     * same bytes); `io.EOF` once the input is used up.
     */
    method ReadLineSlice() returns (line: seq<byte>, original: seq<byte>, err: Option<Error>)
      requires Valid()
      modifies this
      ensures Valid() && !dotOpen
      ensures var q := ClosedPos(data, old(pos), old(dotOpen), old(dotState));
        match ReadLineAt(data, q)
        case None => line == [] && original == [] && err == Some(EOF) && pos == q
        case Some(l) => line == l.text && original == l.text && err == None && pos == l.next
    {
      CloseDot();
      var r := ReadLineAt(data, pos);
      if r.None? {
        return [], [], Some(EOF);
      }
      line, original, err := r.value.text, r.value.text, None;
      pos := r.value.next;
    }

    /** `skipSpace`: the spaces and tabs at the cursor are read, counted and returned. */
    method SkipSpace() returns (n: nat, skipped: seq<byte>)
      requires Valid()
      modifies this
      ensures Valid() && pos == SkipWsp(data, old(pos)) && skipped == data[old(pos)..pos] && n == |skipped|
      ensures dotOpen == old(dotOpen) && dotState == old(dotState)
    {
      ghost var p0 := pos;
      n, skipped := 0, [];
      while pos < |data| && (data[pos] == SP || data[pos] == TAB)
        invariant p0 <= pos <= |data|
        invariant SkipWsp(data, pos) == SkipWsp(data, p0)
        invariant skipped == data[p0..pos] && n == |skipped|
        invariant dotOpen == old(dotOpen) && dotState == old(dotState)
        decreases |data| - pos
      {
        assert data[p0..pos + 1] == data[p0..pos] + [data[pos]];
        skipped := skipped + [data[pos]];
        n := n + 1;
        pos := pos + 1;
      }
    }
 
    /**
     * `readContinuedLineSlice`: a first line (after closing the dot reader),
     * trimmed, and the continuation lines that follow it. The fast path that
     * returns at once when the next byte is a letter gives the same result.
     */
    method ReadContinuedLineSlice() returns (kv: seq<byte>, raw: seq<byte>, err: Option<Error>)
      requires Valid()
      modifies this
      ensures Valid() && !dotOpen
      ensures var c := ContinuedAt(data, ClosedPos(data, old(pos), old(dotOpen), old(dotState)));
        kv == c.kv && raw == c.raw && err == c.err && pos == c.next
    {
      var line, original, e := ReadLineSlice();
      if e.Some? {
        return [], original, e;
      }
      if |line| == 0 {
        return line, original, None;
      }
      var first := Trim(line);
      ghost var l0 := Line(line, pos);
      // `r.R.Buffered() > 1` and a letter next: no continuation line can follow
      if |data| - pos > 1 && IsAsciiLetter(data[pos]) {
        LetterEndsLine(data, pos);
        ContinuedUnfold(data, old(ClosedPos(data, pos, dotOpen, dotState)), l0, Tail([], [], pos));
        return first, original, None;
      }
      ContinuedUnfold(data, old(ClosedPos(data, pos, dotOpen, dotState)), l0, ContinuationTail(data, pos));
      kv, raw := ReadContinuations(first, original);
      err := None;
    }

    /** The loop of `readContinuedLineSlice`: continuation lines appended to the first line's bytes. */
    method ReadContinuations(first: seq<byte>, original: seq<byte>) returns (kv: seq<byte>, raw: seq<byte>)
      requires Valid() && !dotOpen
      modifies this
      ensures Valid() && !dotOpen
      ensures var t := ContinuationTail(data, old(pos));
        kv == first + t.kv && raw == original + t.raw && pos == t.next
    {
      ghost var t0 := ContinuationTail(data, pos);
      kv, raw := first, original;
      while true
        invariant Valid() && !dotOpen
        invariant var t := ContinuationTail(data, pos);
          kv + t.kv == first + t0.kv && raw + t.raw == original + t0.raw && t.next == t0.next
        decreases |data| - pos
      {
        var q := pos;
        var no, skipped := SkipSpace();
        if no <= 0 {
          break;
        }
        var k := pos;
        var line, original2, e := ReadLineSlice();
        if e.Some? {
          break;
        }
        var trimmed := Trim(line);
        TailAppend(data, q, k, pos, line, skipped, kv, raw, first + t0.kv, original + t0.raw, t0.next);
        kv := kv + [SP] + trimmed;
        raw := raw + ([LF] + skipped) + original2;
      }
    }

    /**
     * `ReadMIMEHeader`: a first line that starts with white space is refused;
     * otherwise logical lines are read and their fields added until a blank
     * line, the end of the input or a line without a colon.
     */
    method ReadMIMEHeader() returns (m: Header, raw: seq<byte>, err: Option<Error>)
      requires Valid()
      modifies this
      ensures Valid()
      ensures var r := MimeHeaderAt(data, old(pos), old(dotOpen), old(dotState));
        m == r.header && raw == r.raw && err == r.err && pos == r.next
    {
      m, raw := map[], [];
      if pos < |data| && (data[pos] == SP || data[pos] == TAB) {
        var line, original, e := ReadLineSlice();
        if e.Some? {
          return m, raw, e;
        }
        return m, raw, Some(ProtocolError(MALFORMED_INITIAL + Preview(line)));
      }
      m, raw, err := ReadHeaderLines();
    }

    /** The loop of `ReadMIMEHeader`, one logical line per pass. */
    method ReadHeaderLines() returns (m: Header, raw: seq<byte>, err: Option<Error>)
      requires Valid()
      modifies this
      ensures Valid()
      ensures var r := HeaderLoop(data, ClosedPos(data, old(pos), old(dotOpen), old(dotState)), map[], []);
        m == r.header && raw == r.raw && err == r.err && pos == r.next
    {
      m, raw := map[], [];
      ghost var r := HeaderLoop(data, ClosedPos(data, pos, dotOpen, dotState), m, raw);
      while true
        invariant Valid()
        invariant HeaderLoop(data, ClosedPos(data, pos, dotOpen, dotState), m, raw) == r
        decreases |data| - pos
      {
        ghost var p := ClosedPos(data, pos, dotOpen, dotState);
        var kv, original, e := ReadContinuedLineSlice();
        HeaderLoopStep(data, p, m, raw, ContinuedAt(data, p));
        if |raw| > 0 {
          raw := raw + [LF];
        }
        raw := raw + original;
        if |kv| == 0 {
          return m, raw, e;
        }
        var i := IndexOfByte(kv, COLON);
        if i < 0 {
          return m, raw, Some(ProtocolError(MALFORMED_LINE + Preview(kv)));
        }
        var key, value := ParseField(kv, i);
        // an empty key is skipped
        if key != [] {
          var vv := if key in m then m[key] else [];
          m := m[key := vv + [value]];
        }
        // `readContinuedLineSlice` returns an error only with an empty line, so
        // the final error check of the loop never fires
      }
    }

    /**
     * `ReadDotLines`: lines up to the line ".", each without one leading '.';
     * running out of input is `io.ErrUnexpectedEOF`.
     */
    method ReadDotLines() returns (v: seq<seq<byte>>, err: Option<Error>)
      requires Valid()
      modifies this
      ensures Valid() && !dotOpen
      ensures var r := DotLinesFrom(data, ClosedPos(data, old(pos), old(dotOpen), old(dotState)), []);
        v == r.lines && err == r.err && pos == r.next
    {
      v, err := [], None;
      ghost var r := DotLinesFrom(data, ClosedPos(data, pos, dotOpen, dotState), []);
      while true
        invariant Valid() && (v != [] ==> !dotOpen)
        invariant DotLinesFrom(data, ClosedPos(data, pos, dotOpen, dotState), v) == r
        decreases |data| - pos
      {
        var line, original, e := ReadLineSlice();
        if e.Some? {
          err := if e == Some(EOF) then Some(UnexpectedEOF) else e;
          break;
        }
        // a dot by itself marks the end; otherwise one dot is cut
        if |line| > 0 && line[0] == DOT {
          if |line| == 1 {
            break;
          }
          line := line[1..];
        }
        v := v + [line];
      }
    }
  }

  /**
   * One continuation line moved from the tail still to read to the bytes
   * accumulated, with abstract positions.
   */
  lemma TailAppend(data: seq<byte>, q: nat, k: nat, n: nat, text: seq<byte>, skipped: seq<byte>,
                   buf: seq<byte>, raw: seq<byte>, kvAll: seq<byte>, rawAll: seq<byte>, e: nat)
    requires q < k <= |data| && n <= |data| && SkipWsp(data, q) == k && skipped == data[q..k]
    requires ReadLineAt(data, k) == Some(Line(text, n))
    requires var t := ContinuationTail(data, q); buf + t.kv == kvAll && raw + t.raw == rawAll && t.next == e
    ensures var t := ContinuationTail(data, n);
      (buf + [SP] + TrimSet(text, WSP)) + t.kv == kvAll && (raw + ([LF] + skipped) + text) + t.raw == rawAll && t.next == e
  {
    TailUnfold(data, q, k, Line(text, n));
    var rest := ContinuationTail(data, n);
    Regroup(buf, [SP], TrimSet(text, WSP), rest.kv, kvAll);
    Regroup(raw, [LF] + skipped, text, rest.raw, rawAll);
  }

  lemma Regroup(a: seq<byte>, x: seq<byte>, y: seq<byte>, z: seq<byte>, all: seq<byte>)
    requires a + (x + y + z) == all
    ensures a + x + y + z == all
  {
  }

  /** A letter cannot start a continuation line. */
  lemma LetterEndsLine(data: seq<byte>, pos: nat)
    requires pos < |data| && IsAsciiLetter(data[pos])
    ensures ContinuationTail(data, pos) == Tail([], [], pos)
  {
    AsciiLetterIff(data[pos]);
  }

  /**
   * The field of a logical line with a colon at `i`, as `ReadMIMEHeader` cuts it:
   * spaces before the colon dropped, the key canonicalised in place, spaces and
   * tabs after the colon skipped.
   */
  method ParseField(kv: seq<byte>, i: nat) returns (key: seq<byte>, value: seq<byte>)
    requires COLON in kv && i == IndexOfByte(kv, COLON)
    ensures (key, value) == SplitField(kv)
  {
    var endKey := i;
    while endKey > 0 && kv[endKey - 1] == SP
      invariant 0 <= endKey <= i
      invariant forall j :: endKey <= j < i ==> kv[j] in {SP}
    {
      endKey := endKey - 1;
    }
    KeyTrimmed(kv, i, endKey);
    var a := new byte[endKey](j requires 0 <= j < endKey => kv[j]);
    assert a[..] == kv[..endKey];
    key := CanonicalizeInPlace(a);
    var k := i + 1;
    while k < |kv| && (kv[k] == SP || kv[k] == TAB)
      invariant i + 1 <= k <= |kv|
      invariant forall j :: i + 1 <= j < k ==> kv[j] in WSP
    {
      k := k + 1;
    }
    ValueSkipped(kv, i, k);
    value := kv[k..];
  }

  /** The first loop of the split: the spaces before the colon are what `DropRight` cuts. */
  lemma KeyTrimmed(kv: seq<byte>, i: nat, endKey: nat)
    requires endKey <= i <= |kv|
    requires forall j :: endKey <= j < i ==> kv[j] in {SP}
    requires endKey == 0 || kv[endKey - 1] != SP
    ensures DropRight(kv[..i], {SP}) == kv[..endKey]
  {
    DropRightAt(kv, {SP}, 0, endKey, i);
    assert kv[0..i] == kv[..i] && kv[0..endKey] == kv[..endKey];
  }

  /** The second loop of the split: the spaces and tabs after the colon are what `DropLeft` cuts. */
  lemma ValueSkipped(kv: seq<byte>, i: nat, k: nat)
    requires i + 1 <= k <= |kv|
    requires forall j :: i + 1 <= j < k ==> kv[j] in WSP
    requires k == |kv| || kv[k] !in WSP
    ensures DropLeft(kv[i + 1..], WSP) == kv[k..]
  {
    var rest := kv[i + 1..];
    assert forall j :: 0 <= j < k - (i + 1) ==> rest[j] == kv[i + 1 + j];
    DropLeftAt(rest, WSP, k - (i + 1));
    assert rest[k - (i + 1)..] == kv[k..];
  }

  /** One logical line of `ReadMIMEHeader`, with the line read given as `c`. */
  lemma HeaderLoopStep(data: seq<byte>, p: nat, m: Header, oh: seq<byte>, c: Continued)
    requires p <= |data| && c == ContinuedAt(data, p)
    ensures HeaderLoop(data, p, m, oh)
      == if c.kv == [] then HeaderRead(m, JoinRaw(oh, c.raw), c.next, c.err)
         else if COLON !in c.kv then HeaderRead(m, JoinRaw(oh, c.raw), c.next, Some(ProtocolError(MALFORMED_LINE + Preview(c.kv))))
         else HeaderLoop(data, c.next, AddField(m, c.kv), JoinRaw(oh, c.raw))
  {
  }
}
