/**
 * What the text-protocol reader returns, as functions of the whole input
 * `data` and the read position `pos`: lines, folded header lines, a MIME
 * header block and a dot-encoded block of lines. The `Reader` class in
 * reader.dfy is proved to compute exactly these.
 */
module TextProto {
  import opened Wrappers
  import opened Bytes
  import opened MimeHeader
  import opened DotCodec

  /** The first LF at or after `pos`, or the end of the input. */
  function LineEnd(data: seq<byte>, pos: nat): (e: nat)
    requires pos <= |data|
    ensures pos <= e <= |data|
    ensures e < |data| ==> data[e] == LF
    ensures NoneInRange(data, pos, e, {LF})
    decreases |data| - pos
  {
    if pos == |data| || data[pos] == LF then pos else LineEnd(data, pos + 1)
  }

  /** A line without its end of line, and the position after it. */
  datatype Line = Line(text: seq<byte>, next: nat)

  /**
   * `bufio.Reader.ReadLine` on an input that is buffered whole: the bytes up to
   * the next LF, without the LF and without one CR just before it; the last
   * line of the input may lack the LF and then keeps all its bytes. No line at
   * all once the input is used up.
   */
  function ReadLineAt(data: seq<byte>, pos: nat): (r: Option<Line>)
    requires pos <= |data|
    ensures r.None? <==> pos == |data|
    ensures r.Some? ==> pos < r.value.next <= |data| && LF !in r.value.text
  {
    if pos == |data| then None
    else
      var e := LineEnd(data, pos);
      assert forall k :: 0 <= k < e - pos ==> data[pos..e][k] == data[pos + k];
      if e == |data| then Some(Line(data[pos..], |data|))
      else if e > pos && data[e - 1] == CR then Some(Line(data[pos..e - 1], e + 1))
      else Some(Line(data[pos..e], e + 1))
  }

  /** The end of the run of spaces and tabs at `pos`: where `skipSpace` stops. */
  function SkipWsp(data: seq<byte>, pos: nat): (k: nat)
    requires pos <= |data|
    ensures pos <= k <= |data|
    ensures k < |data| ==> data[k] !in WSP
    ensures forall j :: pos <= j < k ==> data[j] in WSP
    decreases |data| - pos
  {
    if pos < |data| && data[pos] in WSP then SkipWsp(data, pos + 1) else pos
  }

  /**
   * A logical header line: the value with its folding undone, the raw lines as
   * read, the position after them and the error of the first line.
   */
  datatype Continued = Continued(kv: seq<byte>, raw: seq<byte>, next: nat, err: Option<Error>)

  /** What the continuation lines of a header line add to its value and raw text, and where they end. */
  datatype Tail = Tail(kv: seq<byte>, raw: seq<byte>, next: nat)

  /**
   * The loop of `readContinuedLineSlice` from `q` on: while the next line starts
   * with a space or tab it adds one space and its trimmed text to the value, and
   * a LF, its white space and its text to the raw lines; a failing read ends the
   * loop without an error.
   */
  function ContinuationTail(data: seq<byte>, q: nat): (t: Tail)
    requires q <= |data|
    ensures q <= t.next <= |data|
    ensures t.kv == [] <==> t.raw == []
    decreases |data| - q
  {
    var k := SkipWsp(data, q);
    if k == q then Tail([], [], q)
    else match ReadLineAt(data, k)
      case None => Tail([], [], k)
      case Some(l) =>
        var r := ContinuationTail(data, l.next);
        Tail([SP] + TrimSet(l.text, WSP) + r.kv, [LF] + data[q..k] + l.text + r.raw, r.next)
  }

  /**
   * `readContinuedLineSlice` with no dot reader open: `io.EOF` when no line is
   * left, an empty line as it is, otherwise the line trimmed and followed by its
   * continuation lines.
   */
  function ContinuedAt(data: seq<byte>, pos: nat): (c: Continued)
    requires pos <= |data|
    ensures pos <= c.next <= |data|
    ensures c.err.Some? <==> pos == |data|
    ensures c.err.Some? ==> c.err == Some(EOF) && c.kv == [] && c.raw == []
    ensures c.kv != [] ==> c.raw != []
    ensures c.err == None ==> pos < c.next
  {
    match ReadLineAt(data, pos)
    case None => Continued([], [], pos, Some(EOF))
    case Some(l) =>
      if l.text == [] then Continued([], [], l.next, None)
      else
        var t := ContinuationTail(data, l.next);
        Continued(TrimSet(l.text, WSP) + t.kv, l.text + t.raw, t.next, None)
  }

  /** The position after `closeDot`: a dot reader still open is read to its end. */
  function ClosedPos(data: seq<byte>, pos: nat, dotOpen: bool, dotState: DotState): (q: nat)
    requires pos <= |data|
    ensures pos <= q <= |data|
  {
    if dotOpen then pos + Drain(dotState, data, pos).consumed else pos
  }

  /** How a malformed line is quoted in an error: whole, or its first and last 50 bytes. */
  function Preview(s: seq<byte>): (p: seq<byte>)
    ensures |s| <= 100 ==> p == s
    ensures |s| > 100 ==> |p| == 103 && p[..50] == s[..50] && p[50..53] == [DOT, DOT, DOT] && p[53..] == s[|s| - 50..]
  {
    if |s| > 100 then s[..50] + Lit("...") + s[|s| - 50..] else s
  }

  const MALFORMED_INITIAL: seq<byte> := Lit("malformed MIME header initial line: ")
  const MALFORMED_LINE: seq<byte> := Lit("malformed MIME header line: ")

  /** The key of a header line: the bytes before the colon, trailing spaces cut, canonicalised. */
  function FieldKey(name: seq<byte>): seq<byte> {
    CanonicalKey(DropRight(name, {SP}))
  }

  /** The value of a header line: the bytes after the colon, leading spaces and tabs cut. */
  function FieldValue(rest: seq<byte>): seq<byte> {
    DropLeft(rest, WSP)
  }

  /** The key and the value of a logical line with a colon. */
  function SplitField(kv: seq<byte>): (f: (seq<byte>, seq<byte>))
    requires COLON in kv
  {
    var i := IndexOfByte(kv, COLON);
    (FieldKey(kv[..i]), FieldValue(kv[i + 1..]))
  }

  /** A logical line with a colon added to the header: one more value of its key, or nothing for an empty key. */
  function AddField(m: Header, kv: seq<byte>): Header
    requires COLON in kv
  {
    AddSplit(m, SplitField(kv))
  }

  /** The header after the split field `f`: unchanged for an empty key. */
  function AddSplit(m: Header, f: (seq<byte>, seq<byte>)): Header {
    if f.0 == [] then m else AddValue(m, f.0, f.1)
  }

  /** The header read so far, the raw header text, the position after it and the error. */
  datatype HeaderRead = HeaderRead(header: Header, raw: seq<byte>, next: nat, err: Option<Error>)

  /** `originalHeader` after one more logical line: its raw lines after a LF. */
  function JoinRaw(oh: seq<byte>, raw: seq<byte>): seq<byte> {
    (if |oh| > 0 then oh + [LF] else oh) + raw
  }

  /**
   * The loop of `ReadMIMEHeader`: each logical line is split at its first colon
   * and its value appended to those of its canonical key; an empty line (or the
   * end of the input) ends the header, a line without a colon is an error and
   * a line with an empty key is skipped.
   */
  function HeaderLoop(data: seq<byte>, pos: nat, m: Header, oh: seq<byte>): (r: HeaderRead)
    requires pos <= |data|
    ensures pos <= r.next <= |data|
    ensures r.err == None || r.err == Some(EOF) || r.err.value.ProtocolError?
    ensures r.err == Some(EOF) ==> r.next == |data|
    ensures r.err == None ==> pos < r.next
    decreases |data| - pos
  {
    var c := ContinuedAt(data, pos);
    var oh' := JoinRaw(oh, c.raw);
    if c.kv == [] then HeaderRead(m, oh', c.next, c.err)
    else
      if COLON !in c.kv then HeaderRead(m, oh', c.next, Some(ProtocolError(MALFORMED_LINE + Preview(c.kv))))
      else HeaderLoop(data, c.next, AddField(m, c.kv), oh')
  }

  /** A header line with its first LF or the input's end. */
  lemma LogicalLineUnfold(data: seq<byte>, pos: nat, m: Header, oh: seq<byte>)
    requires pos <= |data|
    ensures var c := ContinuedAt(data, pos);
      c.kv != [] && COLON in c.kv ==> HeaderLoop(data, pos, m, oh) == HeaderLoop(data, c.next, AddField(m, c.kv), JoinRaw(oh, c.raw))
  {
  }

  /**
   * `ReadMIMEHeader`: a first line that starts with a space or tab is an error
   * (the byte is looked at before an open dot reader is closed); otherwise the
   * header lines after closing it.
   */
  function MimeHeaderAt(data: seq<byte>, pos: nat, dotOpen: bool, dotState: DotState): (r: HeaderRead)
    requires pos <= |data|
    ensures pos <= r.next <= |data|
    ensures r.err == None ==> pos < r.next
  {
    var q := ClosedPos(data, pos, dotOpen, dotState);
    if pos < |data| && data[pos] in WSP then
      match ReadLineAt(data, q)
      case None => HeaderRead(map[], [], q, Some(EOF))
      case Some(l) => HeaderRead(map[], [], l.next, Some(ProtocolError(MALFORMED_INITIAL + Preview(l.text))))
    else HeaderLoop(data, q, map[], [])
  }

  /** The lines of a dot-encoded block, the position after it and the error. */
  datatype DotLines = DotLines(lines: seq<seq<byte>>, next: nat, err: Option<Error>)

  /**
   * The loop of `ReadDotLines`: a line "." ends the block, any other line loses
   * one leading '.', and running out of lines is `io.ErrUnexpectedEOF`.
   */
  function DotLinesFrom(data: seq<byte>, pos: nat, acc: seq<seq<byte>>): (r: DotLines)
    requires pos <= |data|
    ensures pos <= r.next <= |data|
    decreases |data| - pos
  {
    match ReadLineAt(data, pos)
    case None => DotLines(acc, pos, Some(UnexpectedEOF))
    case Some(l) =>
      if l.text == [DOT] then DotLines(acc, l.next, None)
      else
        var line := if l.text != [] && l.text[0] == DOT then l.text[1..] else l.text;
        DotLinesFrom(data, l.next, acc + [line])
  }

  /** The LF that ends a line the input holds as `l + [LF]`. */
  lemma LineEndAt(data: seq<byte>, pos: nat, l: seq<byte>)
    requires At(data, pos, l + [LF]) && LF !in l
    ensures LineEnd(data, pos) == pos + |l|
    ensures data[pos..pos + |l|] == l
  {
    AtConcat(data, pos, l, [LF]);
    assert data[pos + |l|] == data[pos + |l|..pos + |l| + 1][0];
    forall k | pos <= k < pos + |l| ensures data[k] != LF {
      assert data[k] == l[k - pos];
    }
  }

  /** A line ended by "\n" alone is read without it (a CR before it would be dropped too). */
  lemma LineLf(data: seq<byte>, pos: nat, l: seq<byte>)
    requires At(data, pos, l + [LF]) && LF !in l
    requires l == [] || l[|l| - 1] != CR
    ensures ReadLineAt(data, pos) == Some(Line(l, pos + |l| + 1))
  {
    LineEndAt(data, pos, l);
  }

  /** A line ended by "\r\n" is read without both bytes. */
  lemma LineCrLf(data: seq<byte>, pos: nat, l: seq<byte>)
    requires At(data, pos, l + [CR, LF]) && LF !in l
    ensures ReadLineAt(data, pos) == Some(Line(l, pos + |l| + 2))
  {
    assert l + [CR, LF] == (l + [CR]) + [LF];
    LineEndAt(data, pos, l + [CR]);
    assert data[pos..pos + |l|] == (l + [CR])[..|l|];
  }

  /** The last line of an input without a final LF is read whole. */
  lemma LineUnterminated(data: seq<byte>, pos: nat)
    requires pos < |data| && NoneInRange(data, pos, |data|, {LF})
    ensures ReadLineAt(data, pos) == Some(Line(data[pos..], |data|))
  {
  }

  /**
   * A line ended by a LF is its raw bytes with that LF and the CR before it
   * removed: the CR of a "\r\n" is lost, any other CR kept.
   */
  lemma LineRaw(data: seq<byte>, pos: nat)
    requires pos < |data|
    ensures var l := ReadLineAt(data, pos).value;
      data[l.next - 1] == LF ==> l.text + [LF] == DropCrBeforeLf(data[pos..l.next])
  {
    var l := ReadLineAt(data, pos).value;
    var e := LineEnd(data, pos);
    if data[l.next - 1] == LF {
      if e < |data| && e > pos && data[e - 1] == CR {
        assert data[pos..l.next] == l.text + [CR, LF];
        DropCrLineEnd(l.text);
      } else {
        assert data[pos..l.next] == l.text + [LF];
        assert l.text == [] || l.text[|l.text| - 1] == data[e - 1];
        DropCrLineEnd(l.text);
      }
    }
  }

  /** The end of a line: "\r\n", or "\n" alone. */
  function Eol(cr: bool): seq<byte> {
    if cr then [CR, LF] else [LF]
  }

  /** A line without CR or LF, ended by "\r\n" or by "\n", is read as itself. */
  lemma LineEol(data: seq<byte>, pos: nat, l: seq<byte>, cr: bool, n: nat)
    requires At(data, pos, l + Eol(cr)) && NoneIn(l, CRLF) && n == pos + |l| + |Eol(cr)|
    ensures ReadLineAt(data, pos) == Some(Line(l, n))
  {
    assert LF !in l && (l == [] || l[|l| - 1] != CR);
    if cr {
      LineCrLf(data, pos, l);
    } else {
      LineLf(data, pos, l);
    }
  }

  /** A continuation line: its leading spaces and tabs, the text after them, and whether it ends with "\r\n". */
  datatype Fold = Fold(ws: seq<byte>, text: seq<byte>, cr: bool)

  /** The bytes a continuation line takes in the input. */
  function FoldSize(f: Fold): nat {
    |f.ws| + |f.text| + |Eol(f.cr)|
  }

  predicate GoodFold(f: Fold) {
    f.ws != [] && AllIn(f.ws, WSP) && NoneIn(f.text, CRLF) && (f.text == [] || f.text[0] !in WSP)
  }

  /** What the continuation lines add to the value: a space and the trimmed text each. */
  function UnfoldedValue(cs: seq<Fold>): seq<byte>
    decreases |cs|
  {
    if cs == [] then [] else [SP] + TrimSet(cs[0].text, WSP) + UnfoldedValue(cs[1..])
  }

  /** What the continuation lines add to the raw header: each line after a LF. */
  function UnfoldedRaw(cs: seq<Fold>): seq<byte>
    decreases |cs|
  {
    if cs == [] then [] else [LF] + cs[0].ws + cs[0].text + UnfoldedRaw(cs[1..])
  }

  /** The input at `pos` does not go on with a space or a tab. */
  predicate StopsAt(data: seq<byte>, pos: nat) {
    pos == |data| || (pos < |data| && data[pos] !in WSP)
  }

  lemma SkipWspRun(data: seq<byte>, q: nat, ws: seq<byte>)
    requires At(data, q, ws) && AllIn(ws, WSP)
    requires StopsAt(data, q + |ws|)
    ensures SkipWsp(data, q) == q + |ws|
  {
    var k := SkipWsp(data, q);
    forall j | q <= j < q + |ws| ensures data[j] in WSP { assert data[j] == ws[j - q]; }
  }

  /** One pass of the continuation loop, as an equation. */
  lemma TailUnfold(data: seq<byte>, q: nat, k: nat, l: Line)
    requires q < k <= |data| && SkipWsp(data, q) == k && ReadLineAt(data, k) == Some(l)
    ensures var r := ContinuationTail(data, l.next);
      ContinuationTail(data, q) == Tail([SP] + TrimSet(l.text, WSP) + r.kv, [LF] + data[q..k] + l.text + r.raw, r.next)
  {
  }

  /** What the input holds for one continuation line: where its white space ends and its text. */
  lemma FoldFacts(data: seq<byte>, q: nat, f: Fold, k: nat, n: nat)
    requires GoodFold(f) && k == q + |f.ws| && n == q + FoldSize(f)
    requires At(data, q, f.ws) && At(data, k, f.text + Eol(f.cr))
    ensures SkipWsp(data, q) == k && data[q..k] == f.ws
    ensures ReadLineAt(data, k) == Some(Line(f.text, n))
  {
    assert data[k] == data[k..k + |f.text| + |Eol(f.cr)|][0];
    SkipWspRun(data, q, f.ws);
    LineEol(data, k, f.text, f.cr, n);
  }

  /** Every continuation line is well formed. */
  predicate GoodFolds(cs: seq<Fold>)
    decreases |cs|
  {
    cs == [] || (GoodFold(cs[0]) && GoodFolds(cs[1..]))
  }

  /** The input holds the continuation lines `cs` from `q` on, each with its end of line. */
  predicate FoldsAt(data: seq<byte>, q: nat, cs: seq<Fold>)
    decreases |cs|
  {
    cs == [] ||
    (At(data, q, cs[0].ws) && At(data, q + |cs[0].ws|, cs[0].text + Eol(cs[0].cr)) &&
     FoldsAt(data, q + FoldSize(cs[0]), cs[1..]))
  }

  /** The position after the continuation lines `cs` read from `q`. */
  function FoldsEnd(q: nat, cs: seq<Fold>): nat
    decreases |cs|
  {
    if cs == [] then q else FoldsEnd(q + FoldSize(cs[0]), cs[1..])
  }

  /** Reading from `q` finds the continuation lines `cs`, line after line. */
  predicate FoldsRead(data: seq<byte>, q: nat, cs: seq<Fold>)
    decreases |cs|
  {
    cs == [] ||
    (q <= |data| &&
     var k := SkipWsp(data, q);
     var l := ReadLineAt(data, k);
     q < k && data[q..k] == cs[0].ws && l.Some? && l.value.text == cs[0].text &&
     FoldsRead(data, l.value.next, cs[1..]))
  }

  /** Where reading the continuation lines `cs` from `q` stops. */
  function ReadEnd(data: seq<byte>, q: nat, cs: seq<Fold>): (e: nat)
    requires q <= |data| && FoldsRead(data, q, cs)
    ensures e <= |data|
    decreases |cs|
  {
    if cs == [] then q else ReadEnd(data, ReadLineAt(data, SkipWsp(data, q)).value.next, cs[1..])
  }

  lemma FoldsReadCons(data: seq<byte>, q: nat, k: nat, n: nat, cs: seq<Fold>, e: nat)
    requires cs != [] && q < k <= |data| && n <= |data|
    requires SkipWsp(data, q) == k && data[q..k] == cs[0].ws && ReadLineAt(data, k) == Some(Line(cs[0].text, n))
    requires FoldsRead(data, n, cs[1..]) && ReadEnd(data, n, cs[1..]) == e
    ensures FoldsRead(data, q, cs) && ReadEnd(data, q, cs) == e
  {
  }

  lemma FoldsEndCons(q: nat, cs: seq<Fold>, n: nat)
    requires cs != [] && n == q + FoldSize(cs[0])
    ensures FoldsEnd(q, cs) == FoldsEnd(n, cs[1..])
  {
  }

  /** The layout of the first continuation line and the reading of the rest give the reading of all. */
  lemma FoldsAtStep(data: seq<byte>, q: nat, cs: seq<Fold>, n: nat)
    requires cs != [] && q <= |data| && GoodFold(cs[0]) && n == q + FoldSize(cs[0])
    requires At(data, q, cs[0].ws) && At(data, q + |cs[0].ws|, cs[0].text + Eol(cs[0].cr))
    requires FoldsRead(data, n, cs[1..]) && ReadEnd(data, n, cs[1..]) == FoldsEnd(n, cs[1..])
    ensures FoldsRead(data, q, cs) && ReadEnd(data, q, cs) == FoldsEnd(q, cs)
  {
    var k := q + |cs[0].ws|;
    var e := FoldsEnd(n, cs[1..]);
    FoldFacts(data, q, cs[0], k, n);
    FoldsReadCons(data, q, k, n, cs, e);
    FoldsEndCons(q, cs, n);
    assert ReadEnd(data, q, cs) == e && FoldsEnd(q, cs) == e;
  }

  lemma {:induction false} FoldsAtRead(data: seq<byte>, q: nat, cs: seq<Fold>)
    requires q <= |data| && GoodFolds(cs) && FoldsAt(data, q, cs)
    ensures FoldsRead(data, q, cs) && ReadEnd(data, q, cs) == FoldsEnd(q, cs)
    decreases |cs|
  {
    if cs != [] {
      FoldsAtRead(data, q + FoldSize(cs[0]), cs[1..]);
      FoldsAtStep(data, q, cs, q + FoldSize(cs[0]));
    }
  }

  /** One continuation line in front of lines already read. */
  lemma TailCons(data: seq<byte>, q: nat, k: nat, n: nat, cs: seq<Fold>, e: nat)
    requires cs != [] && q < k <= |data| && n <= |data|
    requires SkipWsp(data, q) == k && data[q..k] == cs[0].ws && ReadLineAt(data, k) == Some(Line(cs[0].text, n))
    requires ContinuationTail(data, n) == Tail(UnfoldedValue(cs[1..]), UnfoldedRaw(cs[1..]), e)
    ensures ContinuationTail(data, q) == Tail(UnfoldedValue(cs), UnfoldedRaw(cs), e)
  {
    TailUnfold(data, q, k, Line(cs[0].text, n));
  }

  lemma {:induction false} TailRead(data: seq<byte>, q: nat, cs: seq<Fold>)
    requires q <= |data| && FoldsRead(data, q, cs) && StopsAt(data, ReadEnd(data, q, cs))
    ensures ContinuationTail(data, q) == Tail(UnfoldedValue(cs), UnfoldedRaw(cs), ReadEnd(data, q, cs))
    decreases |cs|
  {
    if cs == [] {
      assert SkipWsp(data, q) == q;
    } else {
      var k := SkipWsp(data, q);
      var l := ReadLineAt(data, k).value;
      TailRead(data, l.next, cs[1..]);
      TailCons(data, q, k, l.next, cs, ReadEnd(data, l.next, cs[1..]));
    }
  }

  /**
   * Undoing the folding: continuation lines, each white space and then text up
   * to its end of line, add one space and the trimmed text each to the value, and a LF and
   * the line as it stands to the raw text.
   */
  lemma ContinuationsFold(data: seq<byte>, q: nat, cs: seq<Fold>)
    requires q <= |data| && GoodFolds(cs) && FoldsAt(data, q, cs) && StopsAt(data, FoldsEnd(q, cs))
    ensures ContinuationTail(data, q) == Tail(UnfoldedValue(cs), UnfoldedRaw(cs), FoldsEnd(q, cs))
  {
    FoldsAtRead(data, q, cs);
    TailRead(data, q, cs);
  }

  /** A non-empty first line followed by its continuation lines, as an equation. */
  lemma ContinuedUnfold(data: seq<byte>, pos: nat, l: Line, t: Tail)
    requires pos <= |data| && ReadLineAt(data, pos) == Some(l) && l.text != []
    requires ContinuationTail(data, l.next) == t
    ensures ContinuedAt(data, pos) == Continued(TrimSet(l.text, WSP) + t.kv, l.text + t.raw, t.next, None)
  {
  }

  /**
   * A folded header line: the first line trimmed followed by the unfolded
   * continuation lines; its raw text is the lines joined by LF.
   */
  lemma ContinuedFold(data: seq<byte>, pos: nat, first: seq<byte>, cr: bool, cs: seq<Fold>, n: nat)
    requires first != [] && NoneIn(first, CRLF)
    requires GoodFolds(cs)
    requires At(data, pos, first + Eol(cr)) && n == pos + |first| + |Eol(cr)| && FoldsAt(data, n, cs)
    requires StopsAt(data, FoldsEnd(n, cs))
    ensures ContinuedAt(data, pos) == Continued(TrimSet(first, WSP) + UnfoldedValue(cs), first + UnfoldedRaw(cs), FoldsEnd(n, cs), None)
  {
    FoldedParts(data, pos, first, cr, cs, n);
    ContinuedUnfold(data, pos, Line(first, n), Tail(UnfoldedValue(cs), UnfoldedRaw(cs), FoldsEnd(n, cs)));
  }

  /** The first line of a folded header line and the continuation lines after it, read separately. */
  lemma FoldedParts(data: seq<byte>, pos: nat, first: seq<byte>, cr: bool, cs: seq<Fold>, n: nat)
    requires NoneIn(first, CRLF) && GoodFolds(cs)
    requires At(data, pos, first + Eol(cr)) && n == pos + |first| + |Eol(cr)| && FoldsAt(data, n, cs)
    requires StopsAt(data, FoldsEnd(n, cs))
    ensures n <= |data| && ReadLineAt(data, pos) == Some(Line(first, n))
    ensures ContinuationTail(data, n) == Tail(UnfoldedValue(cs), UnfoldedRaw(cs), FoldsEnd(n, cs))
  {
    LineEol(data, pos, first, cr, n);
    ContinuationsFold(data, n, cs);
  }

  /** One stuffed line of a dot-encoded block: read, unstuffed and collected. */
  lemma DotLinesStep(data: seq<byte>, p: nat, l: seq<byte>, n: nat, acc: seq<seq<byte>>)
    requires p <= |data| && n <= |data| && ReadLineAt(data, p) == Some(Line(Stuff(l), n))
    ensures DotLinesFrom(data, p, acc) == DotLinesFrom(data, n, acc + [l])
  {
    if l != [] && l[0] == DOT {
      assert Stuff(l)[1..] == l;
    }
  }

  /**
   * `ReadDotLines` undoes the dot encoding: lines without CR or LF, stuffed and
   * ended by "\r\n", then ".\r\n", come back as they were, with no error, and
   * reading stops right after the end marker.
   */
  lemma {:induction false} DotLinesRoundTrip(data: seq<byte>, p: nat, lines: seq<seq<byte>>, acc: seq<seq<byte>>)
    requires PlainLines(lines) && At(data, p, DotEncode(lines))
    ensures DotLinesFrom(data, p, acc) == DotLines(acc + lines, p + |DotEncode(lines)|, None)
    decreases |lines|
  {
    if lines == [] {
      LineCrLf(data, p, [DOT]);
    } else {
      var n := DotLinesHead(data, p, lines);
      PlainLinesTail(lines);
      DotLinesRoundTrip(data, n, lines[1..], acc + [lines[0]]);
      DotLinesCombine(data, p, n, lines, acc, n + |DotEncode(lines[1..])|);
    }
  }

  /** The first stuffed line of a dot-encoded block, and the rest of the block after it. */
  lemma DotLinesHead(data: seq<byte>, p: nat, lines: seq<seq<byte>>) returns (n: nat)
    requires lines != [] && NoneIn(lines[0], CRLF) && At(data, p, DotEncode(lines))
    ensures n <= |data| && ReadLineAt(data, p) == Some(Line(Stuff(lines[0]), n))
    ensures At(data, n, DotEncode(lines[1..])) && n + |DotEncode(lines[1..])| == p + |DotEncode(lines)|
  {
    n := p + |Stuff(lines[0])| + 2;
    var a, rest := Stuff(lines[0]), DotEncode(lines[1..]);
    assert LF !in a;
    assert DotEncode(lines) == (a + [CR, LF]) + rest;
    AtConcat(data, p, a + [CR, LF], rest);
    LineCrLf(data, p, a);
  }

  lemma DotLinesCombine(data: seq<byte>, p: nat, n: nat, lines: seq<seq<byte>>, acc: seq<seq<byte>>, e: nat)
    requires lines != [] && p <= |data| && n <= |data|
    requires ReadLineAt(data, p) == Some(Line(Stuff(lines[0]), n))
    requires DotLinesFrom(data, n, acc + [lines[0]]) == DotLines(acc + [lines[0]] + lines[1..], e, None)
    ensures DotLinesFrom(data, p, acc) == DotLines(acc + lines, e, None)
  {
    DotLinesStep(data, p, lines[0], n, acc);
    assert acc + [lines[0]] + lines[1..] == acc + lines;
  }

  /**
   * `ReadDotLines` ends the block at "\n.\n" where the dot reader does not: a bare
   * LF read at the start of a line (here the first byte of the block) moves the
   * state machine into a line, not back to its start, so the dot is data and
   * the input runs out first.
   */
  lemma DotLinesBareLf()
    ensures DotLinesFrom([LF, DOT, LF], 0, []) == DotLines([[]], 3, None)
    ensures Read(BeginLine, [LF, DOT, LF], 0, 4) == Run([LF, DOT, LF], BeginLine, 3, Some(UnexpectedEOF))
  {
    var s: seq<byte> := [LF, DOT, LF];
    LineLf(s, 0, []);
    LineLf(s, 1, [DOT]);
    DotLinesStep(s, 0, [], 1, []);
    BareLfBeforeDotLine();
  }

  /** The values a header holds for `k`, none when `k` is absent. */
  function ValuesOf(h: Header, k: seq<byte>): seq<seq<byte>> {
    if k in h then h[k] else []
  }

  /**
   * A logical header line as it stands in the input: its first line, whether
   * that line ends with "\r\n" rather than "\n", and its continuation lines.
   */
  datatype HeaderLine = HeaderLine(first: seq<byte>, cr: bool, folds: seq<Fold>)

  /** The bytes of continuation lines in the input. */
  function FoldBytes(cs: seq<Fold>): seq<byte>
    decreases |cs|
  {
    if cs == [] then [] else cs[0].ws + cs[0].text + Eol(cs[0].cr) + FoldBytes(cs[1..])
  }

  /** The bytes of a logical line in the input. */
  function LineBytes(h: HeaderLine): seq<byte> {
    h.first + Eol(h.cr) + FoldBytes(h.folds)
  }

  /** The bytes of logical lines one after the other. */
  function HeaderBytes(hs: seq<HeaderLine>): seq<byte>
    decreases |hs|
  {
    if hs == [] then [] else LineBytes(hs[0]) + HeaderBytes(hs[1..])
  }

  /** The value of a logical line with its folding undone: the first line trimmed, then each continuation. */
  function LineValue(h: HeaderLine): seq<byte> {
    TrimSet(h.first, WSP) + UnfoldedValue(h.folds)
  }

  /** The raw text of a logical line: its lines joined by LF, without their ends. */
  function RawLine(h: HeaderLine): seq<byte> {
    h.first + UnfoldedRaw(h.folds)
  }

  /**
   * A logical line on its own: the first line starts with a byte other than
   * white space (so it is no continuation line), and no line holds a CR or LF.
   */
  predicate LogicalLine(h: HeaderLine) {
    h.first != [] && h.first[0] !in WSP && NoneIn(h.first, CRLF) && GoodFolds(h.folds)
  }

  /** A logical line that is a field: its value has a colon. */
  predicate FieldLine(h: HeaderLine) {
    LogicalLine(h) && COLON in LineValue(h)
  }

  predicate FieldLines(hs: seq<HeaderLine>)
    decreases |hs|
  {
    hs == [] || (FieldLine(hs[0]) && FieldLines(hs[1..]))
  }

  /** Lines one after the other, each ended by "\n". */
  function Lines(ls: seq<seq<byte>>): seq<byte>
    decreases |ls|
  {
    if ls == [] then [] else ls[0] + [LF] + Lines(ls[1..])
  }

  /** The raw texts of logical lines. */
  function Raws(hs: seq<HeaderLine>): seq<seq<byte>>
    decreases |hs|
  {
    if hs == [] then [] else [RawLine(hs[0])] + Raws(hs[1..])
  }

  /** Continuation lines as the input holds them, without their ends. */
  function FoldLines(cs: seq<Fold>): seq<seq<byte>>
    decreases |cs|
  {
    if cs == [] then [] else [cs[0].ws + cs[0].text] + FoldLines(cs[1..])
  }

  /** Every line of the logical lines `hs`, first lines and continuation lines alike, without its end. */
  function PhysicalLines(hs: seq<HeaderLine>): seq<seq<byte>>
    decreases |hs|
  {
    if hs == [] then [] else [hs[0].first] + FoldLines(hs[0].folds) + PhysicalLines(hs[1..])
  }

  predicate FoldsLfOnly(cs: seq<Fold>)
    decreases |cs|
  {
    cs == [] || (!cs[0].cr && FoldsLfOnly(cs[1..]))
  }

  /** No line of `hs` ends with "\r\n". */
  predicate LfOnly(hs: seq<HeaderLine>)
    decreases |hs|
  {
    hs == [] || (!hs[0].cr && FoldsLfOnly(hs[0].folds) && LfOnly(hs[1..]))
  }

  /** Lines that are not empty and hold no CR or LF. */
  predicate TextLines(ls: seq<seq<byte>>) {
    forall i :: 0 <= i < |ls| ==> ls[i] != [] && NoneIn(ls[i], CRLF)
  }

  /** How a header block ends: with a blank line, or with the end of the input. */
  datatype BlockEnd = BlankLine(cr: bool) | EndOfInput

  /** The bytes that end a block. */
  function EndBytes(e: BlockEnd): seq<byte> {
    if e.BlankLine? then Eol(e.cr) else []
  }

  /** What the header loop reports at the end of a block: nothing after a blank line, `io.EOF` at the end of the input. */
  function EndError(e: BlockEnd): Option<Error> {
    if e.BlankLine? then None else Some(EOF)
  }

  /** The input holds the logical lines `hs` from `p` on, and then the end `e` of the block. */
  predicate BlockAt(data: seq<byte>, p: nat, hs: seq<HeaderLine>, e: BlockEnd) {
    At(data, p, HeaderBytes(hs) + EndBytes(e)) && (e == EndOfInput ==> p + |HeaderBytes(hs)| == |data|)
  }

  lemma {:induction false} LinesConcat(a: seq<seq<byte>>, b: seq<seq<byte>>)
    ensures Lines(a + b) == Lines(a) + Lines(b)
    decreases |a|
  {
    if a == [] {
      assert a + b == b;
    } else {
      assert (a + b)[1..] == a[1..] + b;
      LinesConcat(a[1..], b);
    }
  }

  /** A first line and its continuation lines: the raw text and a LF are the lines, each with a LF. */
  lemma {:induction false} UnfoldedRawLines(x: seq<byte>, cs: seq<Fold>)
    ensures x + UnfoldedRaw(cs) + [LF] == Lines([x] + FoldLines(cs))
    decreases |cs|
  {
    if cs == [] {
      assert [x] + FoldLines(cs) == [x] + [];
      LinesCons(x, []);
    } else {
      var y, rest := cs[0].ws + cs[0].text, cs[1..];
      UnfoldedRawLines(y, rest);
      assert FoldLines(cs) == [y] + FoldLines(rest);
      LinesCons(x, FoldLines(cs));
      assert UnfoldedRaw(cs) == [LF] + cs[0].ws + cs[0].text + UnfoldedRaw(rest);
      RawRegroup(x, cs[0].ws, cs[0].text, UnfoldedRaw(rest));
    }
  }

  lemma LinesCons(x: seq<byte>, ls: seq<seq<byte>>)
    ensures Lines([x] + ls) == x + [LF] + Lines(ls)
  {
    var c := [x] + ls;
    assert c[0] == x && c[1..] == ls;
  }

  lemma RawRegroup(x: seq<byte>, ws: seq<byte>, text: seq<byte>, r: seq<byte>)
    ensures x + ([LF] + ws + text + r) + [LF] == x + [LF] + (ws + text + r + [LF])
  {
  }

  lemma RawsCons(hs: seq<HeaderLine>)
    requires hs != []
    ensures Raws(hs)[0] == RawLine(hs[0]) && Raws(hs)[1..] == Raws(hs[1..])
  {
    assert ([RawLine(hs[0])] + Raws(hs[1..]))[1..] == Raws(hs[1..]);
  }

  /** The raw texts of logical lines, each with a LF, are their lines, each with a LF. */
  lemma {:induction false} RawsLines(hs: seq<HeaderLine>)
    ensures Lines(Raws(hs)) == Lines(PhysicalLines(hs))
    decreases |hs|
  {
    if hs != [] {
      var h := hs[0];
      var own := [h.first] + FoldLines(h.folds);
      RawsLines(hs[1..]);
      RawsCons(hs);
      UnfoldedRawLines(h.first, h.folds);
      LinesConcat(own, PhysicalLines(hs[1..]));
      assert PhysicalLines(hs) == own + PhysicalLines(hs[1..]);
    }
  }

  lemma {:induction false} FoldBytesLf(cs: seq<Fold>)
    requires FoldsLfOnly(cs)
    ensures FoldBytes(cs) == Lines(FoldLines(cs))
    decreases |cs|
  {
    if cs != [] {
      var y := cs[0].ws + cs[0].text;
      FoldBytesLf(cs[1..]);
      assert FoldLines(cs) == [y] + FoldLines(cs[1..]);
      assert ([y] + FoldLines(cs[1..]))[1..] == FoldLines(cs[1..]);
    }
  }

  /** Where no line ends with "\r\n", the bytes of logical lines are their lines, each with a LF. */
  lemma {:induction false} HeaderBytesLf(hs: seq<HeaderLine>)
    requires LfOnly(hs)
    ensures HeaderBytes(hs) == Lines(PhysicalLines(hs))
    decreases |hs|
  {
    if hs != [] {
      var h := hs[0];
      var own := [h.first] + FoldLines(h.folds);
      HeaderBytesLf(hs[1..]);
      FoldBytesLf(h.folds);
      assert own[0] == h.first && own[1..] == FoldLines(h.folds);
      assert Lines(own) == h.first + [LF] + FoldBytes(h.folds);
      LinesConcat(own, PhysicalLines(hs[1..]));
      assert PhysicalLines(hs) == own + PhysicalLines(hs[1..]);
    }
  }

  /**
   * The raw header of logical lines is their lines joined by LF, each followed
   * by a LF, whatever ends them in the input: the CR of a "\r\n" is lost.
   * Where no line ends with "\r\n" the raw header is the input as it was.
   */
  lemma RawHeaderLines(hs: seq<HeaderLine>)
    ensures Lines(Raws(hs)) == Lines(PhysicalLines(hs))
    ensures LfOnly(hs) ==> Lines(Raws(hs)) == HeaderBytes(hs)
  {
    RawsLines(hs);
    if LfOnly(hs) {
      HeaderBytesLf(hs);
    }
  }

  lemma TextLinesConcat(a: seq<seq<byte>>, b: seq<seq<byte>>)
    requires TextLines(a) && TextLines(b)
    ensures TextLines(a + b)
  {
    forall i | 0 <= i < |a + b| ensures (a + b)[i] != [] && NoneIn((a + b)[i], CRLF) {
      if i < |a| {
        assert (a + b)[i] == a[i];
      } else {
        assert (a + b)[i] == b[i - |a|];
      }
    }
  }

  lemma {:induction false} FoldTextLines(cs: seq<Fold>)
    requires GoodFolds(cs)
    ensures TextLines(FoldLines(cs))
    decreases |cs|
  {
    if cs != [] {
      var y := cs[0].ws + cs[0].text;
      FoldTextLines(cs[1..]);
      forall i | 0 <= i < |y| ensures y[i] !in CRLF {
        if i < |cs[0].ws| {
          assert y[i] == cs[0].ws[i];
        } else {
          assert y[i] == cs[0].text[i - |cs[0].ws|];
        }
      }
      TextLinesConcat([y], FoldLines(cs[1..]));
    }
  }

  /** Every line of field lines as the input holds them is not empty and has no CR or LF. */
  lemma {:induction false} PhysicalTextLines(hs: seq<HeaderLine>)
    requires FieldLines(hs)
    ensures TextLines(PhysicalLines(hs))
    decreases |hs|
  {
    if hs != [] {
      var h := hs[0];
      PhysicalTextLines(hs[1..]);
      FoldTextLines(h.folds);
      TextLinesCons(h.first, FoldLines(h.folds), PhysicalLines(hs[1..]));
    }
  }

  /** A text line in front of two runs of text lines. */
  lemma TextLinesCons(x: seq<byte>, a: seq<seq<byte>>, b: seq<seq<byte>>)
    requires x != [] && NoneIn(x, CRLF) && TextLines(a) && TextLines(b)
    ensures TextLines([x] + a + b)
  {
    assert TextLines([x]) by {
      assert forall i :: 0 <= i < |[x]| ==> [x][i] == x;
    }
    TextLinesConcat([x], a);
    TextLinesConcat([x] + a, b);
  }

  /** The values the field lines `hs` give the key `k`, in the order of the lines. */
  function LineValues(k: seq<byte>, hs: seq<HeaderLine>): seq<seq<byte>>
    requires FieldLines(hs)
    decreases |hs|
  {
    if hs == [] then []
    else
      var f := SplitField(LineValue(hs[0]));
      (if f.0 == k && k != [] then [f.1] else []) + LineValues(k, hs[1..])
  }

  /** The header after the field lines `hs`, one `AddField` per logical line. */
  function AddLines(m: Header, hs: seq<HeaderLine>): Header
    requires FieldLines(hs)
    decreases |hs|
  {
    if hs == [] then m else AddLines(AddField(m, LineValue(hs[0])), hs[1..])
  }

  lemma AddValueValues(m: Header, key: seq<byte>, v: seq<byte>, k: seq<byte>)
    ensures ValuesOf(AddValue(m, key, v), k) == ValuesOf(m, k) + (if key == k then [v] else [])
    ensures k in AddValue(m, key, v) <==> k in m || key == k
  {
  }

  /** One field line adds its value after the values of its key and changes no other key. */
  lemma AddFieldValues(m: Header, kv: seq<byte>, f: (seq<byte>, seq<byte>), k: seq<byte>)
    requires COLON in kv && SplitField(kv) == f
    ensures ValuesOf(AddField(m, kv), k) == ValuesOf(m, k) + (if f.0 == k && k != [] then [f.1] else [])
    ensures k in AddField(m, kv) <==> k in m || (f.0 == k && k != [])
  {
    FieldValues(m, SplitField(kv), k);
  }

  /** The values after adding the field `f`: one more for its key unless that key is empty. */
  lemma FieldValues(m: Header, f: (seq<byte>, seq<byte>), k: seq<byte>)
    ensures ValuesOf(AddSplit(m, f), k) == ValuesOf(m, k) + (if f.0 == k && k != [] then [f.1] else [])
    ensures k in AddSplit(m, f) <==> k in m || (f.0 == k && k != [])
  {
    if f.0 != [] {
      AddValueValues(m, f.0, f.1, k);
    }
  }

  lemma LineValuesCons(k: seq<byte>, hs: seq<HeaderLine>, f: (seq<byte>, seq<byte>))
    requires hs != [] && FieldLines(hs) && SplitField(LineValue(hs[0])) == f
    ensures LineValues(k, hs) == (if f.0 == k && k != [] then [f.1] else []) + LineValues(k, hs[1..])
  {
  }

  lemma AddLinesCons(m: Header, hs: seq<HeaderLine>)
    requires hs != [] && FieldLines(hs)
    ensures AddLines(m, hs) == AddLines(AddField(m, LineValue(hs[0])), hs[1..])
  {
  }

  lemma ConcatAssoc(a: seq<seq<byte>>, b: seq<seq<byte>>, c: seq<seq<byte>>)
    ensures a + b + c == a + (b + c)
  {
  }

  /**
   * Repeated keys accumulate their values in the order of the lines, and every
   * other key keeps its values: what the documentation's "My-Key" example shows.
   */
  lemma {:induction false} AddLinesValues(m: Header, hs: seq<HeaderLine>, k: seq<byte>)
    requires FieldLines(hs)
    ensures ValuesOf(AddLines(m, hs), k) == ValuesOf(m, k) + LineValues(k, hs)
    ensures k in AddLines(m, hs) <==> k in m || LineValues(k, hs) != []
    decreases |hs|
  {
    if hs != [] {
      var kv := LineValue(hs[0]);
      var f := SplitField(kv);
      var m' := AddField(m, kv);
      AddLinesCons(m, hs);
      LineValuesCons(k, hs, f);
      AddFieldValues(m, kv, f, k);
      AddLinesValues(m', hs[1..], k);
      var mine: seq<seq<byte>> := if f.0 == k && k != [] then [f.1] else [];
      ConcatAssoc(ValuesOf(m, k), mine, LineValues(k, hs[1..]));
    }
  }

  /** The raw header after the lines `ls` when `oh` was read before them. */
  function RawAfter(oh: seq<byte>, ls: seq<seq<byte>>): seq<byte> {
    if oh == [] then Lines(ls) else oh + [LF] + Lines(ls)
  }

  lemma RawStep(oh: seq<byte>, ls: seq<seq<byte>>)
    requires ls != [] && ls[0] != []
    ensures RawAfter(JoinRaw(oh, ls[0]), ls[1..]) == RawAfter(oh, ls)
  {
    var l := ls[0];
    var t := l + [LF] + Lines(ls[1..]);
    assert Lines(ls) == t;
    if oh != [] {
      assert JoinRaw(oh, l) == oh + [LF] + l;
      assert oh + [LF] + l + [LF] + Lines(ls[1..]) == oh + [LF] + t;
    }
  }

  /** One logical line with a colon in front of the rest of the header, with abstract positions. */
  lemma HeaderFieldStep(data: seq<byte>, p: nat, kv: seq<byte>, raw: seq<byte>, n: nat, m: Header, oh: seq<byte>)
    requires p <= |data| && n <= |data| && COLON in kv
    requires ContinuedAt(data, p) == Continued(kv, raw, n, None)
    ensures HeaderLoop(data, p, m, oh) == HeaderLoop(data, n, AddField(m, kv), JoinRaw(oh, raw))
  {
    LogicalLineUnfold(data, p, m, oh);
  }

  /** The blank line that ends a header, with abstract positions. */
  lemma HeaderBlankStep(data: seq<byte>, p: nat, n: nat, m: Header, oh: seq<byte>)
    requires p <= |data| && n <= |data| && ReadLineAt(data, p) == Some(Line([], n))
    ensures HeaderLoop(data, p, m, oh) == HeaderRead(m, JoinRaw(oh, []), n, None)
  {
  }

  /** The input after logical lines does not go on with white space: a new line, the blank line or the end follows. */
  lemma NextStops(data: seq<byte>, n: nat, hs: seq<HeaderLine>, e: BlockEnd)
    requires FieldLines(hs) && BlockAt(data, n, hs, e)
    ensures StopsAt(data, n)
  {
    var b := HeaderBytes(hs) + EndBytes(e);
    if b != [] {
      assert data[n] == data[n..n + |b|][0];
      if hs != [] {
        assert b[0] == hs[0].first[0];
      }
    }
  }

  /** The first logical line of a block and the rest of the block after it. */
  lemma BlockSplit(data: seq<byte>, p: nat, hs: seq<HeaderLine>, e: BlockEnd) returns (n: nat)
    requires hs != [] && BlockAt(data, p, hs, e)
    ensures n == p + |LineBytes(hs[0])| && At(data, p, LineBytes(hs[0])) && BlockAt(data, n, hs[1..], e)
    ensures n + |HeaderBytes(hs[1..])| == p + |HeaderBytes(hs)|
  {
    var a, r, t := LineBytes(hs[0]), HeaderBytes(hs[1..]), EndBytes(e);
    assert HeaderBytes(hs) == a + r;
    n := SplitAt(data, p, a, r, t);
  }

  lemma SplitAt(data: seq<byte>, p: nat, a: seq<byte>, r: seq<byte>, t: seq<byte>) returns (n: nat)
    requires At(data, p, a + r + t)
    ensures n == p + |a| && At(data, p, a) && At(data, n, r + t)
  {
    n := p + |a|;
    assert a + r + t == a + (r + t);
    AtConcat(data, p, a, r + t);
  }

  /** The bytes of continuation lines lay them out, and they end right after those bytes. */
  lemma {:induction false} FoldBytesAt(data: seq<byte>, q: nat, cs: seq<Fold>)
    requires At(data, q, FoldBytes(cs))
    ensures FoldsAt(data, q, cs) && FoldsEnd(q, cs) == q + |FoldBytes(cs)|
    decreases |cs|
  {
    if cs != [] {
      var f, rest := cs[0], FoldBytes(cs[1..]);
      var n := FoldHead(data, q, f, rest);
      FoldBytesAt(data, n, cs[1..]);
    }
  }

  lemma FoldHead(data: seq<byte>, q: nat, f: Fold, rest: seq<byte>) returns (n: nat)
    requires At(data, q, f.ws + f.text + Eol(f.cr) + rest)
    ensures n == q + FoldSize(f) && At(data, n, rest)
    ensures At(data, q, f.ws) && At(data, q + |f.ws|, f.text + Eol(f.cr))
    ensures n + |rest| == q + |f.ws + f.text + Eol(f.cr) + rest|
  {
    n := q + FoldSize(f);
    assert f.ws + f.text + Eol(f.cr) + rest == f.ws + (f.text + Eol(f.cr)) + rest;
    AtConcat(data, q, f.ws + (f.text + Eol(f.cr)), rest);
    AtConcat(data, q, f.ws, f.text + Eol(f.cr));
  }

  /** A logical line followed by no white space is read as its value and raw text. */
  lemma FirstLogicalLine(data: seq<byte>, p: nat, h: HeaderLine, n: nat)
    requires LogicalLine(h) && At(data, p, LineBytes(h)) && n == p + |LineBytes(h)| && StopsAt(data, n)
    ensures ContinuedAt(data, p) == Continued(LineValue(h), RawLine(h), n, None)
  {
    var q := p + |h.first| + |Eol(h.cr)|;
    AtConcat(data, p, h.first + Eol(h.cr), FoldBytes(h.folds));
    FoldBytesAt(data, q, h.folds);
    ContinuedFold(data, p, h.first, h.cr, h.folds, q);
  }

  /** The end of a block alone. */
  lemma HeaderBlockEnd(data: seq<byte>, p: nat, e: BlockEnd, m: Header, oh: seq<byte>)
    requires BlockAt(data, p, [], e)
    ensures HeaderLoop(data, p, m, oh) == HeaderRead(m, RawAfter(oh, []), p + |EndBytes(e)|, EndError(e))
  {
    assert HeaderBytes([]) + EndBytes(e) == [] + EndBytes(e);
    if e.BlankLine? {
      LineEol(data, p, [], e.cr, p + |Eol(e.cr)|);
      HeaderBlankStep(data, p, p + |Eol(e.cr)|, m, oh);
    }
  }

  /** One logical field line in front of a header block, with abstract positions. */
  lemma HeaderBlockCons(data: seq<byte>, p: nat, n: nat, hs: seq<HeaderLine>, m: Header, oh: seq<byte>, e: nat, err: Option<Error>)
    requires p <= |data| && n <= |data| && hs != [] && FieldLines(hs)
    requires ContinuedAt(data, p) == Continued(LineValue(hs[0]), RawLine(hs[0]), n, None)
    requires HeaderLoop(data, n, AddField(m, LineValue(hs[0])), JoinRaw(oh, RawLine(hs[0])))
      == HeaderRead(AddLines(AddField(m, LineValue(hs[0])), hs[1..]), RawAfter(JoinRaw(oh, RawLine(hs[0])), Raws(hs[1..])), e, err)
    ensures HeaderLoop(data, p, m, oh) == HeaderRead(AddLines(m, hs), RawAfter(oh, Raws(hs)), e, err)
  {
    HeaderFieldStep(data, p, LineValue(hs[0]), RawLine(hs[0]), n, m, oh);
    AddLinesCons(m, hs);
    RawsCons(hs);
    RawStep(oh, Raws(hs));
  }

  /**
   * A header block of logical field lines, folded or not, each line ended by
   * "\r\n" or "\n", then a blank line or the end of the input: every logical
   * line adds its field, the raw header is the raw texts of the lines, and
   * reading stops after the block with no error after a blank line and with
   * `io.EOF` at the end of the input.
   */
  lemma {:induction false} HeaderBlock(data: seq<byte>, p: nat, hs: seq<HeaderLine>, e: BlockEnd, m: Header, oh: seq<byte>)
    requires FieldLines(hs) && BlockAt(data, p, hs, e)
    ensures HeaderLoop(data, p, m, oh)
      == HeaderRead(AddLines(m, hs), RawAfter(oh, Raws(hs)), p + |HeaderBytes(hs)| + |EndBytes(e)|, EndError(e))
    decreases |hs|
  {
    if hs == [] {
      HeaderBlockEnd(data, p, e, m, oh);
    } else {
      var n := HeaderBlockHead(data, p, hs, e);
      HeaderBlock(data, n, hs[1..], e, AddField(m, LineValue(hs[0])), JoinRaw(oh, RawLine(hs[0])));
      HeaderBlockCons(data, p, n, hs, m, oh, n + |HeaderBytes(hs[1..])| + |EndBytes(e)|, EndError(e));
    }
  }

  /** The first logical line of a header block, and where the rest of the block starts. */
  lemma HeaderBlockHead(data: seq<byte>, p: nat, hs: seq<HeaderLine>, e: BlockEnd) returns (n: nat)
    requires hs != [] && FieldLines(hs) && BlockAt(data, p, hs, e)
    ensures p <= |data| && n <= |data| && COLON in LineValue(hs[0])
    ensures ContinuedAt(data, p) == Continued(LineValue(hs[0]), RawLine(hs[0]), n, None)
    ensures FieldLines(hs[1..]) && BlockAt(data, n, hs[1..], e)
    ensures n + |HeaderBytes(hs[1..])| == p + |HeaderBytes(hs)|
  {
    n := BlockSplit(data, p, hs, e);
    NextStops(data, n, hs[1..], e);
    FirstLogicalLine(data, p, hs[0], n);
  }

  /**
   * `ReadMIMEHeader` on a header block: the header holds every field, the raw
   * header is the lines of the block joined by LF, each followed by a LF
   * (CRs before a LF lost), and reading stops after the block, with no error
   * after a blank line and with `io.EOF` at the end of the input.
   */
  lemma MimeHeaderBlock(data: seq<byte>, hs: seq<HeaderLine>, e: BlockEnd, dotState: DotState)
    requires FieldLines(hs) && BlockAt(data, 0, hs, e)
    ensures MimeHeaderAt(data, 0, false, dotState)
      == HeaderRead(AddLines(map[], hs), Lines(PhysicalLines(hs)), |HeaderBytes(hs)| + |EndBytes(e)|, EndError(e))
  {
    NextStops(data, 0, hs, e);
    HeaderBlock(data, 0, hs, e, map[], []);
    RawsLines(hs);
  }

  /** A line that starts with a byte other than white space trims to a non-empty value. */
  lemma TrimKeepsFirst(l: seq<byte>)
    requires l != [] && l[0] !in WSP
    ensures TrimSet(l, WSP) != [] && TrimSet(l, WSP)[0] == l[0]
    ensures forall b :: b !in l ==> b !in TrimSet(l, WSP)
  {
    assert DropLeft(l, WSP) == l;
  }

  /**
   * A logical line without a colon ends the header with a protocol error that
   * quotes its value; the fields read before it are kept.
   */
  lemma MalformedLine(data: seq<byte>, p: nat, h: HeaderLine, m: Header, oh: seq<byte>)
    requires LogicalLine(h) && COLON !in LineValue(h)
    requires At(data, p, LineBytes(h)) && StopsAt(data, p + |LineBytes(h)|)
    ensures HeaderLoop(data, p, m, oh)
      == HeaderRead(m, JoinRaw(oh, RawLine(h)), p + |LineBytes(h)|, Some(ProtocolError(MALFORMED_LINE + Preview(LineValue(h)))))
  {
    var n := MalformedHead(data, p, h);
    MalformedStep(data, p, LineValue(h), RawLine(h), n, m, oh);
  }

  /** A logical line read on its own: a non-empty value, its raw text, and the position after it. */
  lemma MalformedHead(data: seq<byte>, p: nat, h: HeaderLine) returns (n: nat)
    requires LogicalLine(h) && At(data, p, LineBytes(h)) && StopsAt(data, p + |LineBytes(h)|)
    ensures n == p + |LineBytes(h)| && n <= |data| && LineValue(h) != []
    ensures ContinuedAt(data, p) == Continued(LineValue(h), RawLine(h), n, None)
  {
    n := p + |LineBytes(h)|;
    FirstLogicalLine(data, p, h, n);
    TrimKeepsFirst(h.first);
  }

  /** A logical line without a colon in front of the rest of the header, with abstract positions. */
  lemma MalformedStep(data: seq<byte>, p: nat, kv: seq<byte>, raw: seq<byte>, n: nat, m: Header, oh: seq<byte>)
    requires p <= |data| && n <= |data| && kv != [] && COLON !in kv
    requires ContinuedAt(data, p) == Continued(kv, raw, n, None)
    ensures HeaderLoop(data, p, m, oh) == HeaderRead(m, JoinRaw(oh, raw), n, Some(ProtocolError(MALFORMED_LINE + Preview(kv))))
  {
  }

  /** A header whose first line starts with a space or a tab is refused with no field and no raw text. */
  lemma MalformedInitialLine(data: seq<byte>, pos: nat, dotState: DotState)
    requires pos < |data| && data[pos] in WSP
    ensures var r := MimeHeaderAt(data, pos, false, dotState);
      r.header == map[] && r.raw == [] && r.err.Some? && pos < r.next
    ensures var r := MimeHeaderAt(data, pos, false, dotState);
      var l := ReadLineAt(data, pos).value;
      r.err == Some(ProtocolError(MALFORMED_INITIAL + Preview(l.text)))
  {
  }
}
