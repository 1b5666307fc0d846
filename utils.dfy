/**
 * The helpers of the mail builder: the line wrapper used for base64 bodies
 * (76 columns, section 6.8 of RFC 2045) and the dispatch on the
 * Content-Transfer-Encoding value. The base64 and quoted-printable codecs of
 * Go's library are parameters (`Codecs`) with the laws the proofs need.
 */
module MailUtils {
  import opened Wrappers
  import opened Bytes

  /** `data` cut into consecutive pieces of `k` bytes, the last one shorter; empty data is one empty piece. */
  function Chunks(data: seq<byte>, k: nat): (cs: seq<seq<byte>>)
    requires k > 0 || data == []
    ensures |cs| > 0
    decreases |data|
  {
    if |data| <= k then [data] else [data[..k]] + Chunks(data[k..], k)
  }

  /** The pieces of `data` joined by `sep`: what `StringBreakLines` builds. */
  function BreakLines(data: seq<byte>, k: nat, sep: seq<byte>): seq<byte>
    requires k > 0 || data == []
  {
    Join(sep, Chunks(data, k))
  }

  /**
   * `StringBreakLines`: a separator before every chunk but the first, each chunk
   * `data[startIdx:min(startIdx + charsNo, len)]`, until `startIdx` passes the end.
   * With `charsNo == 0` the loop ends only for empty data, and a negative
   * `charsNo` slices out of range, so those are excluded.
   */
  method StringBreakLines(data: seq<byte>, charsNo: int, lineSeparator: seq<byte>) returns (r: seq<byte>)
    requires charsNo > 0 || (charsNo == 0 && data == [])
    ensures r == BreakLines(data, charsNo, lineSeparator)
  {
    var b: seq<byte> := [];
    var startIdx := 0;
    var stopIdx := 0;
    var maxLength := |data|;
    var stop := false;
    ghost var done: seq<seq<byte>> := [];
    while !stop
      invariant 0 <= startIdx
      invariant b == Join(lineSeparator, done)
      invariant !stop ==> startIdx <= maxLength && (startIdx < maxLength || startIdx == 0)
      invariant !stop ==> (done == [] <==> startIdx == 0)
      invariant !stop ==> Chunks(data, charsNo) == done + Chunks(data[startIdx..], charsNo)
      invariant stop ==> Chunks(data, charsNo) == done
      decreases if stop then 0 else maxLength - startIdx + 1
    {
      if startIdx > 0 {
        b := b + lineSeparator;
      }
      stopIdx := startIdx + charsNo;
      if stopIdx > maxLength {
        stopIdx := maxLength;
      }
      var chunk := data[startIdx..stopIdx];
      JoinAppend(lineSeparator, done, chunk);
      b := b + chunk;
      ChunkStep(data, charsNo, done, startIdx, chunk);
      done := done + [chunk];
      startIdx := startIdx + charsNo;
      if startIdx >= maxLength {
        stop := true;
      }
    }
    r := b;
  }

  /** One more chunk cut at `s`: what remains to cut starts `k` bytes later, or nothing remains. */
  lemma ChunkStep(data: seq<byte>, k: nat, done: seq<seq<byte>>, s: nat, chunk: seq<byte>)
    requires k > 0 || data == []
    requires s <= |data| && Chunks(data, k) == done + Chunks(data[s..], k)
    requires chunk == data[s..if s + k > |data| then |data| else s + k]
    ensures s + k < |data| ==> Chunks(data, k) == (done + [chunk]) + Chunks(data[s + k..], k)
    ensures s + k >= |data| ==> Chunks(data, k) == done + [chunk]
  {
    var rest := data[s..];
    if s + k < |data| {
      assert chunk == rest[..k] && rest[k..] == data[s + k..];
      assert Chunks(rest, k) == [chunk] + Chunks(data[s + k..], k);
    } else {
      assert chunk == rest;
    }
  }

  /** `ByteBreakLines`: `StringBreakLines` on the same bytes. */
  method ByteBreakLines(data: seq<byte>, charsNo: int, lineSeparator: seq<byte>) returns (r: seq<byte>)
    requires charsNo > 0 || (charsNo == 0 && data == [])
    ensures r == BreakLines(data, charsNo, lineSeparator)
  {
    r := StringBreakLines(data, charsNo, lineSeparator);
  }

  lemma {:induction false} ConcatFirst(xs: seq<seq<byte>>)
    requires xs != []
    ensures Concat(xs) == xs[0] + Concat(xs[1..])
    decreases |xs|
  {
    if |xs| > 1 {
      var init := xs[..|xs| - 1];
      var last := xs[|xs| - 1];
      assert Concat(xs) == Concat(init) + last;
      ConcatFirst(init);
      assert init[0] == xs[0];
      assert xs[1..] == init[1..] + [last];
      ConcatAppend(init[1..], last);
      ConcatRegroup(xs[0], Concat(init[1..]), last);
    } else {
      assert xs[1..] == [];
    }
  }

  lemma ConcatRegroup(a: seq<byte>, b: seq<byte>, c: seq<byte>)
    ensures (a + b) + c == a + (b + c)
  {
  }

  /** The chunks, put back together, are the data: removing the separators gives back `data`. */
  lemma {:induction false} ChunksConcat(data: seq<byte>, k: nat)
    requires k > 0 || data == []
    ensures Concat(Chunks(data, k)) == data
    decreases |data|
  {
    if |data| <= k {
      assert [data] == [] + [data];
      ConcatAppend([], data);
    } else {
      ChunksConcat(data[k..], k);
      var cs := Chunks(data, k);
      assert cs[0] == data[..k] && cs[1..] == Chunks(data[k..], k);
      ConcatFirst(cs);
      assert data[..k] + data[k..] == data;
    }
  }

  /**
   * For non-empty data every chunk but the last has exactly `k` bytes and the last
   * has between 1 and `k`.
   */
  lemma {:induction false} ChunkSizes(data: seq<byte>, k: nat)
    requires k > 0 && data != []
    ensures var cs := Chunks(data, k);
      (forall i :: 0 <= i < |cs| - 1 ==> |cs[i]| == k) && 0 < |cs[|cs| - 1]| <= k
    decreases |data|
  {
    if |data| > k {
      ChunkSizes(data[k..], k);
      var cs := Chunks(data, k);
      var tail := Chunks(data[k..], k);
      assert cs == [data[..k]] + tail;
      forall i | 0 <= i < |cs| - 1
        ensures |cs[i]| == k
      {
        if i > 0 {
          assert cs[i] == tail[i - 1];
        }
      }
    }
  }

  /** A separated join starts with its first part and ends with its last. */
  lemma {:induction false} JoinEnds(sep: seq<byte>, parts: seq<seq<byte>>)
    requires parts != []
    ensures var j := Join(sep, parts);
      |parts[0]| <= |j| && j[..|parts[0]|] == parts[0] && j[|j| - |parts[|parts| - 1]|..] == parts[|parts| - 1]
    decreases |parts|
  {
    if |parts| > 1 {
      var init := parts[..|parts| - 1];
      JoinEnds(sep, init);
      assert init[0] == parts[0];
      var j0 := Join(sep, init);
      var j := Join(sep, parts);
      assert j == j0 + sep + parts[|parts| - 1];
      assert j[..|parts[0]|] == j0[..|parts[0]|];
    }
  }

  /** Separators add `|sep|` bytes per chunk boundary and nothing else. */
  lemma {:induction false} JoinLength(sep: seq<byte>, parts: seq<seq<byte>>)
    requires parts != []
    ensures |Join(sep, parts)| == |Concat(parts)| + (|parts| - 1) * |sep|
    decreases |parts|
  {
    if |parts| > 1 {
      var init := parts[..|parts| - 1];
      JoinLength(sep, init);
      assert parts == init + [parts[|parts| - 1]];
      ConcatAppend(init, parts[|parts| - 1]);
      assert (|parts| - 1) * |sep| == (|init| - 1) * |sep| + |sep|;
    }
  }

  /**
   * What the wrapper promises: empty data gives empty output; otherwise the output
   * starts with the first chunk, ends with the last (no separator before or after),
   * puts the chunks back together as `data` and has one separator between each
   * two chunks.
   */
  lemma BreakLinesShape(data: seq<byte>, k: nat, sep: seq<byte>)
    requires k > 0
    ensures data == [] ==> BreakLines(data, k, sep) == []
    ensures var cs := Chunks(data, k); var r := BreakLines(data, k, sep);
      Concat(cs) == data
      && |r| == |data| + (|cs| - 1) * |sep|
      && r[..|cs[0]|] == cs[0] && r[|r| - |cs[|cs| - 1]|..] == cs[|cs| - 1]
  {
    var cs := Chunks(data, k);
    ChunksConcat(data, k);
    JoinLength(sep, cs);
    JoinEnds(sep, cs);
  }

  const BASE64: seq<byte> := Lit("base64")
  const QUOTED_PRINTABLE: seq<byte> := Lit("quoted-printable")

  /** Column at which encoded base64 is wrapped. */
  const BASE64_COLUMNS: nat := 76

  /**
   * The library codecs: `base64.StdEncoding` (padded, no line breaks when
   * encoding), what a `quotedprintable.Writer` writes for a body and its `Close`,
   * and the two decoders, which may fail.
   */
  datatype Codecs = Codecs(
    base64Encode: seq<byte> -> seq<byte>,
    base64Decode: seq<byte> -> Result<seq<byte>, Error>,
    qpEncode: seq<byte> -> seq<byte>,
    qpDecode: seq<byte> -> Result<seq<byte>, Error>)

  /** The bytes other than CR and LF, which Go's base64 decoder skips. */
  function StripCrLf(s: seq<byte>): (r: seq<byte>)
    ensures NoneIn(r, CRLF)
    decreases |s|
  {
    if s == [] then [] else (if s[0] in CRLF then [] else [s[0]]) + StripCrLf(s[1..])
  }

  /**
   * What the library promises and the proofs use: decoding never lengthens its
   * input, base64 decodes what it encodes, encodes into an alphabet without CR,
   * LF or TAB, and ignores CR and LF when decoding.
   */
  ghost predicate DecodersShrink(c: Codecs) {
    (forall s :: c.base64Decode(s).Success? ==> |c.base64Decode(s).value| <= |s|)
    && (forall s :: c.qpDecode(s).Success? ==> |c.qpDecode(s).value| <= |s|)
  }

  ghost predicate Base64Laws(c: Codecs) {
    (forall s :: c.base64Decode(c.base64Encode(s)) == Success(s))
    && (forall s :: NoneIn(c.base64Encode(s), CRLFTAB))
    && (forall s {:trigger StripCrLf(s)} ::
          c.base64Decode(StripCrLf(s)).Success? ==> c.base64Decode(s) == c.base64Decode(StripCrLf(s)))
  }

  /** `EncodeByContentEncoding`: the body as it goes out under a transfer encoding. */
  function EncodeByContentEncoding(c: Codecs, body: seq<byte>, encoding: seq<byte>): (r: seq<byte>)
  {
    if encoding == BASE64 then BreakLines(c.base64Encode(body), BASE64_COLUMNS, [LF])
    else if encoding == QUOTED_PRINTABLE then body + c.qpEncode(body)
    else body
  }

  /** The three results of `DecodeByContentEncoding`. */
  datatype Decoded = Decoded(data: seq<byte>, isDecoded: bool, err: Option<Error>)

  /** `DecodeByContentEncoding`: the body decoded, whether a codec was applied, and the codec's error. */
  function DecodeByContentEncoding(c: Codecs, body: seq<byte>, encoding: seq<byte>): (r: Decoded)
  {
    if encoding == BASE64 then
      match c.base64Decode(TrimSet(body, CRLFTAB))
      case Failure(e) => Decoded([], false, Some(e))
      case Success(d) => Decoded(d, true, None)
    else if encoding == QUOTED_PRINTABLE then
      match c.qpDecode(body)
      case Failure(e) => Decoded([], false, Some(e))
      case Success(d) => Decoded(d, true, None)
    else Decoded(body, false, None)
  }

  /**
   * The dispatch in one statement: an unknown encoding passes the body through
   * untouched on both sides; a codec error gives no data and no decoded flag;
   * success sets the flag; and a decoded body is never longer than its input.
   */
  lemma DecodeOutcome(c: Codecs, body: seq<byte>, encoding: seq<byte>)
    requires DecodersShrink(c)
    ensures var r := DecodeByContentEncoding(c, body, encoding);
      (encoding != BASE64 && encoding != QUOTED_PRINTABLE ==>
         r == Decoded(body, false, None) && EncodeByContentEncoding(c, body, encoding) == body)
      && (r.err.Some? ==> r.data == [] && !r.isDecoded)
      && (r.err == None ==> (r.isDecoded <==> encoding == BASE64 || encoding == QUOTED_PRINTABLE))
      && |r.data| <= |body|
  {
    if encoding == BASE64 {
      var t := TrimSet(body, CRLFTAB);
      assert |t| <= |body|;
      var d := c.base64Decode(t);
      if d.Success? {
        assert |d.value| <= |t|;
      }
    } else if encoding == QUOTED_PRINTABLE {
      var d := c.qpDecode(body);
      if d.Success? {
        assert |d.value| <= |body|;
      }
    }
  }

  /**
   * The quoted-printable branch writes into a buffer that already holds the body,
   * so its output is the body followed by the body's encoding.
   */
  lemma QuotedPrintableRepeatsBody(c: Codecs, body: seq<byte>)
    ensures var r := EncodeByContentEncoding(c, body, QUOTED_PRINTABLE);
      |body| <= |r| && r[..|body|] == body && r[|body|..] == c.qpEncode(body)
  {
    assert BASE64 != QUOTED_PRINTABLE by { assert |BASE64| != |QUOTED_PRINTABLE|; }
  }

  /** Base64 output is the encoding cut into lines of at most 76 bytes, joined by LF. */
  lemma Base64Wrapped(c: Codecs, body: seq<byte>)
    ensures var e := c.base64Encode(body); var cs := Chunks(e, BASE64_COLUMNS);
      EncodeByContentEncoding(c, body, BASE64) == Join([LF], cs)
      && Concat(cs) == e
      && (forall i :: 0 <= i < |cs| ==> |cs[i]| <= BASE64_COLUMNS)
  {
    var e := c.base64Encode(body);
    ChunksConcat(e, BASE64_COLUMNS);
    if e != [] {
      ChunkSizes(e, BASE64_COLUMNS);
    }
  }

  lemma {:induction false} StripAppend(a: seq<byte>, b: seq<byte>)
    ensures StripCrLf(a + b) == StripCrLf(a) + StripCrLf(b)
    decreases |a|
  {
    if a != [] {
      assert (a + b)[1..] == a[1..] + b;
      StripAppend(a[1..], b);
    } else {
      assert a + b == b;
    }
  }

  lemma {:induction false} StripDropLeft(s: seq<byte>)
    requires TAB !in s
    ensures StripCrLf(DropLeft(s, CRLFTAB)) == StripCrLf(s)
    decreases |s|
  {
    if s != [] && s[0] in CRLFTAB {
      StripDropLeft(s[1..]);
    }
  }

  lemma {:induction false} StripDropRight(s: seq<byte>)
    requires TAB !in s
    ensures StripCrLf(DropRight(s, CRLFTAB)) == StripCrLf(s)
    decreases |s|
  {
    if s != [] && s[|s| - 1] in CRLFTAB {
      var init := s[..|s| - 1];
      assert s == init + [s[|s| - 1]];
      StripDropRight(init);
      StripAppend(init, [s[|s| - 1]]);
    }
  }

  lemma StripJoinStep(j0: seq<byte>, last: seq<byte>, c0: seq<byte>)
    requires StripCrLf(j0) == c0 && NoneIn(last, CRLF)
    ensures StripCrLf(j0 + [LF] + last) == c0 + last
  {
    StripAppend(j0 + [LF], last);
    StripAppend(j0, [LF]);
    assert StripCrLf([LF]) == [];
    StripNone(last);
  }

  /** Lines free of CR and LF joined by LF lose exactly the separators. */
  lemma {:induction false} StripJoin(parts: seq<seq<byte>>)
    requires forall i :: 0 <= i < |parts| ==> NoneIn(parts[i], CRLF)
    ensures StripCrLf(Join([LF], parts)) == Concat(parts)
    decreases |parts|
  {
    if |parts| == 1 {
      StripNone(parts[0]);
      assert [] + [parts[0]] == parts;
      ConcatAppend([], parts[0]);
    } else if |parts| > 1 {
      var init := parts[..|parts| - 1];
      var last := parts[|parts| - 1];
      StripJoin(init);
      assert Join([LF], parts) == Join([LF], init) + [LF] + last;
      assert parts == init + [last];
      ConcatAppend(init, last);
      StripJoinStep(Join([LF], init), last, Concat(init));
    }
  }

  lemma {:induction false} StripNone(s: seq<byte>)
    requires NoneIn(s, CRLF)
    ensures StripCrLf(s) == s
    decreases |s|
  {
    if s != [] {
      StripNone(s[1..]);
    }
  }

  lemma ChunksFree(e: seq<byte>, k: nat)
    requires k > 0 && NoneIn(e, CRLFTAB)
    ensures forall i :: 0 <= i < |Chunks(e, k)| ==> NoneIn(Chunks(e, k)[i], CRLF)
    decreases |e|
  {
    if |e| > k {
      ChunksFree(e[k..], k);
      var cs := Chunks(e, k);
      assert cs == [e[..k]] + Chunks(e[k..], k);
      forall i | 0 <= i < |cs|
        ensures NoneIn(cs[i], CRLF)
      {
        if i > 0 {
          assert cs[i] == Chunks(e[k..], k)[i - 1];
        }
      }
    }
  }

  /**
   * Base64 round trip through the dispatch: the wrapped output, trimmed of
   * CR/LF/TAB at its ends and decoded, is the body again, flagged as decoded.
   */
  lemma Base64RoundTrip(c: Codecs, body: seq<byte>)
    requires Base64Laws(c)
    ensures DecodeByContentEncoding(c, EncodeByContentEncoding(c, body, BASE64), BASE64)
      == Decoded(body, true, None)
  {
    var e := c.base64Encode(body);
    var w := EncodeByContentEncoding(c, body, BASE64);
    var cs := Chunks(e, BASE64_COLUMNS);
    assert NoneIn(e, CRLFTAB);
    assert w == Join([LF], cs);
    ChunksFree(e, BASE64_COLUMNS);
    StripJoin(cs);
    ChunksConcat(e, BASE64_COLUMNS);
    assert StripCrLf(w) == e;
    assert TAB !in w by {
      assert TAB !in e;
      TabKept(w);
    }
    var d := DropLeft(w, CRLFTAB);
    StripDropLeft(w);
    assert TAB !in d;
    StripDropRight(d);
    var t := TrimSet(w, CRLFTAB);
    assert StripCrLf(t) == e;
    assert c.base64Decode(e) == Success(body);
    assert c.base64Decode(t) == c.base64Decode(StripCrLf(t));
  }

  /** Stripping keeps every TAB, so a stripped text without TAB had none. */
  lemma {:induction false} TabKept(s: seq<byte>)
    ensures TAB in s ==> TAB in StripCrLf(s)
    decreases |s|
  {
    if s != [] {
      TabKept(s[1..]);
    }
  }
}
