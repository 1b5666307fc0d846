/**
 * The decomposer: a raw mail becomes a message tree. The header is read with
 * the text reader; a multipart body is cut into parts by the multipart scanner
 * and each part decomposed in turn; a message/rfc822 body is decoded and, when
 * it parses, held as a nested message. The media-type parser and the
 * multipart scanner are parameters (`Env`).
 */
module Decomposer {
  import opened Wrappers
  import opened Bytes
  import opened MimeHeader
  import opened DotCodec
  import opened TextProto
  import opened TextReader
  import opened MailUtils
  import opened Messages

  /** What `mime.ParseMediaType` gives: the `boundary` parameter if there is one, and its error. */
  datatype MediaType = MediaType(boundary: Option<seq<byte>>, err: Option<Error>)

  /**
   * A part as the multipart scanner's `NextPart` hands it out: its header, its raw
   * header, its body and the error reading that body ends with, if any.
   */
  datatype ScannedPart = ScannedPart(header: Header, rawHeader: seq<byte>, body: seq<byte>, readErr: Option<Error>)

  /** What `NextPart` returns, call after call: the parts, then `io.EOF` (`end == None`) or another error. */
  datatype Scan = Scan(parts: seq<ScannedPart>, end: Option<Error>)

  /** The collaborators: the codecs, `mime.ParseMediaType` and the multipart scanner (body, boundary). */
  datatype Env = Env(codecs: Codecs, parseMediaType: seq<byte> -> MediaType, scan: (seq<byte>, seq<byte>) -> Scan)

  /** Every part the scanner finds lies inside the body, after at least its delimiter. */
  predicate ScanShrinks(s: Scan, body: seq<byte>) {
    forall i :: 0 <= i < |s.parts| ==> |s.parts[i].body| < |body|
  }

  ghost predicate ValidEnv(env: Env) {
    DecodersShrink(env.codecs) && forall body, b :: ScanShrinks(env.scan(body, b), body)
  }

  /** "Content-Type", spelled out in bytes. */
  const CONTENT_TYPE: seq<byte> := [67, 111, 110, 116, 101, 110, 116, 45, 84, 121, 112, 101]
  /** "Content-Transfer-Encoding", spelled out in bytes. */
  const CONTENT_TRANSFER_ENCODING: seq<byte> :=
    [67, 111, 110, 116, 101, 110, 116, 45, 84, 114, 97, 110, 115, 102, 101, 114, 45, 69, 110, 99, 111, 100, 105, 110, 103]
  const MESSAGE_RFC822: seq<byte> := Lit("message/rfc822")
  const RFC822_MAX_DEPTH: int := 5
  /** "-0", appended to the number of a node to number its nested message. */
  const NESTED_SUFFIX: seq<byte> := [DASH, 48]

  /** The hypothesis of `CanonicalKeyFixed` from position `i` on, one byte at a time. */
  predicate SpelledCanonically(s: seq<byte>, i: nat)
    decreases |s| - i
  {
    i >= |s| || ((IsUpper(s[i]) || IsLower(s[i]) || s[i] == DASH) && s[i] == CaseAt(s[i], i == 0 || s[i - 1] == DASH) && SpelledCanonically(s, i + 1))
  }

  lemma {:induction false} SpelledCanonicallyAll(s: seq<byte>, i: nat)
    requires SpelledCanonically(s, i)
    ensures forall j :: i <= j < |s| ==> IsTokenByte(s[j]) && s[j] == CaseAt(s[j], j == 0 || s[j - 1] == DASH)
    decreases |s| - i
  {
    TokenExcludesSeparators();
    if i < |s| {
      SpelledCanonicallyAll(s, i + 1);
    }
  }

  /** A name spelled canonically is its own canonical key, so `Get` with it is `GetCanonical`. */
  lemma SpelledGet(h: Header, key: seq<byte>)
    requires SpelledCanonically(key, 0)
    ensures CanonicalKey(key) == key && Get(h, key) == GetCanonical(h, key)
  {
    SpelledCanonicallyAll(key, 0);
    CanonicalKeyFixed(key);
  }

  /** Content-Type is in canonical form, so `Get` with it is `GetCanonical`, which the model uses. */
  lemma ContentTypeCanonical(h: Header)
    ensures CanonicalKey(CONTENT_TYPE) == CONTENT_TYPE && Get(h, CONTENT_TYPE) == GetCanonical(h, CONTENT_TYPE)
  {
    assert SpelledCanonically(CONTENT_TYPE, 0);
    SpelledGet(h, CONTENT_TYPE);
  }

  /** Content-Transfer-Encoding is in canonical form too. */
  lemma TransferEncodingCanonical(h: Header)
    ensures CanonicalKey(CONTENT_TRANSFER_ENCODING) == CONTENT_TRANSFER_ENCODING
      && Get(h, CONTENT_TRANSFER_ENCODING) == GetCanonical(h, CONTENT_TRANSFER_ENCODING)
  {
    assert SpelledCanonically(CONTENT_TRANSFER_ENCODING, 24);
    assert SpelledCanonically(CONTENT_TRANSFER_ENCODING, 21);
    assert SpelledCanonically(CONTENT_TRANSFER_ENCODING, 18);
    assert SpelledCanonically(CONTENT_TRANSFER_ENCODING, 15);
    assert SpelledCanonically(CONTENT_TRANSFER_ENCODING, 12);
    assert SpelledCanonically(CONTENT_TRANSFER_ENCODING, 9);
    assert SpelledCanonically(CONTENT_TRANSFER_ENCODING, 6);
    assert SpelledCanonically(CONTENT_TRANSFER_ENCODING, 3);
    assert SpelledCanonically(CONTENT_TRANSFER_ENCODING, 0);
    SpelledGet(h, CONTENT_TRANSFER_ENCODING);
  }

  /** The result of `ExtractBoundary`. */
  datatype Boundary = Boundary(value: seq<byte>, err: Option<Error>)

  /** `ExtractBoundary`: the `boundary` parameter of the Content-Type, or empty with the parser's error. */
  function ExtractBoundary(env: Env, h: Header): Boundary {
    var mt := env.parseMediaType(GetCanonical(h, CONTENT_TYPE));
    if mt.boundary.Some? then Boundary(mt.boundary.value, None) else Boundary([], mt.err)
  }

  /** The number of the `n`-th part (from 1) of a node numbered `parent`. */
  function PartIdx(parent: seq<byte>, n: nat): seq<byte> {
    (if parent != [] then parent + [DASH] else []) + Decimal(n)
  }

  /** The node `ReadParts` makes for the `n`-th scanned part of `parent`. */
  function NewPart(parent: Msg, p: ScannedPart, n: nat): Msg {
    EmptyMsg.(header := p.header, rawOriginalHeader := p.rawHeader, idx := PartIdx(parent.idx, n),
              rfc822Depth := parent.rfc822Depth)
  }

  /** The guard of the rfc822 unwrap: the trimmed Content-Type starts with message/rfc822 and the depth is below 5. */
  predicate WantsRfc822(m: Msg) {
    HasPrefix(TrimSet(GetCanonical(m.header, CONTENT_TYPE), WSP), MESSAGE_RFC822) && m.rfc822Depth < RFC822_MAX_DEPTH
  }

  /** The node after `ReadParts` and the error it returns. */
  datatype Parted = Parted(node: Msg, err: Option<Error>)

  /** The node `Decompose` builds before reading its parts. */
  function RootNode(h: HeaderRead, partIdx: seq<byte>): Msg {
    var o := OriginalOrder([], h.raw);
    EmptyMsg.(idx := partIdx, header := h.header, rfc822Depth := 0, headerOrder := o.order, rawOriginalHeader := o.raw)
  }

  /**
   * `Decompose`: the header is read from the start of `raw`; its error, or the
   * error of reading the parts, is the result; otherwise the node numbered
   * `partIdx` with the rest of `raw` as its body.
   */
  function DecomposeSpec(env: Env, raw: seq<byte>, partIdx: seq<byte>): Result<Msg, Error>
    requires ValidEnv(env)
    decreases |raw|, 0
  {
    var h := MimeHeaderAt(raw, 0, false, BeginLine);
    if h.err.Some? then Failure(h.err.value)
    else
      var p := ReadPartsSpec(env, RootNode(h, partIdx), raw[h.next..], None);
      if p.err.Some? then Failure(p.err.value) else Success(p.node)
  }

  /** `ReadParts`: a multipart node gets its boundary and its parts; any other node its body. */
  function ReadPartsSpec(env: Env, node: Msg, body: seq<byte>, readErr: Option<Error>): Parted
    requires ValidEnv(env)
    decreases |body|, 3
  {
    var b := ExtractBoundary(env, node.header).value;
    if b != [] then PartsFrom(env, node.(boundary := b), env.scan(body, b), body, 0)
    else if readErr.Some? then Parted(node, readErr)
    else SinglePart(env, node, body)
  }

  /** The loop over the scanned parts from the `i`-th on. */
  function PartsFrom(env: Env, node: Msg, sc: Scan, body: seq<byte>, i: nat): Parted
    requires ValidEnv(env) && ScanShrinks(sc, body) && i <= |sc.parts|
    decreases |body|, 2, |sc.parts| - i
  {
    if i == |sc.parts| then Parted(node, sc.end)
    else
      var p := sc.parts[i];
      var c := ReadPartsSpec(env, NewPart(node, p, i + 1), p.body, p.readErr);
      if c.err.Some? then Parted(node, c.err)
      else PartsFrom(env, node.(parts := node.parts + [c.node]), sc, body, i + 1)
  }

  /** A node without a boundary: the nested message when the unwrap works, the raw body otherwise. */
  function SinglePart(env: Env, node: Msg, body: seq<byte>): Parted
    requires ValidEnv(env)
    decreases |body|, 2
  {
    var nested := if WantsRfc822(node) then Rfc822Attempt(env, node, body) else None;
    if nested.Some? then Parted(nested.value, None) else Parted(node.(body := body), None)
  }

  /**
   * The unwrap: the body decoded by its transfer encoding and decomposed as
   * part `idx-0`; any failure gives nothing (and the error is dropped).
   */
  function Rfc822Attempt(env: Env, node: Msg, body: seq<byte>): Option<Msg>
    requires ValidEnv(env)
    decreases |body|, 1
  {
    var d := DecodeByContentEncoding(env.codecs, body, GetCanonical(node.header, CONTENT_TRANSFER_ENCODING));
    if d.err.Some? then None
    else
      DecodeOutcome(env.codecs, body, GetCanonical(node.header, CONTENT_TRANSFER_ENCODING));
      Unwrapped(node, d, DecomposeSpec(env, d.data, node.idx + NESTED_SUFFIX))
  }

  /** The node holding the nested message `res` (one rfc822 level deeper), if it parsed. */
  function Unwrapped(node: Msg, d: Decoded, res: Result<Msg, Error>): Option<Msg> {
    match res
    case Failure(_) => None
    case Success(inner) =>
      Some(node.(bodyMessage := Some(inner.(rfc822Depth := node.rfc822Depth + 1)), isDecoded := d.isDecoded))
  }

  /** The three results of `ReadMessage`. */
  datatype MessageRead = MessageRead(header: Header, rawHeader: seq<byte>, body: seq<byte>, err: Option<Error>)

  /**
   * `ReadMessage`: the header block read with a fresh text reader; on an error
   * no message (an empty header and body) but the raw header so far, otherwise
   * the header and the bytes after it.
   */
  method ReadMessage(raw: seq<byte>) returns (r: MessageRead)
    ensures var h := MimeHeaderAt(raw, 0, false, BeginLine);
      r == if h.err.Some? then MessageRead(map[], h.raw, [], h.err) else MessageRead(h.header, h.raw, raw[h.next..], None)
  {
    var tp := new Reader(raw);
    var hdr, rawOriginalHeader, err := tp.ReadMIMEHeader();
    if err.Some? {
      return MessageRead(map[], rawOriginalHeader, [], err);
    }
    r := MessageRead(hdr, rawOriginalHeader, raw[tp.pos..], None);
  }

  /** `Decompose`, proved to compute `DecomposeSpec`. */
  method Decompose(env: Env, rawMessage: seq<byte>, partIdx: seq<byte>) returns (result: Option<Msg>, err: Option<Error>)
    requires ValidEnv(env)
    ensures match DecomposeSpec(env, rawMessage, partIdx)
      case Success(m) => result == Some(m) && err == None
      case Failure(e) => result == None && err == Some(e)
    decreases |rawMessage|, 0
  {
    var msg := ReadMessage(rawMessage);
    if msg.err.Some? {
      return None, msg.err;
    }
    ghost var h := MimeHeaderAt(rawMessage, 0, false, BeginLine);
    var order, originalHeader := ScanHeaderOrder([], msg.rawHeader);
    var node := EmptyMsg.(idx := partIdx, header := msg.header, rfc822Depth := 0,
                          headerOrder := order, rawOriginalHeader := originalHeader);
    assert node == RootNode(h, partIdx);
    var r, e := ReadParts(env, node, msg.body, None);
    if e.Some? {
      return None, e;
    }
    return Some(r), None;
  }

  /** `ReadParts`, proved to compute `ReadPartsSpec`. */
  method ReadParts(env: Env, result: Msg, bodyReader: seq<byte>, readErr: Option<Error>) returns (r: Msg, err: Option<Error>)
    requires ValidEnv(env)
    ensures Parted(r, err) == ReadPartsSpec(env, result, bodyReader, readErr)
    decreases |bodyReader|, 3
  {
    var boundary := ExtractBoundary(env, result.header).value;
    if boundary != [] {
      r, err := ReadMultipart(env, result.(boundary := boundary), bodyReader);
    } else if readErr.Some? {
      return result, readErr;
    } else {
      r := ReadSinglePart(env, result, bodyReader);
      err := None;
    }
  }

  /** The loop of `ReadParts` over the parts of a multipart body. */
  method ReadMultipart(env: Env, result: Msg, bodyReader: seq<byte>) returns (r: Msg, err: Option<Error>)
    requires ValidEnv(env)
    ensures Parted(r, err) == PartsFrom(env, result, env.scan(bodyReader, result.boundary), bodyReader, 0)
    decreases |bodyReader|, 2
  {
    r := result;
    var reader := env.scan(bodyReader, r.boundary);
    assert ScanShrinks(reader, bodyReader);
    ghost var whole := PartsFrom(env, r, reader, bodyReader, 0);
    var idx := 0;
    while true
      invariant 0 <= idx <= |reader.parts|
      invariant PartsFrom(env, r, reader, bodyReader, idx) == whole
      decreases |reader.parts| - idx
    {
      idx := idx + 1;
      if idx > |reader.parts| {
        return r, reader.end;
      }
      var part := reader.parts[idx - 1];
      var newPartEmail := EmptyMsg.(header := part.header, rawOriginalHeader := part.rawHeader,
                                    idx := r.idx, rfc822Depth := r.rfc822Depth);
      if newPartEmail.idx != [] {
        newPartEmail := newPartEmail.(idx := newPartEmail.idx + [DASH]);
      }
      newPartEmail := newPartEmail.(idx := newPartEmail.idx + Decimal(idx));
      assert newPartEmail == NewPart(r, part, idx);
      PartsStep(env, r, reader, bodyReader, idx - 1);
      var c, e := ReadParts(env, newPartEmail, part.body, part.readErr);
      if e.Some? {
        return r, e;
      }
      r := r.(parts := r.parts + [c]);
    }
  }

  /** The branch of `ReadParts` for a body without a boundary: the rfc822 unwrap or the raw body. */
  method ReadSinglePart(env: Env, result: Msg, rawPartBody: seq<byte>) returns (r: Msg)
    requires ValidEnv(env)
    ensures Parted(r, None) == SinglePart(env, result, rawPartBody)
    decreases |rawPartBody|, 2
  {
    var decodedAsMessage := false;
    ghost var nested: Option<Msg> := None;
    r := result;
    if WantsRfc822(result) {
      var decoded := DecodeByContentEncoding(env.codecs, rawPartBody, GetCanonical(result.header, CONTENT_TRANSFER_ENCODING));
      if decoded.err == None {
        DecodeOutcome(env.codecs, rawPartBody, GetCanonical(result.header, CONTENT_TRANSFER_ENCODING));
        ghost var res := DecomposeSpec(env, decoded.data, result.idx + NESTED_SUFFIX);
        var newMessage, e := Decompose(env, decoded.data, result.idx + NESTED_SUFFIX);
        if e == None {
          r := r.(bodyMessage := Some(newMessage.value.(rfc822Depth := result.rfc822Depth + 1)),
                  isDecoded := decoded.isDecoded);
          decodedAsMessage := true;
          nested := Some(r);
        }
        UnwrappedIs(result, decoded, res, nested);
        Rfc822Decoded(env, result, rawPartBody, decoded, res);
      }
    }
    if !decodedAsMessage {
      r := r.(body := rawPartBody);
    }
    SinglePartIs(env, result, rawPartBody, nested);
  }

  /** A decoded body: the unwrap is the nested decomposition `res`. */
  lemma {:induction false} Rfc822Decoded(env: Env, node: Msg, body: seq<byte>, d: Decoded, res: Result<Msg, Error>)
    requires ValidEnv(env)
    requires d == DecodeByContentEncoding(env.codecs, body, GetCanonical(node.header, CONTENT_TRANSFER_ENCODING))
    requires d.err == None
    requires res == DecomposeSpec(env, d.data, node.idx + NESTED_SUFFIX)
    ensures Rfc822Attempt(env, node, body) == Unwrapped(node, d, res)
  {
  }

  /** `Unwrapped`, case by case. */
  lemma UnwrappedIs(node: Msg, d: Decoded, res: Result<Msg, Error>, x: Option<Msg>)
    requires res.Success? ==> x == Some(node.(bodyMessage := Some(res.value.(rfc822Depth := node.rfc822Depth + 1)), isDecoded := d.isDecoded))
    requires res.Failure? ==> x == None
    ensures x == Unwrapped(node, d, res)
  {
  }

  /** `SinglePart` in terms of the outcome of the unwrap. */
  lemma {:induction false} SinglePartIs(env: Env, node: Msg, body: seq<byte>, nested: Option<Msg>)
    requires ValidEnv(env)
    requires nested == if WantsRfc822(node) then Rfc822Attempt(env, node, body) else None
    ensures SinglePart(env, node, body) == if nested.Some? then Parted(nested.value, None) else Parted(node.(body := body), None)
  {
  }

  /** One pass of the parts loop. */
  lemma {:induction false} PartsStep(env: Env, node: Msg, sc: Scan, body: seq<byte>, i: nat)
    requires ValidEnv(env) && ScanShrinks(sc, body) && i < |sc.parts|
    ensures var p := sc.parts[i];
      var c := ReadPartsSpec(env, NewPart(node, p, i + 1), p.body, p.readErr);
      PartsFrom(env, node, sc, body, i)
        == if c.err.Some? then Parted(node, c.err) else PartsFrom(env, node.(parts := node.parts + [c.node]), sc, body, i + 1)
  {
  }

  /*
   * Properties of the decomposition
   */

  /** The `j`-th scanned part of `node`, decomposed as `ReadParts` does it. */
  function Child(env: Env, node: Msg, sc: Scan, j: nat): Parted
    requires ValidEnv(env) && j < |sc.parts|
  {
    ReadPartsSpec(env, NewPart(node, sc.parts[j], j + 1), sc.parts[j].body, sc.parts[j].readErr)
  }

  /** The fields `ReadParts` never writes. */
  predicate SameHead(a: Msg, b: Msg) {
    a.header == b.header && a.headerIsChanged == b.headerIsChanged && a.rawOriginalHeader == b.rawOriginalHeader
    && a.headerOrder == b.headerOrder && a.idx == b.idx && a.rfc822Depth == b.rfc822Depth
  }

  /** The parts loop writes only `Parts`. */
  lemma {:induction false} PartsFromKeeps(env: Env, node: Msg, sc: Scan, body: seq<byte>, i: nat)
    requires ValidEnv(env) && ScanShrinks(sc, body) && i <= |sc.parts|
    ensures var r := PartsFrom(env, node, sc, body, i); r.node == node.(parts := r.node.parts)
    decreases |sc.parts| - i
  {
    if i < |sc.parts| {
      var c := Child(env, node, sc, i);
      if c.err == None {
        PartsFromKeeps(env, node.(parts := node.parts + [c.node]), sc, body, i + 1);
      }
    }
  }

  /** An unwrap changes only the nested message and the decoded flag. */
  lemma UnwrappedKeeps(node: Msg, d: Decoded, res: Result<Msg, Error>)
    ensures Unwrapped(node, d, res).Some? ==> SameHead(Unwrapped(node, d, res).value, node)
  {
  }

  /** The same for the rfc822 attempt. */
  lemma Rfc822Keeps(env: Env, node: Msg, body: seq<byte>)
    requires ValidEnv(env)
    ensures Rfc822Attempt(env, node, body).Some? ==> SameHead(Rfc822Attempt(env, node, body).value, node)
  {
    var d := DecodeByContentEncoding(env.codecs, body, GetCanonical(node.header, CONTENT_TRANSFER_ENCODING));
    if d.err == None {
      DecodeOutcome(env.codecs, body, GetCanonical(node.header, CONTENT_TRANSFER_ENCODING));
      var res := DecomposeSpec(env, d.data, node.idx + NESTED_SUFFIX);
      Rfc822Decoded(env, node, body, d, res);
      UnwrappedKeeps(node, d, res);
    }
  }

  /** `ReadParts` by its three cases. */
  lemma ReadPartsIs(env: Env, node: Msg, body: seq<byte>, readErr: Option<Error>)
    requires ValidEnv(env)
    ensures var b := ExtractBoundary(env, node.header).value;
      ReadPartsSpec(env, node, body, readErr)
        == if b != [] then PartsFrom(env, node.(boundary := b), env.scan(body, b), body, 0)
           else if readErr.Some? then Parted(node, readErr)
           else SinglePart(env, node, body)
  {
  }

  /** `ReadParts` keeps the header, the header order, the raw header, the number and the depth of its node. */
  lemma {:induction false} ReadPartsKeeps(env: Env, node: Msg, body: seq<byte>, readErr: Option<Error>)
    requires ValidEnv(env)
    ensures SameHead(ReadPartsSpec(env, node, body, readErr).node, node)
  {
    var b := ExtractBoundary(env, node.header).value;
    ReadPartsIs(env, node, body, readErr);
    if b != [] {
      PartsFromKeeps(env, node.(boundary := b), env.scan(body, b), body, 0);
    } else if readErr == None {
      var nested := if WantsRfc822(node) then Rfc822Attempt(env, node, body) else None;
      SinglePartIs(env, node, body, nested);
      Rfc822Keeps(env, node, body);
    }
  }

  /** A child depends on the parent's number and depth only, not on the parts collected so far. */
  lemma ChildOfParts(env: Env, node: Msg, sc: Scan, j: nat, ps: seq<Msg>)
    requires ValidEnv(env) && j < |sc.parts|
    ensures Child(env, node.(parts := ps), sc, j) == Child(env, node, sc, j)
  {
    assert NewPart(node.(parts := ps), sc.parts[j], j + 1) == NewPart(node, sc.parts[j], j + 1);
  }

  /**
   * A reference for the parts loop: the children decomposed up front, then
   * collected in order up to the first one that failed.
   */
  function Collect(node: Msg, cs: seq<Parted>, end: Option<Error>): Parted
    decreases |cs|
  {
    if cs == [] then Parted(node, end)
    else if cs[0].err.Some? then Parted(node, cs[0].err)
    else Collect(node.(parts := node.parts + [cs[0].node]), cs[1..], end)
  }

  /** The children of `node` from the `i`-th scanned part on. */
  function Children(env: Env, node: Msg, sc: Scan, i: nat): (cs: seq<Parted>)
    requires ValidEnv(env) && i <= |sc.parts|
    ensures |cs| == |sc.parts| - i
    ensures forall j :: 0 <= j < |cs| ==> cs[j] == Child(env, node, sc, i + j)
  {
    seq(|sc.parts| - i, j requires 0 <= j < |sc.parts| - i => Child(env, node, sc, i + j))
  }

  /**
   * `Collect` appends, in order, the `k` children that decomposed without
   * error and touches nothing else of the node; it ends with the error of the
   * next child if there is one, and with `end` when every child was taken.
   */
  lemma {:induction false} CollectOutcome(node: Msg, cs: seq<Parted>, end: Option<Error>)
    ensures var r := Collect(node, cs, end);
      var k := |r.node.parts| - |node.parts|;
      r.node == node.(parts := r.node.parts) && 0 <= k <= |cs| && r.node.parts[..|node.parts|] == node.parts
      && (forall j :: 0 <= j < k ==> cs[j].err == None && r.node.parts[|node.parts| + j] == cs[j].node)
      && (if k < |cs| then cs[k].err.Some? && r.err == cs[k].err else r.err == end)
    decreases |cs|
  {
    if cs != [] && cs[0].err == None {
      var next := node.(parts := node.parts + [cs[0].node]);
      CollectOutcome(next, cs[1..], end);
      var r := Collect(next, cs[1..], end);
      assert r == Collect(node, cs, end);
      var k := |r.node.parts| - |node.parts|;
      assert r.node.parts[..|node.parts|] == r.node.parts[..|next.parts|][..|node.parts|];
      forall j | 0 <= j < k
        ensures cs[j].err == None && r.node.parts[|node.parts| + j] == cs[j].node
      {
        if j > 0 {
          assert cs[1..][j - 1] == cs[j];
        } else {
          assert r.node.parts[..|next.parts|][|node.parts|] == cs[0].node;
        }
      }
    }
  }

  /** The parts loop is `Collect` over the children: reading them one at a time changes nothing. */
  lemma {:induction false} PartsFromIsCollect(env: Env, node: Msg, sc: Scan, body: seq<byte>, i: nat)
    requires ValidEnv(env) && ScanShrinks(sc, body) && i <= |sc.parts|
    ensures PartsFrom(env, node, sc, body, i) == Collect(node, Children(env, node, sc, i), sc.end)
    decreases |sc.parts| - i
  {
    var cs := Children(env, node, sc, i);
    if i < |sc.parts| {
      PartsStep(env, node, sc, body, i);
      if cs[0].err == None {
        var next := node.(parts := node.parts + [cs[0].node]);
        PartsFromIsCollect(env, next, sc, body, i + 1);
        forall j | 0 <= j < |cs| - 1
          ensures Children(env, next, sc, i + 1)[j] == cs[1..][j]
        {
          ChildOfParts(env, node, sc, i + 1 + j, next.parts);
        }
        assert Children(env, next, sc, i + 1) == cs[1..];
      }
    }
  }

  /**
   * A node with a non-empty boundary: the boundary is set, and the result is
   * the scanned parts decomposed in order and collected up to the first that
   * fails (so by `CollectOutcome` the parts appended are those children, and
   * the error is the failing child's or the scanner's final one). Every child
   * is numbered after its position and keeps the scanner's header, raw header
   * and the parent's depth. The read error of the node's own body is not
   * consulted.
   */
  lemma MultipartOutcome(env: Env, node: Msg, body: seq<byte>, readErr: Option<Error>)
    requires ValidEnv(env) && ExtractBoundary(env, node.header).value != []
    ensures var b := ExtractBoundary(env, node.header).value;
      var sc := env.scan(body, b);
      var n := node.(boundary := b);
      ReadPartsSpec(env, node, body, readErr) == Collect(n, Children(env, n, sc, 0), sc.end)
      && forall j :: 0 <= j < |sc.parts| ==>
           SameHead(Child(env, n, sc, j).node, NewPart(n, sc.parts[j], j + 1))
           && Child(env, n, sc, j).node.idx == PartIdx(node.idx, j + 1)
  {
    var b := ExtractBoundary(env, node.header).value;
    var sc := env.scan(body, b);
    var n := node.(boundary := b);
    ReadPartsIs(env, node, body, readErr);
    PartsFromIsCollect(env, n, sc, body, 0);
    forall j | 0 <= j < |sc.parts|
      ensures SameHead(Child(env, n, sc, j).node, NewPart(n, sc.parts[j], j + 1))
    {
      ReadPartsKeeps(env, NewPart(n, sc.parts[j], j + 1), sc.parts[j].body, sc.parts[j].readErr);
    }
  }

  /**
   * A node without a boundary whose body was read: no error; the nested
   * message is set exactly when the type is message/rfc822 below the depth
   * bound, the decoding succeeds and the decoded bytes decompose, and then it
   * is that decomposition one level deeper, with the codec's flag, and the
   * body stays as it was; otherwise the error is dropped and the body is the
   * raw bytes. The parts are never touched.
   */
  lemma SinglePartOutcome(env: Env, node: Msg, body: seq<byte>)
    requires ValidEnv(env) && node.bodyMessage == None
    ensures var r := ReadPartsSpec(env, node, body, None);
      var d := DecodeByContentEncoding(env.codecs, body, GetCanonical(node.header, CONTENT_TRANSFER_ENCODING));
      var inner := DecomposeSpec(env, d.data, node.idx + NESTED_SUFFIX);
      ExtractBoundary(env, node.header).value == [] ==>
        r.err == None
        && (r.node.bodyMessage.Some? <==> WantsRfc822(node) && d.err == None && inner.Success?)
        && (r.node.bodyMessage.Some? ==>
              r.node == node.(bodyMessage := Some(inner.value.(rfc822Depth := node.rfc822Depth + 1)), isDecoded := d.isDecoded))
        && (r.node.bodyMessage.None? ==> r.node == node.(body := body))
  {
    var d := DecodeByContentEncoding(env.codecs, body, GetCanonical(node.header, CONTENT_TRANSFER_ENCODING));
    var res := DecomposeSpec(env, d.data, node.idx + NESTED_SUFFIX);
    var nested := if WantsRfc822(node) then Rfc822Attempt(env, node, body) else None;
    ReadPartsIs(env, node, body, None);
    SinglePartIs(env, node, body, nested);
    Rfc822AttemptIs(env, node, body);
    assert nested == if WantsRfc822(node) && d.err == None then Unwrapped(node, d, res) else None;
    UnwrappedShape(node, d, res);
  }

  /** What `Unwrapped` gives, as one equation. */
  lemma UnwrappedShape(node: Msg, d: Decoded, res: Result<Msg, Error>)
    ensures Unwrapped(node, d, res).Some? <==> res.Success?
    ensures res.Success? ==>
      Unwrapped(node, d, res).value == node.(bodyMessage := Some(res.value.(rfc822Depth := node.rfc822Depth + 1)), isDecoded := d.isDecoded)
  {
  }

  /** The rfc822 attempt: nothing on a decoding error, otherwise the unwrap of the decoded bytes. */
  lemma Rfc822AttemptIs(env: Env, node: Msg, body: seq<byte>)
    requires ValidEnv(env)
    ensures var d := DecodeByContentEncoding(env.codecs, body, GetCanonical(node.header, CONTENT_TRANSFER_ENCODING));
      Rfc822Attempt(env, node, body) == if d.err.Some? then None else Unwrapped(node, d, DecomposeSpec(env, d.data, node.idx + NESTED_SUFFIX))
  {
  }

  /** A node without a boundary whose body failed to read keeps its state and returns that error. */
  lemma ReadErrorPasses(env: Env, node: Msg, body: seq<byte>, e: Error)
    requires ValidEnv(env) && ExtractBoundary(env, node.header).value == []
    ensures ReadPartsSpec(env, node, body, Some(e)) == Parted(node, Some(e))
  {
  }

  /**
   * `Decompose`: a failed header read is the error; a success is a node with
   * the given number, depth 0, the header read, the header order and raw
   * header of that raw header, and (without boundary and nested message) the
   * bytes after the header block as body.
   */
  lemma DecomposeOutcome(env: Env, raw: seq<byte>, partIdx: seq<byte>)
    requires ValidEnv(env)
    ensures var h := MimeHeaderAt(raw, 0, false, BeginLine);
      var o := OriginalOrder([], h.raw);
      (h.err.Some? ==> DecomposeSpec(env, raw, partIdx) == Failure(h.err.value))
      && (DecomposeSpec(env, raw, partIdx).Success? ==>
            var m := DecomposeSpec(env, raw, partIdx).value;
            h.err == None && m.idx == partIdx && m.header == h.header && m.rfc822Depth == 0
            && !m.headerIsChanged && m.headerOrder == o.order && m.rawOriginalHeader == o.raw
            && (ExtractBoundary(env, h.header).value == [] && m.bodyMessage == None ==> m.body == raw[h.next..]))
  {
    var h := MimeHeaderAt(raw, 0, false, BeginLine);
    DecomposeIs(env, raw, partIdx, h);
    if h.err == None {
      RootOutcome(env, h, partIdx, raw[h.next..]);
    }
  }

  /** `Decompose` by cases on the header read. */
  lemma DecomposeIs(env: Env, raw: seq<byte>, partIdx: seq<byte>, h: HeaderRead)
    requires ValidEnv(env) && h == MimeHeaderAt(raw, 0, false, BeginLine)
    ensures h.err.Some? ==> DecomposeSpec(env, raw, partIdx) == Failure(h.err.value)
    ensures h.err == None ==>
      var p := ReadPartsSpec(env, RootNode(h, partIdx), raw[h.next..], None);
      DecomposeSpec(env, raw, partIdx) == if p.err.Some? then Failure(p.err.value) else Success(p.node)
  {
  }

  /** The root node after `ReadParts`: its head as `Decompose` made it and, for a simple body, that body. */
  lemma RootOutcome(env: Env, h: HeaderRead, partIdx: seq<byte>, body: seq<byte>)
    requires ValidEnv(env)
    ensures var o := OriginalOrder([], h.raw);
      var p := ReadPartsSpec(env, RootNode(h, partIdx), body, None);
      p.node.idx == partIdx && p.node.header == h.header && p.node.rfc822Depth == 0
      && !p.node.headerIsChanged && p.node.headerOrder == o.order && p.node.rawOriginalHeader == o.raw
      && (ExtractBoundary(env, h.header).value == [] && p.node.bodyMessage == None ==> p.node.body == body)
  {
    var node := RootNode(h, partIdx);
    ReadPartsKeeps(env, node, body, None);
    SinglePartOutcome(env, node, body);
  }

  /**
   * The depths a decomposition leaves: every node `d`, every part 0 and every
   * nested message 1 (its own parts again 0).
   */
  predicate DepthShape(m: Msg, d: int)
    decreases m
  {
    m.rfc822Depth == d
    && (forall i :: 0 <= i < |m.parts| ==> DepthShape(m.parts[i], 0))
    && (m.bodyMessage.Some? ==> DepthShape(m.bodyMessage.value, 1))
  }

  /**
   * The depth bound never bites: a decomposed tree has depth 0 everywhere
   * except directly at a nested message (1), so every `ReadParts` call of a
   * decomposition sees depth 0 at the rfc822 guard and nesting is unbounded.
   */
  lemma {:induction false} DecomposeDepth(env: Env, raw: seq<byte>, partIdx: seq<byte>)
    requires ValidEnv(env)
    ensures DecomposeSpec(env, raw, partIdx).Success? ==> DepthShape(DecomposeSpec(env, raw, partIdx).value, 0)
    decreases |raw|, 0
  {
    var h := MimeHeaderAt(raw, 0, false, BeginLine);
    if h.err == None {
      ReadPartsDepth(env, RootNode(h, partIdx), raw[h.next..], None);
    }
  }

  lemma {:induction false} ReadPartsDepth(env: Env, node: Msg, body: seq<byte>, readErr: Option<Error>)
    requires ValidEnv(env) && node.rfc822Depth == 0 && node.parts == [] && node.bodyMessage == None
    ensures DepthShape(ReadPartsSpec(env, node, body, readErr).node, 0)
    decreases |body|, 3
  {
    var b := ExtractBoundary(env, node.header).value;
    if b != [] {
      PartsFromDepth(env, node.(boundary := b), env.scan(body, b), body, 0);
    } else if readErr == None {
      SinglePartDepth(env, node, body);
    }
  }

  lemma {:induction false} PartsFromDepth(env: Env, node: Msg, sc: Scan, body: seq<byte>, i: nat)
    requires ValidEnv(env) && ScanShrinks(sc, body) && i <= |sc.parts|
    requires node.rfc822Depth == 0 && node.bodyMessage == None
    requires forall j :: 0 <= j < |node.parts| ==> DepthShape(node.parts[j], 0)
    ensures DepthShape(PartsFrom(env, node, sc, body, i).node, 0)
    decreases |body|, 2, |sc.parts| - i
  {
    if i < |sc.parts| {
      var p := sc.parts[i];
      var c := ReadPartsSpec(env, NewPart(node, p, i + 1), p.body, p.readErr);
      if c.err == None {
        ReadPartsDepth(env, NewPart(node, p, i + 1), p.body, p.readErr);
        var next := node.(parts := node.parts + [c.node]);
        assert forall j :: 0 <= j < |next.parts| ==> DepthShape(next.parts[j], 0) by {
          forall j | 0 <= j < |next.parts| ensures DepthShape(next.parts[j], 0) {
            if j < |node.parts| {
              assert next.parts[j] == node.parts[j];
            }
          }
        }
        PartsFromDepth(env, next, sc, body, i + 1);
      }
    }
  }

  lemma {:induction false} SinglePartDepth(env: Env, node: Msg, body: seq<byte>)
    requires ValidEnv(env) && node.rfc822Depth == 0 && node.parts == [] && node.bodyMessage == None
    ensures DepthShape(SinglePart(env, node, body).node, 0)
    decreases |body|, 2
  {
    var d := DecodeByContentEncoding(env.codecs, body, GetCanonical(node.header, CONTENT_TRANSFER_ENCODING));
    if WantsRfc822(node) && d.err == None {
      DecodeOutcome(env.codecs, body, GetCanonical(node.header, CONTENT_TRANSFER_ENCODING));
      var res := DecomposeSpec(env, d.data, node.idx + NESTED_SUFFIX);
      Rfc822Decoded(env, node, body, d, res);
      DecomposeDepth(env, d.data, node.idx + NESTED_SUFFIX);
      if res.Success? {
        var inner := res.value;
        assert DepthShape(inner.(rfc822Depth := 1), 1);
      }
    }
  }

  /** Decimal renderings are distinct for distinct numbers. */
  lemma {:induction false} DecimalInjective(n: nat, m: nat)
    requires Decimal(n) == Decimal(m)
    ensures n == m
    decreases n
  {
    if n >= 10 && m >= 10 {
      var a, b := Decimal(n), Decimal(m);
      assert a[..|a| - 1] == Decimal(n / 10) && b[..|b| - 1] == Decimal(m / 10);
      DecimalInjective(n / 10, m / 10);
      assert a[|a| - 1] == 48 + n % 10 && b[|b| - 1] == 48 + m % 10;
    }
  }

  /**
   * Part numbers: the `n`-th part of a node numbered `parent` is `parent-n`
   * (just `n` at the top), and siblings get distinct numbers.
   */
  lemma PartIdxDistinct(parent: seq<byte>, n: nat, m: nat)
    ensures PartIdx(parent, n) == if parent == [] then Decimal(n) else parent + [DASH] + Decimal(n)
    ensures PartIdx(parent, n) == PartIdx(parent, m) ==> n == m
  {
    var pre := if parent != [] then parent + [DASH] else [];
    if PartIdx(parent, n) == PartIdx(parent, m) {
      assert Decimal(n) == PartIdx(parent, n)[|pre|..];
      assert Decimal(m) == PartIdx(parent, m)[|pre|..];
      DecimalInjective(n, m);
    }
  }

  /** `ExtractBoundary`'s error is ignored: without a boundary the node is read as a single part. */
  lemma BoundaryErrorIgnored(env: Env, node: Msg, body: seq<byte>, readErr: Option<Error>)
    requires ValidEnv(env) && env.parseMediaType(GetCanonical(node.header, CONTENT_TYPE)).boundary.None?
    ensures ReadPartsSpec(env, node, body, readErr)
      == if readErr.Some? then Parted(node, readErr) else SinglePart(env, node, body)
  {
  }
}
