/**
 * The message tree. `Message` is the node the Go code updates in place: the
 * header and its original order and raw text, a simple body, the parts of a
 * multipart, the message held by a message/rfc822 body and the parent link.
 * `Msg` is the same node as a value; the decomposer and the builder work on it.
 */
module Messages {
  import opened Wrappers
  import opened Bytes
  import opened MimeHeader
  import opened TextProto
  import opened TextReader

  /** A message node as a value (the parent link is left out: a value has no identity). */
  datatype Msg = Msg(
    header: Header,
    headerIsChanged: bool,
    rawOriginalHeader: seq<byte>,
    headerOrder: seq<seq<byte>>,
    body: seq<byte>,
    parts: seq<Msg>,
    bodyMessage: Option<Msg>,
    boundary: seq<byte>,
    idx: seq<byte>,
    isDecoded: bool,
    rfc822Depth: int)
  {
    /** `IsMultipart`: the node has parts. */
    predicate IsMultipart() { |parts| > 0 }

    /** `IsRfc822`: the body is itself a message. */
    predicate IsRfc822() { bodyMessage.Some? }
  }

  /** The node in its zero state, as `&Message{}` makes it. */
  const EmptyMsg: Msg := Msg(map[], false, [], [], [], [], None, [], [], false, 0)

  /** The lines `SetOriginalHeaderOrder` walks: each line up to the first empty one or the end. */
  function HeaderLinesFrom(body: seq<byte>, pos: nat): (ls: seq<seq<byte>>)
    requires pos <= |body|
    ensures forall i :: 0 <= i < |ls| ==> ls[i] != [] && LF !in ls[i]
    decreases |body| - pos
  {
    match ReadLineAt(body, pos)
    case None => []
    case Some(l) => if l.text == [] then [] else [l.text] + HeaderLinesFrom(body, l.next)
  }

  /** `strings.Split(line, ":")[0]`: the text before the first colon, or the whole line. */
  function FieldName(line: seq<byte>): (name: seq<byte>)
    ensures COLON !in name && |name| <= |line| && name == line[..|name|]
  {
    var i := IndexOfByte(line, COLON);
    if i < 0 then line else line[..i]
  }

  /** A line whose name does not start with a space or a tab starts a field. */
  predicate StartsField(line: seq<byte>) {
    var name := FieldName(line);
    !HasPrefix(name, [SP]) && !HasPrefix(name, [TAB])
  }

  /** The names of the lines that start a field, in the order of the lines. */
  function NamesOf(ls: seq<seq<byte>>): seq<seq<byte>>
    decreases |ls|
  {
    if ls == [] then [] else (if StartsField(ls[0]) then [FieldName(ls[0])] else []) + NamesOf(ls[1..])
  }

  /** `raw` with the lines `ls` appended, each after a LF unless `raw` is still empty. */
  function RawWith(raw: seq<byte>, ls: seq<seq<byte>>): seq<byte>
    decreases |ls|
  {
    if ls == [] then raw else RawWith(JoinRaw(raw, ls[0]), ls[1..])
  }

  /** What `SetOriginalHeaderOrder(body)` gives a node whose raw header was `raw`. */
  datatype OrderAndRaw = OrderAndRaw(order: seq<seq<byte>>, raw: seq<byte>)

  function OriginalOrder(raw: seq<byte>, body: seq<byte>): OrderAndRaw {
    var ls := HeaderLinesFrom(body, 0);
    OrderAndRaw(NamesOf(ls), RawWith(raw, ls))
  }

  /**
   * The loop of `SetOriginalHeaderOrder` over `bufio.Reader.ReadLine` (read
   * here with the text reader, which returns the same lines when no dot reader
   * is open): the order starts empty, the raw header is appended to.
   */
  method ScanHeaderOrder(raw0: seq<byte>, body: seq<byte>) returns (order: seq<seq<byte>>, raw: seq<byte>)
    ensures OrderAndRaw(order, raw) == OriginalOrder(raw0, body)
  {
    var r := new Reader(body);
    order := [];
    raw := raw0;
    while true
      invariant r.Valid() && !r.dotOpen && r.data == body
      invariant order + NamesOf(HeaderLinesFrom(body, r.pos)) == NamesOf(HeaderLinesFrom(body, 0))
      invariant RawWith(raw, HeaderLinesFrom(body, r.pos)) == RawWith(raw0, HeaderLinesFrom(body, 0))
      decreases |body| - r.pos
    {
      ghost var p := r.pos;
      ghost var order0, raw1 := order, raw;
      ghost var st := r.dotState;
      var lineByte, _, err := r.ReadLineSlice();
      assert ClosedPos(body, p, false, st) == p;
      ghost var line := ReadLineAt(body, p);
      if err.Some? {
        ScanEnd(body, p);
        break;
      }
      if |lineByte| > 0 {
        var name := FieldName(lineByte);
        if !HasPrefix(name, [SP]) && !HasPrefix(name, [TAB]) {
          order := order + [name];
        }
      } else {
        ScanEnd(body, p);
        break;
      }
      if |raw| > 0 {
        raw := raw + [LF];
      }
      raw := raw + lineByte;
      assert order == order0 + (if StartsField(lineByte) then [FieldName(lineByte)] else []);
      assert raw == JoinRaw(raw1, lineByte);
      ScanStep(body, p, r.pos, lineByte, order0, raw1);
    }
  }

  /** The scan stops at the end of the input or at an empty line. */
  lemma ScanEnd(body: seq<byte>, p: nat)
    requires p <= |body| && (ReadLineAt(body, p).None? || ReadLineAt(body, p).value.text == [])
    ensures HeaderLinesFrom(body, p) == []
  {
  }

  /** One line of the scan, with the positions abstract. */
  lemma ScanStep(body: seq<byte>, p: nat, n: nat, l: seq<byte>, order: seq<seq<byte>>, raw: seq<byte>)
    requires p <= |body| && n <= |body| && l != [] && ReadLineAt(body, p) == Some(Line(l, n))
    ensures order + NamesOf(HeaderLinesFrom(body, p))
      == (order + (if StartsField(l) then [FieldName(l)] else [])) + NamesOf(HeaderLinesFrom(body, n))
    ensures RawWith(raw, HeaderLinesFrom(body, p)) == RawWith(JoinRaw(raw, l), HeaderLinesFrom(body, n))
  {
    var rest := HeaderLinesFrom(body, n);
    assert HeaderLinesFrom(body, p) == [l] + rest;
    assert ([l] + rest)[1..] == rest;
  }

  /** A non-empty line starts a field exactly when its first byte is neither a space nor a tab. */
  lemma StartsFieldIff(line: seq<byte>)
    requires line != []
    ensures StartsField(line) <==> line[0] !in WSP
    ensures StartsField(line) ==> FieldName(line) == line[..|FieldName(line)|] && COLON !in FieldName(line)
  {
    var name := FieldName(line);
    if name != [] {
      assert name[0] == line[0];
    } else {
      assert IndexOfByte(line, COLON) == 0;
    }
  }

  /** The raw header after the lines: the old one, a LF if it was not empty, and the lines joined by LF. */
  lemma {:induction false} RawWithJoin(raw: seq<byte>, ls: seq<seq<byte>>)
    requires forall i :: 0 <= i < |ls| ==> ls[i] != []
    ensures RawWith(raw, ls) == if ls == [] then raw else JoinRaw(raw, Join([LF], ls))
    decreases |ls|
  {
    if |ls| > 1 {
      var init := ls[..|ls| - 1];
      var last := ls[|ls| - 1];
      assert ls == init + [last];
      RawWithSnoc(raw, init, last);
      RawWithJoin(raw, init);
      var j := Join([LF], init);
      assert Join([LF], ls) == j + [LF] + last;
      assert |JoinRaw(raw, j)| > 0 by { JoinNonEmpty(init); }
      assert JoinRaw(JoinRaw(raw, j), last) == JoinRaw(raw, j) + [LF] + last;
      JoinRawAssoc(raw, j, [LF], last);
    } else if |ls| == 1 {
      assert ls[1..] == [];
    }
  }

  lemma JoinRawAssoc(raw: seq<byte>, a: seq<byte>, b: seq<byte>, c: seq<byte>)
    ensures JoinRaw(raw, a) + b + c == JoinRaw(raw, a + b + c)
  {
  }

  lemma {:induction false} JoinNonEmpty(ls: seq<seq<byte>>)
    requires ls != [] && forall i :: 0 <= i < |ls| ==> ls[i] != []
    ensures |Join([LF], ls)| > 0
    decreases |ls|
  {
  }

  lemma {:induction false} RawWithSnoc(raw: seq<byte>, ls: seq<seq<byte>>, x: seq<byte>)
    ensures RawWith(raw, ls + [x]) == JoinRaw(RawWith(raw, ls), x)
    decreases |ls|
  {
    if ls == [] {
      assert ls + [x] == [x];
    } else {
      assert (ls + [x])[1..] == ls[1..] + [x];
      RawWithSnoc(JoinRaw(raw, ls[0]), ls[1..], x);
    }
  }

  /**
   * A raw header as `ReadMIMEHeader` returns it (each line and its LF, no line
   * empty) is walked line by line up to its end.
   */
  lemma {:induction false} HeaderLinesOfBlock(data: seq<byte>, p: nat, ls: seq<seq<byte>>)
    requires TextLines(ls) && At(data, p, Lines(ls)) && p + |Lines(ls)| == |data|
    ensures HeaderLinesFrom(data, p) == ls
    decreases |ls|
  {
    if ls != [] {
      var n := HeaderLineHead(data, p, ls);
      HeaderLinesOfBlock(data, n, ls[1..]);
      HeaderLinesCons(data, p, n, ls);
    }
  }

  /** The first line of such a raw header, and the rest of it after the line. */
  lemma HeaderLineHead(data: seq<byte>, p: nat, ls: seq<seq<byte>>) returns (n: nat)
    requires ls != [] && TextLines(ls) && At(data, p, Lines(ls)) && p + |Lines(ls)| == |data|
    ensures n <= |data| && ReadLineAt(data, p) == Some(Line(ls[0], n)) && ls[0] != []
      && TextLines(ls[1..]) && At(data, n, Lines(ls[1..])) && n + |Lines(ls[1..])| == |data|
  {
    var l := ls[0];
    n := p + |l| + 1;
    assert Lines(ls) == (l + [LF]) + Lines(ls[1..]);
    AtConcat(data, p, l + [LF], Lines(ls[1..]));
    assert LF !in l && (l == [] || l[|l| - 1] != CR) by {
      assert NoneIn(l, CRLF);
    }
    LineLf(data, p, l);
    assert forall i :: 0 <= i < |ls[1..]| ==> ls[1..][i] == ls[i + 1];
  }

  lemma HeaderLinesCons(data: seq<byte>, p: nat, n: nat, ls: seq<seq<byte>>)
    requires ls != [] && ls[0] != [] && p <= |data| && n <= |data|
    requires ReadLineAt(data, p) == Some(Line(ls[0], n)) && HeaderLinesFrom(data, n) == ls[1..]
    ensures HeaderLinesFrom(data, p) == ls
  {
    assert ls == [ls[0]] + ls[1..];
  }

  /**
   * `SetOriginalHeaderOrder` on such a raw header: the names of the lines in
   * their order, and the lines joined by LF after the old raw header.
   */
  lemma OriginalOrderOfBlock(raw: seq<byte>, ls: seq<seq<byte>>)
    requires TextLines(ls) && ls != []
    ensures OriginalOrder(raw, Lines(ls)) == OrderAndRaw(NamesOf(ls), JoinRaw(raw, Join([LF], ls)))
  {
    HeaderLinesOfBlock(Lines(ls), 0, ls);
    assert Lines(ls)[0..|Lines(ls)|] == Lines(ls);
    RawWithJoin(raw, ls);
  }

  /** The name of each logical line: the text before the first colon of its first line. */
  function FieldNames(hs: seq<HeaderLine>): seq<seq<byte>>
    decreases |hs|
  {
    if hs == [] then [] else [FieldName(hs[0].first)] + FieldNames(hs[1..])
  }

  lemma {:induction false} NamesConcat(a: seq<seq<byte>>, b: seq<seq<byte>>)
    ensures NamesOf(a + b) == NamesOf(a) + NamesOf(b)
    decreases |a|
  {
    if a == [] {
      assert a + b == b;
    } else {
      NamesConcat(a[1..], b);
      NamesConsConcat(a, b);
    }
  }

  lemma NamesConsConcat(a: seq<seq<byte>>, b: seq<seq<byte>>)
    requires a != [] && NamesOf(a[1..] + b) == NamesOf(a[1..]) + NamesOf(b)
    ensures NamesOf(a + b) == NamesOf(a) + NamesOf(b)
  {
    var c := a + b;
    assert c[0] == a[0] && c[1..] == a[1..] + b;
    var hd := if StartsField(a[0]) then [FieldName(a[0])] else [];
    assert NamesOf(a) == hd + NamesOf(a[1..]);
    assert NamesOf(c) == hd + NamesOf(a[1..] + b);
    ConcatAssoc(hd, NamesOf(a[1..]), NamesOf(b));
  }

  /** Continuation lines start with white space and so add no name. */
  lemma {:induction false} FoldsNameless(cs: seq<Fold>)
    requires GoodFolds(cs)
    ensures NamesOf(FoldLines(cs)) == []
    decreases |cs|
  {
    if cs != [] {
      var y := cs[0].ws + cs[0].text;
      assert y[0] == cs[0].ws[0];
      StartsFieldIff(y);
      FoldsNameless(cs[1..]);
      assert FoldLines(cs)[1..] == FoldLines(cs[1..]);
    }
  }

  /**
   * The order `SetOriginalHeaderOrder` finds in the lines of a header block:
   * one name per logical line, taken from its first line; continuation lines
   * add none.
   */
  lemma {:induction false} OrderOfFieldLines(hs: seq<HeaderLine>)
    requires FieldLines(hs)
    ensures NamesOf(PhysicalLines(hs)) == FieldNames(hs)
    decreases |hs|
  {
    if hs != [] {
      var h := hs[0];
      OrderOfFieldLines(hs[1..]);
      StartsFieldIff(h.first);
      FoldsNameless(h.folds);
      NamesOfFieldLine(h.first, FoldLines(h.folds), PhysicalLines(hs[1..]));
    }
  }

  /** A field line followed by nameless continuation lines contributes one name. */
  lemma NamesOfFieldLine(a: seq<byte>, f: seq<seq<byte>>, r: seq<seq<byte>>)
    requires StartsField(a) && NamesOf(f) == []
    ensures NamesOf([a] + f + r) == [FieldName(a)] + NamesOf(r)
  {
    NamesConcat([a], f);
    NamesConcat([a] + f, r);
    assert NamesOf([a]) == [FieldName(a)] + NamesOf([]);
  }

  /** The keys `Merge` walks: each key of the header exactly once, in some order. */
  ghost predicate Enumerates(keys: seq<seq<byte>>, h: Header) {
    (forall k :: k in h <==> k in keys)
    && (forall i, j :: 0 <= i < j < |keys| ==> keys[i] != keys[j])
  }

  /** Every key's first value is empty: `Merge` deletes each of them and sets none. */
  predicate OnlyDeletes(h: Header) {
    forall k :: k in h ==> h[k] != [] && h[k][0] == []
  }

  /** Every key has at least one value (`val[0]` is read). */
  predicate HasValues(h: Header) {
    forall k :: k in h ==> |h[k]| > 0
  }

  /** The header loop of `Merge`: a non-empty first value is set, an empty one deletes the key. */
  function MergeHeader(h: Header, src: Header, keys: seq<seq<byte>>): Header
    requires HasValues(src) && forall i :: 0 <= i < |keys| ==> keys[i] in src
    decreases |keys|
  {
    if keys == [] then h
    else
      var key := keys[0];
      var h' := if src[key][0] != [] then Set(h, key, src[key][0]) else Del(h, key);
      MergeHeader(h', src, keys[1..])
  }

  /**
   * A key that no merged key canonicalises to keeps what it had, present or
   * absent.
   */
  lemma {:induction false} MergeKeepsOthers(h: Header, src: Header, keys: seq<seq<byte>>, k: seq<byte>)
    requires HasValues(src) && forall i :: 0 <= i < |keys| ==> keys[i] in src
    requires forall i :: 0 <= i < |keys| ==> CanonicalKey(keys[i]) != k
    ensures k in MergeHeader(h, src, keys) <==> k in h
    ensures k in h ==> MergeHeader(h, src, keys)[k] == h[k]
    decreases |keys|
  {
    if keys != [] {
      var key := keys[0];
      var h' := if src[key][0] != [] then Set(h, key, src[key][0]) else Del(h, key);
      assert CanonicalKey(key) != k;
      MergeKeepsOthers(h', src, keys[1..], k);
    }
  }

  /**
   * With canonical keys each merged key ends up holding exactly its first value
   * when that is not empty, and is deleted when it is.
   */
  lemma {:induction false} MergeSetsOrDeletes(h: Header, src: Header, keys: seq<seq<byte>>, k: seq<byte>)
    requires HasValues(src) && forall i :: 0 <= i < |keys| ==> keys[i] in src
    requires forall i :: 0 <= i < |keys| ==> CanonicalKey(keys[i]) == keys[i]
    requires forall i, j :: 0 <= i < j < |keys| ==> keys[i] != keys[j]
    requires k in keys
    ensures var r := MergeHeader(h, src, keys);
      (src[k][0] != [] ==> k in r && r[k] == [src[k][0]]) && (src[k][0] == [] ==> k !in r)
    decreases |keys|
  {
    var key := keys[0];
    var h' := if src[key][0] != [] then Set(h, key, src[key][0]) else Del(h, key);
    if key == k {
      forall i | 0 <= i < |keys[1..]| ensures CanonicalKey(keys[1..][i]) != k {
        assert keys[1..][i] == keys[i + 1];
      }
      MergeKeepsOthers(h', src, keys[1..], k);
    } else {
      MergeSetsOrDeletes(h', src, keys[1..], k);
    }
  }

  /**
   * For any keys, canonical or not: the canonical key of `keys[j]` ends up
   * holding exactly the first value of `keys[j]` when that is not empty, and is
   * deleted when it is, provided no later key canonicalises to the same key;
   * the last such key in walking order wins.
   */
  lemma {:induction false} MergeLastWins(h: Header, src: Header, keys: seq<seq<byte>>, j: nat)
    requires HasValues(src) && forall i :: 0 <= i < |keys| ==> keys[i] in src
    requires j < |keys|
    requires forall i :: j < i < |keys| ==> CanonicalKey(keys[i]) != CanonicalKey(keys[j])
    ensures var r, c, v := MergeHeader(h, src, keys), CanonicalKey(keys[j]), src[keys[j]][0];
      (v != [] ==> c in r && r[c] == [v]) && (v == [] ==> c !in r)
    decreases |keys|
  {
    var key := keys[0];
    var h' := if src[key][0] != [] then Set(h, key, src[key][0]) else Del(h, key);
    if j == 0 {
      var c := CanonicalKey(key);
      forall i | 0 <= i < |keys[1..]| ensures CanonicalKey(keys[1..][i]) != c {
        assert keys[1..][i] == keys[i + 1];
      }
      MergeKeepsOthers(h', src, keys[1..], c);
    } else {
      forall i | j - 1 < i < |keys[1..]| ensures CanonicalKey(keys[1..][i]) != CanonicalKey(keys[1..][j - 1]) {
        assert keys[1..][i] == keys[i + 1];
      }
      MergeLastWins(h', src, keys[1..], j - 1);
    }
  }

  /**
   * Merging a header whose first values are all empty into an empty header, as
   * the nil header of a zero `Message` must be, leaves it empty.
   */
  lemma {:induction false} MergeDeletesOnly(src: Header, keys: seq<seq<byte>>)
    requires HasValues(src) && (forall i :: 0 <= i < |keys| ==> keys[i] in src) && OnlyDeletes(src)
    ensures MergeHeader(map[], src, keys) == map[]
    decreases |keys|
  {
    if keys != [] {
      assert src[keys[0]][0] == [];
      assert Del(map[], keys[0]) == map[];
      MergeDeletesOnly(src, keys[1..]);
    }
  }

  /**
   * With canonical keys the merged header does not depend on the order the keys
   * are walked in: Go's map order does not matter.
   */
  lemma MergeOrderFree(h: Header, src: Header, keys1: seq<seq<byte>>, keys2: seq<seq<byte>>)
    requires HasValues(src) && Enumerates(keys1, src) && Enumerates(keys2, src)
    requires forall k :: k in src ==> CanonicalKey(k) == k
    ensures MergeHeader(h, src, keys1) == MergeHeader(h, src, keys2)
  {
    var r1 := MergeHeader(h, src, keys1);
    var r2 := MergeHeader(h, src, keys2);
    forall k
      ensures (k in r1 <==> k in r2) && (k in r1 ==> r1[k] == r2[k])
    {
      if k in src {
        MergeSetsOrDeletes(h, src, keys1, k);
        MergeSetsOrDeletes(h, src, keys2, k);
      } else {
        MergeKeepsOthers(h, src, keys1, k);
        MergeKeepsOthers(h, src, keys2, k);
      }
    }
  }

  /** The node the Go code shares by reference. */
  class Message {
    var header: Header
    /** The header is Go's nil map, as a zero `Message` has it: deleting from it does nothing, setting a field panics. */
    var headerNil: bool
    var headerIsChanged: bool
    var rawOriginalHeader: seq<byte>
    var headerOrder: seq<seq<byte>>
    var body: seq<byte>
    var parts: seq<Message>
    var bodyMessage: Message?
    var boundary: seq<byte>
    var idx: seq<byte>
    var isDecoded: bool
    var rfc822Depth: int
    var parent: Message?

    /** A nil header has no fields. */
    predicate Valid()
      reads this
    {
      headerNil ==> header == map[]
    }

    /** `&Message{}`: every field at its zero value, the header a nil map. */
    constructor ()
      ensures Valid()
      ensures header == map[] && headerNil && !headerIsChanged && rawOriginalHeader == [] && headerOrder == []
      ensures body == [] && parts == [] && bodyMessage == null && boundary == [] && idx == []
      ensures !isDecoded && rfc822Depth == 0 && parent == null
    {
      header := map[];
      headerNil := true;
      headerIsChanged := false;
      rawOriginalHeader := [];
      headerOrder := [];
      body := [];
      parts := [];
      bodyMessage := null;
      boundary := [];
      idx := [];
      isDecoded := false;
      rfc822Depth := 0;
      parent := null;
    }

    /** `IsMultipart`: the node has parts. */
    predicate IsMultipart()
      reads this
    {
      |parts| > 0
    }

    /** `IsRfc822`: the body is itself a message. */
    predicate IsRfc822()
      reads this
    {
      bodyMessage != null
    }

    /** `AddPart`: `p` becomes the last part and gets this node as its parent; nothing else changes, in either node. */
    method AddPart(p: Message)
      modifies this, p
      ensures p.parent == this && parts == old(parts) + [p]
      ensures header == old(header) && headerNil == old(headerNil) && headerIsChanged == old(headerIsChanged)
      ensures rawOriginalHeader == old(rawOriginalHeader) && headerOrder == old(headerOrder)
      ensures body == old(body) && bodyMessage == old(bodyMessage) && boundary == old(boundary)
      ensures idx == old(idx) && isDecoded == old(isDecoded) && rfc822Depth == old(rfc822Depth)
      ensures p != this ==> parent == old(parent)
      ensures p != this ==> p.header == old(p.header) && p.headerNil == old(p.headerNil) && p.headerIsChanged == old(p.headerIsChanged)
      ensures p != this ==> p.rawOriginalHeader == old(p.rawOriginalHeader) && p.headerOrder == old(p.headerOrder)
      ensures p != this ==> p.body == old(p.body) && p.parts == old(p.parts) && p.bodyMessage == old(p.bodyMessage)
      ensures p != this ==> p.boundary == old(p.boundary) && p.idx == old(p.idx) && p.isDecoded == old(p.isDecoded)
      ensures p != this ==> p.rfc822Depth == old(p.rfc822Depth)
      ensures old(Valid()) ==> Valid()
    {
      p.parent := this;
      parts := parts + [p];
    }

    /**
     * `SetOriginalHeaderOrder`: the order becomes the field names of `body`'s
     * lines and the raw header has those lines appended.
     */
    method SetOriginalHeaderOrder(body': seq<byte>)
      modifies this
      ensures OrderAndRaw(headerOrder, rawOriginalHeader) == OriginalOrder(old(rawOriginalHeader), body')
      ensures header == old(header) && headerNil == old(headerNil) && headerIsChanged == old(headerIsChanged)
      ensures body == old(body) && parts == old(parts) && bodyMessage == old(bodyMessage) && boundary == old(boundary)
      ensures idx == old(idx) && isDecoded == old(isDecoded) && rfc822Depth == old(rfc822Depth)
      ensures parent == old(parent)
      ensures old(Valid()) ==> Valid()
    {
      headerOrder, rawOriginalHeader := ScanHeaderOrder(rawOriginalHeader, body');
    }

    /**
     * `Merge`: the fields of `m`'s header are set or deleted here (walked in the
     * map order `keys`), and the body, the parts, the boundary and the rfc822
     * message are taken from `m`; the header is marked as changed. Setting a
     * field in a nil header panics in Go, so a nil header can only lose fields.
     */
    method Merge(m: Message, keys: seq<seq<byte>>)
      requires HasValues(m.header) && Enumerates(keys, m.header)
      requires Valid() && (headerNil ==> OnlyDeletes(m.header))
      modifies this
      ensures Valid()
      ensures header == MergeHeader(old(header), old(m.header), keys) && headerNil == old(headerNil)
      ensures bodyMessage == old(m.bodyMessage) && body == old(m.body) && boundary == old(m.boundary)
      ensures parts == old(m.parts) && headerIsChanged
      ensures rawOriginalHeader == old(rawOriginalHeader) && headerOrder == old(headerOrder)
      ensures idx == old(idx) && isDecoded == old(isDecoded) && rfc822Depth == old(rfc822Depth)
      ensures parent == old(parent)
    {
      var src := m.header;
      var h := header;
      var i := 0;
      while i < |keys|
        invariant 0 <= i <= |keys|
        invariant MergeHeader(h, src, keys[i..]) == MergeHeader(old(header), src, keys)
      {
        var key := keys[i];
        var val := src[key];
        assert keys[i..][1..] == keys[i + 1..];
        if val[0] != [] {
          h := Set(h, key, val[0]);
        } else {
          h := Del(h, key);
        }
        i := i + 1;
      }
      if headerNil {
        MergeDeletesOnly(src, keys);
      }
      header := h;
      bodyMessage := m.bodyMessage;
      body := m.body;
      boundary := m.boundary;
      parts := m.parts;
      headerIsChanged := true;
    }
  }
}
