/**
 * The builder: a message tree serialised back to bytes. The header is the
 * original raw header when it was not changed, otherwise rebuilt field by
 * field in the original order; a multipart body is framed by its boundary
 * (section 5.1.1 of RFC 2046), a nested message is rebuilt in place of the
 * body, and a body the decomposer decoded is encoded again. The iteration
 * order of the header map and the random boundaries are parameters
 * (`BuildEnv`).
 */
module Builder {
  import opened Wrappers
  import opened Bytes
  import opened MimeHeader
  import opened TextProto
  import opened MailUtils
  import opened Messages
  import opened Decomposer
  import opened DotCodec

  /** ": " between a field name and its value. */
  const COLON_SP: seq<byte> := [COLON, SP]
  /** "--" before a boundary, and after it when it closes the body. */
  const DASH_DASH: seq<byte> := [DASH, DASH]

  /**
   * What the builder takes from outside: the codecs, the order in which one
   * build ranges over a header map, and the boundary the `n`-th call of
   * `RandomBoundary` returns. Go may range over the same map in a different
   * order each time; lemmas about two builds take two `BuildEnv`s.
   */
  datatype BuildEnv = BuildEnv(codecs: Codecs, keyOrder: Header -> seq<seq<byte>>, randomBoundary: nat -> seq<byte>)

  /** `RandomBoundary` gives 30 random bytes in hexadecimal: 60 digits. */
  ghost predicate BoundariesHex(env: BuildEnv) {
    forall n :: |env.randomBoundary(n)| == 60
  }

  /** Ranging over a map visits each key once. */
  ghost predicate RangesOverKeys(env: BuildEnv) {
    forall h :: Enumerates(env.keyOrder(h), h)
  }

  /*
   * The header
   */

  /** One header field as written: `name: value`. */
  function FieldText(name: seq<byte>, value: seq<byte>): seq<byte> {
    name + COLON_SP + value
  }

  /** The names of the header order whose canonical key is in the header, in order, repeats kept. */
  function Present(h: Header, order: seq<seq<byte>>): seq<seq<byte>>
    decreases |order|
  {
    if order == [] then []
    else
      var last := order[|order| - 1];
      Present(h, order[..|order| - 1]) + (if CanonicalKey(last) in h then [last] else [])
  }

  /** The `alreadyAdded` map after the first loop: the canonical keys of those names. */
  function Added(h: Header, order: seq<seq<byte>>): map<seq<byte>, bool>
    decreases |order|
  {
    if order == [] then map[]
    else
      var last := order[|order| - 1];
      var a := Added(h, order[..|order| - 1]);
      if CanonicalKey(last) in h then a[CanonicalKey(last) := true] else a
  }

  /** The keys of the second loop: those of `keys` not added by the first. */
  function Fresh(keys: seq<seq<byte>>, added: map<seq<byte>, bool>): seq<seq<byte>>
    decreases |keys|
  {
    if keys == [] then []
    else
      var last := keys[|keys| - 1];
      Fresh(keys[..|keys| - 1], added) + (if last in added then [] else [last])
  }

  /** The field written for each name: the name as spelled, then `Get` of it. */
  function Fields(h: Header, names: seq<seq<byte>>): (fs: seq<seq<byte>>)
    ensures |fs| == |names|
    ensures forall i :: 0 <= i < |names| ==> fs[i] == FieldText(names[i], Get(h, names[i]))
  {
    seq(|names|, i requires 0 <= i < |names| => FieldText(names[i], Get(h, names[i])))
  }

  /** The fields of a rebuilt header: first those of the header order, then the rest in map order. */
  function HeaderFields(h: Header, order: seq<seq<byte>>, keys: seq<seq<byte>>): seq<seq<byte>> {
    Fields(h, Present(h, order) + Fresh(keys, Added(h, order)))
  }

  /**
   * `BuildHeader`: the raw original header without its trailing CR and LF
   * bytes when there is one and the header is unchanged; otherwise the fields
   * separated by the newline.
   */
  function BuildHeaderSpec(env: BuildEnv, nl: seq<byte>, m: Msg): seq<byte> {
    if |m.rawOriginalHeader| > 0 && !m.headerIsChanged then DropRight(m.rawOriginalHeader, CRLF)
    else Join(nl, HeaderFields(m.header, m.headerOrder, env.keyOrder(m.header)))
  }

  /*
   * The body
   */

  /** A message rebuilt: its bytes, the node with the boundaries it was given, and the boundaries drawn so far. */
  datatype Built = Built(out: seq<byte>, msg: Msg, draws: nat)

  /** The parts rebuilt so far: the bytes of each, the rebuilt nodes, and the boundaries drawn. */
  datatype BuiltParts = BuiltParts(outs: seq<seq<byte>>, parts: seq<Msg>, draws: nat)

  /** The line that opens a part: newline, "--", the boundary, newline. */
  function Opening(nl: seq<byte>, b: seq<byte>): seq<byte> {
    nl + DASH_DASH + b + nl
  }

  /** The line that closes the body: newline, "--", the boundary, "--", newline. */
  function Closing(nl: seq<byte>, b: seq<byte>): seq<byte> {
    nl + DASH_DASH + b + DASH_DASH + nl
  }

  /** Each part's bytes after its opening line. */
  function Framed(nl: seq<byte>, b: seq<byte>, outs: seq<seq<byte>>): (fs: seq<seq<byte>>)
    ensures |fs| == |outs|
    ensures forall i :: 0 <= i < |outs| ==> fs[i] == Opening(nl, b) + outs[i]
  {
    seq(|outs|, i requires 0 <= i < |outs| => Opening(nl, b) + outs[i])
  }

  /**
   * `Build`: the header, two newlines, then the body, encoded again by the
   * Content-Transfer-Encoding when the decomposer had decoded it.
   */
  function BuildSpec(env: BuildEnv, nl: seq<byte>, m: Msg, n: nat): Built
    decreases m, 2
  {
    var header := BuildHeaderSpec(env, nl, m);
    var b := BuildBodySpec(env, nl, m, n);
    var body := if m.isDecoded then EncodeByContentEncoding(env.codecs, b.out, GetCanonical(m.header, CONTENT_TRANSFER_ENCODING)) else b.out;
    Built(header + (nl + nl) + body, b.msg, b.draws)
  }

  /**
   * `BuildBody`: the nested message rebuilt, or else the body; then, for a
   * multipart, a boundary (drawn when there is none), each part after its
   * opening line with a newline between parts, and the closing line.
   */
  function BuildBodySpec(env: BuildEnv, nl: seq<byte>, m: Msg, n: nat): Built
    decreases m, 1
  {
    var inner := InnerSpec(env, nl, m, n);
    if |m.parts| == 0 then inner
    else
      var b := if m.boundary == [] then env.randomBoundary(inner.draws) else m.boundary;
      var ps := BuildPartsSpec(env, nl, m, |m.parts|, if m.boundary == [] then inner.draws + 1 else inner.draws);
      Built(inner.out + Join(nl, Framed(nl, b, ps.outs)) + Closing(nl, b), inner.msg.(boundary := b, parts := ps.parts), ps.draws)
  }

  /** What comes before the parts: the nested message rebuilt (and put back in the node), or else the body. */
  function InnerSpec(env: BuildEnv, nl: seq<byte>, m: Msg, n: nat): Built
    decreases m, 0, 0
  {
    if m.bodyMessage.Some? then
      var b := BuildSpec(env, nl, m.bodyMessage.value, n);
      Built(b.out, m.(bodyMessage := Some(b.msg)), b.draws)
    else Built(m.body, m, n)
  }

  /** The first `k` parts of `m` rebuilt one after the other, starting with `n` boundaries drawn. */
  function BuildPartsSpec(env: BuildEnv, nl: seq<byte>, m: Msg, k: nat, n: nat): (r: BuiltParts)
    requires k <= |m.parts|
    ensures |r.outs| == k && |r.parts| == k
    decreases m, 0, k
  {
    if k == 0 then BuiltParts([], [], n)
    else
      var prev := BuildPartsSpec(env, nl, m, k - 1, n);
      var p := BuildSpec(env, nl, m.parts[k - 1], prev.draws);
      BuiltParts(prev.outs + [p.out], prev.parts + [p.msg], p.draws)
  }

  /** A `Join` of non-empty pieces is empty exactly when there are none. */
  lemma {:induction false} JoinEmpty(sep: seq<byte>, ls: seq<seq<byte>>)
    requires forall i :: 0 <= i < |ls| ==> ls[i] != []
    ensures (Join(sep, ls) == []) == (ls == [])
  {
    if |ls| > 1 {
      assert Join(sep, ls) == Join(sep, ls[..|ls| - 1]) + sep + ls[|ls| - 1];
    }
  }

  /** The builder: the newline it writes between lines and around the blank line. */
  class MessageBuilder {
    var newLine: seq<byte>

    /** `NewMessageBuilder`: no newline yet. */
    constructor ()
      ensures newLine == []
    {
      newLine := [];
    }

    method SetNewline(nl: seq<byte>)
      modifies this
      ensures newLine == nl
    {
      newLine := nl;
    }

    method GetNewline() returns (nl: seq<byte>)
      ensures nl == newLine
    {
      nl := newLine;
    }

    /** `BuildHeader`, with its two loops over the header order and over the map. */
    method BuildHeader(env: BuildEnv, m: Msg) returns (out: seq<byte>)
      ensures out == BuildHeaderSpec(env, newLine, m)
    {
      if |m.rawOriginalHeader| > 0 && !m.headerIsChanged {
        return DropRight(m.rawOriginalHeader, CRLF);
      }
      var nl := GetNewline();
      var h := m.header;
      var order := m.headerOrder;
      var buff: seq<byte> := [];
      var alreadyAdded: map<seq<byte>, bool> := map[];
      ghost var names: seq<seq<byte>> := [];
      var i := 0;
      while i < |order|
        invariant 0 <= i <= |order|
        invariant names == Present(h, order[..i]) && alreadyAdded == Added(h, order[..i])
        invariant buff == Join(nl, Fields(h, names))
      {
        var headerCode := order[i];
        OrderStep(h, order, i);
        var key := CanonicalMIMEHeaderKey(headerCode);
        if key in h {
          FieldsJoinStep(h, nl, names, headerCode);
          if buff != [] {
            buff := buff + nl;
          }
          buff := buff + FieldText(headerCode, Get(h, headerCode));
          alreadyAdded := alreadyAdded[key := true];
          names := names + [headerCode];
        }
        i := i + 1;
      }
      assert order[..i] == order;
      var keys := env.keyOrder(h);
      ghost var written := names;
      var j := 0;
      while j < |keys|
        invariant 0 <= j <= |keys|
        invariant written == names + Fresh(keys[..j], alreadyAdded)
        invariant buff == Join(nl, Fields(h, written))
      {
        var key := keys[j];
        FreshStep(names, keys, alreadyAdded, j);
        if key !in alreadyAdded {
          FieldsJoinStep(h, nl, written, key);
          if buff != [] {
            buff := buff + nl;
          }
          buff := buff + FieldText(key, Get(h, key));
          written := written + [key];
        }
        j := j + 1;
      }
      assert keys[..j] == keys;
      out := buff;
    }

    /** `Build`: header, two newlines, the body (encoded again when it had been decoded). */
    method Build(env: BuildEnv, m: Msg, n: nat) returns (out: seq<byte>, built: Msg, draws: nat)
      ensures Built(out, built, draws) == BuildSpec(env, newLine, m, n)
      decreases m, 2
    {
      var header := BuildHeader(env, m);
      var nl := GetNewline();
      var body;
      body, built, draws := BuildBody(env, m, n);
      if m.isDecoded {
        body := EncodeByContentEncoding(env.codecs, body, GetCanonical(m.header, CONTENT_TRANSFER_ENCODING));
      }
      out := header + (nl + nl) + body;
    }

    /** `BuildBody`: the nested message or the body, then the framed parts of a multipart. */
    method BuildBody(env: BuildEnv, m: Msg, n: nat) returns (out: seq<byte>, built: Msg, draws: nat)
      ensures Built(out, built, draws) == BuildBodySpec(env, newLine, m, n)
      decreases m, 1
    {
      var nl := GetNewline();
      var buff: seq<byte> := [];
      built, draws := m, n;
      if m.IsRfc822() {
        var o, bm, d := Build(env, m.bodyMessage.value, n);
        buff := buff + o;
        built, draws := m.(bodyMessage := Some(bm)), d;
      } else if |m.body| > 0 {
        buff := buff + m.body;
      }
      ghost var inner := InnerSpec(env, nl, m, n);
      assert Built(buff, built, draws) == inner;
      if m.IsMultipart() {
        var b := m.boundary;
        if b == [] {
          b := env.randomBoundary(draws);
          draws := draws + 1;
        }
        ghost var first := draws;
        var parts;
        buff, parts, draws := BuildParts(env, nl, m, b, buff, draws);
        buff := buff + Closing(nl, b);
        built := built.(boundary := b, parts := parts);
        BodyMultipartIs(env, nl, m, n, inner, b, first, BuildPartsSpec(env, nl, m, |m.parts|, first));
      } else {
        BodyPlainIs(env, nl, m, n);
      }
      out := buff;
    }

    /** The loop of `BuildBody` over the parts: each one framed by the boundary and built after `start`. */
    method BuildParts(env: BuildEnv, nl: seq<byte>, m: Msg, b: seq<byte>, start: seq<byte>, first: nat)
      returns (buff: seq<byte>, parts: seq<Msg>, draws: nat)
      requires nl == newLine
      ensures var ps := BuildPartsSpec(env, nl, m, |m.parts|, first);
        buff == start + Join(nl, Framed(nl, b, ps.outs)) && parts == ps.parts && draws == ps.draws
      decreases m, 0
    {
      buff, parts, draws := start, [], first;
      ghost var outs: seq<seq<byte>> := [];
      var idx := 0;
      while idx < |m.parts|
        invariant 0 <= idx <= |m.parts| && |outs| == idx
        invariant BuiltParts(outs, parts, draws) == BuildPartsSpec(env, nl, m, idx, first)
        invariant buff == start + Join(nl, Framed(nl, b, outs))
      {
        ghost var before := buff;
        if idx > 0 {
          buff := buff + nl;
        }
        buff := buff + Opening(nl, b);
        var o, pm, d := Build(env, m.parts[idx], draws);
        buff := buff + o;
        FramedAppend(start, before, nl, b, outs, o);
        BuiltPartsStep(env, nl, m, idx, first, BuiltParts(outs, parts, draws), Built(o, pm, d));
        parts, outs, draws := parts + [pm], outs + [o], d;
        idx := idx + 1;
      }
    }
  }

  /** One more name of the header order. */
  lemma OrderStep(h: Header, order: seq<seq<byte>>, i: nat)
    requires i < |order|
    ensures var x := order[i];
      Present(h, order[..i + 1]) == Present(h, order[..i]) + (if CanonicalKey(x) in h then [x] else [])
      && Added(h, order[..i + 1]) == if CanonicalKey(x) in h then Added(h, order[..i])[CanonicalKey(x) := true] else Added(h, order[..i])
  {
    assert order[..i + 1][..i] == order[..i];
  }

  /** One more key of the map, after the `names` of the first loop. */
  lemma FreshStep(names: seq<seq<byte>>, keys: seq<seq<byte>>, added: map<seq<byte>, bool>, j: nat)
    requires j < |keys|
    ensures Fresh(keys[..j + 1], added) == Fresh(keys[..j], added) + (if keys[j] in added then [] else [keys[j]])
    ensures names + Fresh(keys[..j + 1], added) == names + Fresh(keys[..j], added) + (if keys[j] in added then [] else [keys[j]])
  {
    assert keys[..j + 1][..j] == keys[..j];
  }

  /** One more field: the loops' `if buff != ""` writes the newline exactly when a field came before. */
  lemma FieldsJoinStep(h: Header, nl: seq<byte>, names: seq<seq<byte>>, x: seq<byte>)
    ensures var j := Join(nl, Fields(h, names));
      Join(nl, Fields(h, names + [x])) == (if j != [] then j + nl else j) + FieldText(x, Get(h, x))
  {
    assert Fields(h, names + [x]) == Fields(h, names) + [FieldText(x, Get(h, x))];
    JoinAppend(nl, Fields(h, names), FieldText(x, Get(h, x)));
    JoinEmpty(nl, Fields(h, names));
  }

  /** One more part after what came before: the newline between parts comes exactly when a part came before. */
  lemma FramedAppend(start: seq<byte>, buff: seq<byte>, nl: seq<byte>, b: seq<byte>, outs: seq<seq<byte>>, o: seq<byte>)
    requires buff == start + Join(nl, Framed(nl, b, outs))
    ensures (if |outs| > 0 then buff + nl else buff) + Opening(nl, b) + o == start + Join(nl, Framed(nl, b, outs + [o]))
  {
    var fs, x := Framed(nl, b, outs), Opening(nl, b) + o;
    FramedSnoc(nl, b, outs, o);
    JoinAppend(nl, fs, x);
    Regroup(start, Join(nl, fs), nl, Opening(nl, b), o, fs != []);
  }

  lemma Regroup(start: seq<byte>, j: seq<byte>, nl: seq<byte>, op: seq<byte>, o: seq<byte>, some: bool)
    requires !some ==> j == []
    ensures (if some then start + j + nl else start + j) + op + o == start + (if !some then op + o else j + nl + (op + o))
  {
  }

  lemma FramedSnoc(nl: seq<byte>, b: seq<byte>, outs: seq<seq<byte>>, o: seq<byte>)
    ensures Framed(nl, b, outs + [o]) == Framed(nl, b, outs) + [Opening(nl, b) + o]
  {
    var l, r := Framed(nl, b, outs + [o]), Framed(nl, b, outs) + [Opening(nl, b) + o];
    assert |l| == |r|;
    forall i | 0 <= i < |l| ensures l[i] == r[i] {
      if i < |outs| {
        assert (outs + [o])[i] == outs[i];
      }
    }
  }

  /** `BuildBody` of a multipart node, with the part before the parts named. */
  lemma BodyMultipartIs(env: BuildEnv, nl: seq<byte>, m: Msg, n: nat, inner: Built, b: seq<byte>, first: nat, ps: BuiltParts)
    requires |m.parts| > 0 && inner == InnerSpec(env, nl, m, n)
    requires b == if m.boundary == [] then env.randomBoundary(inner.draws) else m.boundary
    requires first == if m.boundary == [] then inner.draws + 1 else inner.draws
    requires ps == BuildPartsSpec(env, nl, m, |m.parts|, first)
    ensures BuildBodySpec(env, nl, m, n) == Built(inner.out + Join(nl, Framed(nl, b, ps.outs)) + Closing(nl, b), inner.msg.(boundary := b, parts := ps.parts), ps.draws)
  {
  }

  /** `BuildBody` of a node without parts. */
  lemma BodyPlainIs(env: BuildEnv, nl: seq<byte>, m: Msg, n: nat)
    requires |m.parts| == 0
    ensures BuildBodySpec(env, nl, m, n) == InnerSpec(env, nl, m, n)
  {
  }

  /** One more part rebuilt. */
  lemma BuiltPartsStep(env: BuildEnv, nl: seq<byte>, m: Msg, k: nat, n: nat, prev: BuiltParts, p: Built)
    requires k < |m.parts|
    requires prev == BuildPartsSpec(env, nl, m, k, n)
    requires p == BuildSpec(env, nl, m.parts[k], prev.draws)
    ensures BuildPartsSpec(env, nl, m, k + 1, n) == BuiltParts(prev.outs + [p.out], prev.parts + [p.msg], p.draws)
  {
  }

  /*
   * Properties of the header
   */

  /** An unchanged raw header is written as it came, up to its last byte that is neither CR nor LF. */
  lemma HeaderVerbatim(env: BuildEnv, nl: seq<byte>, m: Msg)
    requires |m.rawOriginalHeader| > 0 && !m.headerIsChanged
    ensures var r := BuildHeaderSpec(env, nl, m);
      r == m.rawOriginalHeader[..|r|] && AllIn(m.rawOriginalHeader[|r|..], CRLF)
      && (|r| > 0 ==> r[|r| - 1] !in CRLF)
  {
  }

  /** A name of the header order is written as often as it occurs there when its canonical key is in the header, else never. */
  lemma {:induction false} PresentCount(h: Header, order: seq<seq<byte>>, x: seq<byte>)
    ensures multiset(Present(h, order))[x] == if CanonicalKey(x) in h then multiset(order)[x] else 0
    decreases |order|
  {
    if order != [] {
      var init := order[..|order| - 1];
      PresentCount(h, init, x);
      assert order == init + [order[|order| - 1]];
    }
  }

  /** The first loop marks exactly the header keys that some name of the order canonicalises to. */
  lemma {:induction false} AddedKeys(h: Header, order: seq<seq<byte>>, k: seq<byte>)
    ensures k in Added(h, order) <==> k in h && Named(order, k)
    decreases |order|
  {
    if order != [] {
      AddedKeys(h, order[..|order| - 1], k);
      NamedSnoc(order, k);
      AddedLast(h, order, k);
    }
  }

  /** Some name of `order` canonicalises to `k`. */
  ghost predicate Named(order: seq<seq<byte>>, k: seq<byte>) {
    exists i :: 0 <= i < |order| && CanonicalKey(order[i]) == k
  }

  lemma NamedSnoc(order: seq<seq<byte>>, k: seq<byte>)
    requires order != []
    ensures Named(order, k) <==> Named(order[..|order| - 1], k) || CanonicalKey(order[|order| - 1]) == k
  {
    var init := order[..|order| - 1];
    if Named(order, k) && CanonicalKey(order[|order| - 1]) != k {
      var i :| 0 <= i < |order| && CanonicalKey(order[i]) == k;
      assert init[i] == order[i];
    }
    if Named(init, k) {
      var i :| 0 <= i < |init| && CanonicalKey(init[i]) == k;
      assert order[i] == init[i];
    }
  }

  lemma AddedLast(h: Header, order: seq<seq<byte>>, k: seq<byte>)
    requires order != []
    ensures var x := CanonicalKey(order[|order| - 1]);
      k in Added(h, order) <==> k in Added(h, order[..|order| - 1]) || (x in h && x == k)
  {
  }

  /** The second loop writes a key as often as the map order holds it, unless the first loop marked it. */
  lemma {:induction false} FreshCount(keys: seq<seq<byte>>, added: map<seq<byte>, bool>, x: seq<byte>)
    ensures multiset(Fresh(keys, added))[x] == if x in added then 0 else multiset(keys)[x]
    decreases |keys|
  {
    if keys != [] {
      var init := keys[..|keys| - 1];
      FreshCount(init, added, x);
      assert keys == init + [keys[|keys| - 1]];
    }
  }

  /** In a sequence without repeats each element occurs once. */
  lemma {:induction false} DistinctCount(keys: seq<seq<byte>>, x: seq<byte>)
    requires forall i, j :: 0 <= i < j < |keys| ==> keys[i] != keys[j]
    ensures multiset(keys)[x] == if x in keys then 1 else 0
    decreases |keys|
  {
    if keys != [] {
      var init := keys[..|keys| - 1];
      DistinctCount(init, x);
      assert keys == init + [keys[|keys| - 1]];
      assert x in keys <==> x in init || x == keys[|keys| - 1];
    }
  }

  /**
   * When the map order visits every key once, the second loop writes each
   * key of the header exactly once when no name of the order stands for it,
   * and nothing else.
   */
  lemma FreshCoversHeader(h: Header, order: seq<seq<byte>>, keys: seq<seq<byte>>, k: seq<byte>)
    requires Enumerates(keys, h)
    ensures multiset(Fresh(keys, Added(h, order)))[k]
      == if k in h && !(exists i :: 0 <= i < |order| && CanonicalKey(order[i]) == k) then 1 else 0
  {
    FreshCount(keys, Added(h, order), k);
    AddedKeys(h, order, k);
    DistinctCount(keys, k);
  }

  /**
   * Every field written names a key of the header and carries that key's
   * first value, so a name repeated in the header order repeats the first
   * value (when the map order visits every key once and the keys are canonical).
   */
  lemma FieldValues(h: Header, order: seq<seq<byte>>, keys: seq<seq<byte>>)
    requires Enumerates(keys, h) && HasValues(h)
    requires forall k :: k in h ==> CanonicalKey(k) == k
    ensures var names := Present(h, order) + Fresh(keys, Added(h, order));
      var fs := HeaderFields(h, order, keys);
      |fs| == |names|
      && forall i :: 0 <= i < |names| ==>
        CanonicalKey(names[i]) in h && fs[i] == FieldText(names[i], h[CanonicalKey(names[i])][0])
  {
    var p := Present(h, order);
    var f := Fresh(keys, Added(h, order));
    var names := p + f;
    forall i | 0 <= i < |names|
      ensures CanonicalKey(names[i]) in h
    {
      var x := names[i];
      if i < |p| {
        assert x in multiset(p);
        PresentCount(h, order, x);
      } else {
        assert x == f[i - |p|] && x in multiset(f);
        FreshCount(keys, Added(h, order), x);
        assert x in multiset(keys);
      }
    }
  }

  /*
   * Properties of the body
   */

  /** The boundaries a build draws: one per multipart node without a boundary. */
  function Missing(m: Msg): nat
    decreases m, 1
  {
    (if m.bodyMessage.Some? then Missing(m.bodyMessage.value) else 0)
    + (if |m.parts| > 0 && m.boundary == [] then 1 else 0)
    + MissingIn(m, |m.parts|)
  }

  /** The boundaries missing in the first `k` parts of `m`. */
  function MissingIn(m: Msg, k: nat): nat
    requires k <= |m.parts|
    decreases m, 0, k
  {
    if k == 0 then 0 else MissingIn(m, k - 1) + Missing(m.parts[k - 1])
  }

  /** `Build` calls `RandomBoundary` once for each multipart node that has no boundary, and for no other. */
  lemma {:induction false} BuildDraws(env: BuildEnv, nl: seq<byte>, m: Msg, n: nat)
    ensures BuildSpec(env, nl, m, n).draws == n + Missing(m)
    decreases m, 2
  {
    BodyDraws(env, nl, m, n);
  }

  lemma {:induction false} BodyDraws(env: BuildEnv, nl: seq<byte>, m: Msg, n: nat)
    ensures BuildBodySpec(env, nl, m, n).draws == n + Missing(m)
    decreases m, 1
  {
    var inner := InnerSpec(env, nl, m, n);
    if m.bodyMessage.Some? {
      BuildDraws(env, nl, m.bodyMessage.value, n);
    }
    assert inner.draws == n + if m.bodyMessage.Some? then Missing(m.bodyMessage.value) else 0;
    if |m.parts| > 0 {
      var b := if m.boundary == [] then env.randomBoundary(inner.draws) else m.boundary;
      var first := if m.boundary == [] then inner.draws + 1 else inner.draws;
      var ps := BuildPartsSpec(env, nl, m, |m.parts|, first);
      PartsDraws(env, nl, m, |m.parts|, first);
      BodyMultipartIs(env, nl, m, n, inner, b, first, ps);
    } else {
      BodyPlainIs(env, nl, m, n);
    }
  }

  lemma {:induction false} PartsDraws(env: BuildEnv, nl: seq<byte>, m: Msg, k: nat, n: nat)
    requires k <= |m.parts|
    ensures BuildPartsSpec(env, nl, m, k, n).draws == n + MissingIn(m, k)
    decreases m, 0, k
  {
    if k > 0 {
      PartsDraws(env, nl, m, k - 1, n);
      BuildDraws(env, nl, m.parts[k - 1], BuildPartsSpec(env, nl, m, k - 1, n).draws);
    }
  }

  /** The `j`-th part built after the boundaries the parts before it drew, from `n` on. */
  function PartBuilt(env: BuildEnv, nl: seq<byte>, m: Msg, n: nat, j: nat): Built
    requires j < |m.parts|
  {
    BuildSpec(env, nl, m.parts[j], n + MissingIn(m, j))
  }

  /** The bytes of every part, each built after the boundaries the parts before it drew. */
  function PartOuts(env: BuildEnv, nl: seq<byte>, m: Msg, n: nat): (outs: seq<seq<byte>>)
    ensures |outs| == |m.parts|
    ensures forall j :: 0 <= j < |m.parts| ==> outs[j] == PartBuilt(env, nl, m, n, j).out
  {
    seq(|m.parts|, j requires 0 <= j < |m.parts| => PartBuilt(env, nl, m, n, j).out)
  }

  /** Each of the first `k` parts is built after the boundaries the parts before it drew. */
  lemma {:induction false} PartsAre(env: BuildEnv, nl: seq<byte>, m: Msg, k: nat, n: nat)
    requires k <= |m.parts|
    ensures PartsMatch(env, nl, m, n, k, BuildPartsSpec(env, nl, m, k, n))
    decreases k
  {
    if k > 0 {
      var prev := BuildPartsSpec(env, nl, m, k - 1, n);
      var p := BuildSpec(env, nl, m.parts[k - 1], prev.draws);
      PartsAre(env, nl, m, k - 1, n);
      PartsDraws(env, nl, m, k - 1, n);
      assert p == PartBuilt(env, nl, m, n, k - 1);
      PartsAreStep(env, nl, m, k, n, prev, p);
    }
  }

  /** The first `k` parts of `ps` are the parts of `m` built one by one from `n` boundaries drawn. */
  ghost predicate PartsMatch(env: BuildEnv, nl: seq<byte>, m: Msg, n: nat, k: nat, ps: BuiltParts)
    requires k <= |m.parts|
  {
    |ps.outs| == k && |ps.parts| == k &&
    forall j :: 0 <= j < k ==> ps.outs[j] == PartBuilt(env, nl, m, n, j).out && ps.parts[j] == PartBuilt(env, nl, m, n, j).msg
  }

  lemma PartsAreStep(env: BuildEnv, nl: seq<byte>, m: Msg, k: nat, n: nat, prev: BuiltParts, p: Built)
    requires 0 < k <= |m.parts| && PartsMatch(env, nl, m, n, k - 1, prev)
    requires prev == BuildPartsSpec(env, nl, m, k - 1, n)
    requires p == BuildSpec(env, nl, m.parts[k - 1], prev.draws) && p == PartBuilt(env, nl, m, n, k - 1)
    ensures PartsMatch(env, nl, m, n, k, BuildPartsSpec(env, nl, m, k, n))
  {
    var ps := BuildPartsSpec(env, nl, m, k, n);
    assert ps == BuiltParts(prev.outs + [p.out], prev.parts + [p.msg], p.draws);
    forall j | 0 <= j < k
      ensures ps.outs[j] == PartBuilt(env, nl, m, n, j).out && ps.parts[j] == PartBuilt(env, nl, m, n, j).msg
    {
      if j < k - 1 {
        assert ps.outs[j] == prev.outs[j] && ps.parts[j] == prev.parts[j];
      }
    }
  }

  /**
   * What `BuildBody` writes before any parts: the nested message rebuilt when
   * there is one (the body is then ignored), the body otherwise; the
   * boundaries drawn are those the nested message lacked.
   */
  lemma InnerOutcome(env: BuildEnv, nl: seq<byte>, m: Msg, n: nat)
    ensures var inner := InnerSpec(env, nl, m, n);
      inner.out == (if m.bodyMessage.Some? then BuildSpec(env, nl, m.bodyMessage.value, n).out else m.body)
      && inner.draws == n + (if m.bodyMessage.Some? then Missing(m.bodyMessage.value) else 0)
      && inner.msg.boundary == m.boundary
  {
    if m.bodyMessage.Some? {
      BuildDraws(env, nl, m.bodyMessage.value, n);
    }
  }

  /**
   * The rest of `BuildBody` for a multipart node: the node's boundary or, when
   * it had none, a newly drawn one that the node keeps; each part rebuilt after
   * its opening line, a newline between parts, and the closing line.
   */
  lemma PartsOutcome(env: BuildEnv, nl: seq<byte>, m: Msg, n: nat, inner: Built, b: seq<byte>, first: nat)
    requires |m.parts| > 0 && inner == InnerSpec(env, nl, m, n)
    requires b == if m.boundary == [] then env.randomBoundary(inner.draws) else m.boundary
    requires first == if m.boundary == [] then inner.draws + 1 else inner.draws
    ensures var r := BuildBodySpec(env, nl, m, n);
      r.msg.boundary == b && |r.msg.parts| == |m.parts|
      && r.out == inner.out + Join(nl, Framed(nl, b, PartOuts(env, nl, m, first))) + Closing(nl, b)
      && forall j :: 0 <= j < |m.parts| ==> r.msg.parts[j] == PartBuilt(env, nl, m, first, j).msg
  {
    var ps := BuildPartsSpec(env, nl, m, |m.parts|, first);
    BodyMultipartIs(env, nl, m, n, inner, b, first, ps);
    PartsAre(env, nl, m, |m.parts|, first);
    assert ps.outs == PartOuts(env, nl, m, first);
  }

  /** A rebuilt node differs from the original only in its nested message, boundary and parts. */
  lemma BodyKeeps(env: BuildEnv, nl: seq<byte>, m: Msg, n: nat)
    ensures var r := BuildBodySpec(env, nl, m, n).msg;
      r == m.(bodyMessage := r.bodyMessage, boundary := r.boundary, parts := r.parts)
      && |r.parts| == |m.parts| && (r.bodyMessage.Some? <==> m.bodyMessage.Some?)
      && (|m.parts| == 0 ==> r.boundary == m.boundary)
      && (m.boundary != [] ==> r.boundary == m.boundary)
  {
    var inner := InnerSpec(env, nl, m, n);
    assert inner.msg == m.(bodyMessage := inner.msg.bodyMessage);
    if |m.parts| > 0 {
      var b := if m.boundary == [] then env.randomBoundary(inner.draws) else m.boundary;
      var first := if m.boundary == [] then inner.draws + 1 else inner.draws;
      BodyMultipartIs(env, nl, m, n, inner, b, first, BuildPartsSpec(env, nl, m, |m.parts|, first));
    } else {
      BodyPlainIs(env, nl, m, n);
    }
  }

  /*
   * Building again
   */

  /**
   * The header of a node comes out the same whatever order the header maps are
   * visited in: it is the unchanged raw header, or at most one of its keys is
   * left for the map loop, because every other key is named by the header order.
   */
  ghost predicate HeaderOrderFree(m: Msg) {
    (|m.rawOriginalHeader| > 0 && !m.headerIsChanged)
    || forall k1, k2 :: LeftToMapLoop(m.header, m.headerOrder, k1) && LeftToMapLoop(m.header, m.headerOrder, k2) ==> k1 == k2
  }

  /** `k` is a key of the header that no name of the order stands for: the map loop writes it. */
  ghost predicate LeftToMapLoop(h: Header, order: seq<seq<byte>>, k: seq<byte>) {
    k in h && k !in Added(h, order)
  }

  /** Every header of the tree is `HeaderOrderFree`. */
  ghost predicate OrderFree(m: Msg)
    decreases m
  {
    HeaderOrderFree(m)
    && (m.bodyMessage.Some? ==> OrderFree(m.bodyMessage.value))
    && forall i :: 0 <= i < |m.parts| ==> OrderFree(m.parts[i])
  }

  /**
   * Two builds of `m` write the same headers: they visit each header map in
   * the same order, or they both visit each key once and the tree is
   * `OrderFree`.
   */
  ghost predicate SameHeaders(env: BuildEnv, env2: BuildEnv, m: Msg) {
    env2.keyOrder == env.keyOrder || (RangesOverKeys(env) && RangesOverKeys(env2) && OrderFree(m))
  }

  /** When at most one key is left for the map loop, the loop writes the same keys in any visiting order. */
  lemma FreshOrderFree(h: Header, order: seq<seq<byte>>, keys1: seq<seq<byte>>, keys2: seq<seq<byte>>)
    requires Enumerates(keys1, h) && Enumerates(keys2, h)
    requires forall k1, k2 :: LeftToMapLoop(h, order, k1) && LeftToMapLoop(h, order, k2) ==> k1 == k2
    ensures Fresh(keys1, Added(h, order)) == Fresh(keys2, Added(h, order))
  {
    var a := Added(h, order);
    var f1, f2 := Fresh(keys1, a), Fresh(keys2, a);
    forall x
      ensures multiset(f1)[x] == multiset(f2)[x] && multiset(f1)[x] <= 1
      ensures x in f1 ==> LeftToMapLoop(h, order, x)
    {
      FreshCount(keys1, a, x);
      FreshCount(keys2, a, x);
      DistinctCount(keys1, x);
      DistinctCount(keys2, x);
      if x in f1 {
        assert x in multiset(f1);
      }
    }
    SameSingleton(f1, f2);
  }

  /** Two sequences with the same elements, none repeated and at most one distinct, are equal. */
  lemma SameSingleton(f1: seq<seq<byte>>, f2: seq<seq<byte>>)
    requires forall x :: multiset(f1)[x] == multiset(f2)[x] && multiset(f1)[x] <= 1
    requires forall x, y :: x in f1 && y in f1 ==> x == y
    ensures f1 == f2
  {
    assert multiset(f1) == multiset(f2);
    assert |f1| == |f2| by {
      assert |multiset(f1)| == |f1| && |multiset(f2)| == |f2|;
    }
    RepeatCount(f1);
    assert forall i :: 0 <= i < |f1| ==> f1[i] in f1;
    assert |f1| <= 1;
    if |f1| == 1 {
      assert f1[0] in multiset(f2);
      assert f2 == [f2[0]];
    }
  }

  /** A sequence that starts with the same element twice holds it at least twice. */
  lemma RepeatCount(f: seq<seq<byte>>)
    ensures |f| >= 2 && f[0] == f[1] ==> multiset(f)[f[0]] >= 2
  {
    if |f| >= 2 && f[0] == f[1] {
      assert f == [f[0], f[0]] + f[2..];
    }
  }

  /** Under `SameHeaders`, both builds write the header of `m` alike. */
  lemma HeaderOrderIrrelevant(env: BuildEnv, env2: BuildEnv, nl: seq<byte>, m: Msg)
    requires SameHeaders(env, env2, m)
    ensures BuildHeaderSpec(env2, nl, m) == BuildHeaderSpec(env, nl, m)
  {
    if env2.keyOrder != env.keyOrder && !(|m.rawOriginalHeader| > 0 && !m.headerIsChanged) {
      FreshOrderFree(m.header, m.headerOrder, env.keyOrder(m.header), env2.keyOrder(m.header));
    }
  }

  /**
   * Building a message sets the boundaries it lacked in place, so building the
   * result again, with the same codecs and boundary source and any map
   * visiting order, returns the same tree and draws no further boundary; it
   * writes the same bytes under `SameHeaders`.
   */
  lemma {:induction false} RebuildStable(env: BuildEnv, env2: BuildEnv, nl: seq<byte>, m: Msg, n: nat, n2: nat)
    requires BoundariesHex(env) && env2 == env.(keyOrder := env2.keyOrder)
    ensures var b := BuildSpec(env, nl, m, n);
      var b2 := BuildSpec(env2, nl, b.msg, n2);
      b2.msg == b.msg && b2.draws == n2 && (SameHeaders(env, env2, m) ==> b2.out == b.out)
    decreases m, 2
  {
    var b := BuildBodySpec(env, nl, m, n);
    BodyKeeps(env, nl, m, n);
    BodyStable(env, env2, nl, m, n, n2);
    assert BuildHeaderSpec(env2, nl, b.msg) == BuildHeaderSpec(env2, nl, m);
    if SameHeaders(env, env2, m) {
      HeaderOrderIrrelevant(env, env2, nl, m);
    }
  }

  lemma {:induction false} BodyStable(env: BuildEnv, env2: BuildEnv, nl: seq<byte>, m: Msg, n: nat, n2: nat)
    requires BoundariesHex(env) && env2 == env.(keyOrder := env2.keyOrder)
    ensures var b := BuildBodySpec(env, nl, m, n);
      var b2 := BuildBodySpec(env2, nl, b.msg, n2);
      b2.msg == b.msg && b2.draws == n2 && (SameHeaders(env, env2, m) ==> b2.out == b.out)
    decreases m, 1
  {
    var b := BuildBodySpec(env, nl, m, n);
    var r := b.msg;
    var inner := InnerSpec(env, nl, m, n);
    BodyKeeps(env, nl, m, n);
    InnerStable(env, env2, nl, m, n, n2, r);
    if |m.parts| > 0 {
      var bd := if m.boundary == [] then env.randomBoundary(inner.draws) else m.boundary;
      var first := if m.boundary == [] then inner.draws + 1 else inner.draws;
      var ps := BuildPartsSpec(env, nl, m, |m.parts|, first);
      BodyMultipartIs(env, nl, m, n, inner, bd, first, ps);
      assert r == inner.msg.(boundary := bd, parts := ps.parts);
      assert |bd| > 0;
      PartsStable(env, env2, nl, m, r, |m.parts|, first, n2);
      var inner2 := InnerSpec(env2, nl, r, n2);
      BodyMultipartIs(env2, nl, r, n2, inner2, bd, n2, BuildPartsSpec(env2, nl, r, |m.parts|, n2));
    } else {
      BodyPlainIs(env, nl, m, n);
      BodyPlainIs(env2, nl, r, n2);
    }
  }

  /** Rebuilding what comes before the parts of a rebuilt node gives the same node and draws nothing. */
  lemma {:induction false} InnerStable(env: BuildEnv, env2: BuildEnv, nl: seq<byte>, m: Msg, n: nat, n2: nat, r: Msg)
    requires BoundariesHex(env) && env2 == env.(keyOrder := env2.keyOrder)
    requires r == m.(bodyMessage := r.bodyMessage, boundary := r.boundary, parts := r.parts)
    requires r.bodyMessage == InnerSpec(env, nl, m, n).msg.bodyMessage
    ensures var i, i2 := InnerSpec(env, nl, m, n), InnerSpec(env2, nl, r, n2);
      i2.msg == r && i2.draws == n2 && (SameHeaders(env, env2, m) ==> i2.out == i.out)
    decreases m, 0, 0
  {
    if m.bodyMessage.Some? {
      RebuildStable(env, env2, nl, m.bodyMessage.value, n, n2);
      if SameHeaders(env, env2, m) {
        assert SameHeaders(env, env2, m.bodyMessage.value);
      }
    }
  }

  /** Rebuilding the first `k` rebuilt parts gives the same parts and draws nothing. */
  lemma {:induction false} PartsStable(env: BuildEnv, env2: BuildEnv, nl: seq<byte>, m: Msg, r: Msg, k: nat, n: nat, n2: nat)
    requires BoundariesHex(env) && env2 == env.(keyOrder := env2.keyOrder)
    requires k <= |m.parts| && k <= |r.parts|
    requires forall j :: 0 <= j < k ==> r.parts[j] == BuildPartsSpec(env, nl, m, k, n).parts[j]
    ensures var ps, ps2 := BuildPartsSpec(env, nl, m, k, n), BuildPartsSpec(env2, nl, r, k, n2);
      ps2.parts == ps.parts && ps2.draws == n2 && (SameHeaders(env, env2, m) ==> ps2.outs == ps.outs)
    decreases m, 0, k
  {
    if k > 0 {
      var prev := BuildPartsSpec(env, nl, m, k - 1, n);
      var p := BuildSpec(env, nl, m.parts[k - 1], prev.draws);
      BuiltPartsStep(env, nl, m, k - 1, n, prev, p);
      PartsPrefix(r.parts, BuildPartsSpec(env, nl, m, k, n).parts, prev.parts, p.msg, k);
      PartsStable(env, env2, nl, m, r, k - 1, n, n2);
      RebuildStable(env, env2, nl, m.parts[k - 1], prev.draws, n2);
      var prev2 := BuildPartsSpec(env2, nl, r, k - 1, n2);
      BuiltPartsStep(env2, nl, r, k - 1, n2, prev2, BuildSpec(env2, nl, r.parts[k - 1], prev2.draws));
      if SameHeaders(env, env2, m) {
        assert SameHeaders(env, env2, m.parts[k - 1]);
      }
    }
  }

  /** Agreement on the first `k` entries of `xs + [x]` is agreement on the first `k - 1` of `xs`, and on `x` at `k - 1`. */
  lemma PartsPrefix(ps: seq<Msg>, all: seq<Msg>, xs: seq<Msg>, x: Msg, k: nat)
    requires 0 < k <= |ps| && all == xs + [x] && |xs| == k - 1
    requires forall j :: 0 <= j < k ==> ps[j] == all[j]
    ensures forall j :: 0 <= j < k - 1 ==> ps[j] == xs[j]
    ensures ps[k - 1] == x
  {
    assert ps[k - 1] == all[k - 1];
    forall j | 0 <= j < k - 1 ensures ps[j] == xs[j] {
      assert ps[j] == all[j];
    }
  }

  /*
   * Decomposing, then building
   */

  lemma {:induction false} LinesAppend(ls: seq<seq<byte>>, x: seq<byte>)
    ensures Lines(ls + [x]) == Lines(ls) + x + [LF]
    decreases |ls|
  {
    if ls == [] {
      assert Lines([x]) == x + [LF] + Lines([]);
    } else {
      assert (ls + [x])[1..] == ls[1..] + [x];
      LinesAppend(ls[1..], x);
    }
  }

  /** Lines each ended by LF are the lines joined by LF, then one more LF. */
  lemma {:induction false} LinesJoin(ls: seq<seq<byte>>)
    requires ls != []
    ensures Lines(ls) == Join([LF], ls) + [LF]
    decreases |ls|
  {
    var init, x := ls[..|ls| - 1], ls[|ls| - 1];
    assert ls == init + [x];
    LinesAppend(init, x);
    JoinAppend([LF], init, x);
    if init != [] {
      LinesJoin(init);
    }
  }

  /** A join ends as its last piece does. */
  lemma JoinLast(sep: seq<byte>, ls: seq<seq<byte>>)
    requires ls != [] && ls[|ls| - 1] != []
    ensures var j := Join(sep, ls); var x := ls[|ls| - 1];
      j != [] && j[|j| - 1] == x[|x| - 1]
  {
  }

  /**
   * A message made of logical header lines, folded or not and each line ended
   * by "\r\n" or "\n", then a blank line and a body, with neither a boundary nor
   * a message/rfc822 Content-Type, decomposes into the node with those lines,
   * joined by LF, as its raw header, the rest as its body, and one name per
   * logical line in its header order.
   */
  lemma DecomposeSinglePart(denv: Env, hs: seq<HeaderLine>, cr: bool, body: seq<byte>)
    requires ValidEnv(denv) && FieldLines(hs) && hs != []
    requires ExtractBoundary(denv, AddLines(map[], hs)).value == []
    requires !HasPrefix(TrimSet(GetCanonical(AddLines(map[], hs), CONTENT_TYPE), WSP), MESSAGE_RFC822)
    ensures var d := DecomposeSpec(denv, HeaderBytes(hs) + Eol(cr) + body, []);
      d.Success? && d.value.rawOriginalHeader == Join([LF], PhysicalLines(hs)) && !d.value.headerIsChanged
      && d.value.headerOrder == FieldNames(hs) && d.value.header == AddLines(map[], hs)
      && d.value.body == body && d.value.parts == [] && d.value.bodyMessage == None && !d.value.isDecoded
  {
    var raw := HeaderBytes(hs) + Eol(cr) + body;
    HeaderOfMessage(hs, cr, body);
    var h := MimeHeaderAt(raw, 0, false, BeginLine);
    var node := RootNode(h, []);
    assert node.rawOriginalHeader == Join([LF], PhysicalLines(hs)) && !node.headerIsChanged && node.parts == [] && !node.isDecoded;
    assert !WantsRfc822(node);
    SinglePartOutcome(denv, node, body);
    assert DecomposeSpec(denv, raw, []) == Success(node.(body := body));
  }

  /**
   * The header block of such a message: its fields, its lines joined by LF as
   * raw header, one name per logical line, and the body after the blank line.
   */
  lemma HeaderOfMessage(hs: seq<HeaderLine>, cr: bool, body: seq<byte>)
    requires FieldLines(hs) && hs != []
    ensures var raw := HeaderBytes(hs) + Eol(cr) + body;
      var h := MimeHeaderAt(raw, 0, false, BeginLine);
      h == HeaderRead(AddLines(map[], hs), Lines(PhysicalLines(hs)), |HeaderBytes(hs)| + |Eol(cr)|, None)
      && raw[h.next..] == body && OriginalOrder([], h.raw) == OrderAndRaw(FieldNames(hs), Join([LF], PhysicalLines(hs)))
  {
    var raw := MailBlock(hs, cr, body);
    MimeHeaderBlock(raw, hs, BlankLine(cr), BeginLine);
    OrderOfBlock(hs);
  }

  /** A header block, its blank line and a body, laid out one after the other. */
  lemma MailBlock(hs: seq<HeaderLine>, cr: bool, body: seq<byte>) returns (raw: seq<byte>)
    ensures raw == HeaderBytes(hs) + Eol(cr) + body
    ensures BlockAt(raw, 0, hs, BlankLine(cr)) && raw[|HeaderBytes(hs)| + |Eol(cr)|..] == body
  {
    raw := HeaderBytes(hs) + Eol(cr) + body;
    var block := HeaderBytes(hs) + EndBytes(BlankLine(cr));
    assert raw[0..|block|] == block;
  }

  /** The order and raw header `SetOriginalHeaderOrder` finds in the physical lines of a block. */
  lemma OrderOfBlock(hs: seq<HeaderLine>)
    requires FieldLines(hs) && hs != []
    ensures OriginalOrder([], Lines(PhysicalLines(hs))) == OrderAndRaw(FieldNames(hs), Join([LF], PhysicalLines(hs)))
  {
    PhysicalTextLines(hs);
    OriginalOrderOfBlock([], PhysicalLines(hs));
    OrderOfFieldLines(hs);
  }

  /**
   * A node read from a raw header that ends in a byte other than CR or LF,
   * with neither parts nor nested message nor decoded body, is written as
   * that header, two newlines and its body.
   */
  lemma BuildSinglePart(env: BuildEnv, nl: seq<byte>, m: Msg, n: nat)
    requires m.rawOriginalHeader != [] && m.rawOriginalHeader[|m.rawOriginalHeader| - 1] !in CRLF
    requires !m.headerIsChanged && m.parts == [] && m.bodyMessage == None && !m.isDecoded
    ensures BuildSpec(env, nl, m, n) == Built(m.rawOriginalHeader + (nl + nl) + m.body, m, n)
  {
    DropRightNoop(m.rawOriginalHeader, CRLF);
    BodyPlainIs(env, nl, m, n);
  }

  /**
   * Decomposing such a message and building the node again, with LF as the
   * newline, draws no boundary and gives back the message with every line
   * ended by LF alone: the same bytes when no line ended with "\r\n".
   */
  lemma RoundTripSinglePart(denv: Env, env: BuildEnv, hs: seq<HeaderLine>, cr: bool, body: seq<byte>, n: nat)
    requires ValidEnv(denv) && FieldLines(hs) && hs != []
    requires ExtractBoundary(denv, AddLines(map[], hs)).value == []
    requires !HasPrefix(TrimSet(GetCanonical(AddLines(map[], hs), CONTENT_TYPE), WSP), MESSAGE_RFC822)
    ensures var raw := HeaderBytes(hs) + Eol(cr) + body;
      var d := DecomposeSpec(denv, raw, []);
      d.Success? && BuildSpec(env, [LF], d.value, n) == Built(Lines(PhysicalLines(hs)) + [LF] + body, d.value, n)
    ensures var raw := HeaderBytes(hs) + Eol(cr) + body;
      var d := DecomposeSpec(denv, raw, []);
      LfOnly(hs) && !cr ==> d.Success? && BuildSpec(env, [LF], d.value, n) == Built(raw, d.value, n)
  {
    DecomposeSinglePart(denv, hs, cr, body);
    PhysicalTextLines(hs);
    BuildLines(env, PhysicalLines(hs), body, DecomposeSpec(denv, HeaderBytes(hs) + Eol(cr) + body, []).value, n);
    RawHeaderLines(hs);
    RawsLines(hs);
  }

  /** The build half of the round trip: such a node is written as its lines, each with a LF, a LF and the body. */
  lemma BuildLines(env: BuildEnv, ls: seq<seq<byte>>, body: seq<byte>, m: Msg, n: nat)
    requires TextLines(ls) && ls != []
    requires m.rawOriginalHeader == Join([LF], ls) && !m.headerIsChanged
    requires m.body == body && m.parts == [] && m.bodyMessage == None && !m.isDecoded
    ensures BuildSpec(env, [LF], m, n) == Built(Lines(ls) + [LF] + body, m, n)
  {
    assert ls[|ls| - 1] != [];
    JoinLast([LF], ls);
    BuildSinglePart(env, [LF], m, n);
    LinesJoin(ls);
  }
}
