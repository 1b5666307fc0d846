/**
 * Header field names: the token bytes of RFC 7230 (section 3.2.6), the
 * canonical spelling of a key, and the ordered multimap `MIMEHeader`
 * (key to the values in the order they were read).
 */
module MimeHeader {
  import opened Bytes

  type Header = map<seq<byte>, seq<seq<byte>>>

  predicate IsDigit(b: byte) { 48 <= b <= 57 }
  predicate IsUpper(b: byte) { 65 <= b <= 90 }
  predicate IsLower(b: byte) { 97 <= b <= 122 }

  /** The punctuation marks of `tchar`: ! # $ % & ' * + - . ^ _ ` | ~ */
  const TCHAR_MARKS: set<byte> := {33, 35, 36, 37, 38, 39, 42, 43, 45, 46, 94, 95, 96, 124, 126}

  /** `validHeaderFieldByte`: a lookup in the 127-entry `isTokenTable`. */
  predicate IsTokenByte(b: byte) {
    b < 127 && (IsDigit(b) || IsUpper(b) || IsLower(b) || b in TCHAR_MARKS)
  }

  /** `isASCIILetter`: force bit 0x20 (lower case) and test for 'a'..'z'. */
  predicate IsAsciiLetter(b: byte) {
    var l := (b as bv8) | 0x20;
    0x61 <= l <= 0x7A
  }

  function ToUpper(c: byte): byte { if IsLower(c) then c - 32 else c }
  function ToLower(c: byte): byte { if IsUpper(c) then c + 32 else c }

  /** The case a canonical key has at a position: upper after the start or a '-'. */
  function CaseAt(c: byte, upper: bool): byte { if upper then ToUpper(c) else ToLower(c) }

  predicate AllTokens(s: seq<byte>) {
    forall i :: 0 <= i < |s| ==> IsTokenByte(s[i])
  }

  /** The rewriting loop of `canonicalMIMEHeaderKey`; `upper` says the previous byte was '-' (or none). */
  function CanonFrom(s: seq<byte>, upper: bool): seq<byte>
  {
    if s == [] then []
    else
      var c := if upper && IsLower(s[0]) then s[0] - 32
               else if !upper && IsUpper(s[0]) then s[0] + 32
               else s[0];
      [c] + CanonFrom(s[1..], c == DASH)
  }

  /** The key `canonicalMIMEHeaderKey` and `CanonicalMIMEHeaderKey` return. */
  function CanonicalKey(s: seq<byte>): seq<byte>
  {
    if AllTokens(s) then CanonFrom(s, true) else s
  }

  /** `MIMEHeader.Get`: the first value of the canonical key, or empty. */
  function Get(h: Header, key: seq<byte>): seq<byte>
  {
    var k := CanonicalKey(key);
    if k in h && |h[k]| > 0 then h[k][0] else []
  }

  /** `Get` for a key already in canonical form: the first value without canonicalising again. */
  function GetCanonical(h: Header, key: seq<byte>): seq<byte>
  {
    if key in h && |h[key]| > 0 then h[key][0] else []
  }

  /** `MIMEHeader.Set`: the canonical key now holds exactly `[v]`. */
  function Set(h: Header, key: seq<byte>, v: seq<byte>): Header
  {
    h[CanonicalKey(key) := [v]]
  }

  /** `MIMEHeader.Del`: the canonical key is removed. */
  function Del(h: Header, key: seq<byte>): Header
  {
    h - {CanonicalKey(key)}
  }

  /** `m[key] = append(m[key], v)`: one more value, after the earlier ones. */
  function AddValue(h: Header, key: seq<byte>, v: seq<byte>): Header
  {
    h[key := (if key in h then h[key] else []) + [v]]
  }

  lemma TokenExcludesSeparators()
    ensures !IsTokenByte(SP) && !IsTokenByte(TAB) && !IsTokenByte(COLON)
    ensures !IsTokenByte(CR) && !IsTokenByte(LF)
    ensures IsTokenByte(DASH)
  {
  }

  /** `isASCIILetter` accepts exactly 'A'..'Z' and 'a'..'z'. */
  lemma AsciiLetterIff(b: byte)
    ensures IsAsciiLetter(b) <==> IsUpper(b) || IsLower(b)
  {
  }

  /** Pointwise meaning of the rewriting loop. */
  lemma {:induction false} CanonFromAt(s: seq<byte>, upper: bool, i: nat)
    requires i < |s|
    ensures |CanonFrom(s, upper)| == |s|
    ensures CanonFrom(s, upper)[i] == CaseAt(s[i], if i == 0 then upper else s[i - 1] == DASH)
  {
    var c := CanonFrom(s, upper)[0];
    assert c == CaseAt(s[0], upper);
    assert (c == DASH) == (s[0] == DASH);
    if i > 0 {
      CanonFromAt(s[1..], c == DASH, i - 1);
    } else if |s| > 1 {
      CanonFromAt(s[1..], c == DASH, 0);
    }
  }

  /**
   * A valid key is rewritten letter by letter: upper case at the start and after
   * each '-', lower case elsewhere; other bytes and the length never change. A key
   * with a non-token byte comes back unchanged.
   */
  lemma CanonicalKeyAt(s: seq<byte>, i: nat)
    requires i < |s|
    ensures |CanonicalKey(s)| == |s|
    ensures AllTokens(s) ==> CanonicalKey(s)[i] == CaseAt(s[i], i == 0 || s[i - 1] == DASH)
    ensures !AllTokens(s) ==> CanonicalKey(s) == s
  {
    if AllTokens(s) {
      CanonFromAt(s, true, i);
    }
  }

  lemma CanonicalKeyLength(s: seq<byte>)
    ensures |CanonicalKey(s)| == |s|
  {
    if |s| > 0 {
      CanonicalKeyAt(s, 0);
    }
  }

  /** Canonicalising twice is canonicalising once. */
  lemma CanonicalKeyIdempotent(s: seq<byte>)
    ensures CanonicalKey(CanonicalKey(s)) == CanonicalKey(s)
  {
    var r := CanonicalKey(s);
    CanonicalKeyLength(s);
    CanonicalKeyLength(r);
    if AllTokens(s) {
      forall i | 0 <= i < |s|
        ensures IsTokenByte(r[i]) && (r[i] == DASH) == (s[i] == DASH)
      {
        CanonicalKeyAt(s, i);
      }
      assert AllTokens(r);
      forall i | 0 <= i < |r|
        ensures CanonicalKey(r)[i] == r[i]
      {
        CanonicalKeyAt(s, i);
        CanonicalKeyAt(r, i);
      }
    }
  }

  /** A key that already has the canonical spelling is its own canonical key. */
  lemma CanonicalKeyFixed(s: seq<byte>)
    requires AllTokens(s)
    requires forall i :: 0 <= i < |s| ==> s[i] == CaseAt(s[i], i == 0 || s[i - 1] == DASH)
    ensures CanonicalKey(s) == s
  {
    CanonicalKeyLength(s);
    forall i | 0 <= i < |s|
      ensures CanonicalKey(s)[i] == s[i]
    {
      CanonicalKeyAt(s, i);
    }
  }

  lemma CanonFromStep(t: seq<byte>, upper: bool)
    requires t != []
    ensures var c := if upper && IsLower(t[0]) then t[0] - 32
                     else if !upper && IsUpper(t[0]) then t[0] + 32
                     else t[0];
            CanonFrom(t, upper) == [c] + CanonFrom(t[1..], c == DASH)
  {
  }

  /**
   * `canonicalMIMEHeaderKey`: rewrites the bytes of `a` in place when every one is a
   * token byte, and returns the key as a string; otherwise `a` is left alone.
   */
  method CanonicalizeInPlace(a: array<byte>) returns (key: seq<byte>)
    modifies a
    ensures a[..] == CanonicalKey(old(a[..])) && key == a[..]
  {
    ghost var s := a[..];
    var k := 0;
    while k < a.Length
      invariant 0 <= k <= a.Length
      invariant a[..] == s
      invariant forall j :: 0 <= j < k ==> IsTokenByte(s[j])
    {
      if !IsTokenByte(a[k]) {
        assert !AllTokens(s) by { assert !IsTokenByte(s[k]); }
        key := a[..];
        return;
      }
      k := k + 1;
    }
    assert AllTokens(s);
    var upper := true;
    var i := 0;
    ghost var done: seq<byte> := [];
    while i < a.Length
      invariant 0 <= i <= a.Length && |done| == i
      invariant a[..] == done + s[i..]
      invariant CanonFrom(s, true) == done + CanonFrom(s[i..], upper)
    {
      var c := a[i];
      if upper && IsLower(c) {
        c := c - 32;
      } else if !upper && IsUpper(c) {
        c := c + 32;
      }
      RewriteStep(s, i, upper, done, c);
      a[i] := c;
      assert a[..] == (done + s[i..])[i := c];
      upper := c == DASH;
      done := done + [c];
      i := i + 1;
    }
    assert s[i..] == [];
    key := a[..];
  }

  /** One byte of the rewriting loop: the array and the trace of the canonical key both grow by `c`. */
  lemma RewriteStep(s: seq<byte>, i: nat, upper: bool, done: seq<byte>, c: byte)
    requires i < |s| && |done| == i
    requires CanonFrom(s, true) == done + CanonFrom(s[i..], upper)
    requires c == if upper && IsLower(s[i]) then s[i] - 32 else if !upper && IsUpper(s[i]) then s[i] + 32 else s[i]
    ensures CanonFrom(s, true) == (done + [c]) + CanonFrom(s[i + 1..], c == DASH)
    ensures (done + s[i..])[i := c] == (done + [c]) + s[i + 1..]
  {
    var t := s[i..];
    CanonFromStep(t, upper);
    assert t[0] == s[i] && t[1..] == s[i + 1..];
    SnocAssoc(done, c, CanonFrom(s[i + 1..], c == DASH));
    UpdateAtSeam(done, s[i..], c);
  }

  lemma SnocAssoc(done: seq<byte>, c: byte, x: seq<byte>)
    ensures done + ([c] + x) == (done + [c]) + x
  {
  }

  /** Writing `c` just past `done` replaces the first byte of what follows. */
  lemma UpdateAtSeam(done: seq<byte>, t: seq<byte>, c: byte)
    requires t != []
    ensures (done + t)[|done| := c] == (done + [c]) + t[1..]
  {
    var l, r := (done + t)[|done| := c], (done + [c]) + t[1..];
    assert |l| == |r|;
    forall j | 0 <= j < |l| ensures l[j] == r[j] {
      if j < |done| {
        assert l[j] == done[j];
      } else if j > |done| {
        assert l[j] == t[j - |done|];
      }
    }
  }

  /**
   * `CanonicalMIMEHeaderKey`: a quick scan returns an already canonical or an invalid
   * key as it is, and hands any other key to the rewriting loop.
   */
  method CanonicalMIMEHeaderKey(s: seq<byte>) returns (r: seq<byte>)
    ensures r == CanonicalKey(s)
  {
    var upper := true;
    var i := 0;
    while i < |s|
      invariant 0 <= i <= |s|
      invariant forall j :: 0 <= j < i ==> IsTokenByte(s[j])
      invariant forall j :: 0 <= j < i ==> s[j] == CaseAt(s[j], j == 0 || s[j - 1] == DASH)
      invariant upper == (i == 0 || s[i - 1] == DASH)
    {
      var c := s[i];
      if !IsTokenByte(c) {
        assert !AllTokens(s);
        return s;
      }
      if (upper && IsLower(c)) || (!upper && IsUpper(c)) {
        var a := new byte[|s|](j requires 0 <= j < |s| => s[j]);
        assert a[..] == s;
        r := CanonicalizeInPlace(a);
        return;
      }
      assert s[i] == CaseAt(s[i], upper);
      upper := c == DASH;
      i := i + 1;
    }
    CanonicalKeyFixed(s);
    r := s;
  }
}
