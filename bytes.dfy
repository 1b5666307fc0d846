/**
 * Bytes, ASCII literals and the byte-string helpers shared by every component.
 * Go's `string` and `[]byte` are both modelled as `seq<byte>`: the Go code
 * converts between them without changing a byte.
 */
module Bytes {

  type byte = b: int | 0 <= b < 256

  /** An ASCII literal as bytes (every character used here is below 128). */
  function Lit(s: string): (r: seq<byte>)
    ensures |r| == |s|
  {
    seq(|s|, i requires 0 <= i < |s| => (s[i] as int) % 256)
  }

  const TAB: byte := 9
  const LF: byte := 10
  const CR: byte := 13
  const SP: byte := 32
  const DASH: byte := 45
  const DOT: byte := 46
  const COLON: byte := 58

  /** The bytes Go's `trim` and `skipSpace` treat as linear white space. */
  const WSP: set<byte> := {SP, TAB}
  /** The cutset of `bytes.TrimRight(raw, "\r\n")`. */
  const CRLF: set<byte> := {CR, LF}
  /** The cutset of `strings.Trim(body, "\r\n\t")`. */
  const CRLFTAB: set<byte> := {CR, LF, TAB}

  predicate IsWsp(b: byte) {
    b == SP || b == TAB
  }

  predicate NoneIn(s: seq<byte>, cut: set<byte>) {
    forall i :: 0 <= i < |s| ==> s[i] !in cut
  }

  predicate AllIn(s: seq<byte>, cut: set<byte>) {
    forall i :: 0 <= i < |s| ==> s[i] in cut
  }

  predicate HasPrefix(s: seq<byte>, p: seq<byte>) {
    |p| <= |s| && s[..|p|] == p
  }

  /** No byte of `data[i..j]` is in `cut`. */
  predicate NoneInRange(data: seq<byte>, i: nat, j: nat, cut: set<byte>)
    requires i <= j <= |data|
  {
    forall k :: i <= k < j ==> data[k] !in cut
  }

  /** The bytes of `data` from `p` on start with `e`. */
  predicate Matches(data: seq<byte>, p: nat, e: seq<byte>) {
    p + |e| <= |data| && forall k :: 0 <= k < |e| ==> data[p + k] == e[k]
  }

  /** `s` with its leading run of bytes from `cut` removed. */
  function DropLeft(s: seq<byte>, cut: set<byte>): (r: seq<byte>)
    ensures |r| <= |s| && r == s[|s| - |r|..]
    ensures AllIn(s[..|s| - |r|], cut)
    ensures r == [] || r[0] !in cut
  {
    if s != [] && s[0] in cut then DropLeft(s[1..], cut) else s
  }

  /** `s` with its trailing run of bytes from `cut` removed. */
  function DropRight(s: seq<byte>, cut: set<byte>): (r: seq<byte>)
    ensures |r| <= |s| && r == s[..|r|]
    ensures AllIn(s[|r|..], cut)
    ensures r == [] || r[|r| - 1] !in cut
  {
    if s != [] && s[|s| - 1] in cut then DropRight(s[..|s| - 1], cut) else s
  }

  /** Both runs removed: Go's `strings.Trim(s, cutset)`. */
  function TrimSet(s: seq<byte>, cut: set<byte>): seq<byte> {
    DropRight(DropLeft(s, cut), cut)
  }

  /** The first index of `b` in `s`, or -1: Go's `bytes.IndexByte`. */
  function IndexOfByte(s: seq<byte>, b: byte): (i: int)
    ensures -1 <= i < |s|
    ensures i >= 0 ==> s[i] == b && b !in s[..i]
    ensures i == -1 ==> b !in s
  {
    if s == [] then -1
    else if s[0] == b then 0
    else var j := IndexOfByte(s[1..], b);
      assert s[1..][..if j < 0 then 0 else j] == s[1..1 + (if j < 0 then 0 else j)];
      if j < 0 then -1 else j + 1
  }

  /** The parts separated by `sep`, built from the right as the Go loops append. */
  function Join(sep: seq<byte>, parts: seq<seq<byte>>): seq<byte>
    decreases |parts|
  {
    if |parts| == 0 then []
    else if |parts| == 1 then parts[0]
    else Join(sep, parts[..|parts| - 1]) + sep + parts[|parts| - 1]
  }

  /** The parts one after the other. */
  function Concat(parts: seq<seq<byte>>): seq<byte>
    decreases |parts|
  {
    if |parts| == 0 then [] else Concat(parts[..|parts| - 1]) + parts[|parts| - 1]
  }

  /** Every CR immediately followed by LF removed: what `bufio.Reader.ReadLine` loses per line. */
  function DropCrBeforeLf(s: seq<byte>): seq<byte>
  {
    if s == [] then []
    else if s[0] == CR && |s| > 1 && s[1] == LF then DropCrBeforeLf(s[1..])
    else [s[0]] + DropCrBeforeLf(s[1..])
  }

  /** Decimal rendering of a positive count: Go's `strconv.FormatInt(n, 10)`. */
  function Decimal(n: nat): (r: seq<byte>)
    ensures |r| > 0
    ensures forall i :: 0 <= i < |r| ==> 48 <= r[i] <= 57
  {
    if n < 10 then [48 + n] else Decimal(n / 10) + [48 + n % 10]
  }

  /** The error values of the Go code; `Failed` stands for an error a library collaborator reports. */
  datatype Error =
    | EOF
    | UnexpectedEOF
    | ProtocolError(message: seq<byte>)
    | Failed(reason: seq<byte>)

  lemma NoneInTail(s: seq<byte>, cut: set<byte>)
    requires s != [] && NoneIn(s, cut)
    ensures s[0] !in cut && NoneIn(s[1..], cut)
  {
    assert forall i :: 0 <= i < |s[1..]| ==> s[1..][i] == s[i + 1];
  }

  lemma {:induction false} DropRightNoop(s: seq<byte>, cut: set<byte>)
    requires s == [] || s[|s| - 1] !in cut
    ensures DropRight(s, cut) == s
  {
  }

  lemma {:induction false} DropCrNoop(s: seq<byte>)
    requires CR !in s
    ensures DropCrBeforeLf(s) == s
  {
    if s != [] {
      DropCrNoop(s[1..]);
    }
  }

  lemma {:induction false} DropCrAppend(a: seq<byte>, b: seq<byte>)
    requires a == [] || a[|a| - 1] != CR
    ensures DropCrBeforeLf(a + b) == DropCrBeforeLf(a) + DropCrBeforeLf(b)
  {
    if a != [] {
      var t := a + b;
      assert t[0] == a[0] && t[1..] == a[1..] + b;
      if |a| == 1 {
        assert a[0] != CR;
        assert DropCrBeforeLf(a) == [a[0]];
        assert DropCrBeforeLf(t) == [a[0]] + DropCrBeforeLf(b);
      } else {
        assert t[1] == a[1];
        assert a[1..][|a| - 2] == a[|a| - 1];
        DropCrAppend(a[1..], b);
        if a[0] == CR && a[1] == LF {
          assert DropCrBeforeLf(t) == DropCrBeforeLf(t[1..]);
          assert DropCrBeforeLf(a) == DropCrBeforeLf(a[1..]);
        } else {
          assert DropCrBeforeLf(t) == [t[0]] + DropCrBeforeLf(t[1..]);
          assert DropCrBeforeLf(a) == [a[0]] + DropCrBeforeLf(a[1..]);
        }
      }
    } else {
      assert a + b == b;
    }
  }

  lemma {:induction false} JoinAppend(sep: seq<byte>, parts: seq<seq<byte>>, x: seq<byte>)
    ensures Join(sep, parts + [x]) == if parts == [] then x else Join(sep, parts) + sep + x
  {
    assert (parts + [x])[..|parts|] == parts;
  }

  lemma {:induction false} ConcatAppend(parts: seq<seq<byte>>, x: seq<byte>)
    ensures Concat(parts + [x]) == Concat(parts) + x
  {
    assert (parts + [x])[..|parts|] == parts;
  }

  /** Without a LF there is no CR to drop. */
  lemma {:induction false} DropCrNoLf(s: seq<byte>)
    requires LF !in s
    ensures DropCrBeforeLf(s) == s
  {
    if s != [] {
      assert s[1..] == s[1..] && LF !in s[1..];
      DropCrNoLf(s[1..]);
    }
  }

  /** A line and its end of line: "\r\n" and "\n" both become "\n". */
  lemma {:induction false} DropCrLineEnd(t: seq<byte>)
    requires LF !in t
    ensures DropCrBeforeLf(t + [CR, LF]) == t + [LF]
    ensures (t == [] || t[|t| - 1] != CR) ==> DropCrBeforeLf(t + [LF]) == t + [LF]
  {
    if t == [] {
      assert t + [CR, LF] == [CR, LF] && t + [LF] == [LF];
      assert DropCrBeforeLf([LF]) == [LF] + DropCrBeforeLf([]);
      assert [CR, LF][1..] == [LF];
      assert DropCrBeforeLf([CR, LF]) == DropCrBeforeLf([LF]);
    } else {
      var u := t + [CR, LF];
      assert u[1..] == t[1..] + [CR, LF];
      assert u[1] != LF;
      DropCrLineEnd(t[1..]);
      assert DropCrBeforeLf(u) == [t[0]] + DropCrBeforeLf(u[1..]);
      var v := t + [LF];
      assert v[1..] == t[1..] + [LF];
      if t[|t| - 1] != CR {
        if |t| == 1 {
          assert DropCrBeforeLf(v) == [t[0]] + DropCrBeforeLf([LF]);
          assert DropCrBeforeLf([LF]) == [LF] + DropCrBeforeLf([]);
        } else {
          assert v[1] != LF;
          assert t[1..][|t[1..]| - 1] == t[|t| - 1];
          assert DropCrBeforeLf(v) == [t[0]] + DropCrBeforeLf(v[1..]);
        }
      }
    }
  }

  /** The input holds `e` at `p`: the slice form of `Matches`, for windows built by recursion. */
  predicate At(data: seq<byte>, p: nat, e: seq<byte>) {
    p + |e| <= |data| && data[p..p + |e|] == e
  }

  lemma AtConcat(data: seq<byte>, p: nat, a: seq<byte>, b: seq<byte>)
    ensures At(data, p, a + b) <==> At(data, p, a) && At(data, p + |a|, b)
  {
    if At(data, p, a + b) {
      assert data[p..p + |a|] == (a + b)[..|a|];
      assert data[p + |a|..p + |a| + |b|] == (a + b)[|a|..];
    }
    if At(data, p, a) && At(data, p + |a|, b) {
      assert data[p..p + |a| + |b|] == data[p..p + |a|] + data[p + |a|..p + |a| + |b|];
    }
  }

  lemma At3(data: seq<byte>, p: nat, a: seq<byte>, b: seq<byte>, c: seq<byte>)
    requires At(data, p, a + (b + c))
    ensures At(data, p, a) && At(data, p + |a|, b) && At(data, p + |a| + |b|, c)
  {
    AtConcat(data, p, a, b + c);
    AtConcat(data, p + |a|, b, c);
  }

  /** `DropLeft` stops at the first byte outside `cut`: lemma form of what Go's `trim` scans for. */
  lemma {:induction false} DropLeftAt(s: seq<byte>, cut: set<byte>, i: nat)
    requires i <= |s| && (forall j :: 0 <= j < i ==> s[j] in cut) && (i == |s| || s[i] !in cut)
    ensures DropLeft(s, cut) == s[i..]
  {
    if i > 0 {
      DropLeftAt(s[1..], cut, i - 1);
      assert s[1..][i - 1..] == s[i..];
    }
  }

  /** `DropRight` stops at the last byte outside `cut`, here on the window `s[i..m]`. */
  lemma {:induction false} DropRightAt(s: seq<byte>, cut: set<byte>, i: nat, n: nat, m: nat)
    requires i <= n <= m <= |s| && (forall j :: n <= j < m ==> s[j] in cut) && (n == i || s[n - 1] !in cut)
    ensures DropRight(s[i..m], cut) == s[i..n]
    decreases m
  {
    if n < m {
      var w := s[i..m];
      assert w[|w| - 1] == s[m - 1];
      assert w[..|w| - 1] == s[i..m - 1];
      DropRightAt(s, cut, i, n, m - 1);
    } else {
      DropRightNoop(s[i..n], cut);
    }
  }

  /**
   * `TrimSet` keeps exactly the middle between the leading and the trailing run
   * of bytes from `cut`: given where those runs end, the result is that slice.
   */
  lemma TrimSetAt(s: seq<byte>, cut: set<byte>, i: nat, n: nat)
    requires i <= n <= |s|
    requires forall j :: 0 <= j < i ==> s[j] in cut
    requires i == |s| || s[i] !in cut
    requires forall j :: n <= j < |s| ==> s[j] in cut
    requires n == i || s[n - 1] !in cut
    ensures TrimSet(s, cut) == s[i..n]
  {
    DropLeftAt(s, cut, i);
    DropRightAt(s, cut, i, n, |s|);
    assert s[i..|s|] == s[i..];
  }
}
