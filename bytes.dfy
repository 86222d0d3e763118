/**
  Bytes, C-locale character classes and the handful of libc string
  functions (strlen, strchr, strstr, strtok) that the word-count pipeline
  relies on.  A C string is modelled by the bytes before its terminator,
  so a well-formed one never contains NUL.
*/
module Bytes {

  /** One `unsigned char`. */
  type Byte = b: int | 0 <= b < 256

  datatype Option<T> = None | Some(value: T)

  const NUL: Byte := 0
  const NEWLINE: Byte := '\n' as int
  const SPACE: Byte := ' ' as int
  const APOSTROPHE: Byte := '\'' as int
  const HYPHEN: Byte := '-' as int

  // C-locale classification: only ASCII letters, digits and the six
  // white-space characters are recognised.
  predicate IsUpper(b: Byte) { 'A' as int <= b <= 'Z' as int }
  predicate IsLower(b: Byte) { 'a' as int <= b <= 'z' as int }
  predicate IsAlpha(b: Byte) { IsUpper(b) || IsLower(b) }
  predicate IsDigit(b: Byte) { '0' as int <= b <= '9' as int }
  predicate IsSpace(b: Byte) { b == SPACE || 9 <= b <= 13 }

  /** C-locale `tolower`. */
  function ToLower(b: Byte): (r: Byte)
    ensures !IsUpper(r)
    ensures IsAlpha(r) <==> IsAlpha(b)
    ensures !IsUpper(b) ==> r == b
    ensures IsUpper(b) ==> r - b == 'a' as int - 'A' as int
  {
    if IsUpper(b) then b + ('a' as int - 'A' as int) else b
  }

  /** `tolower` applied to every byte. */
  function Lower(s: seq<Byte>): (r: seq<Byte>)
    ensures |r| == |s|
    ensures forall i :: 0 <= i < |s| ==> r[i] == ToLower(s[i])
  {
    seq(|s|, i requires 0 <= i < |s| => ToLower(s[i]))
  }

  /** The bytes of an ASCII string literal. */
  function Ascii(s: string): (r: seq<Byte>)
    requires forall i :: 0 <= i < |s| ==> s[i] as int < 256
    ensures |r| == |s|
    ensures forall i :: 0 <= i < |s| ==> r[i] == s[i] as int
  {
    seq(|s|, i requires 0 <= i < |s| => s[i] as int)
  }

  predicate NoNul(s: seq<Byte>) { forall i :: 0 <= i < |s| ==> s[i] != NUL }

  predicate NoNewline(s: seq<Byte>) { forall i :: 0 <= i < |s| ==> s[i] != NEWLINE }

  /** `strchr`-style search: the first index holding `b`, or `|s|` if none. */
  function FirstIndex(s: seq<Byte>, b: Byte): (k: nat)
    ensures k <= |s|
    ensures k < |s| ==> s[k] == b
    ensures forall i :: 0 <= i < k ==> s[i] != b
  {
    if s == [] then 0
    else if s[0] == b then 0
    else 1 + FirstIndex(s[1..], b)
  }

  /** `strrchr`-style search: the last index holding `b`, if any. */
  function LastIndex(s: seq<Byte>, b: Byte): (r: Option<nat>)
    ensures r.Some? ==> r.value < |s| && s[r.value] == b
    ensures r.Some? ==> forall i :: r.value < i < |s| ==> s[i] != b
    ensures r.None? ==> forall i :: 0 <= i < |s| ==> s[i] != b
  {
    if s == [] then None
    else if s[|s| - 1] == b then Some(|s| - 1)
    else LastIndex(s[..|s| - 1], b)
  }

  /** The C string held by a buffer: everything before the first NUL. */
  function CStr(s: seq<Byte>): (r: seq<Byte>)
    ensures NoNul(r) && r <= s
    ensures |r| < |s| ==> s[|r|] == NUL
  {
    s[..FirstIndex(s, NUL)]
  }

  lemma CStrOfNulFree(s: seq<Byte>)
    requires NoNul(s)
    ensures CStr(s) == s
  {
  }

  /**
    `strchr(buf + from, b)` for a byte `b` other than NUL: the first `b`
    of the C string stored at `from`, if it has one.
  */
  function StrChrAt(s: seq<Byte>, from: int, b: Byte): (r: Option<nat>)
    requires 0 <= from <= |s| && b != NUL
    ensures r.Some? ==> from <= r.value < |s| && s[r.value] == b
    ensures r.Some? ==> forall i :: from <= i < r.value ==> s[i] != b && s[i] != NUL
    ensures r.None? <==> forall i :: 0 <= i < |CStr(s[from..])| ==> CStr(s[from..])[i] != b
  {
    var t := CStr(s[from..]);
    var k := FirstIndex(t, b);
    if k < |t| then Some(from + k) else None
  }

  /** `strrchr(buf + from, b)`: the last `b` of the C string stored at `from`. */
  function StrRChrAt(s: seq<Byte>, from: int, b: Byte): (r: Option<nat>)
    requires 0 <= from <= |s| && b != NUL
    ensures r.Some? ==> from <= r.value < |s| && s[r.value] == b
    ensures r.Some? ==> r.value - from < |CStr(s[from..])|
    ensures r.Some? ==> forall i :: r.value - from < i < |CStr(s[from..])| ==> CStr(s[from..])[i] != b
    ensures r.None? <==> forall i :: 0 <= i < |CStr(s[from..])| ==> CStr(s[from..])[i] != b
  {
    match LastIndex(CStr(s[from..]), b)
    case None => None
    case Some(k) => Some(from + k)
  }

  function Take<T>(s: seq<T>, n: nat): seq<T>
  {
    if |s| <= n then s else s[..n]
  }

  /** `p` occurs in `s` starting at index `i`. */
  predicate MatchAt(s: seq<Byte>, p: seq<Byte>, i: int)
  {
    0 <= i && i + |p| <= |s| && s[i..i + |p|] == p
  }

  /** `strstr`-style search: the first index where `p` occurs in `s`, or `|s|`. */
  function Find(s: seq<Byte>, p: seq<Byte>): (k: nat)
    requires p != []
    ensures k <= |s|
    ensures k < |s| ==> MatchAt(s, p, k)
    ensures forall i :: 0 <= i < k ==> !MatchAt(s, p, i)
  {
    if |s| < |p| then |s|
    else if s[..|p|] == p then 0
    else
      var k := Find(s[1..], p);
      assert forall i :: 1 <= i ==> MatchAt(s, p, i) == MatchAt(s[1..], p, i - 1) by {
        forall i | 1 <= i ensures MatchAt(s, p, i) == MatchAt(s[1..], p, i - 1) {
          if i + |p| <= |s| {
            SliceOfTail(s, i, |p|);
          }
        }
      }
      1 + k
  }

  /** `strstr(s, p) != NULL`. */
  predicate Occurs(s: seq<Byte>, p: seq<Byte>)
    requires p != []
  {
    Find(s, p) < |s|
  }

  // ---------------------------------------------------------------------
  // strtok: maximal runs of non-delimiter bytes, left to right.

  /** Index of the first delimiter in `s`, or `|s|`. */
  function RunEnd(s: seq<Byte>, delims: set<Byte>): (e: nat)
    ensures e <= |s|
    ensures forall i :: 0 <= i < e ==> s[i] !in delims
    ensures e < |s| ==> s[e] in delims
  {
    if s == [] || s[0] in delims then 0 else 1 + RunEnd(s[1..], delims)
  }

  /** The tokens that successive `strtok` calls return. */
  function Tokens(s: seq<Byte>, delims: set<Byte>): seq<seq<Byte>>
    decreases |s|
  {
    if s == [] then []
    else if s[0] in delims then Tokens(s[1..], delims)
    else
      var e := RunEnd(s, delims);
      [s[..e]] + Tokens(s[e..], delims)
  }

  predicate IsToken(t: seq<Byte>, delims: set<Byte>)
  {
    t != [] && forall i :: 0 <= i < |t| ==> t[i] !in delims
  }

  /** strtok never returns an empty token or one holding a delimiter. */
  lemma {:induction false} TokensAreTokens(s: seq<Byte>, delims: set<Byte>)
    ensures forall j :: 0 <= j < |Tokens(s, delims)| ==> IsToken(Tokens(s, delims)[j], delims)
    decreases |s|
  {
    if s == [] {
    } else if s[0] in delims {
      TokensAreTokens(s[1..], delims);
    } else {
      var e := RunEnd(s, delims);
      TokensAreTokens(s[e..], delims);
    }
  }

  /** Leading delimiters are skipped. */
  lemma {:induction false} TokensSkipDelims(d: seq<Byte>, y: seq<Byte>, delims: set<Byte>)
    requires forall i :: 0 <= i < |d| ==> d[i] in delims
    ensures Tokens(d + y, delims) == Tokens(y, delims)
    decreases |d|
  {
    if d != [] {
      var s := d + y;
      assert s[0] == d[0] && s[0] in delims;
      assert s[1..] == d[1..] + y;
      assert Tokens(s, delims) == Tokens(s[1..], delims);
      assert forall i :: 0 <= i < |d[1..]| ==> d[1..][i] == d[i + 1];
      TokensSkipDelims(d[1..], y, delims);
    } else {
      assert d + y == y;
    }
  }

  /**
    The tokens of `x`, a delimiter, then `y` are those of `x` followed by
    those of `y`; together with TokensOfToken this pins Tokens down.
  */
  lemma {:induction false} TokensSplit(x: seq<Byte>, d: Byte, y: seq<Byte>, delims: set<Byte>)
    requires d in delims
    ensures Tokens(x + [d] + y, delims) == Tokens(x, delims) + Tokens(y, delims)
    decreases |x|
  {
    var s := x + [d] + y;
    if x == [] {
      TokensSkipDelims([d], y, delims);
      assert s == [d] + y;
    } else if x[0] in delims {
      assert s[0] == x[0];
      assert s[1..] == x[1..] + [d] + y;
      TokensSplit(x[1..], d, y, delims);
    } else {
      TokensSplitWord(x, d, y, delims);
    }
  }

  lemma {:induction false} TokensSplitWord(x: seq<Byte>, d: Byte, y: seq<Byte>, delims: set<Byte>)
    requires d in delims
    requires x != [] && x[0] !in delims
    ensures Tokens(x + [d] + y, delims) == Tokens(x, delims) + Tokens(y, delims)
    decreases |x|, 0
  {
    var s := x + [d] + y;
    var e := RunEnd(x, delims);
    RunEndPrefix(x, [d] + y, delims);
    assert s == x + ([d] + y);
    assert s[0] == x[0];
    TokensWord(s, delims);
    TokensWord(x, delims);
    assert s[..e] == x[..e];
    assert s[e..] == x[e..] + [d] + y;
    TokensSplit(x[e..], d, y, delims);
  }

  /** A string starting with a non-delimiter begins with its first run. */
  lemma TokensWord(s: seq<Byte>, delims: set<Byte>)
    requires s != [] && s[0] !in delims
    ensures Tokens(s, delims) == [s[..RunEnd(s, delims)]] + Tokens(s[RunEnd(s, delims)..], delims)
  {
  }

  lemma {:induction false} RunEndPrefix(x: seq<Byte>, z: seq<Byte>, delims: set<Byte>)
    requires z != [] && z[0] in delims
    ensures RunEnd(x + z, delims) == RunEnd(x, delims)
    decreases |x|
  {
    if x != [] && x[0] !in delims {
      assert (x + z)[1..] == x[1..] + z;
      RunEndPrefix(x[1..], z, delims);
    }
  }

  /** A delimiter-free non-empty string is a single token. */
  lemma TokensOfToken(t: seq<Byte>, delims: set<Byte>)
    requires IsToken(t, delims)
    ensures Tokens(t, delims) == [t]
  {
    var e := RunEnd(t, delims);
    assert t[0] !in delims;
    assert e == |t|;
    assert t[..e] == t && t[e..] == [];
    assert Tokens(t, delims) == [t[..e]] + Tokens(t[e..], delims);
  }

  /** A byte stream received in pieces, the pieces put back together. */
  function Flatten(chunks: seq<seq<Byte>>): seq<Byte>
  {
    if chunks == [] then [] else chunks[0] + Flatten(chunks[1..])
  }

  lemma FlattenCons(c: seq<Byte>, cs: seq<seq<Byte>>)
    ensures Flatten([c] + cs) == c + Flatten(cs)
  {
    assert ([c] + cs)[1..] == cs;
  }

  // ---------------------------------------------------------------------
  // Sequence facts used by several modules.

  lemma SplitJoin<T>(s: seq<T>, n: int)
    requires 0 <= n <= |s|
    ensures s[..n] + s[n..] == s
  {
  }

  lemma SliceOfTail<T>(s: seq<T>, i: int, n: int)
    requires 1 <= i && 0 <= n && i + n <= |s|
    ensures s[i..i + n] == s[1..][i - 1..i - 1 + n]
  {
    var x, y := s[i..i + n], s[1..][i - 1..i - 1 + n];
    assert forall t :: 0 <= t < n ==> x[t] == y[t];
  }

  lemma HeadTail<T>(s: seq<T>)
    requires s != []
    ensures [s[0]] + s[1..] == s
  {
  }

  /** The last `x` of `l + [x] + rest` is the one after `l` when `rest` has none. */
  lemma LastAround(l: seq<Byte>, x: Byte, rest: seq<Byte>)
    requires forall i :: 0 <= i < |rest| ==> rest[i] != x
    ensures LastIndex(l + [x] + rest, x) == Some(|l|)
  {
    PartsAround(l, x, rest);
    var s := l + [x] + rest;
    forall i | |l| < i < |s|
      ensures s[i] != x
    {
      assert s[i] == s[|l| + 1..][i - |l| - 1];
    }
    var r := LastIndex(s, x);
    assert r.Some? && |l| <= r.value;
  }

  lemma PartsAround<T>(l: seq<T>, x: T, rest: seq<T>)
    ensures (l + [x] + rest)[..|l|] == l && (l + [x] + rest)[|l|] == x
    ensures (l + [x] + rest)[|l| + 1..] == rest
  {
    var s := l + [x] + rest;
    assert forall t :: 0 <= t < |rest| ==> s[|l| + 1..][t] == rest[t];
  }

  lemma SplitAround<T>(s: seq<T>, n: int)
    requires 0 <= n < |s|
    ensures s == s[..n] + [s[n]] + s[n + 1..]
  {
  }
}
