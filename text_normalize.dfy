/**
  The mapper's in-place line rewriting: `clean_smart_quotes`,
  `preprocess_line` and `normalize_string`.  Each works on a C string held
  in a `char` buffer, modelled as an `array<Byte>` whose first `len` bytes
  are the string and whose byte `len` is the terminator.  Every rewrite
  removes bytes with `memmove`, and each loop is proved against a function
  on sequences that says what the string becomes.
*/
module TextNormalize {
  import opened Bytes
  import opened WordHelpers

  const QUOTE_LEAD: Byte := 0xE2
  const QUOTE_MID: Byte := 0x80
  const LEFT_SINGLE: Byte := 0x98
  const RIGHT_SINGLE: Byte := 0x99
  const LEFT_DOUBLE: Byte := 0x9C
  const RIGHT_DOUBLE: Byte := 0x9D
  const DASH_TAIL: Byte := 0x94

  /** `a` holds a C string of length `len`. */
  predicate Str(a: seq<Byte>, len: int)
  {
    0 <= len < |a| && a[len] == NUL && NoNul(a[..len])
  }

  /**
    `memmove(&a[from], &a[from + n], len - from - n + 1)`: the bytes after
    the run, terminator included, move down by `n`.
  */
  method DeleteRun(a: array<Byte>, from: int, n: int, len: int)
    requires 0 <= from && 1 <= n && from + n <= len < a.Length
    modifies a
    ensures a[..len - n] == old(a[..from]) + old(a[from + n..len])
    ensures a[len - n] == old(a[len])
    ensures a[len - n + 1..] == old(a[len - n + 1..])
  {
    var k := from;
    while k < len - n + 1
      invariant from <= k <= len - n + 1
      invariant a[..from] == old(a[..from])
      invariant a[from..k] == old(a[from + n..k + n])
      invariant a[k..] == old(a[k..])
    {
      a[k] := a[k + n];
      k := k + 1;
    }
    assert a[..len - n] == a[..from] + a[from..len - n];
  }

  /** Removing a run from a C string leaves a C string `n` bytes shorter. */
  lemma DeletedStr(before: seq<Byte>, after: seq<Byte>, from: int, n: int, len: int)
    requires Str(before, len) && 0 <= from && 1 <= n && from + n <= len
    requires |after| == |before|
    requires after[..len - n] == before[..from] + before[from + n..len]
    requires after[len - n] == before[len]
    ensures Str(after, len - n)
  {
    forall i | 0 <= i < len - n
      ensures after[i] != NUL
    {
      if i < from {
        assert after[i] == after[..len - n][i] == before[..len][i];
      } else {
        assert after[i] == after[..len - n][i] == before[..len][i + n];
      }
    }
  }

  // ---------------------------------------------------------------------
  // clean_smart_quotes (mapper.c:212-230).

  /** The byte `k` places into `s`; past the end the buffer holds zeros. */
  function At(s: seq<Byte>, k: int): Byte
  {
    if 0 <= k < |s| then s[k] else NUL
  }

  /**
    The test `clean_smart_quotes` makes at the start of `s`.  By C's
    precedence the `0x94` comparison is a third alternative of the `||`,
    not part of the `E2 80` test.
  */
  predicate SkipsAt(s: seq<Byte>)
  {
    (At(s, 0) == QUOTE_LEAD && At(s, 1) == QUOTE_MID &&
     (At(s, 2) == LEFT_SINGLE || At(s, 2) == RIGHT_SINGLE)) ||
    At(s, 2) == DASH_TAIL
  }

  /** What `clean_smart_quotes` leaves of a zero-padded string `s`. */
  function Clean(s: seq<Byte>): (r: seq<Byte>)
    ensures |r| <= |s|
    decreases |s|
  {
    if s == [] then []
    else if SkipsAt(s) then Clean(s[3..])
    else [s[0]] + Clean(s[1..])
  }

  /** The bytes from `len` to the end of the buffer are all NUL, as `strncpy` leaves them. */
  predicate Padded(buf: seq<Byte>, len: int)
  {
    0 <= len < |buf| && forall k :: len <= k < |buf| ==> buf[k] == NUL
  }

  /**
    `clean_smart_quotes(str)`: copy the string down over every skipped
    three-byte window.  The string must be followed by zeros up to the end
    of the buffer, as `strncpy` leaves it at the one call site, because the
    test reads two bytes ahead; a read past the buffer's end gives 0.
  */
  method CleanSmartQuotes(a: array<Byte>, ghost len: int) returns (j: int)
    requires Str(a[..], len) && Padded(a[..], len)
    modifies a
    ensures 0 <= j <= len && Str(a[..], j)
    ensures a[..j] == Clean(old(a[..len]))
  {
    ghost var buf := a[..];
    ghost var s := a[..len];
    var i := 0;
    j := 0;
    while a[i] != NUL
      invariant CleanScanned(buf, s, len, a[..], i, j)
      decreases len - i
    {
      var b1 := if i + 1 < a.Length then a[i + 1] else NUL;
      var b2 := if i + 2 < a.Length then a[i + 2] else NUL;
      CleanReads(buf, s, len, a[..], i, j);
      ghost var a0 := a[..];
      if (a[i] == QUOTE_LEAD && b1 == QUOTE_MID && (b2 == LEFT_SINGLE || b2 == RIGHT_SINGLE)) ||
         b2 == DASH_TAIL
      {
        i := i + 3;
        CleanSkip(buf, s, len, a[..], i - 3, j);
      } else {
        a[j] := a[i];
        j := j + 1;
        i := i + 1;
        CleanCopy(buf, s, len, a0, a[..], i - 1, j - 1);
      }
    }
    CleanEnd(buf, s, len, a[..], i, j);
    a[j] := NUL;
    CleanTerminated(s, a[..], j);
  }

  /** The loop state of `clean_smart_quotes`: `j` bytes kept, the unread part `i..` untouched. */
  ghost predicate CleanScanned(buf: seq<Byte>, s: seq<Byte>, len: int, a: seq<Byte>, i: int, j: int)
  {
    Str(buf, len) && Padded(buf, len) && s == buf[..len] && |a| == |buf| &&
    0 <= j <= i <= len && a[i..] == buf[i..] &&
    Clean(s) == a[..j] + Clean(s[i..])
  }

  /** The two look-ahead reads see the zero-padded rest of the string. */
  lemma CleanReads(buf: seq<Byte>, s: seq<Byte>, len: int, a: seq<Byte>, i: int, j: int)
    requires CleanScanned(buf, s, len, a, i, j) && a[i] != NUL
    ensures i < len && a[i] == s[i]
    ensures (if i + 1 < |a| then a[i + 1] else NUL) == At(s[i..], 1)
    ensures (if i + 2 < |a| then a[i + 2] else NUL) == At(s[i..], 2)
  {
    assert a[i] == buf[i..][0] == buf[i];
    forall k | i <= k < |a|
      ensures a[k] == buf[k]
    {
      assert a[k] == a[i..][k - i];
    }
  }

  lemma CleanSkip(buf: seq<Byte>, s: seq<Byte>, len: int, a: seq<Byte>, i: int, j: int)
    requires CleanScanned(buf, s, len, a, i, j) && i < len && SkipsAt(s[i..])
    ensures CleanScanned(buf, s, len, a, i + 3, j)
  {
    var t := s[i..];
    assert |t| >= 3;
    assert t[3..] == s[i + 3..];
    assert a[i + 3..] == a[i..][3..];
  }

  lemma CleanCopy(buf: seq<Byte>, s: seq<Byte>, len: int, a0: seq<Byte>, a: seq<Byte>, i: int, j: int)
    requires CleanScanned(buf, s, len, a0, i, j) && i < len && !SkipsAt(s[i..])
    requires a0[i] == s[i] && a == a0[j := a0[i]]
    ensures CleanScanned(buf, s, len, a, i + 1, j + 1)
  {
    WrittenPrefix(a0, a, j, s[i]);
    TailUntouched(a0, a, buf, i, j);
    CleanAdvance(s, i, a0[..j], a[..j + 1]);
  }

  /** Writing `v` at `j` makes the first `j + 1` bytes the old first `j` and `v`. */
  lemma WrittenPrefix(a0: seq<Byte>, a: seq<Byte>, j: int, v: Byte)
    requires 0 <= j < |a0| && a == a0[j := v]
    ensures a[..j + 1] == a0[..j] + [v]
  {
  }

  /** A write at `j <= i` leaves everything after `i` as it was. */
  lemma TailUntouched(a0: seq<Byte>, a: seq<Byte>, buf: seq<Byte>, i: int, j: int)
    requires 0 <= j <= i < |a0| == |buf| && a0[i..] == buf[i..] && |a| == |a0|
    requires forall k :: 0 <= k < |a| && k != j ==> a[k] == a0[k]
    ensures a[i + 1..] == buf[i + 1..]
  {
    assert a0[i + 1..] == a0[i..][1..];
  }

  lemma CleanAdvance(s: seq<Byte>, i: int, done0: seq<Byte>, done: seq<Byte>)
    requires 0 <= i < |s| && !SkipsAt(s[i..])
    requires Clean(s) == done0 + Clean(s[i..]) && done == done0 + [s[i]]
    ensures Clean(s) == done + Clean(s[i + 1..])
  {
    var t := s[i..];
    CleanHead(t);
    assert t[0] == s[i] && t[1..] == s[i + 1..];
    Regroup(done0, [s[i]], Clean(s[i + 1..]));
  }

  lemma Regroup<T>(x: seq<T>, y: seq<T>, z: seq<T>)
    ensures x + (y + z) == (x + y) + z
  {
  }

  lemma CleanHead(t: seq<Byte>)
    requires t != [] && !SkipsAt(t)
    ensures Clean(t) == [t[0]] + Clean(t[1..])
  {
  }

  lemma CleanEnd(buf: seq<Byte>, s: seq<Byte>, len: int, a: seq<Byte>, i: int, j: int)
    requires CleanScanned(buf, s, len, a, i, j) && a[i] == NUL
    ensures i == len && a[..j] == Clean(s)
  {
    assert s[i..] == [];
  }

  lemma CleanTerminated(s: seq<Byte>, a: seq<Byte>, j: int)
    requires NoNul(s) && 0 <= j < |a| && a[..j] == Clean(s) && a[j] == NUL
    ensures Str(a, j)
  {
    CleanNoNul(s);
  }

  /** Cleaning copies bytes of the string, so it introduces no terminator. */
  lemma {:induction false} CleanNoNul(s: seq<Byte>)
    requires NoNul(s)
    ensures NoNul(Clean(s))
    decreases |s|
  {
    if s != [] {
      var rest := if SkipsAt(s) then s[3..] else s[1..];
      assert NoNul(rest) by {
        forall i | 0 <= i < |rest|
          ensures rest[i] != NUL
        {
          assert rest[i] == s[i + |s| - |rest|];
        }
      }
      CleanNoNul(rest);
    }
  }

  /** A curly single quote `E2 80 98` or `E2 80 99` is dropped. */
  lemma CleanDropsSingleQuote(q: Byte, t: seq<Byte>)
    requires q == LEFT_SINGLE || q == RIGHT_SINGLE
    ensures Clean([QUOTE_LEAD, QUOTE_MID, q] + t) == Clean(t)
  {
    assert ([QUOTE_LEAD, QUOTE_MID, q] + t)[3..] == t;
  }

  /**
    Any three bytes whose last is `0x94` are dropped, not only the dash
    `E2 80 94`: in `x` followed by `Ô` (`78 C3 94`) both characters go.
  */
  lemma CleanDropsDashWindow(x: Byte, y: Byte, t: seq<Byte>)
    ensures Clean([x, y, DASH_TAIL] + t) == Clean(t)
  {
    assert ([x, y, DASH_TAIL] + t)[3..] == t;
  }

  lemma CleanDropsLetterBeforeDash()
    ensures Clean([0x78, 0xC3, DASH_TAIL]) == []
  {
    CleanDropsDashWindow(0x78, 0xC3, []);
    assert [0x78, 0xC3, DASH_TAIL] + [] == [0x78, 0xC3, DASH_TAIL];
  }

  /** Text with no `E2` and no `0x94` byte is copied unchanged. */
  lemma {:induction false} CleanPlain(s: seq<Byte>)
    requires forall i :: 0 <= i < |s| ==> s[i] != QUOTE_LEAD && s[i] != DASH_TAIL
    ensures Clean(s) == s
    decreases |s|
  {
    if s != [] {
      assert !SkipsAt(s) by {
        assert At(s, 0) != QUOTE_LEAD;
        assert At(s, 2) != DASH_TAIL;
      }
      CleanPlain(s[1..]);
      assert [s[0]] + s[1..] == s;
    }
  }

  // ---------------------------------------------------------------------
  // normalize_string (mapper.c:233-419): lowercase, curly quotes to `'`,
  // `'s` and `'t` folded, punctuation deleted.

  /**
    `for (i = 0; i < len; i++) str[i] = tolower(str[i])` (mapper.c:238-240).
  */
  method LowerInPlace(a: array<Byte>, len: int)
    requires Str(a[..], len)
    modifies a
    ensures a[..len] == Lower(old(a[..len])) && a[len..] == old(a[len..])
    ensures Str(a[..], len)
  {
    for i := 0 to len
      invariant a[..i] == Lower(old(a[..i]))
      invariant a[i..] == old(a[i..])
    {
      a[i] := ToLower(a[i]);
      assert a[..i + 1] == a[..i] + [a[i]];
      assert old(a[..i + 1]) == old(a[..i]) + [old(a[i])];
    }
  }

  /** A curly `E2 80 99`, `E2 80 9C` or `E2 80 9D` begins `s`. */
  predicate QuoteAt(s: seq<Byte>)
  {
    |s| >= 3 && s[0] == QUOTE_LEAD && s[1] == QUOTE_MID &&
    (s[2] == RIGHT_SINGLE || s[2] == LEFT_DOUBLE || s[2] == RIGHT_DOUBLE)
  }

  /** Each curly quote scanned left to right becomes one `'`. */
  function Quotes(s: seq<Byte>): (r: seq<Byte>)
    ensures |r| <= |s|
    decreases |s|
  {
    if s == [] then []
    else if QuoteAt(s) then [APOSTROPHE] + Quotes(s[3..])
    else [s[0]] + Quotes(s[1..])
  }

  /** Text without an `E2` byte has no curly quote to replace. */
  lemma {:induction false} QuotesPlain(s: seq<Byte>)
    requires forall i :: 0 <= i < |s| ==> s[i] != QUOTE_LEAD
    ensures Quotes(s) == s
    decreases |s|
  {
    if s != [] {
      QuotesPlain(s[1..]);
      assert [s[0]] + s[1..] == s;
    }
  }

  /**
    The quote loop (mapper.c:242-252): a curly quote at `i` becomes `'`
    and the two bytes after it are removed; `len` is the string's length,
    which the C code recomputes with `strlen`.
  */
  method ReplaceQuotes(a: array<Byte>, len0: int) returns (len: int)
    requires Str(a[..], len0)
    modifies a
    ensures 0 <= len <= len0 && Str(a[..], len)
    ensures a[..len] == Quotes(old(a[..len0]))
  {
    ghost var s := a[..len0];
    len := len0;
    var i := 0;
    while a[i] != NUL
      invariant QuotesScanned(s, a[..], len, i)
      invariant len <= len0
      decreases len - i
    {
      QuoteTest(a[..], len, i);
      if a[i] == QUOTE_LEAD && a[i + 1] == QUOTE_MID &&
         (a[i + 2] == RIGHT_SINGLE || a[i + 2] == LEFT_DOUBLE || a[i + 2] == RIGHT_DOUBLE)
      {
        ghost var a0 := a[..];
        a[i] := APOSTROPHE;
        ghost var a1 := a[..];
        DeleteRun(a, i + 1, 2, len);
        QuoteReplaced(s, a0, a1, a[..], len, i);
        len := len - 2;
      } else {
        QuoteKept(s, a[..], len, i);
      }
      i := i + 1;
    }
    QuotesEnd(s, a[..], len, i);
  }

  ghost predicate QuotesScanned(s: seq<Byte>, a: seq<Byte>, len: int, i: int)
  {
    Str(a, len) && 0 <= i <= len && Quotes(s) == a[..i] + Quotes(a[i..len])
  }

  /** The loop's test, read with C's short-circuit, is QuoteAt on the rest of the string. */
  lemma QuoteTest(a: seq<Byte>, len: int, i: int)
    requires Str(a, len) && 0 <= i <= len && a[i] != NUL
    ensures i < len
    ensures (a[i] == QUOTE_LEAD && a[i + 1] == QUOTE_MID &&
             (a[i + 2] == RIGHT_SINGLE || a[i + 2] == LEFT_DOUBLE || a[i + 2] == RIGHT_DOUBLE))
            <==> QuoteAt(a[i..len])
  {
    if a[i + 1] == QUOTE_MID {
      assert i + 1 < len;
    }
  }

  lemma QuoteKept(s: seq<Byte>, a: seq<Byte>, len: int, i: int)
    requires QuotesScanned(s, a, len, i) && i < len && !QuoteAt(a[i..len])
    ensures QuotesScanned(s, a, len, i + 1)
  {
    assert a[i..len][1..] == a[i + 1..len];
    assert a[..i + 1] == a[..i] + [a[i]];
  }

  lemma QuoteReplaced(s: seq<Byte>, a0: seq<Byte>, a1: seq<Byte>, a: seq<Byte>, len: int, i: int)
    requires QuotesScanned(s, a0, len, i) && i < len && QuoteAt(a0[i..len])
    requires a1 == a0[i := APOSTROPHE] && |a| == |a1|
    requires a[..len - 2] == a1[..i + 1] + a1[i + 3..len] && a[len - 2] == a1[len]
    ensures QuotesScanned(s, a, len - 2, i + 1)
  {
    var x, y := a0[..i], a0[i + 3..len];
    var t := a0[i..len];
    assert t[3..] == y;
    assert a1[..i + 1] == x + [APOSTROPHE] && a1[i + 3..len] == y;
    QuoteLeavesStr(a0, a1, a, len, i);
    SliceParts(a[..len - 2], x, APOSTROPHE, y);
    assert a[..i + 1] == a[..len - 2][..i + 1];
    assert a[i + 1..len - 2] == a[..len - 2][i + 1..];
    QuoteText(s, x, t, y, a[..i + 1], a[i + 1..len - 2]);
  }

  lemma QuoteLeavesStr(a0: seq<Byte>, a1: seq<Byte>, a: seq<Byte>, len: int, i: int)
    requires Str(a0, len) && 0 <= i && i + 2 < len
    requires a1 == a0[i := APOSTROPHE] && |a| == |a1|
    requires a[..len - 2] == a1[..i + 1] + a1[i + 3..len] && a[len - 2] == a1[len]
    ensures Str(a, len - 2)
  {
    assert a1[..len] == a0[..len][i := APOSTROPHE];
    DeletedStr(a1, a, i + 1, 2, len);
  }

  lemma QuoteText(s: seq<Byte>, x: seq<Byte>, t: seq<Byte>, y: seq<Byte>, head: seq<Byte>, rest: seq<Byte>)
    requires Quotes(s) == x + Quotes(t) && QuoteAt(t) && t[3..] == y
    requires head == x + [APOSTROPHE] && rest == y
    ensures Quotes(s) == head + Quotes(rest)
  {
  }

  /** The pieces of `x + [c] + y`. */
  lemma SliceParts<T>(w: seq<T>, x: seq<T>, c: T, y: seq<T>)
    requires w == x + [c] + y
    ensures w[..|x| + 1] == x + [c] && w[|x| + 1..] == y
  {
  }

  lemma QuotesEnd(s: seq<Byte>, a: seq<Byte>, len: int, i: int)
    requires QuotesScanned(s, a, len, i) && a[i] == NUL
    ensures i == len && a[..len] == Quotes(s)
  {
    assert a[i..len] == [];
  }

  /**
    What the `strstr(str, "'x")` loop leaves (mapper.c:255-277): working
    from the right, an apostrophe is dropped when what follows it already
    begins with `x`.  That is exactly the fixpoint of deleting the
    apostrophe of the first `'x` until none is left (FoldDelete, FoldFixed).
  */
  function Fold(s: seq<Byte>, x: Byte): (r: seq<Byte>)
    ensures |r| <= |s|
    decreases |s|
  {
    if s == [] then []
    else
      var r := Fold(s[1..], x);
      if s[0] == APOSTROPHE && r != [] && r[0] == x then r else [s[0]] + r
  }

  /** No `'` in `s` is immediately followed by `x`. */
  predicate NoMark(s: seq<Byte>, x: Byte)
  {
    forall i :: 0 <= i < |s| - 1 ==> !(s[i] == APOSTROPHE && s[i + 1] == x)
  }

  /** Deleting the apostrophe of any `'x` does not change the fold. */
  lemma {:induction false} FoldDelete(s: seq<Byte>, p: int, x: Byte)
    requires x != APOSTROPHE && 0 <= p && p + 1 < |s| && s[p] == APOSTROPHE && s[p + 1] == x
    ensures Fold(s[..p] + s[p + 1..], x) == Fold(s, x)
    decreases p
  {
    if p == 0 {
      assert s[..0] + s[1..] == s[1..];
      assert s[1..][1..] == s[2..];
    } else {
      var d := s[..p] + s[p + 1..];
      var t := s[1..];
      assert d[0] == s[0];
      assert d[1..] == t[..p - 1] + t[p..];
      FoldDelete(t, p - 1, x);
    }
  }

  /** A string with no `'x` left is its own fold. */
  lemma {:induction false} FoldFixed(s: seq<Byte>, x: Byte)
    requires NoMark(s, x)
    ensures Fold(s, x) == s
    decreases |s|
  {
    if s != [] {
      var t := s[1..];
      assert NoMark(t, x) by {
        forall i | 0 <= i < |t| - 1
          ensures !(t[i] == APOSTROPHE && t[i + 1] == x)
        {
          assert t[i] == s[i + 1] && t[i + 1] == s[i + 2];
        }
      }
      FoldFixed(t, x);
      if t != [] {
        assert t[0] == s[1];
      }
      assert [s[0]] + t == s;
    }
  }

  /** The fold leaves no `'x` behind. */
  lemma {:induction false} FoldNoMark(s: seq<Byte>, x: Byte)
    requires x != APOSTROPHE
    ensures NoMark(Fold(s, x), x)
    decreases |s|
  {
    if s != [] {
      FoldNoMark(s[1..], x);
      var r := Fold(s[1..], x);
      if !(s[0] == APOSTROPHE && r != [] && r[0] == x) {
        var f := [s[0]] + r;
        forall i | 0 <= i < |f| - 1
          ensures !(f[i] == APOSTROPHE && f[i + 1] == x)
        {
          if i > 0 {
            assert f[i] == r[i - 1] && f[i + 1] == r[i];
          }
        }
      }
    }
  }

  /** The fold deletes apostrophes and nothing else. */
  lemma {:induction false} FoldDropsOnlyApostrophes(s: seq<Byte>, x: Byte)
    ensures RemoveAll(Fold(s, x), {APOSTROPHE}) == RemoveAll(s, {APOSTROPHE})
    decreases |s|
  {
    if s != [] {
      var r := Fold(s[1..], x);
      FoldDropsOnlyApostrophes(s[1..], x);
      assert s == [s[0]] + s[1..];
      RemoveAllCons(s[0], s[1..], {APOSTROPHE});
      RemoveAllCons(s[0], r, {APOSTROPHE});
    }
  }

  /**
    `pos = strstr(str, "'x"); while (pos) { *pos = x; memmove(pos + 1,
    pos + 2, ...); pos = strstr(str, "'x"); }`.
  */
  method FoldMarks(a: array<Byte>, len0: int, x: Byte) returns (len: int)
    requires Str(a[..], len0) && x != APOSTROPHE && x != NUL
    modifies a
    ensures 0 <= len <= len0 && Str(a[..], len)
    ensures a[..len] == Fold(old(a[..len0]), x)
  {
    ghost var s := a[..len0];
    len := len0;
    var mark := [APOSTROPHE, x];
    var pos := Find(a[..len], mark);
    while pos < len
      invariant Folding(s, a[..], len, len0, x)
      invariant pos == Find(a[..len], mark)
      decreases len
    {
      ghost var a0 := a[..];
      MarkFound(a0, len, pos, x);
      a[pos] := x;
      ghost var a1 := a[..];
      DeleteRun(a, pos + 1, 1, len);
      MarkDeleted(s, a0, a1, a[..], len, len0, pos, x);
      len := len - 1;
      pos := Find(a[..len], mark);
    }
    NoMarkLeft(a[..len], x);
    FoldFixed(a[..len], x);
  }

  ghost predicate Folding(s: seq<Byte>, a: seq<Byte>, len: int, len0: int, x: Byte)
  {
    Str(a, len) && len <= len0 && Fold(a[..len], x) == Fold(s, x)
  }

  lemma MarkFound(a: seq<Byte>, len: int, pos: int, x: Byte)
    requires Str(a, len) && 0 <= pos < len && MatchAt(a[..len], [APOSTROPHE, x], pos)
    ensures pos + 1 < len && a[pos] == APOSTROPHE && a[pos + 1] == x
  {
    var w := a[..len][pos..pos + 2];
    assert w[0] == a[pos] && w[1] == a[pos + 1];
  }

  lemma MarkDeleted(s: seq<Byte>, a0: seq<Byte>, a1: seq<Byte>, a: seq<Byte>, len: int, len0: int, pos: int, x: Byte)
    requires Folding(s, a0, len, len0, x) && x != APOSTROPHE && 0 <= pos && pos + 1 < len
    requires a0[pos] == APOSTROPHE && a0[pos + 1] == x
    requires a1 == a0[pos := x] && |a| == |a1|
    requires a[..len - 1] == a1[..pos + 1] + a1[pos + 2..len] && a[len - 1] == a1[len]
    ensures Folding(s, a, len - 1, len0, x)
  {
    var u, y := a0[..pos], a0[pos + 2..len];
    assert a1[..pos + 1] == u + [x];
    assert a1[pos + 2..len] == y;
    assert a0[..len] == u + [APOSTROPHE, x] + y;
    DeletedStr(a0, a, pos, 1, len);
    FoldDeleteParts(u, y, x);
  }

  /** FoldDelete, with the string given by its parts. */
  lemma FoldDeleteParts(u: seq<Byte>, y: seq<Byte>, x: Byte)
    requires x != APOSTROPHE
    ensures Fold(u + [x] + y, x) == Fold(u + [APOSTROPHE, x] + y, x)
  {
    var s := u + [APOSTROPHE, x] + y;
    assert s[..|u|] + s[|u| + 1..] == u + [x] + y;
    FoldDelete(s, |u|, x);
  }

  /** `strstr` finding nothing means no `'x` is left. */
  lemma NoMarkLeft(s: seq<Byte>, x: Byte)
    requires Find(s, [APOSTROPHE, x]) == |s|
    ensures NoMark(s, x)
  {
    forall i | 0 <= i < |s| - 1
      ensures !(s[i] == APOSTROPHE && s[i + 1] == x)
    {
      assert !MatchAt(s, [APOSTROPHE, x], i);
      PairSlice(s, i, APOSTROPHE, x);
    }
  }

  lemma PairSlice(s: seq<Byte>, i: int, p: Byte, q: Byte)
    requires 0 <= i && i + 1 < |s|
    ensures s[i] == p && s[i + 1] == q ==> s[i..i + 2] == [p, q]
  {
  }

  /**
    `pos = strchr(str, c); while (pos) { memmove(pos, pos + 1, ...);
    pos = strchr(str, c); }`: every `c` is deleted.
  */
  method DeleteAll(a: array<Byte>, len0: int, c: Byte) returns (len: int)
    requires Str(a[..], len0) && c != NUL
    modifies a
    ensures 0 <= len <= len0 && Str(a[..], len)
    ensures a[..len] == RemoveAll(old(a[..len0]), {c})
  {
    ghost var s := a[..len0];
    len := len0;
    var pos := FirstIndex(a[..len], c);
    while pos < len
      invariant Str(a[..], len) && len <= len0
      invariant RemoveAll(a[..len], {c}) == RemoveAll(s, {c})
      invariant pos == FirstIndex(a[..len], c)
      decreases len
    {
      ghost var a0 := a[..];
      DeleteRun(a, pos, 1, len);
      ByteDeleted(a0, a[..], len, pos, c);
      len := len - 1;
      pos := FirstIndex(a[..len], c);
    }
    RemoveAllAbsent(a[..len], {c});
  }

  lemma ByteDeleted(a0: seq<Byte>, a: seq<Byte>, len: int, pos: int, c: Byte)
    requires Str(a0, len) && 0 <= pos < len && a0[pos] == c && |a| == |a0|
    requires a[..len - 1] == a0[..pos] + a0[pos + 1..len] && a[len - 1] == a0[len]
    ensures Str(a, len - 1)
    ensures RemoveAll(a[..len - 1], {c}) == RemoveAll(a0[..len], {c})
  {
    DeletedStr(a0, a, pos, 1, len);
    assert a0[..len] == a0[..pos] + [c] + a0[pos + 1..len];
    RemoveOne(a0[..pos], c, a0[pos + 1..len]);
  }

  /** Removing `c` from `x`, `c`, `y` is removing it from `x` and `y`. */
  lemma RemoveOne(x: seq<Byte>, c: Byte, y: seq<Byte>)
    ensures RemoveAll(x + [c] + y, {c}) == RemoveAll(x + y, {c})
  {
    RemoveAllAppend(x + [c], y, {c});
    RemoveAllAppend(x, [c], {c});
    RemoveAllAppend(x, y, {c});
    assert RemoveAll([c], {c}) == [] by {
      assert [c][..0] == [];
    }
  }

  /** `RemoveAll` read from the front. */
  lemma RemoveAllCons(c: Byte, r: seq<Byte>, d: set<Byte>)
    ensures RemoveAll([c] + r, d) == (if c in d then [] else [c]) + RemoveAll(r, d)
  {
    var one := [c];
    assert one[..|one| - 1] == [];
    assert RemoveAll(one, d) == (if c in d then [] else [c]);
    RemoveAllAppend(one, r, d);
  }

  /** Removing bytes that do not occur changes nothing. */
  lemma {:induction false} RemoveAllAbsent(s: seq<Byte>, d: set<Byte>)
    requires forall i :: 0 <= i < |s| ==> s[i] !in d
    ensures RemoveAll(s, d) == s
    decreases |s|
  {
    if s != [] {
      RemoveAllAbsent(s[..|s| - 1], d);
      assert s[..|s| - 1] + [s[|s| - 1]] == s;
    }
  }

  /** Removing one set of bytes and then another removes their union. */
  lemma {:induction false} RemoveAllTwice(s: seq<Byte>, d: set<Byte>, e: set<Byte>)
    ensures RemoveAll(RemoveAll(s, d), e) == RemoveAll(s, d + e)
    decreases |s|
  {
    if s != [] {
      var init, last := s[..|s| - 1], s[|s| - 1];
      RemoveAllTwice(init, d, e);
      var kept := if last in d then [] else [last];
      RemoveAllAppend(RemoveAll(init, d), kept, e);
      if kept != [] {
        assert RemoveAll(kept, e) == (if last in e then [] else [last]) by {
          assert kept[..0] == [];
        }
      }
    }
  }

  /** The punctuation `normalize_string` deletes, in the order its loops run. */
  function Deleted(): (r: seq<Byte>)
    ensures forall i :: 0 <= i < |r| ==> r[i] != NUL
  {
    Ascii("-<>.*()\":/{},'")
  }

  function SetOf(p: seq<Byte>): set<Byte>
  {
    set i | 0 <= i < |p| :: p[i]
  }

  lemma SetOfSnoc(p: seq<Byte>, k: int)
    requires 0 <= k < |p|
    ensures SetOf(p[..k + 1]) == SetOf(p[..k]) + {p[k]}
  {
    var l, m := p[..k + 1], p[..k];
    forall b | b in SetOf(l)
      ensures b in SetOf(m) + {p[k]}
    {
      var i :| 0 <= i < |l| && l[i] == b;
      if i < k {
        assert m[i] == b;
      }
    }
    forall b | b in SetOf(m)
      ensures b in SetOf(l)
    {
      var i :| 0 <= i < |m| && m[i] == b;
      assert l[i] == b;
    }
    assert l[k] == p[k];
  }

  /** What `normalize_string` makes of a zero-padded string. */
  function Normalized(s: seq<Byte>): seq<Byte>
  {
    RemoveAll(Folded(s), SetOf(Deleted()))
  }

  /** The string after the quote and apostrophe passes, before punctuation goes. */
  function Folded(s: seq<Byte>): seq<Byte>
  {
    Fold(Fold(Quotes(Lower(Clean(s))), LOWER_S), LOWER_T)
  }

  /**
    `normalize_string(str)`: the passes of mapper.c:234-277, then the
    punctuation deletion.
  */
  method NormalizeString(a: array<Byte>, ghost len0: int) returns (len: int)
    requires Str(a[..], len0) && Padded(a[..], len0)
    modifies a
    ensures 0 <= len <= len0 && Str(a[..], len)
    ensures a[..len] == Normalized(old(a[..len0]))
  {
    len := FoldPasses(a, len0);
    len := StripPunctuation(a, len);
  }

  /** mapper.c:234-277: clean, lowercase, curly quotes to `'`, fold `'s` then `'t`. */
  method FoldPasses(a: array<Byte>, ghost len0: int) returns (len: int)
    requires Str(a[..], len0) && Padded(a[..], len0)
    modifies a
    ensures 0 <= len <= len0 && Str(a[..], len)
    ensures a[..len] == Folded(old(a[..len0]))
  {
    var len1 := CleanSmartQuotes(a, len0);
    LowerInPlace(a, len1);
    var len2 := ReplaceQuotes(a, len1);
    var len3 := FoldMarks(a, len2, LOWER_S);
    len := FoldMarks(a, len3, LOWER_T);
  }

  /**
    The fourteen `strchr` deletion loops of mapper.c:280-418 are identical
    but for the byte they delete; they run here as one loop over those
    bytes, in the same order.
  */
  method StripPunctuation(a: array<Byte>, len0: int) returns (len: int)
    requires Str(a[..], len0)
    modifies a
    ensures 0 <= len <= len0 && Str(a[..], len)
    ensures a[..len] == RemoveAll(old(a[..len0]), SetOf(Deleted()))
  {
    ghost var t := a[..len0];
    len := len0;
    var order := Deleted();
    assert SetOf(order[..0]) == {};
    RemoveAllAbsent(t, {});
    for k := 0 to |order|
      invariant 0 <= len <= len0 && Str(a[..], len)
      invariant a[..len] == RemoveAll(t, SetOf(order[..k]))
    {
      len := DeleteAll(a, len, order[k]);
      RemoveAllTwice(t, SetOf(order[..k]), {order[k]});
      SetOfSnoc(order, k);
    }
    assert order[..|order|] == order;
  }

  predicate NoUpper(s: seq<Byte>)
  {
    forall i :: 0 <= i < |s| ==> !IsUpper(s[i])
  }

  lemma {:induction false} QuotesNoUpper(s: seq<Byte>)
    requires NoUpper(s)
    ensures NoUpper(Quotes(s))
    decreases |s|
  {
    if s != [] {
      var rest := if QuoteAt(s) then s[3..] else s[1..];
      assert NoUpper(rest) by {
        forall i | 0 <= i < |rest|
          ensures !IsUpper(rest[i])
        {
          assert rest[i] == s[i + |s| - |rest|];
        }
      }
      QuotesNoUpper(rest);
    }
  }

  lemma {:induction false} FoldNoUpper(s: seq<Byte>, x: Byte)
    requires NoUpper(s)
    ensures NoUpper(Fold(s, x))
    decreases |s|
  {
    if s != [] {
      assert NoUpper(s[1..]) by {
        forall i | 0 <= i < |s| - 1
          ensures !IsUpper(s[1..][i])
        {
          assert s[1..][i] == s[i + 1];
        }
      }
      FoldNoUpper(s[1..], x);
    }
  }

  lemma {:induction false} RemoveAllNoUpper(s: seq<Byte>, d: set<Byte>)
    requires NoUpper(s)
    ensures NoUpper(RemoveAll(s, d))
    decreases |s|
  {
    if s != [] {
      var init := s[..|s| - 1];
      assert NoUpper(init) by {
        forall i | 0 <= i < |init|
          ensures !IsUpper(init[i])
        {
          assert init[i] == s[i];
        }
      }
      RemoveAllNoUpper(init, d);
    }
  }

  /**
    After `normalize_string` the string has no uppercase letter, none of
    the deleted punctuation (so no apostrophe and no hyphen), and it is no
    longer than before.
  */
  lemma NormalizedProperties(s: seq<Byte>)
    ensures var r := Normalized(s);
      |r| <= |s| &&
      (forall i :: 0 <= i < |r| ==> !IsUpper(r[i]) && r[i] !in SetOf(Deleted())) &&
      (forall i :: 0 <= i < |r| ==> r[i] != APOSTROPHE && r[i] != HYPHEN)
  {
    var l := Lower(Clean(s));
    var q := Quotes(l);
    var f1 := Fold(q, LOWER_S);
    var f := Fold(f1, LOWER_T);
    var r := Normalized(s);
    QuotesNoUpper(l);
    FoldNoUpper(q, LOWER_S);
    FoldNoUpper(f1, LOWER_T);
    RemoveAllNoUpper(f, SetOf(Deleted()));
    var d := Deleted();
    assert d[0] == HYPHEN && d[|d| - 1] == APOSTROPHE;
    assert HYPHEN in SetOf(d) && APOSTROPHE in SetOf(d);
  }

  // ---------------------------------------------------------------------
  // preprocess_line (mapper.c:177-209).

  /** `strlen`: the index of the terminator. */
  method StrLen(a: array<Byte>, ghost len: int) returns (n: int)
    requires Str(a[..], len)
    ensures n == len
  {
    forall k | 0 <= k < len
      ensures a[k] != NUL
    {
      assert a[..len][k] == a[k];
    }
    n := 0;
    while a[n] != NUL
      invariant 0 <= n <= len
      decreases len - n
    {
      n := n + 1;
    }
  }

  /**
    What one `'x` pass of `preprocess_line` leaves: scanning left to
    right, a `'` followed by `x` and then by a non-letter or the end is
    replaced by that `x`, and the scan resumes after it.
  */
  function Marks(s: seq<Byte>, x: Byte): (r: seq<Byte>)
    ensures |r| <= |s|
    decreases |s|
  {
    if |s| < 2 then s
    else if s[0] == APOSTROPHE && s[1] == x && (|s| == 2 || !IsAlpha(s[2])) then [x] + Marks(s[2..], x)
    else [s[0]] + Marks(s[1..], x)
  }

  /** A pass deletes apostrophes and nothing else. */
  lemma {:induction false} MarksDropOnlyApostrophes(s: seq<Byte>, x: Byte)
    requires x != APOSTROPHE
    ensures RemoveAll(Marks(s, x), {APOSTROPHE}) == RemoveAll(s, {APOSTROPHE})
    decreases |s|
  {
    if |s| >= 2 {
      if s[0] == APOSTROPHE && s[1] == x && (|s| == 2 || !IsAlpha(s[2])) {
        MarksDropOnlyApostrophes(s[2..], x);
        assert s == [s[0]] + ([s[1]] + s[2..]);
        RemoveAllCons(s[0], [s[1]] + s[2..], {APOSTROPHE});
        RemoveAllCons(s[1], s[2..], {APOSTROPHE});
        RemoveAllCons(x, Marks(s[2..], x), {APOSTROPHE});
      } else {
        MarksDropOnlyApostrophes(s[1..], x);
        assert s == [s[0]] + s[1..];
        RemoveAllCons(s[0], s[1..], {APOSTROPHE});
        RemoveAllCons(s[0], Marks(s[1..], x), {APOSTROPHE});
      }
    }
  }

  /** The `'s` or `'t` loop of `preprocess_line` (mapper.c:181-198). */
  method MarkPass(a: array<Byte>, len0: int, x: Byte) returns (len: int)
    requires Str(a[..], len0) && x != NUL
    modifies a
    ensures 0 <= len <= len0 && Str(a[..], len)
    ensures a[..len] == Marks(old(a[..len0]), x)
  {
    ghost var s := a[..len0];
    len := len0;
    var i := 0;
    while i < len - 1
      invariant MarksScanned(s, a[..], len, len0, i, x)
      decreases len - i
    {
      if a[i] == APOSTROPHE && a[i + 1] == x && (i + 2 == len || !IsAlpha(a[i + 2])) {
        ghost var a0 := a[..];
        a[i] := x;
        ghost var a1 := a[..];
        DeleteRun(a, i + 1, 1, len);
        MarkReplaced(s, a0, a1, a[..], len, len0, i, x);
        len := len - 1;
      } else {
        MarkKept(s, a[..], len, len0, i, x);
      }
      i := i + 1;
    }
    MarksEnd(s, a[..], len, len0, i, x);
  }

  ghost predicate MarksScanned(s: seq<Byte>, a: seq<Byte>, len: int, len0: int, i: int, x: Byte)
  {
    Str(a, len) && len <= len0 && 0 <= i <= len && Marks(s, x) == a[..i] + Marks(a[i..len], x)
  }

  lemma MarkKept(s: seq<Byte>, a: seq<Byte>, len: int, len0: int, i: int, x: Byte)
    requires MarksScanned(s, a, len, len0, i, x) && i < len - 1
    requires !(a[i] == APOSTROPHE && a[i + 1] == x && (i + 2 == len || !IsAlpha(a[i + 2])))
    ensures MarksScanned(s, a, len, len0, i + 1, x)
  {
    var t := a[i..len];
    assert t[0] == a[i] && t[1] == a[i + 1] && t[1..] == a[i + 1..len];
    if i + 2 < len {
      assert t[2] == a[i + 2];
    }
    assert Marks(t, x) == [a[i]] + Marks(a[i + 1..len], x);
    assert a[..i + 1] == a[..i] + [a[i]];
    Regroup(a[..i], [a[i]], Marks(a[i + 1..len], x));
  }

  lemma MarkReplaced(s: seq<Byte>, a0: seq<Byte>, a1: seq<Byte>, a: seq<Byte>, len: int, len0: int, i: int, x: Byte)
    requires MarksScanned(s, a0, len, len0, i, x) && i < len - 1 && x != NUL
    requires a0[i] == APOSTROPHE && a0[i + 1] == x && (i + 2 == len || !IsAlpha(a0[i + 2]))
    requires a1 == a0[i := x] && |a| == |a1|
    requires a[..len - 1] == a1[..i + 1] + a1[i + 2..len] && a[len - 1] == a1[len]
    ensures MarksScanned(s, a, len - 1, len0, i + 1, x)
  {
    var u, y := a0[..i], a0[i + 2..len];
    assert a1[..i + 1] == u + [x] && a1[i + 2..len] == y;
    assert Str(a1, len) by {
      assert a1[..len] == a0[..len][i := x];
    }
    DeletedStr(a1, a, i + 1, 1, len);
    var t := a0[i..len];
    assert t[0] == APOSTROPHE && t[1] == x && t[2..] == y;
    if i + 2 < len {
      assert t[2] == a0[i + 2];
    }
    assert Marks(t, x) == [x] + Marks(y, x);
    SliceParts(a[..len - 1], u, x, y);
    assert a[..i + 1] == a[..len - 1][..i + 1];
    assert a[i + 1..len - 1] == a[..len - 1][i + 1..];
    Regroup(u, [x], Marks(y, x));
  }

  lemma MarksEnd(s: seq<Byte>, a: seq<Byte>, len: int, len0: int, i: int, x: Byte)
    requires MarksScanned(s, a, len, len0, i, x) && i >= len - 1
    ensures a[..len] == Marks(s, x)
  {
    assert a[..len] == a[..i] + a[i..len];
  }

  /** The `-` at `k` sits between two letters, so the hyphen loop deletes it. */
  predicate DropsHyphen(s: seq<Byte>, k: int)
  {
    0 < k < |s| - 1 && s[k] == HYPHEN && IsAlpha(s[k - 1]) && IsAlpha(s[k + 1])
  }

  /** The bytes of `s` from `k` on that the hyphen loop keeps. */
  function KeptFrom(s: seq<Byte>, k: int): (r: seq<Byte>)
    requires 0 <= k <= |s|
    ensures |r| <= |s| - k
    decreases |s| - k
  {
    if k == |s| then []
    else (if DropsHyphen(s, k) then [] else [s[k]]) + KeptFrom(s, k + 1)
  }

  /**
    What the hyphen loop leaves: every hyphen whose neighbours in the
    original string are letters is gone.  Deleting one never changes the
    neighbours of another, since the byte after a deleted hyphen is a
    letter.
  */
  function Unhyphen(s: seq<Byte>): seq<Byte>
  {
    KeptFrom(s, 0)
  }

  /** The hyphen loop deletes hyphens and nothing else. */
  lemma {:induction false} KeptFromDropsOnlyHyphens(s: seq<Byte>, k: int)
    requires 0 <= k <= |s|
    ensures RemoveAll(KeptFrom(s, k), {HYPHEN}) == RemoveAll(s[k..], {HYPHEN})
    decreases |s| - k
  {
    if k < |s| {
      KeptFromDropsOnlyHyphens(s, k + 1);
      assert s[k..] == [s[k]] + s[k + 1..];
      RemoveAllCons(s[k], s[k + 1..], {HYPHEN});
      if DropsHyphen(s, k) {
        assert s[k] in {HYPHEN};
        assert KeptFrom(s, k) == [] + KeptFrom(s, k + 1) == KeptFrom(s, k + 1);
      } else {
        assert KeptFrom(s, k) == [s[k]] + KeptFrom(s, k + 1);
        RemoveAllCons(s[k], KeptFrom(s, k + 1), {HYPHEN});
      }
    }
  }

  /** The hyphen loop of `preprocess_line` (mapper.c:201-208). */
  method HyphenPass(a: array<Byte>, len0: int) returns (len: int)
    requires Str(a[..], len0)
    modifies a
    ensures 0 <= len <= len0 && Str(a[..], len)
    ensures a[..len] == Unhyphen(old(a[..len0]))
  {
    ghost var s := a[..len0];
    len := len0;
    var i := 0;
    ghost var k := 0;
    assert a[0..len] == s;
    while i < len
      invariant HyphenScanned(s, a[..], len, len0, i, k)
      decreases len - i
    {
      HyphenTest(s, a[..], len, len0, i, k);
      if a[i] == HYPHEN && i > 0 && i < len - 1 && IsAlpha(a[i - 1]) && IsAlpha(a[i + 1]) {
        ghost var a0 := a[..];
        DeleteRun(a, i, 1, len);
        HyphenDropped(s, a0, a[..], len, len0, i, k);
        len := len - 1;
        i := i - 1;
      } else {
        HyphenKept(s, a[..], len, len0, i, k);
      }
      i := i + 1;
      k := k + 1;
    }
    HyphenEnd(s, a[..], len, len0, i, k);
  }

  ghost predicate HyphenScanned(s: seq<Byte>, a: seq<Byte>, len: int, len0: int, i: int, k: int)
  {
    Str(a, len) && len <= len0 && |s| == len0 &&
    0 <= i <= len && 0 <= k <= |s| && len - i == |s| - k &&
    a[i..len] == s[k..] && Unhyphen(s) == a[..i] + KeptFrom(s, k) &&
    (i == 0 <==> k == 0) &&
    (0 < k ==> a[i - 1] == s[k - 1] || DropsHyphen(s, k - 1))
  }

  /** The loop's test on the current string decides DropsHyphen on the original. */
  lemma HyphenTest(s: seq<Byte>, a: seq<Byte>, len: int, len0: int, i: int, k: int)
    requires HyphenScanned(s, a, len, len0, i, k) && i < len
    ensures a[i] == s[k]
    ensures (a[i] == HYPHEN && i > 0 && i < len - 1 && IsAlpha(a[i - 1]) && IsAlpha(a[i + 1]))
            <==> DropsHyphen(s, k)
  {
    assert a[i] == a[i..len][0] == s[k..][0];
    if i < len - 1 {
      assert a[i + 1] == a[i..len][1] == s[k..][1];
    }
    if 0 < k && s[k] == HYPHEN && DropsHyphen(s, k - 1) {
      assert IsAlpha(s[k]);
    }
  }

  lemma HyphenDropped(s: seq<Byte>, a0: seq<Byte>, a: seq<Byte>, len: int, len0: int, i: int, k: int)
    requires HyphenScanned(s, a0, len, len0, i, k) && i < len && DropsHyphen(s, k)
    requires |a| == |a0| && a[..len - 1] == a0[..i] + a0[i + 1..len] && a[len - 1] == a0[len]
    ensures HyphenScanned(s, a, len - 1, len0, i, k + 1)
  {
    DeletedStr(a0, a, i, 1, len);
    DeleteOneSlices(a0, a, i, len);
    TailShift(a0, s, i, k, len);
    assert KeptFrom(s, k) == KeptFrom(s, k + 1);
  }

  /** The slices on either side of a byte deleted at `i`. */
  lemma DeleteOneSlices<T>(a0: seq<T>, a: seq<T>, i: int, len: int)
    requires 0 <= i < len <= |a0| && len - 1 <= |a| && a[..len - 1] == a0[..i] + a0[i + 1..len]
    ensures a[..i] == a0[..i] && a[i..len - 1] == a0[i + 1..len]
  {
    SliceSplit(a[..len - 1], a0[..i], a0[i + 1..len]);
    assert a[..i] == a[..len - 1][..i];
    assert a[i..len - 1] == a[..len - 1][i..];
  }

  /** Matching suffixes stay matched one element further on. */
  lemma TailShift<T>(a0: seq<T>, s: seq<T>, i: int, k: int, len: int)
    requires 0 <= i < len <= |a0| && 0 <= k < |s| && a0[i..len] == s[k..]
    ensures a0[i + 1..len] == s[k + 1..]
  {
    assert a0[i + 1..len] == a0[i..len][1..];
    assert s[k + 1..] == s[k..][1..];
  }

  lemma HyphenKept(s: seq<Byte>, a: seq<Byte>, len: int, len0: int, i: int, k: int)
    requires HyphenScanned(s, a, len, len0, i, k) && i < len && !DropsHyphen(s, k) && a[i] == s[k]
    ensures HyphenScanned(s, a, len, len0, i + 1, k + 1)
  {
    assert a[..i + 1] == a[..i] + [s[k]];
    assert a[i + 1..len] == a[i..len][1..] == s[k..][1..] == s[k + 1..];
    Regroup(a[..i], [s[k]], KeptFrom(s, k + 1));
  }

  lemma HyphenEnd(s: seq<Byte>, a: seq<Byte>, len: int, len0: int, i: int, k: int)
    requires HyphenScanned(s, a, len, len0, i, k) && i >= len
    ensures a[..len] == Unhyphen(s)
  {
    assert a[..len] == a[..i];
  }

  /** The pieces of `x + y`. */
  lemma SliceSplit<T>(w: seq<T>, x: seq<T>, y: seq<T>)
    requires w == x + y
    ensures w[..|x|] == x && w[|x|..] == y
  {
  }

  /** What `preprocess_line` makes of a line. */
  function Preprocessed(s: seq<Byte>): seq<Byte>
  {
    Unhyphen(Marks(Marks(s, LOWER_S), LOWER_T))
  }

  /** `preprocess_line(line)`: the `'s` pass, the `'t` pass, then the hyphen pass. */
  method PreprocessLine(a: array<Byte>, ghost len0: int) returns (len: int)
    requires Str(a[..], len0)
    modifies a
    ensures 0 <= len <= len0 && Str(a[..], len)
    ensures a[..len] == Preprocessed(old(a[..len0]))
  {
    len := StrLen(a, len0);
    len := MarkPass(a, len, LOWER_S);
    len := MarkPass(a, len, LOWER_T);
    len := HyphenPass(a, len);
  }

  /**
    `preprocess_line` only deletes apostrophes and hyphens: every other
    byte survives, in order, and the line never grows.
  */
  lemma PreprocessedProperties(s: seq<Byte>)
    ensures |Preprocessed(s)| <= |s|
    ensures RemoveAll(Preprocessed(s), {APOSTROPHE, HYPHEN}) == RemoveAll(s, {APOSTROPHE, HYPHEN})
  {
    var m1 := Marks(s, LOWER_S);
    var m := Marks(m1, LOWER_T);
    var r := Unhyphen(m);
    MarksDropOnlyApostrophes(s, LOWER_S);
    MarksDropOnlyApostrophes(m1, LOWER_T);
    KeptFromDropsOnlyHyphens(m, 0);
    assert m[0..] == m;
    assert {HYPHEN} + {APOSTROPHE} == {APOSTROPHE, HYPHEN} == {APOSTROPHE} + {HYPHEN};
    RemoveAllTwice(r, {HYPHEN}, {APOSTROPHE});
    RemoveAllTwice(m, {HYPHEN}, {APOSTROPHE});
    RemoveAllTwice(m, {APOSTROPHE}, {HYPHEN});
    RemoveAllTwice(s, {APOSTROPHE}, {HYPHEN});
  }
}
