/**
  The mapper's word-level helpers: the suffix, hyphen, possessive and
  contraction predicates, `normalize_word`, and the `process_*` rewrites
  that copy a word into a result buffer byte by byte.  A result buffer is
  modelled by the bytes written before its terminator.
*/
module WordHelpers {
  import opened Bytes

  /** MAX_WORD_LEN: a normalized word and its terminator fit in this many bytes. */
  const MaxWordLen := 256
  /** The most bytes `normalize_word` writes before the terminator. */
  const MaxNormalized := MaxWordLen - 1

  const LOWER_S: Byte := 's' as int
  const LOWER_T: Byte := 't' as int

  // ---------------------------------------------------------------------
  // Specification functions.

  /** The letters of `s`, in order. */
  function Letters(s: seq<Byte>): (r: seq<Byte>)
    ensures |r| <= |s|
    ensures forall i :: 0 <= i < |r| ==> IsAlpha(r[i])
    decreases |s|
  {
    if s == [] then []
    else Letters(s[..|s| - 1]) + (if IsAlpha(s[|s| - 1]) then [s[|s| - 1]] else [])
  }

  /** `s` without the bytes of `d`, the others kept in order. */
  function RemoveAll(s: seq<Byte>, d: set<Byte>): (r: seq<Byte>)
    ensures |r| <= |s|
    ensures forall i :: 0 <= i < |r| ==> r[i] !in d
    decreases |s|
  {
    if s == [] then []
    else RemoveAll(s[..|s| - 1], d) + (if s[|s| - 1] in d then [] else [s[|s| - 1]])
  }

  lemma {:induction false} LettersAppend(a: seq<Byte>, b: seq<Byte>)
    ensures Letters(a + b) == Letters(a) + Letters(b)
    decreases |b|
  {
    if b == [] {
      assert a + b == a;
    } else {
      var b' := b[..|b| - 1];
      assert (a + b)[..|a + b| - 1] == a + b';
      LettersAppend(a, b');
    }
  }

  lemma {:induction false} RemoveAllAppend(a: seq<Byte>, b: seq<Byte>, d: set<Byte>)
    ensures RemoveAll(a + b, d) == RemoveAll(a, d) + RemoveAll(b, d)
    decreases |b|
  {
    if b == [] {
      assert a + b == a;
    } else {
      var b' := b[..|b| - 1];
      assert (a + b)[..|a + b| - 1] == a + b';
      RemoveAllAppend(a, b', d);
    }
  }

  lemma LowerAppend(a: seq<Byte>, b: seq<Byte>)
    ensures Lower(a + b) == Lower(a) + Lower(b)
  {
  }

  /** Lowering one more byte of a slice appends that byte, lowered. */
  lemma LowerSnoc(s: seq<Byte>, lo: int, i: int)
    requires 0 <= lo <= i < |s|
    ensures Lower(s[lo..i + 1]) == Lower(s[lo..i]) + [ToLower(s[i])]
  {
    assert s[lo..i + 1] == s[lo..i] + [s[i]];
    LowerAppend(s[lo..i], [s[i]]);
  }

  /** Lowercasing keeps exactly the letters, lowercased. */
  lemma {:induction false} LettersOfLower(s: seq<Byte>)
    ensures forall i :: 0 <= i < |Letters(Lower(s))| ==> IsLower(Letters(Lower(s))[i])
    decreases |s|
  {
    if s != [] {
      var s' := s[..|s| - 1];
      assert Lower(s)[..|s| - 1] == Lower(s');
      LettersOfLower(s');
    }
  }

  /** No letter, no letters. */
  lemma {:induction false} LettersEmpty(s: seq<Byte>)
    ensures Letters(s) == [] <==> forall i :: 0 <= i < |s| ==> !IsAlpha(s[i])
    decreases |s|
  {
    if s != [] {
      var s' := s[..|s| - 1];
      LettersEmpty(s');
      assert forall i :: 0 <= i < |s'| ==> s'[i] == s[i];
    }
  }

  // ---------------------------------------------------------------------
  // Predicates (mapper.c:15-20, 67-88, 140-153).

  /** `ends_with(word, pattern)`: the last `strlen(pattern)` bytes compare equal. */
  predicate EndsWith(word: seq<Byte>, pattern: seq<Byte>)
  {
    |word| >= |pattern| && word[|word| - |pattern|..] == pattern
  }

  /** `ends_with` holds exactly for the words made of something followed by the pattern. */
  lemma EndsWithSuffix(word: seq<Byte>, pattern: seq<Byte>)
    ensures EndsWith(word, pattern) <==>
      |word| >= |pattern| && word == word[..|word| - |pattern|] + pattern
    ensures forall u :: EndsWith(u + pattern, pattern)
  {
    forall u ensures EndsWith(u + pattern, pattern) {
      assert (u + pattern)[|u + pattern| - |pattern|..] == pattern;
    }
  }

  /**
    `is_hyphenated(word)`: the first hyphen is neither first nor last and
    sits between two letters.
  */
  predicate IsHyphenated(word: seq<Byte>)
  {
    var h := FirstIndex(word, HYPHEN);
    0 < h && h + 1 < |word| && IsAlpha(word[h - 1]) && IsAlpha(word[h + 1])
  }

  /** Later hyphens do not count: only the first one is examined. */
  lemma HyphenatedFirst(u: seq<Byte>, v: seq<Byte>)
    requires forall i :: 0 <= i < |u| ==> u[i] != HYPHEN
    ensures IsHyphenated(u + [HYPHEN] + v) <==>
      u != [] && v != [] && IsAlpha(u[|u| - 1]) && IsAlpha(v[0])
  {
    var w := u + [HYPHEN] + v;
    assert w[|u|] == HYPHEN;
    assert forall i :: 0 <= i < |u| ==> w[i] == u[i];
    assert FirstIndex(w, HYPHEN) == |u|;
    if v != [] {
      assert w[|u| + 1] == v[0];
    }
  }

  /** `is_possessive(word)`: longer than two bytes and ending in `'s`. */
  predicate IsPossessive(word: seq<Byte>)
  {
    |word| > 2 && word[|word| - 2] == APOSTROPHE && word[|word| - 1] == LOWER_S
  }

  /** That is `ends_with(word, "'s")` on a word of more than two bytes. */
  lemma PossessiveEndsWith(word: seq<Byte>)
    ensures IsPossessive(word) <==> |word| > 2 && EndsWith(word, [APOSTROPHE, LOWER_S])
  {
    if |word| >= 2 {
      var t := word[|word| - 2..];
      assert t[0] == word[|word| - 2] && t[1] == word[|word| - 1];
    }
  }

  /**
    `is_contraction(word)`: the first apostrophe is neither first nor last
    and is followed by `t` or `s`, or by `ve`, `ll` or `re`, in either case.
  */
  predicate IsContraction(word: seq<Byte>)
  {
    var a := FirstIndex(word, APOSTROPHE);
    if a == |word| || a == 0 || a + 1 == |word| then false
    else
      var next := ToLower(word[a + 1]);
      next == LOWER_T || next == LOWER_S ||
      (a + 2 < |word| &&
       ((next == 'v' as int && ToLower(word[a + 2]) == 'e' as int) ||
        (next == 'l' as int && ToLower(word[a + 2]) == 'l' as int) ||
        (next == 'r' as int && ToLower(word[a + 2]) == 'e' as int)))
  }

  /** A contraction has an apostrophe that is neither its first nor its last byte. */
  lemma ContractionInside(word: seq<Byte>)
    requires IsContraction(word)
    ensures 0 < FirstIndex(word, APOSTROPHE) < |word| - 1
  {
  }

  /** `don't`, `it's`: a non-empty apostrophe-free stem followed by `'t` or `'s`. */
  lemma ContractionOfStem(stem: seq<Byte>, x: Byte)
    requires stem != [] && forall i :: 0 <= i < |stem| ==> stem[i] != APOSTROPHE
    requires ToLower(x) == LOWER_T || ToLower(x) == LOWER_S
    ensures IsContraction(stem + [APOSTROPHE, x])
  {
    var w := stem + [APOSTROPHE, x];
    assert w[|stem|] == APOSTROPHE && w[|stem| + 1] == x;
    assert forall i :: 0 <= i < |stem| ==> w[i] == stem[i];
    assert FirstIndex(w, APOSTROPHE) == |stem|;
  }

  /** `is_word_char(c)`: a letter, an apostrophe or a hyphen. */
  predicate IsWordChar(c: Byte)
  {
    IsAlpha(c) || c == APOSTROPHE || c == HYPHEN
  }

  /** A word character is never white space or a terminator, so `%255s` keeps it. */
  lemma WordCharIsPrintable(c: Byte)
    requires IsWordChar(c)
    ensures !IsSpace(c) && c != NUL
  {
  }

  /** The six suffixes `has_contraction` looks for after an apostrophe. */
  function ContractionMarks(): (r: seq<seq<Byte>>)
    ensures |r| == 6 && forall k :: 0 <= k < 6 ==> r[k] != [] && r[k][0] == APOSTROPHE
  {
    [Ascii("'st"), Ascii("'d"), Ascii("'ll"), Ascii("'ve"), Ascii("'re"), Ascii("'m")]
  }

  /** `has_contraction(word)`: one of the six `strstr` searches succeeds. */
  predicate HasContraction(word: seq<Byte>)
  {
    var m := ContractionMarks();
    Occurs(word, m[0]) || Occurs(word, m[1]) || Occurs(word, m[2]) ||
    Occurs(word, m[3]) || Occurs(word, m[4]) || Occurs(word, m[5])
  }

  /** `strstr` succeeds exactly when the pattern occurs somewhere. */
  lemma OccursSomewhere(s: seq<Byte>, p: seq<Byte>)
    requires p != []
    ensures Occurs(s, p) <==> exists i :: MatchAt(s, p, i)
  {
    if exists i :: MatchAt(s, p, i) {
      var i :| MatchAt(s, p, i);
      assert Find(s, p) <= i;
    }
  }

  /**
    `has_contraction` holds exactly when some apostrophe begins one of the
    six marks.
  */
  lemma HasContractionIff(word: seq<Byte>)
    ensures HasContraction(word) <==>
      exists k, i :: 0 <= k < 6 && MatchAt(word, ContractionMarks()[k], i)
    ensures HasContraction(word) ==> exists i :: 0 <= i < |word| && word[i] == APOSTROPHE
  {
    var m := ContractionMarks();
    forall k | 0 <= k < 6 {
      OccursSomewhere(word, m[k]);
    }
    if HasContraction(word) {
      var k, i :| 0 <= k < 6 && MatchAt(word, m[k], i);
      assert word[i..i + |m[k]|][0] == word[i];
    }
  }

  // ---------------------------------------------------------------------
  // normalize_word (mapper.c:22-65).

  /** What `normalize_word` leaves: the first 255 letters, lowercased. */
  function NormalForm(word: seq<Byte>): seq<Byte>
  {
    Take(Letters(Lower(word)), MaxNormalized)
  }

  /**
    `normalize_word(word, normalized)`: walk the word, copy letters
    lowercased, turn an `'s` or `'t` ending a run of letters into that
    letter, drop hyphens, apostrophes and everything else, and stop when
    255 bytes are written.  Whatever path a byte takes, the result is
    the first 255 letters of the word, lowercased.
  */
  method NormalizeWord(word: seq<Byte>) returns (normalized: seq<Byte>)
    ensures normalized == NormalForm(word)
  {
    if |word| == 0 {
      return [];
    }
    var len := |word|;
    var i := 0;
    normalized := [];
    var hasLetter := false;
    var prevWasAlpha := false;
    while i < len && |normalized| < MaxNormalized
      invariant 0 <= i <= len
      invariant normalized == Letters(Lower(word[..i])) && |normalized| <= MaxNormalized
      invariant prevWasAlpha ==> hasLetter
      invariant hasLetter <==> normalized != []
      decreases len - i
    {
      var c := ToLower(word[i]);
      ghost var i0 := i;
      if IsAlpha(c) {
        normalized := normalized + [c];
        hasLetter := true;
        prevWasAlpha := true;
      } else if c == APOSTROPHE && prevWasAlpha && i < len - 1 {
        var next := ToLower(word[i + 1]);
        if next == LOWER_S && (i + 2 == len || !IsAlpha(word[i + 2])) {
          normalized := normalized + [LOWER_S];
          i := i + 1;
        } else if next == LOWER_T && (i + 2 == len || !IsAlpha(word[i + 2])) {
          normalized := normalized + [LOWER_T];
          i := i + 1;
        }
      } else if c == HYPHEN && prevWasAlpha && i < len - 1 && IsAlpha(word[i + 1]) {
        prevWasAlpha := false;
      } else {
        prevWasAlpha := false;
      }
      i := i + 1;
      NormalizeStep(word, i0, i);
    }
    if !hasLetter {
      normalized := [];
    }
    NormalizeDone(word, i, normalized);
  }

  /** One pass of the loop adds the letters of the bytes it stepped over. */
  lemma NormalizeStep(word: seq<Byte>, i0: int, i: int)
    requires 0 <= i0 < i <= |word| && i <= i0 + 2
    requires i == i0 + 2 ==> !IsAlpha(word[i0]) && IsAlpha(word[i0 + 1])
    ensures Letters(Lower(word[..i])) ==
      Letters(Lower(word[..i0])) +
      (if IsAlpha(word[i0]) then [ToLower(word[i0])] else []) +
      (if i == i0 + 2 then [ToLower(word[i0 + 1])] else [])
  {
    LettersLowerSnoc(word, i0);
    if i == i0 + 2 {
      LettersLowerSnoc(word, i0 + 1);
    }
  }

  /** One more byte of the word adds its letter, lowercased, if it is one. */
  lemma LettersLowerSnoc(word: seq<Byte>, i: int)
    requires 0 <= i < |word|
    ensures Letters(Lower(word[..i + 1])) ==
      Letters(Lower(word[..i])) + (if IsAlpha(word[i]) then [ToLower(word[i])] else [])
  {
    var l := Lower(word[..i + 1]);
    assert l[..i] == Lower(word[..i]);
    assert l[i] == ToLower(word[i]);
  }

  /** Stopping at 255 letters or at the end of the word gives the normal form. */
  lemma NormalizeDone(word: seq<Byte>, i: int, out: seq<Byte>)
    requires 0 <= i <= |word| && out == Letters(Lower(word[..i])) && |out| <= MaxNormalized
    requires i < |word| ==> |out| == MaxNormalized
    ensures out == NormalForm(word)
  {
    assert word == word[..i] + word[i..];
    LowerAppend(word[..i], word[i..]);
    LettersAppend(Lower(word[..i]), Lower(word[i..]));
    var all := Letters(Lower(word));
    assert all == out + Letters(Lower(word[i..]));
    if i < |word| {
      assert all[..MaxNormalized] == out;
    } else {
      assert word[i..] == [];
    }
  }

  /**
    The normal form holds only lowercase letters, at most 255 of them,
    and is empty exactly when the word has no letter.
  */
  lemma NormalFormProperties(word: seq<Byte>)
    ensures var r := NormalForm(word);
      |r| <= MaxNormalized && (forall i :: 0 <= i < |r| ==> IsLower(r[i])) &&
      (r == [] <==> forall i :: 0 <= i < |word| ==> !IsAlpha(word[i]))
  {
    var l := Letters(Lower(word));
    LettersOfLower(word);
    LettersEmpty(Lower(word));
  }

  // ---------------------------------------------------------------------
  // process_hyphenated, process_possessive, process_contraction
  // (mapper.c:90-127).

  /**
    `process_hyphenated(word, result)`: every byte but `-`, lowercased.
  */
  method ProcessHyphenated(word: seq<Byte>) returns (result: seq<Byte>)
    ensures result == Lower(RemoveAll(word, {HYPHEN}))
  {
    var i := 0;
    result := [];
    while i < |word|
      invariant 0 <= i <= |word| && result == Lower(RemoveAll(word[..i], {HYPHEN}))
    {
      assert word[..i + 1][..i] == word[..i];
      if word[i] != HYPHEN {
        LowerAppend(RemoveAll(word[..i], {HYPHEN}), [word[i]]);
        result := result + [ToLower(word[i])];
      }
      i := i + 1;
    }
    assert word[..i] == word;
  }

  /** The hyphen-free rewrite has no hyphen, no uppercase letter and is no longer. */
  lemma HyphenatedForm(word: seq<Byte>)
    ensures var r := Lower(RemoveAll(word, {HYPHEN}));
      |r| <= |word| && forall i :: 0 <= i < |r| ==> r[i] != HYPHEN && !IsUpper(r[i])
  {
  }

  /** What `process_possessive` writes: the lowercased bytes before the first apostrophe, then `s`. */
  function PossessiveForm(word: seq<Byte>): seq<Byte>
  {
    Lower(word[..FirstIndex(word, APOSTROPHE)]) + [LOWER_S]
  }

  /** `process_possessive(word, result)`. */
  method ProcessPossessive(word: seq<Byte>) returns (result: seq<Byte>)
    ensures result == PossessiveForm(word)
  {
    var i := 0;
    result := [];
    while i < |word| && word[i] != APOSTROPHE
      invariant 0 <= i <= |word| && result == Lower(word[0..i])
      invariant forall k :: 0 <= k < i ==> word[k] != APOSTROPHE
    {
      LowerSnoc(word, 0, i);
      result := result + [ToLower(word[i])];
      i := i + 1;
    }
    assert i == FirstIndex(word, APOSTROPHE);
    result := result + [LOWER_S];
  }

  /** On a possessive whose only apostrophe is the final `'s`, it drops the apostrophe. */
  lemma PossessiveDropsApostrophe(stem: seq<Byte>)
    requires |stem| > 0 && forall i :: 0 <= i < |stem| ==> stem[i] != APOSTROPHE
    ensures IsPossessive(stem + [APOSTROPHE, LOWER_S])
    ensures PossessiveForm(stem + [APOSTROPHE, LOWER_S]) == Lower(stem + [LOWER_S])
  {
    var w := stem + [APOSTROPHE, LOWER_S];
    assert w[|stem|] == APOSTROPHE;
    assert forall i :: 0 <= i < |stem| ==> w[i] == stem[i];
    assert FirstIndex(w, APOSTROPHE) == |stem|;
    assert w[..|stem|] == stem;
    LowerAppend(stem, [LOWER_S]);
  }

  /** What `process_contraction` writes: the word without its first apostrophe, lowercased. */
  function ContractionForm(word: seq<Byte>): seq<Byte>
    requires FirstIndex(word, APOSTROPHE) < |word|
  {
    var a := FirstIndex(word, APOSTROPHE);
    Lower(word[..a] + word[a + 1..])
  }

  /**
    `process_contraction(word, result)`.  Without an apostrophe the C code
    steps past the terminator and goes on reading, so one is required.
  */
  method ProcessContraction(word: seq<Byte>) returns (result: seq<Byte>)
    requires FirstIndex(word, APOSTROPHE) < |word|
    ensures result == ContractionForm(word)
  {
    var i := 0;
    result := [];
    while i < |word| && word[i] != APOSTROPHE
      invariant 0 <= i <= |word| && result == Lower(word[0..i])
      invariant forall k :: 0 <= k < i ==> word[k] != APOSTROPHE
    {
      LowerSnoc(word, 0, i);
      result := result + [ToLower(word[i])];
      i := i + 1;
    }
    ghost var a := i;
    assert a == FirstIndex(word, APOSTROPHE);
    i := i + 1;
    while i < |word|
      invariant a + 1 <= i <= |word| && result == Lower(word[..a]) + Lower(word[a + 1..i])
    {
      LowerSnoc(word, a + 1, i);
      result := result + [ToLower(word[i])];
      i := i + 1;
    }
    LowerAppend(word[..a], word[a + 1..]);
  }

  /** The first apostrophe, and only it, is removed. */
  lemma ContractionDropsApostrophe(stem: seq<Byte>, rest: seq<Byte>)
    requires forall i :: 0 <= i < |stem| ==> stem[i] != APOSTROPHE
    ensures FirstIndex(stem + [APOSTROPHE] + rest, APOSTROPHE) == |stem|
    ensures ContractionForm(stem + [APOSTROPHE] + rest) == Lower(stem + rest)
  {
    var w := stem + [APOSTROPHE] + rest;
    assert w[|stem|] == APOSTROPHE;
    assert forall i :: 0 <= i < |stem| ==> w[i] == stem[i];
    assert FirstIndex(w, APOSTROPHE) == |stem|;
    PartsAround(stem, APOSTROPHE, rest);
  }
}
