/**
  The wire record `"<word> <count>\n"` exchanged between mappers, the
  coordinator and reducers: newline framing of a byte stream, the `%d`
  encoding of a count, and the two decoders the C code uses on it
  (`sscanf("%255s %d")` in the coordinator, `atoi` in the reducer).
*/
module Records {
  import opened Bytes

  /** Longest word `%255s` stores (MAX_WORD_LEN - 1 in both C files). */
  const MaxWord := 255

  const ZERO: Byte := '0' as int
  const MINUS: Byte := '-' as int
  const PLUS: Byte := '+' as int

  // ---------------------------------------------------------------------
  // Newline framing.

  /** The complete (newline-terminated) lines of `s`, without their '\n'. */
  function Lines(s: seq<Byte>): seq<seq<Byte>>
    decreases |s|
  {
    var k := FirstIndex(s, NEWLINE);
    if k == |s| then [] else [s[..k]] + Lines(s[k + 1..])
  }

  /** What follows the last '\n' of `s`: a record still being received. */
  function Rest(s: seq<Byte>): seq<Byte>
    decreases |s|
  {
    var k := FirstIndex(s, NEWLINE);
    if k == |s| then s else Rest(s[k + 1..])
  }

  /** Each line followed by '\n'. */
  function Unlines(ls: seq<seq<Byte>>): seq<Byte>
  {
    if ls == [] then [] else ls[0] + [NEWLINE] + Unlines(ls[1..])
  }

  lemma UnlinesAppend(ls: seq<seq<Byte>>, ms: seq<seq<Byte>>)
    ensures Unlines(ls + ms) == Unlines(ls) + Unlines(ms)
  {
    if ls != [] {
      assert (ls + ms)[1..] == ls[1..] + ms;
    } else {
      assert ls + ms == ms;
    }
  }

  /** Splitting loses nothing: the lines and the retained tail give back `s`. */
  lemma {:induction false} FramingRoundTrip(s: seq<Byte>)
    ensures Unlines(Lines(s)) + Rest(s) == s
    decreases |s|
  {
    var k := FirstIndex(s, NEWLINE);
    if k < |s| {
      var s' := s[k + 1..];
      FramingRoundTrip(s');
      LinesUnfold(s, k);
      RestUnfold(s, k);
      UnlinesCons(s[..k], Lines(s'));
      SplitAround(s, k);
      JoinAround(s[..k], NEWLINE, Unlines(Lines(s')), Rest(s'), s', s);
    } else {
      LinesOfLineFree(s);
    }
  }

  lemma JoinAround<T>(p: seq<T>, x: T, u: seq<T>, r: seq<T>, tail: seq<T>, whole: seq<T>)
    requires u + r == tail && whole == p + [x] + tail
    ensures p + [x] + u + r == whole
  {
  }

  /** Neither a line nor the retained tail contains '\n'. */
  lemma {:induction false} FramingParts(s: seq<Byte>)
    ensures NoNewline(Rest(s))
    ensures forall j :: 0 <= j < |Lines(s)| ==> NoNewline(Lines(s)[j])
    decreases |s|
  {
    var k := FirstIndex(s, NEWLINE);
    if k < |s| {
      var s' := s[k + 1..];
      FramingParts(s');
      LinesUnfold(s, k);
      RestUnfold(s, k);
      var ls := Lines(s);
      assert forall j :: 1 <= j < |ls| ==> ls[j] == Lines(s')[j - 1];
    } else {
      LinesOfLineFree(s);
    }
  }

  lemma UnlinesCons(l: seq<Byte>, ls: seq<seq<Byte>>)
    ensures Unlines([l] + ls) == l + [NEWLINE] + Unlines(ls)
  {
    assert ([l] + ls)[1..] == ls;
  }

  lemma LinesOfLineFree(s: seq<Byte>)
    requires NoNewline(s)
    ensures Lines(s) == [] && Rest(s) == s
  {
    assert FirstIndex(s, NEWLINE) == |s|;
  }

  lemma FirstIndexAppend(a: seq<Byte>, b: seq<Byte>, x: Byte)
    requires FirstIndex(a, x) < |a|
    ensures FirstIndex(a + b, x) == FirstIndex(a, x)
  {
    var k := FirstIndex(a, x);
    assert (a + b)[k] == x;
    var k' := FirstIndex(a + b, x);
    assert forall i :: 0 <= i < k ==> (a + b)[i] == a[i];
  }

  /**
    Reassembly: the lines of `a + b` are the lines of `a` followed by the
    lines of what `a` left pending plus `b`, and the pending tail agrees.
    This is why a reader may split a stream anywhere as long as it keeps
    the unterminated tail between reads.
  */
  lemma {:induction false} LinesAppend(a: seq<Byte>, b: seq<Byte>)
    ensures Lines(a + b) == Lines(a) + Lines(Rest(a) + b)
    ensures Rest(a + b) == Rest(Rest(a) + b)
    decreases |a|
  {
    var k := FirstIndex(a, NEWLINE);
    if k < |a| {
      var a' := a[k + 1..];
      FirstIndexAppend(a, b, NEWLINE);
      assert (a + b)[k + 1..] == a' + b;
      LinesAppend(a', b);
      RestUnfold(a, k);
      RestUnfold(a + b, k);
      LinesAppendStep(a, b, k);
    } else {
      assert Rest(a) == a && Lines(a) == [];
    }
  }

  lemma {:induction false} LinesAppendStep(a: seq<Byte>, b: seq<Byte>, k: nat)
    requires k == FirstIndex(a, NEWLINE) < |a|
    requires Lines(a[k + 1..] + b) == Lines(a[k + 1..]) + Lines(Rest(a[k + 1..]) + b)
    ensures Lines(a + b) == Lines(a) + Lines(Rest(a) + b)
  {
    var a' := a[k + 1..];
    assert Lines(a + b) == [a[..k]] + Lines(a' + b) by {
      FirstIndexAppend(a, b, NEWLINE);
      assert (a + b)[..k] == a[..k];
      assert (a + b)[k + 1..] == a' + b;
      LinesUnfold(a + b, k);
    }
    assert Lines(a) == [a[..k]] + Lines(a') by {
      LinesUnfold(a, k);
    }
    assert Rest(a) == Rest(a') by {
      RestUnfold(a, k);
    }
    ConsAssoc(a[..k], Lines(a + b), Lines(a' + b), Lines(a), Lines(a'), Lines(Rest(a) + b));
  }

  lemma ConsAssoc<T>(x: T, whole: seq<T>, tailWhole: seq<T>, left: seq<T>, tailLeft: seq<T>, right: seq<T>)
    requires whole == [x] + tailWhole && left == [x] + tailLeft
    requires tailWhole == tailLeft + right
    ensures whole == left + right
  {
  }

  lemma {:induction false} LinesUnfold(s: seq<Byte>, k: nat)
    requires k == FirstIndex(s, NEWLINE) < |s|
    ensures Lines(s) == [s[..k]] + Lines(s[k + 1..])
  {
  }

  lemma {:induction false} RestUnfold(s: seq<Byte>, k: nat)
    requires k == FirstIndex(s, NEWLINE) < |s|
    ensures Rest(s) == Rest(s[k + 1..])
  {
  }

  /** Framing inverts Unlines. */
  lemma {:induction false} LinesOfUnlines(ls: seq<seq<Byte>>, tail: seq<Byte>)
    requires forall j :: 0 <= j < |ls| ==> NoNewline(ls[j])
    requires NoNewline(tail)
    ensures Lines(Unlines(ls) + tail) == ls
    ensures Rest(Unlines(ls) + tail) == tail
    decreases |ls|
  {
    if ls == [] {
      assert Unlines(ls) + tail == tail;
      LinesOfLineFree(tail);
    } else {
      var l, rest := ls[0], Unlines(ls[1..]) + tail;
      var s := l + [NEWLINE] + rest;
      assert Unlines(ls) + tail == s by {
        UnlinesCons(l, ls[1..]);
        HeadTail(ls);
      }
      PartsAround(l, NEWLINE, rest);
      FirstIndexAfter(l, rest);
      LinesUnfold(s, |l|);
      RestUnfold(s, |l|);
      LinesOfUnlines(ls[1..], tail);
      HeadTail(ls);
    }
  }

  /** The first '\n' of `l + "\n" + rest` is the one after a line `l`. */
  lemma FirstIndexAfter(l: seq<Byte>, rest: seq<Byte>)
    requires NoNewline(l)
    ensures FirstIndex(l + [NEWLINE] + rest, NEWLINE) == |l|
  {
    var s := l + [NEWLINE] + rest;
    assert s[|l|] == NEWLINE;
    assert forall i :: 0 <= i < |l| ==> s[i] == l[i];
  }

  // ---------------------------------------------------------------------
  // Decimal integers.

  /** The digits `printf("%d")` writes for a non-negative value. */
  function Digits(n: nat): (r: seq<Byte>)
    ensures 1 <= |r|
    ensures forall i :: 0 <= i < |r| ==> IsDigit(r[i])
    decreases n
  {
    if n < 10 then [ZERO + n] else Digits(n / 10) + [ZERO + n % 10]
  }

  /** `printf("%d")`. */
  function Decimal(n: int): seq<Byte>
  {
    if n < 0 then [MINUS] + Digits(-n) else Digits(n)
  }

  function DigitValue(ds: seq<Byte>): nat
    requires forall i :: 0 <= i < |ds| ==> IsDigit(ds[i])
  {
    if ds == [] then 0
    else
      assert IsDigit(ds[|ds| - 1]);
      DigitValue(ds[..|ds| - 1]) * 10 + (ds[|ds| - 1] - ZERO)
  }

  lemma {:induction false} DigitValueOfDigits(n: nat)
    ensures DigitValue(Digits(n)) == n
    decreases n
  {
    if n >= 10 {
      var d := Digits(n);
      assert d[..|d| - 1] == Digits(n / 10);
      DigitValueOfDigits(n / 10);
    }
  }

  /** Number of leading white-space bytes. */
  function SpaceRun(s: seq<Byte>): (k: nat)
    ensures k <= |s|
    ensures forall i :: 0 <= i < k ==> IsSpace(s[i])
    ensures k < |s| ==> !IsSpace(s[k])
  {
    if s == [] || !IsSpace(s[0]) then 0 else 1 + SpaceRun(s[1..])
  }

  /** Number of leading decimal digits. */
  function DigitRun(s: seq<Byte>): (k: nat)
    ensures k <= |s|
    ensures forall i :: 0 <= i < k ==> IsDigit(s[i])
    ensures k < |s| ==> !IsDigit(s[k])
  {
    if s == [] || !IsDigit(s[0]) then 0 else 1 + DigitRun(s[1..])
  }

  /** Number of leading non-white-space bytes. */
  function WordRun(s: seq<Byte>): (k: nat)
    ensures k <= |s|
    ensures forall i :: 0 <= i < k ==> !IsSpace(s[i])
    ensures k < |s| ==> IsSpace(s[k])
  {
    if s == [] || IsSpace(s[0]) then 0 else 1 + WordRun(s[1..])
  }

  /** An optional sign followed by digits, after leading white space. */
  datatype Numeral = Numeral(negative: bool, digits: seq<Byte>)

  function SplitNumeral(s: seq<Byte>): Numeral
  {
    var t := s[SpaceRun(s)..];
    if t != [] && (t[0] == MINUS || t[0] == PLUS) then
      Numeral(t[0] == MINUS, t[1..][..DigitRun(t[1..])])
    else
      Numeral(false, t[..DigitRun(t)])
  }

  function NumeralValue(m: Numeral): int
    requires forall i :: 0 <= i < |m.digits| ==> IsDigit(m.digits[i])
  {
    if m.negative then 0 - DigitValue(m.digits) as int else DigitValue(m.digits)
  }

  /** C `atoi`: 0 when no digits follow the optional sign. */
  function Atoi(s: seq<Byte>): int
  {
    NumeralValue(SplitNumeral(s))
  }

  /** The `%d` conversion of `sscanf`: fails unless at least one digit follows. */
  function ScanInt(s: seq<Byte>): Option<int>
  {
    var m := SplitNumeral(s);
    if m.digits == [] then None else Some(NumeralValue(m))
  }

  lemma NumeralOfDecimal(n: int)
    ensures SplitNumeral(Decimal(n)).digits == Digits(if n < 0 then -n else n)
    ensures SplitNumeral(Decimal(n)).negative == (n < 0)
  {
    var s := Decimal(n);
    var d := Digits(if n < 0 then -n else n);
    assert SpaceRun(s) == 0;
    assert s[0..] == s;
    if n < 0 {
      assert s[1..] == d;
    }
    assert DigitRun(d) == |d|;
    assert d[..|d|] == d;
  }

  /** `atoi` reads back what `%d` wrote. */
  lemma AtoiDecimal(n: int)
    ensures Atoi(Decimal(n)) == n
  {
    NumeralOfDecimal(n);
    DigitValueOfDigits(if n < 0 then -n else n);
  }

  /** So does the `%d` conversion of `sscanf`. */
  lemma ScanIntDecimal(n: int)
    ensures ScanInt(Decimal(n)) == Some(n)
  {
    AtoiDecimal(n);
    NumeralOfDecimal(n);
  }

  // ---------------------------------------------------------------------
  // Records.

  /** A word `%255s` can carry unchanged. */
  predicate ValidWord(w: seq<Byte>)
  {
    0 < |w| <= MaxWord && NoNul(w) && forall i :: 0 <= i < |w| ==> !IsSpace(w[i])
  }

  /** `"%s %d\n"`. */
  function EncodeRecord(word: seq<Byte>, count: int): seq<Byte>
  {
    word + [SPACE] + Decimal(count) + [NEWLINE]
  }

  /**
    `sscanf(line, "%255s %d", word, &count) == 2`: skip white space, take
    at most 255 non-white-space bytes, skip white space, read a number.
  */
  function ScanRecord(line: seq<Byte>): Option<(seq<Byte>, int)>
  {
    var t := line[SpaceRun(line)..];
    if t == [] then None
    else
      var n := if WordRun(t) <= MaxWord then WordRun(t) else MaxWord;
      match ScanInt(t[n..])
      case None => None
      case Some(c) => Some((t[..n], c))
  }

  /** A word `sscanf` stores from a C string always fits the record format. */
  lemma ScanRecordProperties(line: seq<Byte>)
    requires NoNul(line)
    ensures ScanRecord(line).Some? ==> ValidWord(ScanRecord(line).value.0)
  {
    var sr := SpaceRun(line);
    var t := line[sr..];
    if t != [] {
      assert t[0] == line[sr];
      assert NoNul(t) by {
        assert forall i :: 0 <= i < |t| ==> t[i] == line[sr + i];
      }
      var n := if WordRun(t) <= MaxWord then WordRun(t) else MaxWord;
      WordPrefixValid(t, n);
    }
  }

  /** A non-empty prefix of a NUL-free word run, at most 255 bytes, is a valid word. */
  lemma WordPrefixValid(t: seq<Byte>, n: int)
    requires NoNul(t) && 0 < n <= WordRun(t) && n <= MaxWord
    ensures ValidWord(t[..n])
  {
    assert forall i :: 0 <= i < n ==> t[..n][i] == t[i];
  }

  /** The coordinator's decoder recovers every record it can be given. */
  lemma ScanEncodedRecord(w: seq<Byte>, c: int)
    requires ValidWord(w)
    ensures ScanRecord(w + [SPACE] + Decimal(c)) == Some((w, c))
  {
    var rest := [SPACE] + Decimal(c);
    var line := w + rest;
    assert w + [SPACE] + Decimal(c) == line;
    RunsOfRecord(w, rest);
    assert line[0..] == line;
    assert line[..|w|] == w && line[|w|..] == rest;
    DecimalStart(c);
    NumeralAfterSpace(Decimal(c));
    ScanIntDecimal(c);
  }

  /** A valid word followed by a space is one run of non-space bytes. */
  lemma RunsOfRecord(w: seq<Byte>, rest: seq<Byte>)
    requires ValidWord(w) && rest != [] && rest[0] == SPACE
    ensures SpaceRun(w + rest) == 0 && WordRun(w + rest) == |w|
  {
    var line := w + rest;
    assert line[0] == w[0];
    assert line[|w|] == SPACE;
    assert forall i :: 0 <= i < |w| ==> line[i] == w[i];
  }

  /** `printf("%d")` starts with a sign or a digit, never white space. */
  lemma DecimalStart(n: int)
    ensures Decimal(n) != [] && !IsSpace(Decimal(n)[0])
  {
    if n >= 0 {
      assert IsDigit(Digits(n)[0]);
    }
  }

  /** One space before a numeral does not change what `%d` reads. */
  lemma NumeralAfterSpace(d: seq<Byte>)
    requires d != [] && !IsSpace(d[0])
    ensures SplitNumeral([SPACE] + d) == SplitNumeral(d)
  {
    var after := [SPACE] + d;
    assert after[1..] == d;
    assert SpaceRun(after) == 1 + SpaceRun(d);
    assert SpaceRun(d) == 0;
    assert d[0..] == d;
  }
}
