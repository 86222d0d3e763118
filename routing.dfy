/**
  The coordinator's shuffle step: the word hash that picks a reducer and
  the parsing of one chunk read from a mapper into forwarded records.
*/
module Routing {
  import opened Bytes
  import opened Records

  const NumReducers := 2
  /** `unsigned int` arithmetic wraps modulo 2^32. */
  const WordSize := 0x1_0000_0000
  /** The coordinator reads at most `BUFFER_SIZE - 1` bytes per call. */
  const ChunkLimit := 4095

  /** A byte read through a (signed) `char`: 128..255 become negative. */
  function SignedChar(b: Byte): (c: int)
    ensures -128 <= c < 128
    ensures c % 256 == b
  {
    if b < 128 then b else b - 256
  }

  /** The 32-bit hash after absorbing every byte of `w`. */
  function PolyHash(w: seq<Byte>): (h: nat)
    ensures h < WordSize
  {
    if w == [] then 0
    else (PolyHash(w[..|w| - 1]) * 31 + SignedChar(w[|w| - 1])) % WordSize
  }

  function Pow31(n: nat): (p: nat)
    ensures p >= 1
  {
    if n == 0 then 1 else 31 * Pow31(n - 1)
  }

  /** The polynomial sum of the signed bytes times powers of 31, unreduced. */
  function Poly(w: seq<Byte>): int
  {
    if w == [] then 0 else SignedChar(w[0]) * Pow31(|w| - 1) + Poly(w[1..])
  }

  lemma {:induction false} PolySnoc(w: seq<Byte>, b: Byte)
    ensures Poly(w + [b]) == Poly(w) * 31 + SignedChar(b)
    decreases |w|
  {
    if w == [] {
      assert Poly([b]) == SignedChar(b) + Poly([]);
    } else {
      var s := w + [b];
      assert s[0] == w[0] && s[1..] == w[1..] + [b];
      PolySnoc(w[1..], b);
      calc {
        Poly(s);
        SignedChar(w[0]) * Pow31(|w|) + Poly(w[1..] + [b]);
        SignedChar(w[0]) * (31 * Pow31(|w| - 1)) + Poly(w[1..]) * 31 + SignedChar(b);
        { assert SignedChar(w[0]) * (31 * Pow31(|w| - 1)) == (SignedChar(w[0]) * Pow31(|w| - 1)) * 31; }
        (SignedChar(w[0]) * Pow31(|w| - 1) + Poly(w[1..])) * 31 + SignedChar(b);
      }
    }
  }

  lemma ModStep(a: int, c: int)
    ensures ((a % WordSize) * 31 + c) % WordSize == (a * 31 + c) % WordSize
  {
    var q := a / WordSize;
    assert a == q * WordSize + a % WordSize;
    assert a * 31 + c == ((a % WordSize) * 31 + c) + (q * 31) * WordSize;
    ModShift((a % WordSize) * 31 + c, q * 31);
  }

  lemma ModShift(x: int, k: int)
    ensures (x + k * WordSize) % WordSize == x % WordSize
  {
  }

  /**
    The hash is the wrap-around of the textbook polynomial hash
    sum of c_i * 31^(n-1-i), each c_i the byte read as a signed char.
  */
  lemma {:induction false} PolyHashIsPolynomial(w: seq<Byte>)
    ensures PolyHash(w) == Poly(w) % WordSize
    decreases |w|
  {
    if w != [] {
      var p := w[..|w| - 1];
      var b := w[|w| - 1];
      assert w == p + [b];
      PolyHashIsPolynomial(p);
      PolySnoc(p, b);
      ModStep(Poly(p), SignedChar(b));
    }
  }

  /**
    `hash_word`: the polynomial hash of the C string held by `word`, reduced
    to a reducer index. The loop stops at the first NUL.
  */
  method HashWord(word: seq<Byte>, numReducers: int) returns (r: int)
    requires numReducers >= 1
    ensures r == PolyHash(CStr(word)) % numReducers
    ensures 0 <= r < numReducers
  {
    var hash := 0;
    var i := 0;
    while i < |word| && word[i] != NUL
      invariant 0 <= i <= |word|
      invariant forall j :: 0 <= j < i ==> word[j] != NUL
      invariant hash == PolyHash(word[..i])
    {
      assert word[..i + 1][..i] == word[..i];
      hash := (hash * 31 + SignedChar(word[i])) % WordSize;
      i := i + 1;
    }
    assert FirstIndex(word, NUL) == i;
    r := hash % numReducers;
  }

  /** The empty word always goes to reducer 0. */
  lemma HashOfEmpty(k: int)
    requires k >= 1
    ensures PolyHash([]) % k == 0
  {
  }

  // ---------------------------------------------------------------------
  // One chunk read from a mapper.

  /** A record to write to reducer `reducer`'s input. */
  datatype Forward = Forward(reducer: nat, word: seq<Byte>, count: int)

  /** The bytes `snprintf("%s %d\n")` produces for a forwarded record. */
  function Payload(f: Forward): seq<Byte>
  {
    EncodeRecord(f.word, f.count)
  }

  /** What the shuffle does with one '\n'-free segment. */
  function RouteLine(line: seq<Byte>): Option<Forward>
  {
    match ScanRecord(line)
    case None => None
    case Some(wc) => Some(Forward(PolyHash(wc.0) % NumReducers, wc.0, wc.1))
  }

  /** The records forwarded for a run of segments, in segment order. */
  function RouteAll(lines: seq<seq<Byte>>): seq<Forward>
  {
    if lines == [] then []
    else
      match RouteLine(lines[0])
      case None => RouteAll(lines[1..])
      case Some(f) => [f] + RouteAll(lines[1..])
  }

  /** The forwards of one read: `strtok_r` on '\n' over the C string read. */
  function ChunkForwards(chunk: seq<Byte>): seq<Forward>
  {
    RouteAll(Tokens(CStr(chunk), {NEWLINE}))
  }

  /**
    The per-read loop: terminate the read bytes, split them on '\n' with
    empty segments skipped, keep the segments `"%255s %d"` matches, and
    route each re-encoded record by the hash of its word.
  */
  method RouteChunk(chunk: seq<Byte>) returns (sent: seq<Forward>)
    requires 0 < |chunk| <= ChunkLimit
    ensures sent == ChunkForwards(chunk)
  {
    var segments := Tokens(CStr(chunk), {NEWLINE});
    sent := [];
    var i := 0;
    while i < |segments|
      invariant 0 <= i <= |segments|
      invariant RouteAll(segments) == sent + RouteAll(segments[i..])
    {
      TokensOfCStr(CStr(chunk), i);
      var routed := RouteSegment(segments[i]);
      RouteAllStep(segments, i, sent, routed);
      sent := sent + routed;
      i := i + 1;
    }
    assert segments[i..] == [];
  }

  /** One segment of the loop: scan it and, when it matches, hash its word. */
  method RouteSegment(line: seq<Byte>) returns (routed: seq<Forward>)
    requires NoNul(line)
    ensures routed == match RouteLine(line) case None => [] case Some(f) => [f]
  {
    routed := [];
    var scanned := ScanRecord(line);
    ScanRecordProperties(line);
    if scanned.Some? {
      var (word, count) := scanned.value;
      var rid := HashWord(word, NumReducers);
      CStrOfNulFree(word);
      routed := [Forward(rid, word, count)];
    }
  }

  /** One segment's step of `RouteAll`, stated at position `i`. */
  lemma RouteAllUnfold(segments: seq<seq<Byte>>, i: nat)
    requires i < |segments|
    ensures RouteAll(segments[i..]) ==
      (match RouteLine(segments[i])
       case None => []
       case Some(f) => [f]) + RouteAll(segments[i + 1..])
  {
    assert segments[i..][1..] == segments[i + 1..];
  }

  /** The loop invariant of `RouteChunk` carried over one segment. */
  lemma RouteAllStep(segments: seq<seq<Byte>>, i: nat, sent: seq<Forward>, routed: seq<Forward>)
    requires i < |segments|
    requires routed == match RouteLine(segments[i]) case None => [] case Some(f) => [f]
    requires RouteAll(segments) == sent + RouteAll(segments[i..])
    ensures RouteAll(segments) == (sent + routed) + RouteAll(segments[i + 1..])
  {
    RouteAllUnfold(segments, i);
  }

  lemma RouteAllAppend(ls: seq<seq<Byte>>, ms: seq<seq<Byte>>)
    ensures RouteAll(ls + ms) == RouteAll(ls) + RouteAll(ms)
  {
    if ls == [] {
      assert ls + ms == ms;
    } else {
      assert (ls + ms)[0] == ls[0];
      assert (ls + ms)[1..] == ls[1..] + ms;
      RouteAllAppend(ls[1..], ms);
    }
  }

  /**
    Every forwarded record carries a word `%255s` can hold (1..255 bytes,
    no white space, no NUL) and goes to reducer `hash_word(word, 2)`.
  */
  lemma {:induction false} RouteAllWellFormed(lines: seq<seq<Byte>>)
    requires forall j :: 0 <= j < |lines| ==> NoNul(lines[j])
    ensures forall f :: f in RouteAll(lines) ==>
      ValidWord(f.word) && f.reducer == PolyHash(f.word) % NumReducers && f.reducer < NumReducers
  {
    if lines != [] {
      ScanRecordProperties(lines[0]);
      RouteAllWellFormed(lines[1..]);
    }
  }

  lemma ChunkForwardsWellFormed(chunk: seq<Byte>)
    ensures forall f :: f in ChunkForwards(chunk) ==>
      ValidWord(f.word) && f.reducer == PolyHash(f.word) % NumReducers && f.reducer < NumReducers
  {
    var segments := Tokens(CStr(chunk), {NEWLINE});
    forall j | 0 <= j < |segments| ensures NoNul(segments[j]) {
      TokensOfCStr(CStr(chunk), j);
    }
    RouteAllWellFormed(segments);
  }

  /** A strtok segment of a C string holds no NUL. */
  lemma {:induction false} TokensOfCStr(s: seq<Byte>, j: int)
    requires NoNul(s) && 0 <= j < |Tokens(s, {NEWLINE})|
    ensures NoNul(Tokens(s, {NEWLINE})[j])
    decreases |s|
  {
    if s[0] == NEWLINE {
      TokensOfCStr(s[1..], j);
    } else {
      var e := RunEnd(s, {NEWLINE});
      if j > 0 {
        TokensOfCStr(s[e..], j - 1);
      }
    }
  }

  /** A record written whole by a mapper is forwarded unchanged. */
  lemma RouteEncodedRecord(w: seq<Byte>, c: int)
    requires ValidWord(w)
    ensures RouteLine(w + [SPACE] + Decimal(c)) == Some(Forward(PolyHash(w) % NumReducers, w, c))
  {
    ScanEncodedRecord(w, c);
  }

  /**
    Splitting a chunk at a '\n' changes nothing: the forwards of the two
    parts, in order, are those of the whole.
  */
  lemma ChunkSplitAtNewline(x: seq<Byte>, y: seq<Byte>)
    requires NoNul(x) && NoNul(y)
    ensures ChunkForwards(x + [NEWLINE] + y) == ChunkForwards(x) + ChunkForwards(y)
  {
    CStrOfNulFree(x);
    CStrOfNulFree(y);
    CStrOfNulFree(x + [NEWLINE] + y);
    TokensSplit(x, NEWLINE, y, {NEWLINE});
    RouteAllAppend(Tokens(x, {NEWLINE}), Tokens(y, {NEWLINE}));
  }

  /**
    No carry-over between reads: when a record arrives split inside its
    word, as `head` and then `tail count\n`, the first fragment is dropped
    and the second is forwarded under the word `tail`, although the stream
    as a whole holds the word `head tail` (for instance "ca" and "t 1\n"
    forward "t 1", where the unsplit "cat 1\n" forwards "cat 1").
  */
  lemma SplitRecordIsMisrouted(head: seq<Byte>, tail: seq<Byte>, c: int, second: seq<Byte>, whole: seq<Byte>)
    requires ValidWord(head + tail) && head != [] && tail != []
    requires second == EncodeRecord(tail, c)
    requires whole == EncodeRecord(head + tail, c)
    ensures ChunkForwards(head) == []
    ensures ChunkForwards(second) == [RouteLineOf(tail, c)]
    ensures ChunkForwards(whole) == [RouteLineOf(head + tail, c)]
    ensures ChunkForwards(head) + ChunkForwards(second) != ChunkForwards(whole)
  {
    ValidWordParts(head, tail);
    FragmentDropped(head);
    RecordChunk(tail, c, second);
    RecordChunk(head + tail, c, whole);
    assert RouteLineOf(tail, c) != RouteLineOf(head + tail, c) by {
      assert |tail| != |head + tail|;
    }
    SingletonsDiffer(ChunkForwards(head), ChunkForwards(second), ChunkForwards(whole),
      RouteLineOf(tail, c), RouteLineOf(head + tail, c));
  }

  lemma ValidWordParts(head: seq<Byte>, tail: seq<Byte>)
    requires ValidWord(head + tail) && head != [] && tail != []
    ensures ValidWord(head) && ValidWord(tail)
  {
    var w := head + tail;
    assert forall i :: 0 <= i < |head| ==> head[i] == w[i];
    assert forall i :: 0 <= i < |tail| ==> tail[i] == w[|head| + i];
  }

  lemma SingletonsDiffer<T>(none: seq<T>, one: seq<T>, other: seq<T>, x: T, y: T)
    requires none == [] && one == [x] && other == [y] && x != y
    ensures none + one != other
  {
    assert (none + one)[0] == x;
  }

  /** A word fragment without its count is not a record. */
  lemma FragmentDropped(fragment: seq<Byte>)
    requires ValidWord(fragment)
    ensures ChunkForwards(fragment) == []
  {
    assert ChunkForwards(fragment) == RouteAll([fragment]) by {
      CStrOfNulFree(fragment);
      assert IsToken(fragment, {NEWLINE}) by {
        assert IsSpace(NEWLINE);
      }
      TokensOfToken(fragment, {NEWLINE});
    }
    assert ScanRecord(fragment) == None by {
      assert SpaceRun(fragment) == 0;
      assert fragment[0..] == fragment;
      assert WordRun(fragment) == |fragment|;
      assert fragment[|fragment|..] == [];
      assert ScanInt([]) == None;
    }
    assert RouteAll([fragment]) == [] by {
      var single: seq<seq<Byte>> := [fragment];
      assert single[1..] == [];
    }
  }

  function RouteLineOf(w: seq<Byte>, c: int): Forward
  {
    Forward(PolyHash(w) % NumReducers, w, c)
  }

  /** A chunk holding exactly one whole record forwards exactly that record. */
  lemma RecordChunk(w: seq<Byte>, c: int, chunk: seq<Byte>)
    requires ValidWord(w)
    requires chunk == EncodeRecord(w, c)
    ensures ChunkForwards(chunk) == [RouteLineOf(w, c)]
  {
    var line := w + [SPACE] + Decimal(c);
    assert NoNul(line) && NoNewline(line) by {
      DecimalBytes(c);
    }
    assert chunk == line + [NEWLINE];
    TerminatedLineChunk(line);
    assert RouteAll([line]) == [RouteLineOf(w, c)] by {
      RouteEncodedRecord(w, c);
      var single: seq<seq<Byte>> := [line];
      assert single[1..] == [];
    }
  }

  /** A read holding one newline-terminated line forwards what that line gives. */
  lemma TerminatedLineChunk(line: seq<Byte>)
    requires line != [] && NoNul(line) && NoNewline(line)
    ensures ChunkForwards(line + [NEWLINE]) == RouteAll([line])
  {
    assert ChunkForwards(line + [NEWLINE]) == ChunkForwards(line) + ChunkForwards([]) by {
      assert line + [NEWLINE] == line + [NEWLINE] + [];
      ChunkSplitAtNewline(line, []);
    }
    assert ChunkForwards([]) == [] by {
      assert CStr([]) == [];
    }
    CStrOfNulFree(line);
    TokensOfToken(line, {NEWLINE});
  }


  /** `%d` writes only '-' and digits. */
  lemma DecimalBytes(c: int)
    ensures forall i :: 0 <= i < |Decimal(c)| ==> Decimal(c)[i] == MINUS || IsDigit(Decimal(c)[i])
  {
  }
}
