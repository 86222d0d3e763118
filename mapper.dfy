/**
  The mapper's `extract_words` and the line accumulator of its `main`.
  `extract_words` copies a line into a 4096-byte buffer, normalizes it in
  place and prints `"<token> 1\n"` for every `strtok` token holding a
  letter.  `main` reads standard input in pieces of up to 4095 bytes,
  glues the pieces of a line together in an 8192-byte `line` buffer and
  hands each completed line to `extract_words`.
*/
module Mapper {
  import opened Bytes
  import opened Records
  import opened TextNormalize
  import Reassembly

  /** BUFFER_SIZE: the size of the read buffer and of `extract_words`' copy. */
  const BufferSize := 4096
  /** `sizeof(line)`: the accumulated-line buffer is twice BUFFER_SIZE. */
  const LineSize := 2 * BufferSize

  /** The text `printf("%s 1\n", word)` adds after the word. */
  function CountOne(): seq<Byte>
  {
    Ascii(" 1\n")
  }

  /** The `strtok` delimiters: ` \t\n\r\f\v.,;:!?"()[]{}`. */
  function DelimBytes(): seq<Byte>
  {
    Ascii(" \t\n\r") + [0x0C, 0x0B] + Ascii(".,;:!?\"()[]{}")
  }

  function Delims(): set<Byte>
  {
    SetOf(DelimBytes())
  }

  lemma DelimsHoldWhitespace()
    ensures NEWLINE in Delims() && SPACE in Delims()
  {
    assert DelimBytes()[2] == NEWLINE && DelimBytes()[0] == SPACE;
  }

  predicate HasLetter(w: seq<Byte>)
  {
    exists i :: 0 <= i < |w| && IsAlpha(w[i])
  }

  // ---------------------------------------------------------------------
  // extract_words (mapper.c:424-451).

  /** What `printf` writes for the tokens, left to right: those with a letter, each with ` 1\n`. */
  function Emit(ts: seq<seq<Byte>>): seq<Byte>
    decreases |ts|
  {
    if ts == [] then []
    else (if HasLetter(ts[0]) then ts[0] + CountOne() else []) + Emit(ts[1..])
  }

  /** What `extract_words(line)` prints. */
  function WordsOut(line: seq<Byte>): seq<Byte>
  {
    Emit(Tokens(Normalized(Take(CStr(line), BufferSize - 1)), Delims()))
  }

  /**
    `strncpy(buffer, line, BUFFER_SIZE - 1)`: the string, cut to `n`
    bytes, then zeros up to `n`.
  */
  method StrNCopy(dst: array<Byte>, src: seq<Byte>, n: int) returns (ghost copied: seq<Byte>)
    requires 0 <= n <= dst.Length
    modifies dst
    ensures copied == Take(CStr(src), n)
    ensures dst[..|copied|] == copied
    ensures forall k :: |copied| <= k < n ==> dst[k] == NUL
    ensures dst[n..] == old(dst[n..])
  {
    var k := 0;
    while k < n && k < |src| && src[k] != NUL
      invariant 0 <= k <= n && k <= |src|
      invariant dst[..k] == src[..k] && NoNul(src[..k])
      invariant dst[n..] == old(dst[n..])
    {
      dst[k] := src[k];
      k := k + 1;
    }
    copied := src[..k];
    CopiedPrefix(src, k, n);
    while k < n
      invariant |copied| <= k <= n
      invariant dst[..|copied|] == copied
      invariant forall j :: |copied| <= j < k ==> dst[j] == NUL
      invariant dst[n..] == old(dst[n..])
    {
      dst[k] := NUL;
      k := k + 1;
    }
  }

  lemma CopiedPrefix(src: seq<Byte>, k: int, n: int)
    requires 0 <= k <= n && k <= |src| && NoNul(src[..k])
    requires k == n || k == |src| || src[k] == NUL
    ensures src[..k] == Take(CStr(src), n)
  {
    var z := FirstIndex(src, NUL);
    assert forall i :: 0 <= i < k ==> src[i] != NUL by {
      forall i | 0 <= i < k
        ensures src[i] != NUL
      {
        assert src[..k][i] == src[i];
      }
    }
    assert k <= z;
  }

  /**
    `extract_words(line)`: copy at most 4095 bytes, normalize the copy,
    then walk its `strtok` tokens.
  */
  method ExtractWords(line: seq<Byte>) returns (out: seq<Byte>)
    ensures out == WordsOut(line)
  {
    var buffer := new Byte[BufferSize];
    ghost var text := StrNCopy(buffer, line, BufferSize - 1);
    buffer[BufferSize - 1] := NUL;
    CopiedBuffer(buffer[..], text);
    var len := NormalizeString(buffer, |text|);
    out := PrintTokens(buffer[..len]);
  }

  lemma CopiedBuffer(buf: seq<Byte>, text: seq<Byte>)
    requires |buf| == BufferSize && |text| <= BufferSize - 1 && NoNul(text)
    requires buf[..|text|] == text && buf[BufferSize - 1] == NUL
    requires forall k :: |text| <= k < BufferSize - 1 ==> buf[k] == NUL
    ensures Str(buf, |text|) && Padded(buf, |text|) && buf[..|text|] == text
  {
  }

  /**
    The `strtok` loop: skip delimiters, take the run up to the next one,
    print it with ` 1` if it holds a letter.  `strtok` writes a NUL over
    the delimiter that ends a token; the walk here reads the string's
    value instead.
  */
  method PrintTokens(s: seq<Byte>) returns (out: seq<Byte>)
    ensures out == Emit(Tokens(s, Delims()))
  {
    var delims := Delims();
    out := [];
    var pos := 0;
    while pos < |s|
      invariant 0 <= pos <= |s|
      invariant Emit(Tokens(s, delims)) == out + Emit(Tokens(s[pos..], delims))
      decreases |s| - pos
    {
      ghost var pos0, out0 := pos, out;
      if s[pos] in delims {
        SkipDelimiter(s, pos, delims);
        pos := pos + 1;
        Stepped(Emit(Tokens(s, delims)), out0, out, Emit(Tokens(s[pos0..], delims)), [],
          Emit(Tokens(s[pos..], delims)));
      } else {
        var e := pos + RunEnd(s[pos..], delims);
        var word := s[pos..e];
        TakeToken(s, pos, e, delims);
        var hasLetter := FindLetter(word);
        if hasLetter {
          out := out + (word + CountOne());
        }
        pos := e;
        Stepped(Emit(Tokens(s, delims)), out0, out, Emit(Tokens(s[pos0..], delims)),
          if HasLetter(word) then word + CountOne() else [], Emit(Tokens(s[pos..], delims)));
      }
    }
    assert s[pos..] == [];
  }

  /** Moving printed text from what is still to come to what was printed. */
  lemma Stepped(total: seq<Byte>, out0: seq<Byte>, out: seq<Byte>, todo0: seq<Byte>, piece: seq<Byte>, todo: seq<Byte>)
    requires total == out0 + todo0 && todo0 == piece + todo && out == out0 + piece
    ensures total == out + todo
  {
  }

  lemma SkipDelimiter(s: seq<Byte>, pos: int, delims: set<Byte>)
    requires 0 <= pos < |s| && s[pos] in delims
    ensures Tokens(s[pos..], delims) == Tokens(s[pos + 1..], delims)
  {
    assert s[pos..][1..] == s[pos + 1..];
  }

  lemma TakeToken(s: seq<Byte>, pos: int, e: int, delims: set<Byte>)
    requires 0 <= pos < |s| && s[pos] !in delims && e == pos + RunEnd(s[pos..], delims)
    ensures Emit(Tokens(s[pos..], delims)) ==
      (if HasLetter(s[pos..e]) then s[pos..e] + CountOne() else []) + Emit(Tokens(s[e..], delims))
  {
    var t := s[pos..];
    TokensWord(t, delims);
    var r := RunEnd(t, delims);
    assert t[..r] == s[pos..e] && t[r..] == s[e..];
    var ts := [s[pos..e]] + Tokens(s[e..], delims);
    assert ts[0] == s[pos..e] && ts[1..] == Tokens(s[e..], delims);
  }

  /** `for (i = 0; word[i]; i++) if (isalpha(word[i])) { has_letter = true; break; }` */
  method FindLetter(word: seq<Byte>) returns (hasLetter: bool)
    ensures hasLetter == HasLetter(word)
  {
    var i := 0;
    while i < |word|
      invariant 0 <= i <= |word|
      invariant forall k :: 0 <= k < i ==> !IsAlpha(word[k])
    {
      if IsAlpha(word[i]) {
        return true;
      }
      i := i + 1;
    }
    return false;
  }

  /** The tokens that hold a letter, in order. */
  function WithLetter(ts: seq<seq<Byte>>): (r: seq<seq<Byte>>)
    ensures |r| <= |ts|
    decreases |ts|
  {
    if ts == [] then []
    else (if HasLetter(ts[0]) then [ts[0]] else []) + WithLetter(ts[1..])
  }

  /** Each printed line: a token, a space, `1`. */
  function Announced(ws: seq<seq<Byte>>): seq<seq<Byte>>
  {
    seq(|ws|, j requires 0 <= j < |ws| => ws[j] + [SPACE, '1' as int])
  }

  /**
    The printed text is one line per token that holds a letter, in
    order, each the token followed by ` 1`, with nothing after the last
    newline.
  */
  lemma {:induction false} EmitLines(ts: seq<seq<Byte>>, delims: set<Byte>)
    requires NEWLINE in delims
    requires forall j :: 0 <= j < |ts| ==> IsToken(ts[j], delims)
    ensures Emit(ts) == Unlines(Announced(WithLetter(ts)))
    decreases |ts|
  {
    if ts != [] {
      EmitLines(ts[1..], delims);
      if HasLetter(ts[0]) {
        EmitKept(ts);
      } else {
        assert WithLetter(ts) == WithLetter(ts[1..]);
      }
    }
  }

  /** One step of `EmitLines` for a first token that holds a letter. */
  lemma EmitKept(ts: seq<seq<Byte>>)
    requires ts != [] && HasLetter(ts[0])
    requires Emit(ts[1..]) == Unlines(Announced(WithLetter(ts[1..])))
    ensures Emit(ts) == Unlines(Announced(WithLetter(ts)))
  {
    var w, rest := ts[0], WithLetter(ts[1..]);
    assert WithLetter(ts) == [w] + rest;
    assert Announced([w] + rest) == [w + [SPACE, '1' as int]] + Announced(rest);
    UnlinesCons(w + [SPACE, '1' as int], Announced(rest));
    assert CountOne() == [SPACE, '1' as int, NEWLINE];
    Regroup(w, SPACE, '1' as int, NEWLINE, Emit(ts[1..]));
  }

  lemma Regroup<T>(w: seq<T>, a: T, b: T, c: T, e: seq<T>)
    ensures (w + [a, b, c]) + e == (w + [a, b]) + [c] + e
  {
    assert w + [a, b, c] == (w + [a, b]) + [c];
  }

  /** The kept tokens are non-empty, free of delimiters and hold a letter. */
  lemma {:induction false} WithLetterTokens(ts: seq<seq<Byte>>, delims: set<Byte>)
    requires forall j :: 0 <= j < |ts| ==> IsToken(ts[j], delims)
    ensures forall j :: 0 <= j < |WithLetter(ts)| ==>
      IsToken(WithLetter(ts)[j], delims) && HasLetter(WithLetter(ts)[j])
    decreases |ts|
  {
    if ts != [] {
      WithLetterTokens(ts[1..], delims);
    }
  }

  /**
    `extract_words` prints one `"<token> 1"` line per token of the
    normalized line that holds a letter, left to right; no printed token
    is empty, none holds a delimiter (so none holds white space), and
    the output ends with a newline unless it is empty.
  */
  lemma ExtractWordsLines(line: seq<Byte>)
    ensures var ws := WithLetter(Tokens(Normalized(Take(CStr(line), BufferSize - 1)), Delims()));
      Lines(WordsOut(line)) == Announced(ws) && Rest(WordsOut(line)) == [] &&
      forall j :: 0 <= j < |ws| ==> IsToken(ws[j], Delims()) && HasLetter(ws[j])
  {
    var ts := Tokens(Normalized(Take(CStr(line), BufferSize - 1)), Delims());
    var ws := WithLetter(ts);
    DelimsHoldWhitespace();
    TokensAreTokens(Normalized(Take(CStr(line), BufferSize - 1)), Delims());
    EmitLines(ts, Delims());
    WithLetterTokens(ts, Delims());
    forall j | 0 <= j < |Announced(ws)|
      ensures NoNewline(Announced(ws)[j])
    {
      var a := Announced(ws)[j];
      assert a == ws[j] + [SPACE, '1' as int];
      forall i | 0 <= i < |a|
        ensures a[i] != NEWLINE
      {
        if i < |ws[j]| {
          assert a[i] == ws[j][i] && ws[j][i] !in Delims();
        }
      }
    }
    LinesOfUnlines(Announced(ws), []);
    assert Unlines(Announced(ws)) + [] == Unlines(Announced(ws));
  }

  // ---------------------------------------------------------------------
  // main's line accumulator (mapper.c:453-505).

  /**
    `if (strlen(line) + strlen(seg) < sizeof(line) - 1) strcat(line, seg)`:
    a segment that would make the line 8191 bytes or more is dropped.
  */
  function Accumulate(line: seq<Byte>, seg: seq<Byte>): seq<Byte>
  {
    if |line| + |seg| < LineSize - 1 then line + seg else line
  }

  /** The accumulated line after some input, and the lines handed to `extract_words`. */
  datatype Handover = Handover(line: seq<Byte>, lines: seq<seq<Byte>>)

  /**
    The `strchr(start, '\n')` loop over the complete lines of one read:
    the first completes the accumulated line, and the line is reset after
    each.
  */
  function HandLines(line: seq<Byte>, ls: seq<seq<Byte>>): Handover
    decreases |ls|
  {
    if ls == [] then Handover(line, [])
    else
      var h := HandLines([], ls[1..]);
      Handover(h.line, [Accumulate(line, ls[0])] + h.lines)
  }

  /**
    One read: `buffer[n] = '\0'` makes the read a C string, so bytes after
    a NUL are ignored; its complete lines are handed over and a non-empty
    tail is added to the line.
  */
  function Step(line: seq<Byte>, chunk: seq<Byte>): Handover
  {
    var c := CStr(chunk);
    var h := HandLines(line, Lines(c));
    Handover(if Rest(c) != [] then Accumulate(h.line, Rest(c)) else h.line, h.lines)
  }

  /** How the read loop ends: the lines handed over, and whether it left the loop. */
  datatype RunResult = RunResult(handed: seq<seq<Byte>>, finished: bool)

  /**
    `while (1)`: a read of `n > 0` bytes is processed, `EINTR`/`EAGAIN`
    retries, and end of input or any other error leaves the loop, after
    which a non-empty accumulated line is handed over too.
  */
  function ReadLoop(line: seq<Byte>, results: seq<Reassembly.ReadResult>): RunResult
    decreases |results|
  {
    if results == [] then RunResult([], false)
    else
      match results[0]
      case Got(bytes) =>
        var s := Step(line, bytes);
        var r := ReadLoop(s.line, results[1..]);
        RunResult(s.lines + r.handed, r.finished)
      case Retry => ReadLoop(line, results[1..])
      case _ => RunResult(if line != [] then [line] else [], true)
  }

  /** What `extract_words` prints for each line handed to it. */
  function Extracted(ls: seq<seq<Byte>>): seq<seq<Byte>>
  {
    seq(|ls|, j requires 0 <= j < |ls| => WordsOut(ls[j]))
  }

  /** What `extract_words` prints for the lines handed to it, in order. */
  function Outputs(ls: seq<seq<Byte>>): seq<Byte>
  {
    Flatten(Extracted(ls))
  }

  lemma {:induction false} FlattenAppend(a: seq<seq<Byte>>, b: seq<seq<Byte>>)
    ensures Flatten(a + b) == Flatten(a) + Flatten(b)
    decreases |a|
  {
    if a == [] {
      assert a + b == b;
    } else {
      FlattenAppend(a[1..], b);
      assert a + b == [a[0]] + (a[1..] + b);
      FlattenCons(a[0], a[1..] + b);
    }
  }

  lemma OutputsAppend(a: seq<seq<Byte>>, b: seq<seq<Byte>>)
    ensures Outputs(a + b) == Outputs(a) + Outputs(b)
  {
    assert Extracted(a + b) == Extracted(a) + Extracted(b);
    FlattenAppend(Extracted(a), Extracted(b));
  }

  lemma OutputsSnoc(handed: seq<seq<Byte>>, line: seq<Byte>, words: seq<Byte>)
    requires words == WordsOut(line)
    ensures Outputs(handed + [line]) == Outputs(handed) + words
  {
    assert Extracted([line]) == [words] + [];
    FlattenCons(words, []);
    OutputsAppend(handed, [line]);
  }

  /**
    The mapper's `main` on a finite sequence of read results: what it
    prints and whether it left the read loop (otherwise it is still
    waiting for input).
  */
  method Run(results: seq<Reassembly.ReadResult>) returns (out: seq<Byte>, finished: bool)
    ensures out == Outputs(ReadLoop([], results).handed)
    ensures finished == ReadLoop([], results).finished
  {
    var line: seq<Byte> := [];
    out := [];
    ghost var handed: seq<seq<Byte>> := [];
    var i := 0;
    assert results[0..] == results;
    assert [] + ReadLoop([], results).handed == ReadLoop([], results).handed;
    while i < |results|
      invariant Reading(results, i, line, handed)
      invariant out == Outputs(handed)
      decreases |results| - i
    {
      match results[i] {
        case Got(bytes) =>
          ghost var s := Step(line, bytes);
          ReadGot(results, i, line, handed, bytes);
          var chunkOut;
          line, chunkOut := HandChunk(line, bytes);
          OutputsAppend(handed, s.lines);
          handed := handed + s.lines;
          out := out + chunkOut;
        case Retry =>
          ReadRetry(results, i, line, handed);
        case _ =>
          ReadStop(results, i, line, handed);
          if line != [] {
            var words := ExtractWords(line);
            OutputsSnoc(handed, line, words);
            out := out + words;
          } else {
            assert handed + [] == handed;
          }
          return out, true;
      }
      i := i + 1;
    }
    ReadExhausted(results, line, handed);
    finished := false;
  }

  /** The read loop's invariant: `handed` went to `extract_words`, the rest follows from `line` on. */
  ghost predicate Reading(results: seq<Reassembly.ReadResult>, i: int, line: seq<Byte>, handed: seq<seq<Byte>>)
  {
    0 <= i <= |results| &&
    ReadLoop([], results) ==
      RunResult(handed + ReadLoop(line, results[i..]).handed, ReadLoop(line, results[i..]).finished)
  }

  lemma ReadGot(results: seq<Reassembly.ReadResult>, i: int, line: seq<Byte>, handed: seq<seq<Byte>>, bytes: seq<Byte>)
    requires Reading(results, i, line, handed) && i < |results| && results[i] == Reassembly.Got(bytes)
    ensures Reading(results, i + 1, Step(line, bytes).line, handed + Step(line, bytes).lines)
  {
    assert results[i..][1..] == results[i + 1..];
    var s := Step(line, bytes);
    var r := ReadLoop(s.line, results[i + 1..]);
    assert ReadLoop(line, results[i..]) == RunResult(s.lines + r.handed, r.finished);
    assert handed + (s.lines + r.handed) == (handed + s.lines) + r.handed;
  }

  lemma ReadRetry(results: seq<Reassembly.ReadResult>, i: int, line: seq<Byte>, handed: seq<seq<Byte>>)
    requires Reading(results, i, line, handed) && i < |results| && results[i] == Reassembly.Retry
    ensures Reading(results, i + 1, line, handed)
  {
    assert results[i..][1..] == results[i + 1..];
  }

  lemma ReadStop(results: seq<Reassembly.ReadResult>, i: int, line: seq<Byte>, handed: seq<seq<Byte>>)
    requires Reading(results, i, line, handed) && i < |results|
    requires results[i] == Reassembly.EndOfInput || results[i] == Reassembly.Failure
    ensures ReadLoop([], results) == RunResult(handed + Final(line), true)
  {
  }

  lemma ReadExhausted(results: seq<Reassembly.ReadResult>, line: seq<Byte>, handed: seq<seq<Byte>>)
    requires Reading(results, |results|, line, handed)
    ensures ReadLoop([], results) == RunResult(handed, false)
  {
    assert results[|results|..] == [];
    assert handed + [] == handed;
  }

  /**
    The body of one read: the `strchr` loop over its complete lines, then
    the tail.
  */
  method HandChunk(line0: seq<Byte>, chunk: seq<Byte>) returns (line: seq<Byte>, out: seq<Byte>)
    ensures line == Step(line0, chunk).line
    ensures out == Outputs(Step(line0, chunk).lines)
  {
    var c := CStr(chunk);
    line := line0;
    out := [];
    ghost var handed: seq<seq<Byte>> := [];
    var start := 0;
    var k := FirstIndex(c[start..], NEWLINE);
    assert c[0..] == c;
    while start + k < |c|
      invariant Handing(line0, c, start, line, handed)
      invariant k == FirstIndex(c[start..], NEWLINE)
      invariant out == Outputs(handed)
      decreases |c| - start
    {
      ghost var start0, k0, line1, handed0 := start, k, line, handed;
      var seg := c[start..start + k];
      if |line| + |seg| < LineSize - 1 {
        line := line + seg;
      }
      assert line == Accumulate(line1, seg);
      var words := ExtractWords(line);
      OutputsSnoc(handed, line, words);
      handed := handed + [line];
      out := out + words;
      line := [];
      start := start + k + 1;
      HandAdvance(line0, c, start0, k0, line1, handed0, start, line, handed);
      k := FirstIndex(c[start..], NEWLINE);
    }
    HandEnd(line0, chunk, c, start, k, line, handed);
    if start < |c| && |line| + (|c| - start) < LineSize - 1 {
      line := line + c[start..];
    }
  }

  /**
    The `strchr` loop's invariant: `handed` went to `extract_words`, and
    the rest of the read, from `start`, is handed over from `line` on.
  */
  ghost predicate Handing(line0: seq<Byte>, c: seq<Byte>, start: int, line: seq<Byte>, handed: seq<seq<Byte>>)
  {
    0 <= start <= |c| &&
    HandLines(line0, Lines(c)) == Handover(
      HandLines(line, Lines(c[start..])).line, handed + HandLines(line, Lines(c[start..])).lines) &&
    Rest(c) == Rest(c[start..])
  }

  lemma HandNext(line0: seq<Byte>, c: seq<Byte>, start: int, k: int, line: seq<Byte>, handed: seq<seq<Byte>>)
    requires Handing(line0, c, start, line, handed)
    requires start + k < |c| && k == FirstIndex(c[start..], NEWLINE)
    ensures Handing(line0, c, start + k + 1, [], handed + [Accumulate(line, c[start..start + k])])
  {
    var todo, ls := Lines(c[start..]), Lines(c[start + k + 1..]);
    LineFound(c, start, k);
    assert todo == [c[start..start + k]] + ls;
    HandStep(HandLines(line0, Lines(c)), line, c[start..start + k], todo, ls, handed);
  }

  /** HandNext, stated on the loop's new values. */
  lemma HandAdvance(line0: seq<Byte>, c: seq<Byte>, start: int, k: int, line: seq<Byte>, handed: seq<seq<Byte>>,
                    start': int, line': seq<Byte>, handed': seq<seq<Byte>>)
    requires Handing(line0, c, start, line, handed)
    requires start + k < |c| && k == FirstIndex(c[start..], NEWLINE)
    requires start' == start + k + 1 && line' == []
    requires handed' == handed + [Accumulate(line, c[start..start + k])]
    ensures Handing(line0, c, start', line', handed')
  {
    HandNext(line0, c, start, k, line, handed);
    HandingRename(line0, c, start + k + 1, [], handed + [Accumulate(line, c[start..start + k])],
      start', line', handed');
  }

  lemma HandingRename(line0: seq<Byte>, c: seq<Byte>, s1: int, l1: seq<Byte>, h1: seq<seq<Byte>>,
                      s2: int, l2: seq<Byte>, h2: seq<seq<Byte>>)
    requires Handing(line0, c, s1, l1, h1) && s1 == s2 && l1 == l2 && h1 == h2
    ensures Handing(line0, c, s2, l2, h2)
  {
  }

  /** The handing invariant moved past one complete line `seg`. */
  lemma HandStep(all: Handover, line: seq<Byte>, seg: seq<Byte>, todo: seq<seq<Byte>>, ls: seq<seq<Byte>>,
                 handed: seq<seq<Byte>>)
    requires todo == [seg] + ls
    requires all == Handover(HandLines(line, todo).line, handed + HandLines(line, todo).lines)
    ensures all == Handover(HandLines([], ls).line, (handed + [Accumulate(line, seg)]) + HandLines([], ls).lines)
  {
    HandCons(line, seg, ls, todo);
    HandShift(all, HandLines(line, todo), HandLines([], ls), handed, Accumulate(line, seg));
  }

  /** One unfolding of HandLines. */
  lemma HandCons(line: seq<Byte>, seg: seq<Byte>, ls: seq<seq<Byte>>, todo: seq<seq<Byte>>)
    requires todo == [seg] + ls
    ensures HandLines(line, todo) ==
      Handover(HandLines([], ls).line, [Accumulate(line, seg)] + HandLines([], ls).lines)
  {
    assert todo[1..] == ls;
  }

  /** Moving one handed line from what is still to come to what was done. */
  lemma HandShift(all: Handover, now: Handover, later: Handover, handed: seq<seq<Byte>>, done: seq<Byte>)
    requires all == Handover(now.line, handed + now.lines)
    requires now == Handover(later.line, [done] + later.lines)
    ensures all == Handover(later.line, (handed + [done]) + later.lines)
  {
    assert handed + ([done] + later.lines) == (handed + [done]) + later.lines;
  }

  lemma HandEnd(line0: seq<Byte>, chunk: seq<Byte>, c: seq<Byte>, start: int, k: int,
                line: seq<Byte>, handed: seq<seq<Byte>>)
    requires c == CStr(chunk) && Handing(line0, c, start, line, handed)
    requires k == FirstIndex(c[start..], NEWLINE) && start + k >= |c|
    ensures Step(line0, chunk) == Handover(if start < |c| then Accumulate(line, c[start..]) else line, handed)
  {
    TailReached(c, start, k);
    assert HandLines(line, []) == Handover(line, []);
    assert handed + [] == handed;
  }

  /** A newline at `start + k` completes the line `c[start..start + k]`. */
  lemma LineFound(c: seq<Byte>, start: int, k: int)
    requires 0 <= start <= |c| && start + k < |c| && k == FirstIndex(c[start..], NEWLINE)
    ensures Lines(c[start..]) == [c[start..start + k]] + Lines(c[start + k + 1..])
    ensures Rest(c[start..]) == Rest(c[start + k + 1..])
  {
    var t := c[start..];
    LinesUnfold(t, k);
    RestUnfold(t, k);
    assert t[..k] == c[start..start + k] && t[k + 1..] == c[start + k + 1..];
  }

  /** No newline is left: the rest of the read is its unterminated tail. */
  lemma TailReached(c: seq<Byte>, start: int, k: int)
    requires 0 <= start <= |c| && k == FirstIndex(c[start..], NEWLINE) && start + k >= |c|
    requires NoNul(c)
    ensures Lines(c[start..]) == [] && Rest(c[start..]) == c[start..]
    ensures (start < |c|) == (c[start..] != [])
  {
    LinesOfLineFree(c[start..]);
  }

  /**
    The first line a read completes is the accumulated line with the
    read's first segment appended, unless the two together would reach
    8191 bytes: the segment is then dropped and the line handed as it was.
  */
  lemma FirstLineHanded(line: seq<Byte>, chunk: seq<Byte>, k: nat)
    requires NoNul(chunk) && k == FirstIndex(chunk, NEWLINE) < |chunk|
    ensures Step(line, chunk).lines != []
    ensures |line| + k >= LineSize - 1 ==> Step(line, chunk).lines[0] == line
    ensures |line| + k < LineSize - 1 ==> Step(line, chunk).lines[0] == line + chunk[..k]
  {
    CStrOfNulFree(chunk);
    LinesUnfold(chunk, k);
    HandCons(line, chunk[..k], Lines(chunk[k + 1..]), Lines(chunk));
  }

  // ---------------------------------------------------------------------
  // What the accumulator promises.

  /** Every line is below the 8191 bytes the `strcat` guard allows. */
  ghost predicate Short(ls: seq<seq<Byte>>)
  {
    forall j :: 0 <= j < |ls| ==> |ls[j]| < LineSize - 1
  }

  /** The guard drops nothing of a read `c` that continues the line `p`. */
  ghost predicate Fits(p: seq<Byte>, c: seq<Byte>)
  {
    Short(Lines(p + c)) && |Rest(p + c)| < LineSize - 1
  }

  /** The reads, one after the other, from the accumulated line `line` on. */
  function FeedAll(line: seq<Byte>, chunks: seq<seq<Byte>>): Handover
    decreases |chunks|
  {
    if chunks == [] then Handover(line, [])
    else
      var s := Step(line, chunks[0]);
      var r := FeedAll(s.line, chunks[1..]);
      Handover(r.line, s.lines + r.lines)
  }

  /** Every line of the stream, and its unterminated tail, is below 8191 bytes. */
  ghost predicate ShortStream(s: seq<Byte>)
  {
    Short(Lines(s)) && |Rest(s)| < LineSize - 1
  }

  /**
    The guard keeps its promise: the accumulated line and every line
    handed to `extract_words` stay below 8191 bytes, whatever is read.
  */
  lemma {:induction false} HandLinesShort(line: seq<Byte>, ls: seq<seq<Byte>>)
    requires |line| < LineSize - 1
    ensures |HandLines(line, ls).line| < LineSize - 1 && Short(HandLines(line, ls).lines)
    decreases |ls|
  {
    if ls != [] {
      HandLinesShort([], ls[1..]);
    }
  }

  lemma StepShort(line: seq<Byte>, chunk: seq<Byte>)
    requires |line| < LineSize - 1
    ensures |Step(line, chunk).line| < LineSize - 1 && Short(Step(line, chunk).lines)
  {
    HandLinesShort(line, Lines(CStr(chunk)));
  }

  lemma {:induction false} LinesStayShort(line: seq<Byte>, chunks: seq<seq<Byte>>)
    requires |line| < LineSize - 1
    ensures |FeedAll(line, chunks).line| < LineSize - 1 && Short(FeedAll(line, chunks).lines)
    decreases |chunks|
  {
    if chunks != [] {
      var s := Step(line, chunks[0]);
      StepShort(line, chunks[0]);
      LinesStayShort(s.line, chunks[1..]);
      var r := FeedAll(s.line, chunks[1..]);
      ShortAppend(s.lines, r.lines);
      assert FeedAll(line, chunks) == Handover(r.line, s.lines + r.lines);
    }
  }

  lemma ShortAppend(a: seq<seq<Byte>>, b: seq<seq<Byte>>)
    requires Short(a) && Short(b)
    ensures Short(a + b)
  {
    assert forall j :: |a| <= j < |a + b| ==> (a + b)[j] == b[j - |a|];
  }

  /** Complete lines that all fit: the first completes `line`, the others pass unchanged. */
  lemma {:induction false} HandLinesFit(line: seq<Byte>, first: seq<Byte>, rest: seq<seq<Byte>>)
    requires |line| + |first| < LineSize - 1 && Short(rest)
    ensures HandLines(line, [first] + rest) == Handover([], [line + first] + rest)
    decreases |rest|
  {
    assert ([first] + rest)[1..] == rest;
    if rest == [] {
      assert HandLines([], rest) == Handover([], []);
    } else {
      ShortCons(rest);
      HandLinesFit([], rest[0], rest[1..]);
      assert [] + rest[0] == rest[0];
      assert [rest[0]] + rest[1..] == rest;
    }
  }

  lemma ShortCons(ls: seq<seq<Byte>>)
    requires ls != [] && Short(ls)
    ensures |ls[0]| < LineSize - 1 && Short(ls[1..])
  {
    assert forall j :: 0 <= j < |ls[1..]| ==> ls[1..][j] == ls[j + 1];
  }

  /**
    One read that drops nothing hands over exactly the lines that the
    accumulated line and the read complete, and keeps their tail.
  */
  lemma StepWhole(p: seq<Byte>, c: seq<Byte>)
    requires NoNewline(p) && NoNul(c) && Fits(p, c)
    ensures Step(p, c) == Handover(Rest(p + c), Lines(p + c))
  {
    CStrOfNulFree(c);
    var k := FirstIndex(c, NEWLINE);
    if k < |c| {
      StepCompletes(p, c, k);
    } else {
      StepContinues(p, c);
    }
  }

  /** A read with a newline completes the accumulated line with its first line. */
  lemma StepCompletes(p: seq<Byte>, c: seq<Byte>, k: nat)
    requires NoNewline(p) && Fits(p, c) && k == FirstIndex(c, NEWLINE) < |c|
    ensures HandLines(p, Lines(c)) == Handover([], Lines(p + c)) && Rest(c) == Rest(p + c)
  {
    JoinedLines(p, c, k);
    LinesUnfold(c, k);
    RestUnfold(c, k);
    var rest := Lines(c[k + 1..]);
    ShortCons([p + c[..k]] + rest);
    assert ([p + c[..k]] + rest)[1..] == rest;
    HandLinesFit(p, c[..k], rest);
  }

  /** The lines of `p + c`: `p` completed by the first line of `c`, then the others. */
  lemma JoinedLines(p: seq<Byte>, c: seq<Byte>, k: nat)
    requires NoNewline(p) && k == FirstIndex(c, NEWLINE) < |c|
    ensures Lines(p + c) == [p + c[..k]] + Lines(c[k + 1..])
    ensures Rest(p + c) == Rest(c[k + 1..])
  {
    JoinedLine(p, c, k);
    ConcatSlices(p, c, k);
    UnfoldAt(p + c, |p| + k, p + c[..k], c[k + 1..]);
  }

  lemma UnfoldAt(s: seq<Byte>, h: nat, head: seq<Byte>, tail: seq<Byte>)
    requires h == FirstIndex(s, NEWLINE) < |s| && s[..h] == head && s[h + 1..] == tail
    ensures Lines(s) == [head] + Lines(tail) && Rest(s) == Rest(tail)
  {
    LinesUnfold(s, h);
    RestUnfold(s, h);
  }

  lemma ConcatSlices<T>(p: seq<T>, c: seq<T>, k: nat)
    requires k < |c|
    ensures (p + c)[..|p| + k] == p + c[..k] && (p + c)[|p| + k + 1..] == c[k + 1..]
  {
  }

  /** The first newline of `p + c` is the first of `c`. */
  lemma JoinedLine(p: seq<Byte>, c: seq<Byte>, k: nat)
    requires NoNewline(p) && k == FirstIndex(c, NEWLINE) < |c|
    ensures FirstIndex(p + c, NEWLINE) == |p| + k
  {
    SplitAtFirst(c, k);
    JoinedAt(p, c[..k], c[k + 1..], c);
  }

  /** A read split at its first newline. */
  lemma SplitAtFirst(c: seq<Byte>, k: nat)
    requires k == FirstIndex(c, NEWLINE) < |c|
    ensures NoNewline(c[..k]) && c == c[..k] + [NEWLINE] + c[k + 1..]
  {
    SplitAround(c, k);
    forall i | 0 <= i < k
      ensures c[..k][i] != NEWLINE
    {
      assert c[..k][i] == c[i];
    }
  }

  lemma JoinedAt(p: seq<Byte>, x: seq<Byte>, y: seq<Byte>, c: seq<Byte>)
    requires NoNewline(p) && NoNewline(x) && c == x + [NEWLINE] + y
    ensures FirstIndex(p + c, NEWLINE) == |p + x|
  {
    NoNewlineConcat(p, x);
    assert p + c == (p + x) + [NEWLINE] + y;
    FirstIndexAfter(p + x, y);
  }

  lemma NoNewlineConcat(x: seq<Byte>, y: seq<Byte>)
    requires NoNewline(x) && NoNewline(y)
    ensures NoNewline(x + y)
  {
    forall i | 0 <= i < |x + y|
      ensures (x + y)[i] != NEWLINE
    {
      if i >= |x| {
        assert (x + y)[i] == y[i - |x|];
      }
    }
  }

  /** A read without a newline only lengthens the accumulated line. */
  lemma StepContinues(p: seq<Byte>, c: seq<Byte>)
    requires NoNewline(p) && NoNul(c) && Fits(p, c) && FirstIndex(c, NEWLINE) == |c|
    ensures Step(p, c) == Handover(Rest(p + c), Lines(p + c))
  {
    CStrOfNulFree(c);
    LinesOfLineFree(c);
    forall i | 0 <= i < |p + c|
      ensures (p + c)[i] != NEWLINE
    {
      if i >= |p| {
        assert (p + c)[i] == c[i - |p|];
      }
    }
    LinesOfLineFree(p + c);
    if c == [] {
      assert p + c == p;
    }
  }

  /**
    Reassembly: when every line is below 8191 bytes, a NUL-free stream read in any
    number of pieces hands over the same lines, in the same order, as the
    stream read at once, and the same tail stays in `line`.  A line split
    across reads reaches `extract_words` once, whole.
  */
  lemma {:induction false} FeedAllReassembles(p: seq<Byte>, chunks: seq<seq<Byte>>)
    requires NoNewline(p) && NoNul(Flatten(chunks)) && ShortStream(p + Flatten(chunks))
    ensures FeedAll(p, chunks) == Handover(Rest(p + Flatten(chunks)), Lines(p + Flatten(chunks)))
    decreases |chunks|
  {
    if chunks == [] {
      LinesOfLineFree(p);
      assert p + Flatten(chunks) == p;
    } else {
      var c0, more := chunks[0], Flatten(chunks[1..]);
      FlattenSplit(chunks);
      var text := p + c0;
      assert p + Flatten(chunks) == text + more;
      NextShort(p, c0, more);
      FeedFirst(p, chunks);
      FeedAllReassembles(Rest(text), chunks[1..]);
      Regather(FeedAll(p, chunks), text, more, FeedAll(Rest(text), chunks[1..]));
    }
  }

  /**
    A stream of short lines drops nothing: the accumulated line plus the
    next read is always a prefix of one of its lines, or of its tail.
  */
  lemma NextShort(p: seq<Byte>, c: seq<Byte>, more: seq<Byte>)
    requires NoNewline(p) && ShortStream((p + c) + more)
    ensures Fits(p, c) && ShortStream(Rest(p + c) + more)
  {
    var text := p + c;
    var later := Rest(text) + more;
    LinesAppend(text, more);
    ShortSplit(Lines(text), Lines(later));
    RestNoNewline(text);
    TailBounded(Rest(text), more);
    if Lines(later) != [] {
      ShortCons(Lines(later));
    }
  }

  lemma ShortSplit(x: seq<seq<Byte>>, y: seq<seq<Byte>>)
    requires Short(x + y)
    ensures Short(x) && Short(y)
  {
    assert forall j :: 0 <= j < |x| ==> x[j] == (x + y)[j];
    assert forall j :: 0 <= j < |y| ==> y[j] == (x + y)[|x| + j];
  }

  /** A newline-free start is a prefix of the first line, or of the tail. */
  lemma TailBounded(a: seq<Byte>, b: seq<Byte>)
    requires NoNewline(a)
    ensures Lines(a + b) != [] ==> |a| <= |Lines(a + b)[0]|
    ensures Lines(a + b) == [] ==> |a| <= |Rest(a + b)|
  {
    var k := FirstIndex(b, NEWLINE);
    if k < |b| {
      JoinedLines(a, b, k);
    } else {
      forall i | 0 <= i < |a + b|
        ensures (a + b)[i] != NEWLINE
      {
        if i >= |a| {
          assert (a + b)[i] == b[i - |a|];
        }
      }
      LinesOfLineFree(a + b);
    }
  }

  lemma FlattenSplit(chunks: seq<seq<Byte>>)
    requires chunks != [] && NoNul(Flatten(chunks))
    ensures Flatten(chunks) == chunks[0] + Flatten(chunks[1..])
    ensures NoNul(chunks[0]) && NoNul(Flatten(chunks[1..]))
  {
    var c0, more := chunks[0], Flatten(chunks[1..]);
    FlattenCons(c0, chunks[1..]);
    HeadTail(chunks);
    Reassembly.PrefixNulFree(Flatten(chunks), c0, more);
    assert [] == c0[|c0|..];
    Reassembly.TailNulFree(Flatten(chunks), c0, more, []);
    assert [] + more == more;
  }

  /** The first read of the stream hands over its lines whole. */
  lemma FeedFirst(p: seq<Byte>, chunks: seq<seq<Byte>>)
    requires chunks != [] && NoNewline(p) && NoNul(chunks[0]) && Fits(p, chunks[0])
    ensures NoNewline(Rest(p + chunks[0]))
    ensures FeedAll(p, chunks) == Handover(FeedAll(Rest(p + chunks[0]), chunks[1..]).line,
      Lines(p + chunks[0]) + FeedAll(Rest(p + chunks[0]), chunks[1..]).lines)
  {
    StepWhole(p, chunks[0]);
    RestNoNewline(p + chunks[0]);
  }

  lemma RestNoNewline(s: seq<Byte>)
    ensures NoNewline(Rest(s))
  {
    FramingParts(s);
  }

  /** Lines handed from the first read, then from the tail it left plus the rest, are those of the whole. */
  lemma Regather(all: Handover, text: seq<Byte>, more: seq<Byte>, later: Handover)
    requires later == Handover(Rest(Rest(text) + more), Lines(Rest(text) + more))
    requires all == Handover(later.line, Lines(text) + later.lines)
    ensures all == Handover(Rest(text + more), Lines(text + more))
  {
    LinesAppend(text, more);
  }

  /** At end of input a non-empty accumulated line is handed over too. */
  function Final(line: seq<Byte>): seq<seq<Byte>>
  {
    if line != [] then [line] else []
  }

  lemma {:induction false} ReadLoopFeeds(line: seq<Byte>, chunks: seq<seq<Byte>>)
    ensures ReadLoop(line, Reassembly.Gots(chunks) + [Reassembly.EndOfInput]) ==
      RunResult(FeedAll(line, chunks).lines + Final(FeedAll(line, chunks).line), true)
    decreases |chunks|
  {
    var rs := Reassembly.Gots(chunks) + [Reassembly.EndOfInput];
    if chunks == [] {
      assert rs == [Reassembly.EndOfInput];
      assert [] + Final(line) == Final(line);
    } else {
      assert rs[0] == Reassembly.Got(chunks[0]);
      assert rs[1..] == Reassembly.Gots(chunks[1..]) + [Reassembly.EndOfInput];
      var s := Step(line, chunks[0]);
      ReadLoopFeeds(s.line, chunks[1..]);
      var r := FeedAll(s.line, chunks[1..]);
      assert s.lines + (r.lines + Final(r.line)) == (s.lines + r.lines) + Final(r.line);
    }
  }

  /**
    The mapper's promise end to end: when a NUL-free stream is read in
    pieces and then ends, and every line is below 8191 bytes, every line of the
    stream, and its unterminated last line if there is one, reaches
    `extract_words` exactly once and in order, and the loop is left.
  */
  lemma MapperHandsEveryLine(chunks: seq<seq<Byte>>)
    requires NoNul(Flatten(chunks)) && ShortStream(Flatten(chunks))
    ensures ReadLoop([], Reassembly.Gots(chunks) + [Reassembly.EndOfInput]) ==
      RunResult(Lines(Flatten(chunks)) + Final(Rest(Flatten(chunks))), true)
  {
    assert [] + Flatten(chunks) == Flatten(chunks);
    ReadLoopFeeds([], chunks);
    FeedAllReassembles([], chunks);
  }
}
