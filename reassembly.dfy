/**
  What the reducer's `main` loop does with its standard input, stated on
  values: the record a complete line carries, the table after a run of
  lines, what one read leaves in the `partial_line` buffer, the whole
  read loop, and the text `output_results` prints once the loop ends.
*/
module Reassembly {
  import opened Bytes
  import opened Records
  import opened Aggregate
  import opened Sorting

  /** BUFFER_SIZE: the size of both `buffer` and `partial_line`. */
  const BufferSize := 4096

  // ---------------------------------------------------------------------
  // Lines and the records they carry.

  /**
    The `add_word` call one complete line leads to: the text before the
    last space, cut to 255 bytes by `strncpy`, with `atoi` of the text
    after that space.  A line without a space is dropped.
  */
  function LineRecord(line: seq<Byte>): (r: Option<(seq<Byte>, int)>)
    ensures r.None? <==> forall i :: 0 <= i < |line| ==> line[i] != SPACE
    ensures r.Some? ==> |r.value.0| <= MaxWord && r.value.0 <= line
  {
    match LastIndex(line, SPACE)
    case None => None
    case Some(j) => Some((Take(line[..j], MaxWord), Atoi(line[j + 1..])))
  }

  /** The table after one line. */
  function AddLine(es: seq<Entry>, line: seq<Byte>): seq<Entry>
  {
    match LineRecord(line)
    case None => es
    case Some((w, c)) => Added(es, Some(w), c)
  }

  /** The table after the lines, in order. */
  function AddLines(es: seq<Entry>, lines: seq<seq<Byte>>): seq<Entry>
    decreases |lines|
  {
    if lines == [] then es else AddLines(AddLine(es, lines[0]), lines[1..])
  }

  /** What one line adds to the count of key `k`. */
  function Contribution(line: seq<Byte>, k: seq<Byte>): int
  {
    match LineRecord(line)
    case None => 0
    case Some((w, c)) => if k != [] && Key(w) == k then c else 0
  }

  /** The total the lines carry for key `k`. */
  function Tally(lines: seq<seq<Byte>>, k: seq<Byte>): int
  {
    if lines == [] then 0 else Contribution(lines[0], k) + Tally(lines[1..], k)
  }

  /**
    Folding lines into a table keeps it a table, and every count grows by
    exactly what the lines carry for that word: neither the order nor the
    grouping of the lines matters, and no other word is touched.
  */
  lemma {:induction false} AddLinesCounts(es: seq<Entry>, lines: seq<seq<Byte>>, k: seq<Byte>)
    requires Table(es)
    ensures Table(AddLines(es, lines))
    ensures CountOf(AddLines(es, lines), k) == CountOf(es, k) + Tally(lines, k)
    decreases |lines|
  {
    if lines != [] {
      var e1 := AddLine(es, lines[0]);
      var r := LineRecord(lines[0]);
      if r.Some? {
        AddedIsTable(es, Some(r.value.0), r.value.1);
        AddedCounts(es, Some(r.value.0), r.value.1, k);
      }
      AddLinesCounts(e1, lines[1..], k);
    }
  }

  lemma {:induction false} AddLinesAppend(es: seq<Entry>, a: seq<seq<Byte>>, b: seq<seq<Byte>>)
    ensures AddLines(es, a + b) == AddLines(AddLines(es, a), b)
    decreases |a|
  {
    if a != [] {
      assert (a + b)[0] == a[0] && (a + b)[1..] == a[1..] + b;
      AddLinesAppend(AddLine(es, a[0]), a[1..], b);
    } else {
      assert a + b == b;
    }
  }

  lemma AddLinesSnoc(es: seq<Entry>, lines: seq<seq<Byte>>, line: seq<Byte>)
    ensures AddLines(es, lines + [line]) == AddLine(AddLines(es, lines), line)
  {
    AddLinesAppend(es, lines, [line]);
  }

  /** No stored word holds a newline. */
  predicate LineFree(es: seq<Entry>)
  {
    forall i :: 0 <= i < |es| ==> NoNewline(es[i].word)
  }

  /** Words taken from lines never bring a newline into the table. */
  lemma {:induction false} AddLinesLineFree(es: seq<Entry>, lines: seq<seq<Byte>>)
    requires LineFree(es)
    requires forall i :: 0 <= i < |lines| ==> NoNewline(lines[i])
    ensures LineFree(AddLines(es, lines))
    decreases |lines|
  {
    if lines != [] {
      AddLineLineFree(es, lines[0]);
      AddLinesLineFree(AddLine(es, lines[0]), lines[1..]);
    }
  }

  lemma AddLineLineFree(es: seq<Entry>, line: seq<Byte>)
    requires LineFree(es) && NoNewline(line)
    ensures LineFree(AddLine(es, line))
  {
    match LineRecord(line)
    case None =>
    case Some((w, c)) =>
      KeyIsPrefix(w);
      var k := Key(w);
      assert NoNewline(k) by {
        assert forall i :: 0 <= i < |k| ==> k[i] == w[i] == line[i];
      }
      var r := Added(es, Some(w), c);
      AddedKeys(es, Some(w), c);
      forall i | 0 <= i < |r|
        ensures NoNewline(r[i].word)
      {
        assert r[i].word in Keys(r);
        if r[i].word != k {
          var j :| 0 <= j < |es| && es[j].word == r[i].word;
        }
      }
  }

  // ---------------------------------------------------------------------
  // One read.

  /**
    Where the bytes in `partial_line` end after a read of `n` bytes when
    `p` were retained, i.e. the index `partial_line[partial_len] = '\0'`
    writes to.  The retained bytes are dropped first when the two would
    reach the end of the buffer.
  */
  function TerminatorIndex(p: int, n: int): int
  {
    (if p + n >= BufferSize then 0 else p) + n
  }

  /**
    As written, `read` may fill the whole 4096-byte `buffer`; the
    terminator then lands one past the end of `partial_line`, whatever
    was retained.
  */
  lemma FullReadOverruns(p: int)
    requires 0 <= p < BufferSize
    ensures TerminatorIndex(p, BufferSize) == BufferSize
  {
  }

  /** Reading at most 4095 bytes keeps the terminator inside the buffer. */
  lemma ShortReadFits(p: int, n: int)
    requires 0 <= p < BufferSize && 0 <= n <= BufferSize - 1
    ensures 0 <= TerminatorIndex(p, n) < BufferSize
  {
  }

  /** The bytes in `partial_line` once a read of `chunk` is appended. */
  function Joined(pending: seq<Byte>, chunk: seq<Byte>): (r: seq<Byte>)
    ensures |r| == TerminatorIndex(|pending|, |chunk|)
    ensures r[|r| - |chunk|..] == chunk
  {
    (if |pending| + |chunk| >= BufferSize then [] else pending) + chunk
  }

  /** The retained tail and the table: the state the loop carries between reads. */
  datatype Progress = Progress(pending: seq<Byte>, entries: seq<Entry>)

  /**
    One read of `chunk`: the complete lines of the C string now held in
    `partial_line` go to `add_word` in order, and everything after the
    last newline consumed stays behind.  A NUL byte ends the C string, so
    lines after it stay behind too.
  */
  function Fed(st: Progress, chunk: seq<Byte>): Progress
  {
    var text := Joined(st.pending, chunk);
    var c := CStr(text);
    Progress(Rest(c) + text[|c|..], AddLines(st.entries, Lines(c)))
  }

  /**
    What a read leaves behind is shorter than the buffer, is a tail of the
    bytes the buffer held, and holds no newline before its first NUL (none
    at all for NUL-free input).
  */
  lemma FedRetains(st: Progress, chunk: seq<Byte>)
    requires |chunk| < BufferSize
    ensures var text, r := Joined(st.pending, chunk), Fed(st, chunk).pending;
      |r| <= |text| < BufferSize && r == text[|text| - |r|..] && NoNewline(CStr(r))
    ensures NoNul(Joined(st.pending, chunk)) ==> NoNewline(Fed(st, chunk).pending)
  {
    var text := Joined(st.pending, chunk);
    var c := CStr(text);
    var r := Fed(st, chunk).pending;
    assert r == Rest(c) + text[|c|..];
    RestIsTail(c);
    RetainedTail(text, |c|, Rest(c), r);
  }

  /**
    The bytes kept after the lines of `text[..z]` are consumed: the
    newline-free tail `t` of that C string and whatever follows the NUL.
  */
  lemma RetainedTail(text: seq<Byte>, z: int, t: seq<Byte>, r: seq<Byte>)
    requires 0 <= z <= |text| && z == FirstIndex(text, NUL)
    requires |t| <= z && t == text[..z][z - |t|..] && NoNewline(t)
    requires r == t + text[z..]
    ensures |r| <= |text| && r == text[z - |t|..] && NoNewline(CStr(r))
    ensures z == |text| ==> NoNewline(r)
  {
    TailSlice(text, z, t, r);
    TailBeforeNul(text, z, t);
    if z < |text| {
      CStrStops(t, text[z..]);
    } else {
      assert text[z..] == [];
      assert r == t;
      CStrOfNulFree(t);
    }
  }

  lemma TailSlice(text: seq<Byte>, z: int, t: seq<Byte>, r: seq<Byte>)
    requires 0 <= z <= |text| && |t| <= z && t == text[..z][z - |t|..] && r == t + text[z..]
    ensures |r| <= |text| && r == text[z - |t|..]
  {
    assert forall i :: 0 <= i < |r| ==> r[i] == text[z - |t| + i];
  }

  /** A tail of the text before its first NUL holds no NUL. */
  lemma TailBeforeNul(text: seq<Byte>, z: int, t: seq<Byte>)
    requires 0 <= z <= |text| && z == FirstIndex(text, NUL)
    requires |t| <= z && t == text[..z][z - |t|..]
    ensures NoNul(t)
  {
    assert forall i :: 0 <= i < |t| ==> t[i] == text[z - |t| + i];
  }

  /** The C string of a NUL-free `t` followed by a NUL is `t`. */
  lemma CStrStops(t: seq<Byte>, rest: seq<Byte>)
    requires NoNul(t) && rest != [] && rest[0] == NUL
    ensures CStr(t + rest) == t
  {
    var s := t + rest;
    assert s[|t|] == NUL;
    assert forall i :: 0 <= i < |t| ==> s[i] == t[i];
    assert FirstIndex(s, NUL) == |t|;
    assert s[..|t|] == t;
  }

  /** What follows the last newline is a newline-free tail of the text. */
  lemma {:induction false} RestIsTail(s: seq<Byte>)
    ensures |Rest(s)| <= |s| && Rest(s) == s[|s| - |Rest(s)|..] && NoNewline(Rest(s))
    decreases |s|
  {
    var k := FirstIndex(s, NEWLINE);
    if k < |s| {
      RestIsTail(s[k + 1..]);
      RestUnfold(s, k);
    }
  }

  /** A read that fits behind a NUL-free tail releases exactly the lines of tail plus read. */
  lemma FedNulFree(p: seq<Byte>, es: seq<Entry>, chunk: seq<Byte>, text: seq<Byte>)
    requires |p| + |chunk| < BufferSize && text == p + chunk && NoNul(text)
    ensures Fed(Progress(p, es), chunk) == Progress(Rest(text), AddLines(es, Lines(text)))
  {
    CStrOfNulFree(text);
  }

  /** The reads delivered in order, each fed to the buffer. */
  function FedAll(st: Progress, chunks: seq<seq<Byte>>): Progress
    decreases |chunks|
  {
    if chunks == [] then st else FedAll(Fed(st, chunks[0]), chunks[1..])
  }

  /** No read arrives while the retained tail and the read would fill the buffer. */
  predicate Fits(st: Progress, chunks: seq<seq<Byte>>)
    decreases |chunks|
  {
    chunks == [] ||
    (|st.pending| + |chunks[0]| < BufferSize && Fits(Fed(st, chunks[0]), chunks[1..]))
  }

  /**
    Reassembly: when no read overflows the buffer, a NUL-free stream
    delivered in any number of pieces yields the same lines, in the same
    order, as the stream read at once, and the same tail stays pending.
    A record split across two reads is counted once, whole.
  */
  lemma {:induction false} FedAllReassembles(p: seq<Byte>, es: seq<Entry>, chunks: seq<seq<Byte>>)
    requires NoNewline(p) && NoNul(p + Flatten(chunks)) && Fits(Progress(p, es), chunks)
    ensures FedAll(Progress(p, es), chunks) ==
      Progress(Rest(p + Flatten(chunks)), AddLines(es, Lines(p + Flatten(chunks))))
    decreases |chunks|
  {
    if chunks == [] {
      LinesOfLineFree(p);
      assert p + Flatten(chunks) == p;
    } else {
      var c0, more := chunks[0], Flatten(chunks[1..]);
      var text := p + c0;
      var whole := p + Flatten(chunks);
      assert whole == text + more by {
        FlattenCons(c0, chunks[1..]);
        HeadTail(chunks);
      }
      PrefixNulFree(whole, text, more);
      FedNulFree(p, es, c0, text);
      var p' := Rest(text);
      RestIsTail(text);
      TailNulFree(whole, text, more, p');
      FedAllReassembles(p', AddLines(es, Lines(text)), chunks[1..]);
      LinesAppend(text, more);
      AddLinesAppend(es, Lines(text), Lines(p' + more));
    }
  }

  lemma PrefixNulFree(whole: seq<Byte>, a: seq<Byte>, b: seq<Byte>)
    requires whole == a + b && NoNul(whole)
    ensures NoNul(a)
  {
    assert forall i :: 0 <= i < |a| ==> a[i] == whole[i];
  }

  lemma TailNulFree(whole: seq<Byte>, a: seq<Byte>, b: seq<Byte>, t: seq<Byte>)
    requires whole == a + b && NoNul(whole)
    requires |t| <= |a| && t == a[|a| - |t|..]
    ensures NoNul(t + b)
  {
    assert forall i :: 0 <= i < |t + b| ==> (t + b)[i] == whole[|a| - |t| + i];
  }

  // ---------------------------------------------------------------------
  // The read loop.

  /** What one `read(STDIN_FILENO, buffer, …)` returned. */
  datatype ReadResult =
    | Got(bytes: seq<Byte>)   // n > 0
    | EndOfInput              // n == 0
    | Retry                   // n < 0 with errno EAGAIN or EINTR
    | Failure                 // any other error: perror, then exit(1)

  /** How the reducer's run ends, given the reads it was handed. */
  datatype Outcome =
    | Exited(output: seq<Byte>)   // the loop ended and output_results printed this
    | Aborted                     // exit(1) after a failed read
    | Waiting                     // the loop still wants another read

  /**
    `while (!eof_reached || partial_len > 0)`: the loop ends only once end
    of input has been seen and nothing is retained.
  */
  function Loop(st: Progress, eof: bool, results: seq<ReadResult>): Outcome
    decreases |results|
  {
    if eof && st.pending == [] then Exited(Output(st.entries))
    else if results == [] then Waiting
    else
      match results[0]
      case Got(bytes) => Loop(Fed(st, bytes), eof, results[1..])
      case EndOfInput => Loop(st, true, results[1..])
      case Retry => Loop(st, eof, results[1..])
      case Failure => Aborted
  }

  /**
    An unterminated trailing record keeps the loop alive: with bytes
    retained, no sequence of end-of-input or retry results ever lets the
    reducer finish.
  */
  lemma {:induction false} TailBlocksExit(st: Progress, eof: bool, results: seq<ReadResult>)
    requires st.pending != []
    requires forall i :: 0 <= i < |results| ==> !results[i].Got?
    ensures !Loop(st, eof, results).Exited?
    decreases |results|
  {
    if results != [] && results[0] != Failure {
      TailBlocksExit(st, eof || results[0] == EndOfInput, results[1..]);
    }
  }

  /** The reads that deliver `chunks` in order. */
  function Gots(chunks: seq<seq<Byte>>): (r: seq<ReadResult>)
    ensures |r| == |chunks|
    ensures forall i :: 0 <= i < |r| ==> r[i] == Got(chunks[i])
  {
    if chunks == [] then [] else [Got(chunks[0])] + Gots(chunks[1..])
  }

  lemma {:induction false} LoopOverReads(st: Progress, chunks: seq<seq<Byte>>, rest: seq<ReadResult>)
    ensures Loop(st, false, Gots(chunks) + rest) == Loop(FedAll(st, chunks), false, rest)
    decreases |chunks|
  {
    if chunks != [] {
      var rs := Gots(chunks) + rest;
      assert rs[0] == Got(chunks[0]);
      assert rs[1..] == Gots(chunks[1..]) + rest;
      LoopOverReads(Fed(st, chunks[0]), chunks[1..], rest);
    } else {
      assert Gots(chunks) + rest == rest;
    }
  }

  /**
    A NUL-free stream of complete records, delivered in reads that never
    overflow the buffer and followed by end of input, ends the loop, and
    every word's count is the total its lines carry.
  */
  lemma StreamCounted(chunks: seq<seq<Byte>>, k: seq<Byte>)
    requires NoNul(Flatten(chunks)) && Rest(Flatten(chunks)) == []
    requires Fits(Progress([], []), chunks)
    ensures Loop(Progress([], []), false, Gots(chunks) + [EndOfInput]) ==
      Exited(Output(AddLines([], Lines(Flatten(chunks)))))
    ensures CountOf(AddLines([], Lines(Flatten(chunks))), k) == Tally(Lines(Flatten(chunks)), k)
  {
    var s := Flatten(chunks);
    assert [] + s == s;
    FedAllReassembles([], [], chunks);
    LoopOverReads(Progress([], []), chunks, [EndOfInput]);
    AddLinesCounts([], Lines(s), k);
  }

  // ---------------------------------------------------------------------
  // output_results.

  /** `printf("%s %d\n", word, count)` for each entry, in order. */
  function Render(es: seq<Entry>): seq<Byte>
  {
    if es == [] then [] else EncodeRecord(es[0].word, es[0].count) + Render(es[1..])
  }

  /** What `output_results` prints: the entries sorted by `mergeSort`. */
  function Output(es: seq<Entry>): seq<Byte>
  {
    Render(SortDesc(es))
  }

  /** The line `printf` writes for one entry, without its newline. */
  function RecordLine(e: Entry): seq<Byte>
  {
    e.word + [SPACE] + Decimal(e.count)
  }

  function RecordLines(es: seq<Entry>): (r: seq<seq<Byte>>)
    ensures |r| == |es| && forall i :: 0 <= i < |es| ==> r[i] == RecordLine(es[i])
  {
    if es == [] then [] else [RecordLine(es[0])] + RecordLines(es[1..])
  }

  lemma {:induction false} RenderIsUnlines(es: seq<Entry>)
    ensures Render(es) == Unlines(RecordLines(es))
    decreases |es|
  {
    if es != [] {
      RenderIsUnlines(es[1..]);
      UnlinesCons(RecordLine(es[0]), RecordLines(es[1..]));
    }
  }

  /** `%d` never writes a space, a newline or a NUL. */
  lemma DecimalIsPlain(n: int)
    ensures forall i :: 0 <= i < |Decimal(n)| ==> IsDigit(Decimal(n)[i]) || Decimal(n)[i] == MINUS
  {
    if n < 0 {
      assert forall i :: 1 <= i < |Decimal(n)| ==> Decimal(n)[i] == Digits(-n)[i - 1];
    }
  }

  /** The reducer reads back what `output_results` wrote for an entry. */
  lemma ReadBackRecord(e: Entry)
    requires ValidKey(e.word) && NoNewline(e.word)
    ensures NoNewline(RecordLine(e))
    ensures LineRecord(RecordLine(e)) == Some((e.word, e.count))
  {
    var w, d := e.word, Decimal(e.count);
    DecimalIsPlain(e.count);
    LastAround(w, SPACE, d);
    PartsAround(w, SPACE, d);
    AtoiDecimal(e.count);
    RecordLineLineFree(e);
  }

  lemma RecordLineLineFree(e: Entry)
    requires NoNewline(e.word)
    ensures NoNewline(RecordLine(e))
  {
    var w, d := e.word, Decimal(e.count);
    DecimalIsPlain(e.count);
    PartsAround(w, SPACE, d);
    var line := RecordLine(e);
    forall i | 0 <= i < |line|
      ensures line[i] != NEWLINE
    {
      if i < |w| {
        assert line[i] == line[..|w|][i];
      } else if i > |w| {
        assert line[i] == line[|w| + 1..][i - |w| - 1];
      }
    }
  }

  /**
    `output_results` prints each entry of the table once, as one line, in
    the order `mergeSort` leaves them, and each line reads back as that
    entry's word and count.
  */
  lemma OutputListsEntries(es: seq<Entry>)
    requires Table(es) && LineFree(es)
    ensures var s := SortDesc(es);
      Lines(Output(es)) == RecordLines(s) && Rest(Output(es)) == [] &&
      forall i :: 0 <= i < |s| ==> LineRecord(RecordLines(s)[i]) == Some((s[i].word, s[i].count))
  {
    var s := SortDesc(es);
    SortDescPermutes(es);
    forall i | 0 <= i < |s|
      ensures ValidKey(s[i].word) && NoNewline(s[i].word)
    {
      assert s[i] in multiset(es);
    }
    forall i | 0 <= i < |s|
      ensures NoNewline(RecordLines(s)[i])
      ensures LineRecord(RecordLines(s)[i]) == Some((s[i].word, s[i].count))
    {
      ReadBackRecord(s[i]);
    }
    RenderIsUnlines(s);
    LinesOfUnlines(RecordLines(s), []);
    assert Unlines(RecordLines(s)) + [] == Render(s);
  }
}
