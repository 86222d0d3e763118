/**
  The reducer process: the `partial_line` buffer its `main` loop appends
  each read to, the in-place consumption of every complete line (the
  newline and the last space before it are overwritten with NUL, the word
  and count go to `add_word`, the tail is moved to the front), and
  `output_results`, which copies the table into an array, sorts it with
  `mergeSort` and prints it.
*/
module Reducer {
  import opened Bytes
  import opened Records
  import opened Aggregate
  import opened Sorting
  import opened Reassembly

  /** `strchr(partial_line, '\n')` reaches the terminator before any newline. */
  predicate NoLineInBuffer(s: seq<Byte>)
  {
    FirstIndex(s, NUL) < |s| && NoNewline(CStr(s))
  }

  class Reducer {
    /** `partial_line`, zero-filled at start. */
    const partial: array<Byte>
    /** `partial_len`. */
    var partialLen: int
    /** `eof_reached`. */
    var eof: bool
    /** The list `word_counts`. */
    const table: WordCounts

    ghost predicate Valid()
      reads this, partial, table
    {
      partial.Length == BufferSize && 0 <= partialLen < BufferSize &&
      NoLineInBuffer(partial[..]) && table.Valid() && LineFree(table.entries)
    }

    /** The retained bytes and the table. */
    ghost function State(): Progress
      reads this, partial, table
      requires Valid()
    {
      Progress(partial[..partialLen], table.entries)
    }

    constructor()
      ensures Valid() && State() == Progress([], []) && !eof
      ensures fresh(partial) && fresh(table)
    {
      partial := new Byte[BufferSize](_ => NUL);
      partialLen := 0;
      eof := false;
      table := new WordCounts();
      new;
      assert partial[..][0] == NUL;
    }

    /**
      The `n > 0` branch of the loop for a read of `chunk`: drop the
      retained bytes when the read would not fit behind them, append the
      read, terminate it, consume the complete lines and move the tail to
      the front.  `overrun` reports the read whose terminator would be
      written past the end of `partial_line`; the state is then left
      unspecified, as the C behaviour is undefined.
    */
    method Feed(chunk: seq<Byte>) returns (overrun: bool)
      requires Valid() && 0 < |chunk| <= BufferSize
      modifies this, partial, table
      ensures overrun <==> TerminatorIndex(old(partialLen), |chunk|) >= BufferSize
      ensures !overrun ==> Valid() && State() == Fed(old(State()), chunk)
      ensures eof == old(eof)
    {
      overrun := Append(chunk);
      if !overrun {
        Drain();
      }
    }

    /**
      Lines 168-186: drop the retained bytes when the read would not fit
      behind them (no line can be recovered from them first: none is
      there), copy the read in and write the terminator after it.
    */
    method Append(chunk: seq<Byte>) returns (overrun: bool)
      requires Valid() && 0 < |chunk| <= BufferSize
      modifies this, partial
      ensures overrun <==> TerminatorIndex(old(partialLen), |chunk|) >= BufferSize
      ensures !overrun ==> (0 <= partialLen < BufferSize && partial[partialLen] == NUL &&
                            partial[..partialLen] == Joined(old(State()).pending, chunk))
      ensures eof == old(eof)
    {
      ghost var st := State();
      if partialLen + |chunk| >= BufferSize {
        var newline := StrChrAt(partial[..], 0, NEWLINE);
        NoLineFound(partial[..]);
        if newline.Some? {
          // Recovering one record from `partial_line` first: unreachable.
          assert false;
        }
        partialLen := 0;
      }
      ghost var kept := partial[..partialLen];
      assert kept == (if |st.pending| + |chunk| >= BufferSize then [] else st.pending);
      CopyIn(partialLen, chunk);
      partialLen := partialLen + |chunk|;
      if partialLen >= BufferSize {
        return true;
      }
      ghost var text := partial[..partialLen];
      assert text == Joined(st.pending, chunk);
      partial[partialLen] := NUL;
      assert partial[..partialLen] == text;
      return false;
    }

    /**
      Lines 188-208: consume every complete line of the terminated text,
      then move what follows the last of them to the front.  What is left
      is the C string's unterminated tail and the bytes after its NUL.
    */
    method Drain()
      requires partial.Length == BufferSize && 0 <= partialLen < BufferSize && partial[partialLen] == NUL
      requires table.Valid() && LineFree(table.entries)
      modifies this, partial, table
      ensures Valid() && eof == old(eof)
      ensures var text := old(partial[..partialLen]); var c := CStr(text);
        partial[..partialLen] == Rest(c) + text[|c|..] &&
        table.entries == AddLines(old(table.entries), Lines(c))
    {
      var total := partialLen;
      ghost var text := partial[..total];
      var start := ConsumeLines(total);
      ghost var after := partial[..];
      partialLen := total - start;
      if partialLen > 0 {
        MoveTail(start, total);
      }
      CompactedNoLine(after, partial[..], text, start, total, partialLen);
      assert partial[..partialLen] == after[start..total];
      KeptTail(text, start, partial[..partialLen]);
    }

    /** `memcpy(partial_line + at, buffer, n)`. */
    method CopyIn(at: int, chunk: seq<Byte>)
      requires 0 <= at && at + |chunk| <= partial.Length
      modifies partial
      ensures partial[..at + |chunk|] == old(partial[..at]) + chunk
    {
      forall i | 0 <= i < |chunk| {
        partial[at + i] := chunk[i];
      }
      assert forall i :: 0 <= i < at ==> partial[i] == old(partial[i]);
    }

    /** `memmove(partial_line, start, total - start)`. */
    method MoveTail(start: int, total: int)
      requires 0 <= start <= total <= partial.Length
      modifies partial
      ensures partial[..total - start] == old(partial[start..total])
      ensures partial[total - start..] == old(partial[total - start..])
    {
      forall i | 0 <= i < total - start {
        partial[i] := partial[start + i];
      }
    }

    /**
      `while ((newline = strchr(start, '\n')))` over the `total` bytes in
      `partial_line`: the lines consumed are those of the C string the
      buffer held, in order, and what is left from `start` on is its tail.
      Only NULs are written, and only over consumed bytes.
    */
    method ConsumeLines(total: int) returns (start: int)
      requires partial.Length == BufferSize && 0 <= total < BufferSize && partial[total] == NUL
      requires table.Valid() && LineFree(table.entries)
      modifies partial, table
      ensures table.Valid() && LineFree(table.entries)
      ensures var c := CStr(old(partial[..total]));
        0 <= start <= |c| && c[start..] == Rest(c) && NoNewline(c[start..]) &&
        table.entries == AddLines(old(table.entries), Lines(c))
      ensures partial[start..total] == old(partial[..total])[start..] && partial[total] == NUL
      ensures NoNewline(partial[..start])
    {
      ghost var text := partial[..total];
      ghost var e0 := table.entries;
      ghost var done: seq<seq<Byte>> := [];
      ghost var tail := CStr(text);
      start := 0;
      ScanStart(partial[..], text, total, e0);
      var newline := StrChrAt(partial[..], start, NEWLINE);
      while newline.Some?
        invariant Scanned(partial[..], text, start, tail, done, table.entries, e0)
        invariant table.Valid()
        invariant newline == StrChrAt(partial[..], start, NEWLINE)
        decreases total - start
      {
        ghost var buf0, es0 := partial[..], table.entries;
        var nl := newline.value;
        FoundLine(buf0, text, start, tail, done, es0, e0, nl);
        ghost var line := tail[..nl - start];
        ConsumeLine(start, nl, line);
        ScanStep(buf0, partial[..], text, start, tail, done, es0, table.entries, e0, nl);
        done := done + [line];
        tail := tail[nl - start + 1..];
        start := nl + 1;
        newline := StrChrAt(partial[..], start, NEWLINE);
      }
      ScanEnd(partial[..], text, start, tail, done, table.entries, e0);
    }

    /**
      One pass of that loop, for the line between `start` and the newline
      at `nl`: the newline becomes NUL; if the line has a space, the last
      one becomes NUL too and `add_word(word, atoi(space + 1))` is called
      with the text before it cut to 255 bytes.
    */
    method ConsumeLine(start: int, nl: int, ghost line: seq<Byte>)
      requires 0 <= start <= nl < partial.Length && partial[start..nl] == line && NoNul(line)
      requires table.Valid()
      modifies partial, table
      ensures table.Valid() && table.entries == AddLine(old(table.entries), line)
      ensures partial[nl] == NUL
      ensures forall i :: 0 <= i < partial.Length && partial[i] != old(partial[i]) ==>
        start <= i <= nl && partial[i] == NUL
    {
      partial[nl] := NUL;
      CutLine(partial[..], line, start, nl);
      var space := StrRChrAt(partial[..], start, SPACE);
      if space.Some? {
        var sp := space.value;
        ghost var buf1 := partial[..];
        partial[sp] := NUL;
        SpaceSplit(buf1, partial[..], line, start, nl, sp);
        var count := Atoi(partial[sp + 1..nl]);
        var word := Take(partial[start..sp], MaxWord);
        table.AddWord(Some(word), count);
      }
    }

    /**
      One pass of the loop for the first of the reads `results`: a read of
      bytes is fed, end of input sets `eof_reached`, a read that would
      block is retried and any other error ends the reducer.
    */
    method Step(results: seq<ReadResult>) returns (failed: bool)
      requires Valid() && !(eof && partialLen == 0) && results != []
      requires results[0].Got? ==> 0 < |results[0].bytes| <= BufferSize - 1
      modifies this, partial, table
      ensures failed <==> results[0].Failure?
      ensures failed ==> Loop(old(State()), old(eof), results) == Aborted
      ensures !failed ==> Valid() && Loop(old(State()), old(eof), results) == Loop(State(), eof, results[1..])
    {
      ghost var st, eof0 := State(), eof;
      match results[0] {
        case Got(bytes) =>
          ShortReadFits(partialLen, |bytes|);
          var overrun := Feed(bytes);
          LoopGot(st, eof0, results, bytes);
          failed := false;
        case EndOfInput =>
          eof := true;
          LoopEnd(st, eof0, results);
          failed := false;
        case Retry =>
          LoopRetry(st, eof0, results);
          failed := false;
        case Failure =>
          failed := true;
      }
    }

    /**
      `output_results`: count the list, copy it into an array, sort the
      array with `mergeSort(arr, 0, count - 1)` and print one line per
      entry.  The output is the table sorted by `mergeSort`, rendered.
    */
    method OutputResults() returns (out: seq<Byte>)
      requires Valid()
      ensures out == Output(table.entries)
    {
      var es := table.entries;
      var count := 0;
      while count < |es|
        invariant 0 <= count <= |es|
      {
        count := count + 1;
      }
      var arr := new Entry[count];
      var i := 0;
      while i < count
        invariant 0 <= i <= count && arr[..i] == es[..i]
      {
        arr[i] := es[i];
        i := i + 1;
      }
      assert arr[..] == es;
      MergeSort(arr, 0, count - 1);
      SortedWhole(es, arr[..]);
      out := PrintEntries(arr);
    }
  }

  /** The `printf("%s %d\n", ...)` loop over the sorted array. */
  method PrintEntries(arr: array<Entry>) returns (out: seq<Byte>)
    ensures out == Render(arr[..])
  {
    out := [];
    var i := 0;
    while i < arr.Length
      invariant 0 <= i <= arr.Length && out == Render(arr[..i])
    {
      RenderSnoc(arr[..i], arr[i]);
      assert arr[..i + 1] == arr[..i] + [arr[i]];
      out := out + EncodeRecord(arr[i].word, arr[i].count);
      i := i + 1;
    }
    assert arr[..i] == arr[..];
  }

  /**
    The reducer's `main` over the reads it is handed, asking `read` for at
    most BUFFER_SIZE - 1 bytes so that the terminator always fits: the loop
    runs until end of input has been seen with nothing retained, then
    `output_results` prints the table.
  */
  method Run(results: seq<ReadResult>) returns (outcome: Outcome)
    requires forall i :: 0 <= i < |results| && results[i].Got? ==> 0 < |results[i].bytes| <= BufferSize - 1
    ensures outcome == Loop(Progress([], []), false, results)
  {
    var r := new Reducer();
    var i := 0;
    while !r.eof || r.partialLen > 0
      invariant fresh(r) && fresh(r.partial) && fresh(r.table)
      invariant r.Valid() && 0 <= i <= |results|
      invariant Loop(r.State(), r.eof, results[i..]) == Loop(Progress([], []), false, results)
      decreases |results| - i
    {
      if i == |results| {
        return Waiting;
      }
      assert results[i..][0] == results[i] && results[i..][1..] == results[i + 1..];
      var failed := r.Step(results[i..]);
      if failed {
        return Aborted;
      }
      i := i + 1;
    }
    var out := r.OutputResults();
    outcome := Exited(out);
  }

  lemma LoopGot(st: Progress, eof: bool, rs: seq<ReadResult>, bytes: seq<Byte>)
    requires !(eof && st.pending == []) && rs != [] && rs[0] == Got(bytes)
    ensures Loop(st, eof, rs) == Loop(Fed(st, bytes), eof, rs[1..])
  {
  }

  lemma LoopEnd(st: Progress, eof: bool, rs: seq<ReadResult>)
    requires !(eof && st.pending == []) && rs != [] && rs[0] == EndOfInput
    ensures Loop(st, eof, rs) == Loop(st, true, rs[1..])
  {
  }

  lemma LoopRetry(st: Progress, eof: bool, rs: seq<ReadResult>)
    requires !(eof && st.pending == []) && rs != [] && rs[0] == Retry
    ensures Loop(st, eof, rs) == Loop(st, eof, rs[1..])
  {
  }

  // ---------------------------------------------------------------------
  // Facts about the buffer.

  /** The buffer invariant rules out the newline search of the overflow branch. */
  lemma NoLineFound(s: seq<Byte>)
    requires NoLineInBuffer(s)
    ensures StrChrAt(s, 0, NEWLINE).None?
  {
    assert s[0..] == s;
  }

  /** A NUL with no newline before it ends the search for one. */
  lemma NoLineUpTo(s: seq<Byte>, q: int)
    requires 0 <= q < |s| && s[q] == NUL && NoNewline(s[..q])
    ensures NoLineInBuffer(s)
  {
    var z := FirstIndex(s, NUL);
    assert forall i :: 0 <= i < z ==> CStr(s)[i] == s[i];
  }

  /** Where the unconsumed bytes still sit, the C string at `from` is the text's. */
  lemma CStrWindow(buf: seq<Byte>, text: seq<Byte>, from: int, total: int)
    requires total == |text| < |buf| && buf[total] == NUL
    requires 0 <= from <= |CStr(text)| && buf[from..total] == text[from..]
    ensures CStr(buf[from..]) == CStr(text)[from..]
  {
    var z := |CStr(text)|;
    var w := buf[from..];
    assert forall i :: 0 <= i < total - from ==> w[i] == text[from + i];
    assert w[z - from] == NUL;
    assert FirstIndex(w, NUL) == z - from;
  }

  /**
    The state of the line loop over the terminated text `text`: the buffer
    holds its bytes from `from` on and its terminator, no newline is left
    before `from`, `tail` is what remains of the C string, and the lines
    before it went into the table in order.
  */
  ghost predicate Scanned(buf: seq<Byte>, text: seq<Byte>, from: int, tail: seq<Byte>,
                          done: seq<seq<Byte>>, es: seq<Entry>, e0: seq<Entry>)
  {
    var c := CStr(text);
    |text| < |buf| && 0 <= from <= |c| && tail == c[from..] &&
    buf[from..|text|] == text[from..] && buf[|text|] == NUL && NoNewline(buf[..from]) &&
    Lines(c) == done + Lines(tail) && Rest(c) == Rest(tail) &&
    LineFree(es) && es == AddLines(e0, done)
  }

  lemma ScanStart(buf: seq<Byte>, text: seq<Byte>, total: int, e0: seq<Entry>)
    requires total == |text| < |buf| && buf[..total] == text && buf[total] == NUL && LineFree(e0)
    ensures Scanned(buf, text, 0, CStr(text), [], e0, e0)
  {
    var c := CStr(text);
    assert c[0..] == c && text[0..] == text && buf[0..total] == buf[..total];
  }

  /**
    The newline `strchr` finds ends the next line of the C string, which
    the buffer holds from `from` on.
  */
  lemma FoundLine(buf: seq<Byte>, text: seq<Byte>, from: int, tail: seq<Byte>,
                  done: seq<seq<Byte>>, es: seq<Entry>, e0: seq<Entry>, nl: int)
    requires Scanned(buf, text, from, tail, done, es, e0)
    requires StrChrAt(buf, from, NEWLINE) == Some(nl)
    ensures from <= nl < |buf| && nl - from == FirstIndex(tail, NEWLINE) < |tail|
    ensures buf[from..nl] == tail[..nl - from] && NoNul(tail[..nl - from]) && NoNewline(tail[..nl - from])
  {
    FoundInWindow(buf, text, from, tail, nl);
  }

  lemma FoundInWindow(buf: seq<Byte>, text: seq<Byte>, from: int, tail: seq<Byte>, nl: int)
    requires |text| < |buf| && buf[|text|] == NUL
    requires 0 <= from <= |CStr(text)| && buf[from..|text|] == text[from..] && tail == CStr(text)[from..]
    requires StrChrAt(buf, from, NEWLINE) == Some(nl)
    ensures from <= nl < |buf| && nl - from == FirstIndex(tail, NEWLINE) < |tail|
    ensures buf[from..nl] == tail[..nl - from] && NoNul(tail[..nl - from]) && NoNewline(tail[..nl - from])
  {
    CStrWindow(buf, text, from, |text|);
    var k := nl - from;
    LinePrefix(buf[from..], tail, k);
    assert buf[from..][..k] == buf[from..nl];
  }

  /** The bytes before the first newline of a C string are those of the buffer it starts. */
  lemma LinePrefix(w: seq<Byte>, t: seq<Byte>, k: int)
    requires t == CStr(w) && 0 <= k == FirstIndex(t, NEWLINE) < |t|
    ensures t[..k] == w[..k] && NoNul(t[..k]) && NoNewline(t[..k])
  {
    assert forall i :: 0 <= i < k ==> t[..k][i] == t[i] == w[i];
  }

  /**
    Consuming the line up to `nl`, which writes NUL only inside it, moves
    the loop state on past it.
  */
  lemma ScanStep(buf0: seq<Byte>, buf: seq<Byte>, text: seq<Byte>, from: int, tail: seq<Byte>,
                 done: seq<seq<Byte>>, es0: seq<Entry>, es: seq<Entry>, e0: seq<Entry>, nl: int)
    requires Scanned(buf0, text, from, tail, done, es0, e0)
    requires StrChrAt(buf0, from, NEWLINE) == Some(nl)
    requires |buf| == |buf0| && 0 <= nl < |buf| && buf[nl] == NUL
    requires forall i :: 0 <= i < |buf| && buf[i] != buf0[i] ==> from <= i <= nl && buf[i] == NUL
    requires 0 <= nl - from <= |tail| && es == AddLine(es0, tail[..nl - from])
    ensures 0 <= nl - from + 1 <= |tail|
    ensures Scanned(buf, text, nl + 1, tail[nl - from + 1..], done + [tail[..nl - from]], es, e0)
  {
    FoundLine(buf0, text, from, tail, done, es0, e0, nl);
    var k := nl - from;
    var line := tail[..k];
    var c := CStr(text);
    BufferStep(buf0, buf, text, from, nl, |text|, line);
    TailStep(c, done, tail, k);
    DropFurther(c, from, tail, k + 1);
    AddLinesSnoc(e0, done, line);
    AddLineLineFree(es0, line);
  }

  /** When `strchr` finds no newline, every line of the C string is consumed. */
  lemma ScanEnd(buf: seq<Byte>, text: seq<Byte>, from: int, tail: seq<Byte>,
                done: seq<seq<Byte>>, es: seq<Entry>, e0: seq<Entry>)
    requires Scanned(buf, text, from, tail, done, es, e0)
    requires StrChrAt(buf, from, NEWLINE).None?
    ensures var c := CStr(text);
      0 <= from <= |c| && c[from..] == Rest(c) && NoNewline(c[from..]) &&
      es == AddLines(e0, Lines(c)) && LineFree(es)
    ensures buf[from..|text|] == text[from..] && buf[|text|] == NUL && NoNewline(buf[..from])
  {
    CStrWindow(buf, text, from, |text|);
    LinesOfLineFree(tail);
    assert done + [] == done;
  }

  /** One consumed line: the lines and the tail still to come, one step on. */
  lemma TailStep(c: seq<Byte>, done: seq<seq<Byte>>, tail: seq<Byte>, k: nat)
    requires k == FirstIndex(tail, NEWLINE) < |tail|
    requires Lines(c) == done + Lines(tail) && Rest(c) == Rest(tail)
    ensures Lines(c) == (done + [tail[..k]]) + Lines(tail[k + 1..]) && Rest(c) == Rest(tail[k + 1..])
  {
    LinesUnfold(tail, k);
    RestUnfold(tail, k);
    TakeHead(done, tail[..k], Lines(tail), Lines(tail[k + 1..]), Lines(c));
  }

  /** With its newline overwritten, the line is the C string at `from`. */
  lemma CutLine(buf: seq<Byte>, line: seq<Byte>, from: int, nl: int)
    requires 0 <= from <= nl < |buf| && buf[from..nl] == line && buf[nl] == NUL && NoNul(line)
    ensures CStr(buf[from..]) == line
  {
    var w := buf[from..];
    assert forall i :: 0 <= i < nl - from ==> w[i] == line[i];
    assert w[nl - from] == NUL;
    assert FirstIndex(w, NUL) == nl - from;
  }

  /**
    Overwriting the last space splits the line into the word before it and
    the count text after it, which is the record the line carries.
  */
  lemma SpaceSplit(buf1: seq<Byte>, buf2: seq<Byte>, line: seq<Byte>, from: int, nl: int, sp: int)
    requires 0 <= from <= nl < |buf1| && buf1[from..nl] == line
    requires CStr(buf1[from..]) == line && StrRChrAt(buf1, from, SPACE) == Some(sp)
    requires buf2 == buf1[sp := NUL]
    ensures from <= sp < nl
    ensures LineRecord(line) == Some((Take(buf2[from..sp], MaxWord), Atoi(buf2[sp + 1..nl])))
  {
    assert LastIndex(line, SPACE) == Some(sp - from);
    assert buf2[from..sp] == line[..sp - from];
    assert buf2[sp + 1..nl] == line[sp - from + 1..];
  }

  /** Dropping more of a suffix is dropping more of the whole. */
  lemma DropFurther<T>(c: seq<T>, from: int, tail: seq<T>, n: int)
    requires 0 <= from <= |c| && tail == c[from..] && 0 <= n <= |tail|
    ensures from + n <= |c| && tail[n..] == c[from + n..]
  {
  }

  /**
    Consuming a line writes NUL only inside it, so the bytes after it are
    intact and no newline is left before them.
  */
  lemma BufferStep(buf0: seq<Byte>, buf: seq<Byte>, text: seq<Byte>, from: int, nl: int, total: int,
                   line: seq<Byte>)
    requires |buf| == |buf0| && total == |text| < |buf0| && 0 <= from <= nl < total
    requires buf0[from..total] == text[from..] && buf0[total] == NUL
    requires NoNewline(buf0[..from]) && buf0[from..nl] == line && NoNewline(line)
    requires buf[nl] == NUL
    requires forall i :: 0 <= i < |buf| && buf[i] != buf0[i] ==> from <= i <= nl && buf[i] == NUL
    ensures buf[nl + 1..total] == text[nl + 1..] && buf[total] == NUL
    ensures NoNewline(buf[..nl + 1])
  {
    assert forall i :: from <= i < nl ==> buf0[i] == buf0[from..nl][i - from] == line[i - from];
    assert forall i :: 0 <= i < from ==> buf0[i] == buf0[..from][i];
  }

  /**
    After the tail is moved to the front, `strchr(partial_line, '\n')`
    still meets the terminator first: the tail's C string holds no
    newline, and if the tail has no NUL the consumed bytes behind it hold
    none either, up to the terminator at `total`.
  */
  lemma CompactedNoLine(buf3: seq<Byte>, buf4: seq<Byte>, text: seq<Byte>, start: int, total: int, len: int)
    requires |buf4| == |buf3| && total == |text| < |buf3|
    requires 0 <= start <= |CStr(text)| && len == total - start
    requires buf3[start..total] == text[start..] && buf3[total] == NUL && NoNewline(buf3[..start])
    requires NoNewline(CStr(text)[start..])
    requires buf4[..len] == buf3[start..total] && buf4[len..] == buf3[len..]
    ensures NoLineInBuffer(buf4)
  {
    var c := CStr(text);
    var z := |c|;
    if z < total {
      assert buf4[z - start] == text[z] == NUL;
      assert forall i :: 0 <= i < z - start ==> buf4[i] == c[start + i];
      NoLineUpTo(buf4, z - start);
    } else {
      assert forall i :: 0 <= i < len ==> buf4[i] == c[start + i];
      assert forall i :: len <= i < total ==> buf4[i] == buf3[i];
      assert forall i :: start <= i < total ==> buf3[i] == c[i];
      NoLineUpTo(buf4, total);
    }
  }

  /** What stays in the buffer is the tail of the C string plus the bytes after it. */
  lemma KeptTail(text: seq<Byte>, start: int, kept: seq<Byte>)
    requires 0 <= start <= |CStr(text)| && kept == text[start..]
    ensures kept == CStr(text)[start..] + text[|CStr(text)|..]
  {
  }

  /** Sorting the whole array sorts the table. */
  lemma SortedWhole(es: seq<Entry>, sorted: seq<Entry>)
    requires sorted == SortedRange(es, 0, |es| - 1)
    ensures sorted == SortDesc(es)
  {
    assert es[0..|es|] == es;
  }

  lemma {:induction false} RenderSnoc(es: seq<Entry>, e: Entry)
    ensures Render(es + [e]) == Render(es) + EncodeRecord(e.word, e.count)
    decreases |es|
  {
    if es == [] {
      assert [] + [e] == [e];
    } else {
      assert (es + [e])[1..] == es[1..] + [e];
      RenderSnoc(es[1..], e);
    }
  }
}
