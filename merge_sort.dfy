/**
  The reducer's final sort: a top-down merge sort of the table entries
  in place, ordered by `strcmp` on the words.  The merge takes from the
  left run while `strcmp(left, right) >= 0`, so the result is in
  non-increasing order and equal words keep their left-to-right order.
*/
module Sorting {
  import opened Bytes
  import opened Aggregate

  /** The sign of `strcmp(a, b)`, bytes compared as unsigned char. */
  function StrCmp(a: seq<Byte>, b: seq<Byte>): (r: int)
    ensures -1 <= r <= 1
  {
    if a == [] && b == [] then 0
    else if a == [] then -1
    else if b == [] then 1
    else if a[0] < b[0] then -1
    else if a[0] > b[0] then 1
    else StrCmp(a[1..], b[1..])
  }

  lemma {:induction false} StrCmpAntisymmetric(a: seq<Byte>, b: seq<Byte>)
    ensures StrCmp(a, b) == -StrCmp(b, a)
    decreases |a|
  {
    if a != [] && b != [] && a[0] == b[0] {
      StrCmpAntisymmetric(a[1..], b[1..]);
    }
  }

  lemma {:induction false} StrCmpZero(a: seq<Byte>, b: seq<Byte>)
    ensures StrCmp(a, b) == 0 <==> a == b
    decreases |a|
  {
    if a != [] && b != [] && a[0] == b[0] {
      StrCmpZero(a[1..], b[1..]);
      if a[1..] == b[1..] {
        assert a == [a[0]] + a[1..] && b == [b[0]] + b[1..];
      }
    }
  }

  lemma {:induction false} StrCmpTransitive(a: seq<Byte>, b: seq<Byte>, c: seq<Byte>)
    requires StrCmp(a, b) >= 0 && StrCmp(b, c) >= 0
    ensures StrCmp(a, c) >= 0
    decreases |a|
  {
    if a != [] && b != [] && c != [] && a[0] == b[0] == c[0] {
      StrCmpTransitive(a[1..], b[1..], c[1..]);
    }
  }

  /** `compare(a, b) >= 0`: `a` may come before `b` in the output. */
  predicate AtLeast(x: Entry, y: Entry)
  {
    StrCmp(x.word, y.word) >= 0
  }

  /** Non-increasing under `strcmp`. */
  predicate SortedDesc(s: seq<Entry>)
  {
    forall i, j :: 0 <= i < j < |s| ==> AtLeast(s[i], s[j])
  }

  /** `merge`: the left run is taken while its head compares `>= 0`. */
  function MergeDesc(l: seq<Entry>, r: seq<Entry>): (m: seq<Entry>)
    ensures |m| == |l| + |r|
    decreases |l| + |r|
  {
    if l == [] then r
    else if r == [] then l
    else if AtLeast(l[0], r[0]) then [l[0]] + MergeDesc(l[1..], r)
    else [r[0]] + MergeDesc(l, r[1..])
  }

  /** `mergeSort`: the left half gets the extra element of an odd run. */
  function SortDesc(s: seq<Entry>): (r: seq<Entry>)
    ensures |r| == |s|
    decreases |s|
  {
    if |s| <= 1 then s
    else
      var h := (|s| + 1) / 2;
      MergeDesc(SortDesc(s[..h]), SortDesc(s[h..]))
  }

  lemma {:induction false} MergeDescPermutes(l: seq<Entry>, r: seq<Entry>)
    ensures multiset(MergeDesc(l, r)) == multiset(l) + multiset(r)
    decreases |l| + |r|
  {
    if l != [] && r != [] {
      MergeDescUnfold(l, r);
      if AtLeast(l[0], r[0]) {
        MergeDescPermutes(l[1..], r);
        ConsPermutes(l[0], MergeDesc(l[1..], r), l[1..], r);
        HeadTail(l);
      } else {
        MergeDescPermutes(l, r[1..]);
        ConsPermutes(r[0], MergeDesc(l, r[1..]), r[1..], l);
        HeadTail(r);
      }
    }
  }

  /** One step of `MergeDesc` on two non-empty runs. */
  lemma MergeDescUnfold(l: seq<Entry>, r: seq<Entry>)
    requires l != [] && r != []
    ensures AtLeast(l[0], r[0]) ==> MergeDesc(l, r) == [l[0]] + MergeDesc(l[1..], r)
    ensures !AtLeast(l[0], r[0]) ==> MergeDesc(l, r) == [r[0]] + MergeDesc(l, r[1..])
  {
  }

  lemma ConsPermutes<T>(x: T, m: seq<T>, a: seq<T>, b: seq<T>)
    requires multiset(m) == multiset(a) + multiset(b)
    ensures multiset([x] + m) == multiset([x] + a) + multiset(b)
    ensures multiset([x] + m) == multiset(b) + multiset([x] + a)
  {
  }

  /** Everything `x` dominates in both runs it dominates in the merge. */
  lemma {:induction false} MergeDescBound(x: Entry, l: seq<Entry>, r: seq<Entry>)
    requires forall i :: 0 <= i < |l| ==> AtLeast(x, l[i])
    requires forall i :: 0 <= i < |r| ==> AtLeast(x, r[i])
    ensures forall i :: 0 <= i < |MergeDesc(l, r)| ==> AtLeast(x, MergeDesc(l, r)[i])
    decreases |l| + |r|
  {
    if l != [] && r != [] {
      if AtLeast(l[0], r[0]) {
        MergeDescBound(x, l[1..], r);
      } else {
        MergeDescBound(x, l, r[1..]);
      }
    }
  }

  lemma {:induction false} MergeDescSorted(l: seq<Entry>, r: seq<Entry>)
    requires SortedDesc(l) && SortedDesc(r)
    ensures SortedDesc(MergeDesc(l, r))
    decreases |l| + |r|
  {
    if l != [] && r != [] {
      var m := MergeDesc(l, r);
      if AtLeast(l[0], r[0]) {
        MergeDescSorted(l[1..], r);
        forall i | 0 <= i < |r| ensures AtLeast(l[0], r[i]) {
          if i > 0 {
            StrCmpTransitive(l[0].word, r[0].word, r[i].word);
          }
        }
        MergeDescBound(l[0], l[1..], r);
      } else {
        MergeDescSorted(l, r[1..]);
        StrCmpAntisymmetric(l[0].word, r[0].word);
        forall i | 0 <= i < |l| ensures AtLeast(r[0], l[i]) {
          if i > 0 {
            StrCmpTransitive(r[0].word, l[0].word, l[i].word);
          }
        }
        MergeDescBound(r[0], l, r[1..]);
      }
    }
  }

  /** On equal heads the left run's element is emitted first. */
  lemma MergeDescPrefersLeft(l: seq<Entry>, r: seq<Entry>)
    requires l != [] && r != [] && l[0].word == r[0].word
    ensures MergeDesc(l, r)[0] == l[0]
  {
    StrCmpZero(l[0].word, r[0].word);
  }

  /** The sort yields a non-increasing sequence ... */
  lemma {:induction false} SortDescSorted(s: seq<Entry>)
    ensures SortedDesc(SortDesc(s))
    decreases |s|
  {
    if |s| > 1 {
      var h := (|s| + 1) / 2;
      SortDescSorted(s[..h]);
      SortDescSorted(s[h..]);
      MergeDescSorted(SortDesc(s[..h]), SortDesc(s[h..]));
    }
  }

  /** ... that is a permutation of its input. */
  lemma {:induction false} SortDescPermutes(s: seq<Entry>)
    ensures multiset(SortDesc(s)) == multiset(s)
    decreases |s|
  {
    if |s| > 1 {
      var h := (|s| + 1) / 2;
      var left, right := SortDesc(s[..h]), SortDesc(s[h..]);
      SortDescUnfold(s, h);
      MergeDescPermutes(left, right);
      SortDescPermutes(s[..h]);
      SortDescPermutes(s[h..]);
      SplitJoin(s, h);
      SplitPermutes(SortDesc(s), left, right, s[..h], s[h..], s);
    }
  }

  lemma SortDescUnfold(s: seq<Entry>, h: int)
    requires |s| > 1 && h == (|s| + 1) / 2
    ensures SortDesc(s) == MergeDesc(SortDesc(s[..h]), SortDesc(s[h..]))
  {
  }

  lemma SplitPermutes<T>(m: seq<T>, x: seq<T>, y: seq<T>, p: seq<T>, q: seq<T>, s: seq<T>)
    requires multiset(m) == multiset(x) + multiset(y)
    requires multiset(x) == multiset(p) && multiset(y) == multiset(q)
    requires p + q == s
    ensures multiset(m) == multiset(s)
  {
  }

  /** With distinct words the order is strictly decreasing. */
  lemma SortDescStrict(s: seq<Entry>, i: int, j: int)
    requires forall a, b :: 0 <= a < b < |s| ==> s[a].word != s[b].word
    requires 0 <= i < j < |SortDesc(s)|
    ensures StrCmp(SortDesc(s)[i].word, SortDesc(s)[j].word) > 0
  {
    var t := SortDesc(s);
    SortDescSorted(s);
    SortDescPermutes(s);
    DistinctPermutation(s, t, i, j);
    StrCmpZero(t[i].word, t[j].word);
  }

  /** A permutation of a sequence with distinct words has distinct words. */
  lemma DistinctPermutation(s: seq<Entry>, t: seq<Entry>, i: int, j: int)
    requires forall a, b :: 0 <= a < b < |s| ==> s[a].word != s[b].word
    requires multiset(t) == multiset(s)
    requires 0 <= i < j < |t|
    ensures t[i].word != t[j].word
  {
    if t[i].word == t[j].word {
      assert t[i] in multiset(s) && t[j] in multiset(s);
      var a :| 0 <= a < |s| && s[a] == t[i];
      var b :| 0 <= b < |s| && s[b] == t[j];
      if a == b {
        DistinctCount(s, a);
        CountedTwice(t, i, j);
        assert false;
      }
    }
  }

  lemma CountedTwice(t: seq<Entry>, i: int, j: int)
    requires 0 <= i < j < |t| && t[i] == t[j]
    ensures multiset(t)[t[i]] >= 2
  {
    var u := t[i + 1..];
    assert t == t[..i] + [t[i]] + u;
    assert u[j - i - 1] == t[j];
    assert t[i] in multiset(u);
  }

  lemma {:induction false} DistinctCount(s: seq<Entry>, a: int)
    requires forall x, y :: 0 <= x < y < |s| ==> s[x].word != s[y].word
    requires 0 <= a < |s|
    ensures multiset(s)[s[a]] == 1
    decreases |s|
  {
    var e := s[a];
    var rest := s[..a] + s[a + 1..];
    assert s == s[..a] + [e] + s[a + 1..];
    assert e !in rest by {
      forall k | 0 <= k < |rest| ensures rest[k] != e {
        if k < a {
          assert rest[k] == s[k];
        } else {
          assert rest[k] == s[k + 1];
        }
      }
    }
    assert multiset(s) == multiset(rest) + multiset{e};
  }

  /** Taking the left head is what `MergeDesc` does next. */
  lemma MergeTakesLeft(l: seq<Entry>, r: seq<Entry>, i: int, j: int)
    requires 0 <= i < |l| && 0 <= j <= |r|
    requires j == |r| || AtLeast(l[i], r[j])
    ensures MergeDesc(l[i..], r[j..]) == [l[i]] + MergeDesc(l[i + 1..], r[j..])
  {
    assert l[i..][1..] == l[i + 1..];
    assert l[i..][0] == l[i];
    if j == |r| {
      assert r[j..] == [];
      assert l[i + 1..] == [] ==> MergeDesc(l[i + 1..], r[j..]) == [];
    }
  }

  /** Taking the right head is what `MergeDesc` does next. */
  lemma MergeTakesRight(l: seq<Entry>, r: seq<Entry>, i: int, j: int)
    requires 0 <= i <= |l| && 0 <= j < |r|
    requires i == |l| || !AtLeast(l[i], r[j])
    ensures MergeDesc(l[i..], r[j..]) == [r[j]] + MergeDesc(l[i..], r[j + 1..])
  {
    assert r[j..][1..] == r[j + 1..];
    assert r[j..][0] == r[j];
    if i == |l| {
      assert l[i..] == [];
    }
  }

  /** `s` with `s[at..at + |piece|]` overwritten by `piece`. */
  function Splice<T>(s: seq<T>, at: int, piece: seq<T>): (r: seq<T>)
    requires 0 <= at && at + |piece| <= |s|
    ensures |r| == |s|
  {
    s[..at] + piece + s[at + |piece|..]
  }

  /** The array after `merge(arr, left, mid, right)`: both runs merged in place. */
  function MergedRange(s: seq<Entry>, left: int, mid: int, right: int): (r: seq<Entry>)
    requires 0 <= left <= mid < right < |s|
    ensures |r| == |s|
  {
    Splice(s, left, MergeDesc(s[left..mid + 1], s[mid + 1..right + 1]))
  }

  /** The array after `mergeSort(arr, left, right)`: the range sorted in place. */
  function SortedRange(s: seq<Entry>, left: int, right: int): (r: seq<Entry>)
    requires 0 <= left <= right + 1 <= |s|
    ensures |r| == |s|
  {
    Splice(s, left, SortDesc(s[left..right + 1]))
  }

  /**
    The first loop of `merge`: while both runs have elements, write the
    larger head (the left one on ties) at `arr[k]`.  Stops when one run is
    used up; what is written so far followed by the merge of what is left
    is the merge of both runs.
  */
  method MergeHeads(a: array<Entry>, L: seq<Entry>, R: seq<Entry>, left: int) returns (i: int, j: int)
    requires 0 <= left && left + |L| + |R| <= a.Length
    modifies a
    ensures 0 <= i <= |L| && 0 <= j <= |R| && (i == |L| || j == |R|)
    ensures a[left..left + i + j] + MergeDesc(L[i..], R[j..]) == MergeDesc(L, R)
    ensures a[..] == Splice(old(a[..]), left, a[left..left + i + j])
  {
    ghost var out: seq<Entry> := [];
    i, j := 0, 0;
    var k := left;
    SpliceFromPointwise(a[..], a[..], left, out);
    while i < |L| && j < |R|
      invariant 0 <= i <= |L| && 0 <= j <= |R| && k == left + i + j && |out| == i + j
      invariant a[..] == Splice(old(a[..]), left, out)
      invariant out + MergeDesc(L[i..], R[j..]) == MergeDesc(L, R)
    {
      ghost var a0, out0, i0, j0 := a[..], out, i, j;
      var x;
      if AtLeast(L[i], R[j]) {
        x := L[i];
        i := i + 1;
      } else {
        x := R[j];
        j := j + 1;
      }
      a[k] := x;
      out := out + [x];
      k := k + 1;
      MergeStep(L, R, i0, j0, out0, i, j, out);
      SpliceSnoc(a0, old(a[..]), left, out0, x, a[..]);
    }
    SpliceSlice(a[..], old(a[..]), left, out);
  }

  /** One pass of `merge`'s first loop keeps the merged prefix in step with the runs. */
  lemma MergeStep(L: seq<Entry>, R: seq<Entry>, i0: int, j0: int, out0: seq<Entry>, i: int, j: int, out: seq<Entry>)
    requires 0 <= i0 < |L| && 0 <= j0 < |R|
    requires out0 + MergeDesc(L[i0..], R[j0..]) == MergeDesc(L, R)
    requires AtLeast(L[i0], R[j0]) ==> i == i0 + 1 && j == j0 && out == out0 + [L[i0]]
    requires !AtLeast(L[i0], R[j0]) ==> i == i0 && j == j0 + 1 && out == out0 + [R[j0]]
    ensures out + MergeDesc(L[i..], R[j..]) == MergeDesc(L, R)
  {
    if AtLeast(L[i0], R[j0]) {
      MergeTakesLeft(L, R, i0, j0);
      TakeHead(out0, L[i0], MergeDesc(L[i0..], R[j0..]), MergeDesc(L[i..], R[j..]), MergeDesc(L, R));
    } else {
      MergeTakesRight(L, R, i0, j0);
      TakeHead(out0, R[j0], MergeDesc(L[i0..], R[j0..]), MergeDesc(L[i..], R[j..]), MergeDesc(L, R));
    }
  }

  /**
    The copy loops of `merge`: the rest `run[from..]` of one run is
    written at `arr[k]` onwards.
  */
  method CopyRest(a: array<Entry>, run: seq<Entry>, from: int, k: int)
    requires 0 <= from <= |run| && 0 <= k && k + |run| - from <= a.Length
    modifies a
    ensures a[..] == Splice(old(a[..]), k, run[from..])
  {
    var i, p := from, k;
    while i < |run|
      invariant from <= i <= |run| && p == k + i - from
      invariant forall t :: k <= t < p ==> a[t] == run[t - k + from]
      invariant forall t :: 0 <= t < a.Length && !(k <= t < p) ==> a[t] == old(a[t])
    {
      a[p] := run[i];
      i := i + 1;
      p := p + 1;
    }
    SpliceFromPointwise(a[..], old(a[..]), k, run[from..]);
  }

  /**
    `merge(arr, left, mid, right)`: copy both runs out into `L` and `R`,
    then write their merge back over `arr[left..right]`.
  */
  method Merge(a: array<Entry>, left: int, mid: int, right: int)
    requires 0 <= left <= mid < right < a.Length
    modifies a
    ensures a[..] == MergedRange(old(a[..]), left, mid, right)
  {
    var L := a[left..mid + 1];
    var R := a[mid + 1..right + 1];
    ghost var a0 := a[..];
    var i, j := MergeHeads(a, L, R, left);
    ghost var a1 := a[..];
    ghost var w := a[left..left + i + j];
    var k := left + i + j;
    CopyRest(a, L, i, k);
    ghost var a2 := a[..];
    var k' := k + |L| - i;
    CopyRest(a, R, j, k');
    MergeRestIsConcat(L, R, i, j);
    SpliceThree(a0, a1, a2, a[..], left, w, L[i..], R[j..], MergeDesc(L, R), k, k', right + 1);
  }

  /**
    How the three loops of `merge` compose: writing `w`, then `x` after
    it, then `y` after that, writes `w + x + y`.
  */
  lemma SpliceThree<T>(a0: seq<T>, a1: seq<T>, a2: seq<T>, a3: seq<T>,
                       lo: int, w: seq<T>, x: seq<T>, y: seq<T>, whole: seq<T>, k: int, k': int, hi: int)
    requires 0 <= lo && k == lo + |w| && k' == k + |x| && hi == k' + |y| && hi <= |a0|
    requires w + (x + y) == whole
    requires a1 == Splice(a0, lo, w) && a2 == Splice(a1, k, x) && a3 == Splice(a2, k', y)
    ensures a3 == Splice(a0, lo, whole)
  {
    assert forall t :: lo <= t < hi ==> a3[t] == whole[t - lo];
    assert forall t :: 0 <= t < |a0| && !(lo <= t < hi) ==> a3[t] == a0[t];
    SpliceFromPointwise(a3, a0, lo, whole);
  }

  /** When one run is used up, merging what is left is concatenation. */
  lemma MergeRestIsConcat(L: seq<Entry>, R: seq<Entry>, i: int, j: int)
    requires 0 <= i <= |L| && 0 <= j <= |R| && (i == |L| || j == |R|)
    ensures MergeDesc(L[i..], R[j..]) == L[i..] + R[j..]
  {
    if i == |L| {
      assert L[i..] == [];
    } else {
      assert R[j..] == [];
    }
  }

  /** Moving the head of what is still to be written onto what has been written. */
  lemma TakeHead<T>(out: seq<T>, x: T, rest: seq<T>, restTail: seq<T>, whole: seq<T>)
    requires out + rest == whole && rest == [x] + restTail
    ensures (out + [x]) + restTail == whole
  {
  }

  /** Writing one more element right after a spliced piece extends the piece. */
  lemma SpliceSnoc<T>(s: seq<T>, s0: seq<T>, at: int, piece: seq<T>, x: T, t: seq<T>)
    requires 0 <= at && at + |piece| < |s0| && s == Splice(s0, at, piece)
    requires t == s[at + |piece| := x]
    ensures t == Splice(s0, at, piece + [x])
  {
    var p := piece + [x];
    assert forall i :: at <= i < at + |p| ==> t[i] == p[i - at];
    SpliceFromPointwise(t, s0, at, p);
  }

  /** The spliced piece can be read back. */
  lemma SpliceSlice<T>(s: seq<T>, s0: seq<T>, at: int, piece: seq<T>)
    requires 0 <= at && at + |piece| <= |s0| && s == Splice(s0, at, piece)
    ensures s[at..at + |piece|] == piece
  {
    var r := s[at..at + |piece|];
    assert forall i :: 0 <= i < |piece| ==> r[i] == piece[i];
  }

  /** A sequence that agrees with `piece` on a range and with `s0` elsewhere. */
  lemma SpliceFromPointwise<T>(s: seq<T>, s0: seq<T>, at: int, piece: seq<T>)
    requires |s| == |s0| && 0 <= at && at + |piece| <= |s|
    requires forall t :: at <= t < at + |piece| ==> s[t] == piece[t - at]
    requires forall t :: 0 <= t < |s| && !(at <= t < at + |piece|) ==> s[t] == s0[t]
    ensures s == Splice(s0, at, piece)
  {
  }

  /** `mergeSort(arr, left, right)`; nothing happens when `left >= right`. */
  method MergeSort(a: array<Entry>, left: int, right: int)
    requires 0 <= left <= right + 1 <= a.Length
    modifies a
    ensures a[..] == SortedRange(old(a[..]), left, right)
    decreases right - left
  {
    ghost var a0 := a[..];
    if left < right {
      var mid := left + (right - left) / 2;
      MergeSort(a, left, mid);
      ghost var a1 := a[..];
      MergeSort(a, mid + 1, right);
      ghost var a2 := a[..];
      Merge(a, left, mid, right);
      SortHalves(a0, a1, a2, a[..], left, mid, right);
    } else {
      SortShort(a0, left, right);
    }
  }

  /** A range of at most one entry is already sorted. */
  lemma SortShort(s: seq<Entry>, left: int, right: int)
    requires 0 <= left <= right + 1 <= |s| && right <= left
    ensures s == SortedRange(s, left, right)
  {
    assert SortDesc(s[left..right + 1]) == s[left..right + 1];
    SpliceFromPointwise(s, s, left, s[left..right + 1]);
  }

  /** `mergeSort`'s midpoint leaves the larger half on the left, as `SortDesc` splits. */
  lemma MidSplit(left: int, right: int, mid: int)
    requires left < right && mid == left + (right - left) / 2
    ensures left <= mid < right && mid + 1 - left == (right + 1 - left + 1) / 2
  {
  }

  /**
    How the three calls of `mergeSort` compose: sorting both halves in
    place and merging them sorts the range.
  */
  lemma SortHalves(a0: seq<Entry>, a1: seq<Entry>, a2: seq<Entry>, a3: seq<Entry>, left: int, mid: int, right: int)
    requires 0 <= left < right < |a0| && mid == left + (right - left) / 2
    requires |a1| == |a0| && |a2| == |a0|
    requires a1 == SortedRange(a0, left, mid)
    requires a2 == SortedRange(a1, mid + 1, right)
    requires a3 == MergedRange(a2, left, mid, right)
    ensures a3 == SortedRange(a0, left, right)
  {
    var lo, m, hi := left, mid + 1, right + 1;
    var p, q := SortDesc(a0[lo..m]), SortDesc(a1[m..hi]);
    var r := MergeDesc(a2[lo..m], a2[m..hi]);
    SpliceTwice(a0, a1, a2, a3, lo, m, hi, p, q, r);
    MidSplit(left, right, mid);
    SortOfHalves(a0, a1, lo, m, hi);
    Resplice(a3, a0, lo, r, SortDesc(a0[lo..hi]));
    SplicedSort(a3, a0, lo, hi, left, right);
  }

  lemma SplicedSort(a3: seq<Entry>, a0: seq<Entry>, lo: int, hi: int, left: int, right: int)
    requires 0 <= lo == left && hi == right + 1 && left <= hi <= |a0|
    requires a3 == Splice(a0, lo, SortDesc(a0[lo..hi]))
    ensures a3 == SortedRange(a0, left, right)
  {
  }

  /** Sorting the range is merging its separately sorted halves. */
  lemma SortOfHalves(a0: seq<Entry>, a1: seq<Entry>, lo: int, mid: int, hi: int)
    requires 0 <= lo < mid < hi <= |a0| == |a1| && mid - lo == (hi - lo + 1) / 2
    requires a1[mid..hi] == a0[mid..hi]
    ensures SortDesc(a0[lo..hi]) == MergeDesc(SortDesc(a0[lo..mid]), SortDesc(a1[mid..hi]))
  {
    SliceHalves(a0, lo, mid, hi);
    SortOfSplit(a0[lo..hi], mid - lo, a0[lo..mid], a1[mid..hi]);
  }

  lemma SortOfSplit(s: seq<Entry>, h: int, x: seq<Entry>, y: seq<Entry>)
    requires |s| > 1 && h == (|s| + 1) / 2 && s[..h] == x && s[h..] == y
    ensures SortDesc(s) == MergeDesc(SortDesc(x), SortDesc(y))
  {
    SortDescUnfold(s, h);
  }

  lemma Resplice<T>(a3: seq<T>, a0: seq<T>, lo: int, m: seq<T>, m': seq<T>)
    requires 0 <= lo && lo + |m| <= |a0|
    requires a3 == Splice(a0, lo, m) && m == m'
    ensures a3 == Splice(a0, lo, m')
  {
  }

  /** The two halves of `a[lo..hi]`, as `mergeSort` splits it. */
  lemma SliceHalves<T>(a: seq<T>, lo: int, mid: int, hi: int)
    requires 0 <= lo <= mid <= hi <= |a|
    ensures a[lo..hi][..mid - lo] == a[lo..mid] && a[lo..hi][mid - lo..] == a[mid..hi]
  {
  }

  /**
    Overwriting `a[lo..mid]` with `p`, then `a[mid..hi]` with `q`, then
    `a[lo..hi]` with `m` overwrites `a[lo..hi]` with `m`.
  */
  lemma SpliceTwice<T>(a0: seq<T>, a1: seq<T>, a2: seq<T>, a3: seq<T>,
                       lo: int, mid: int, hi: int, p: seq<T>, q: seq<T>, m: seq<T>)
    requires 0 <= lo <= mid <= hi <= |a0| && |p| == mid - lo && |q| == hi - mid && |m| == hi - lo
    requires a1 == Splice(a0, lo, p) && a2 == Splice(a1, mid, q) && a3 == Splice(a2, lo, m)
    ensures a1[mid..hi] == a0[mid..hi]
    ensures a2[lo..mid] == p && a2[mid..hi] == q
    ensures a3 == Splice(a0, lo, m)
  {
    assert forall t :: 0 <= t < |a0| && !(lo <= t < hi) ==> a3[t] == a0[t];
    SpliceFromPointwise(a3, a0, lo, m);
  }
}
