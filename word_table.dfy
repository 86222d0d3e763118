/**
  The reducer's word table: a list of (word, count) entries, newest first,
  into which `add_word` folds one record at a time.  The linked list is
  modelled as a sequence whose first element is the list head.
*/
module Aggregate {
  import opened Bytes
  import opened Records

  datatype Entry = Entry(word: seq<Byte>, count: int)

  /** The prefix left after dropping trailing white-space bytes. */
  function TrimTrailingSpace(s: seq<Byte>): (r: seq<Byte>)
    ensures r <= s
    ensures r == [] || !IsSpace(r[|r| - 1])
    ensures forall i :: |r| <= i < |s| ==> IsSpace(s[i])
  {
    if s == [] || !IsSpace(s[|s| - 1]) then s else TrimTrailingSpace(s[..|s| - 1])
  }

  /**
    The table key `add_word` derives from its argument: the C string cut
    to 255 bytes (`strncpy` into a 256-byte buffer) without trailing white
    space.  Empty when nothing is left.
  */
  function Key(word: seq<Byte>): seq<Byte>
  {
    TrimTrailingSpace(Take(CStr(word), MaxWord))
  }

  /** A key as stored in the table. */
  predicate ValidKey(k: seq<Byte>)
  {
    0 < |k| <= MaxWord && NoNul(k) && !IsSpace(k[|k| - 1])
  }

  /** Keys are at most 255 bytes, NUL-free, without trailing white space. */
  lemma KeyIsValid(word: seq<Byte>)
    ensures Key(word) == [] || ValidKey(Key(word))
  {
    var t := Take(CStr(word), MaxWord);
    assert forall i :: 0 <= i < |Key(word)| ==> Key(word)[i] == t[i] == CStr(word)[i];
  }

  /** Normalising a key again changes nothing. */
  lemma KeyIdempotent(word: seq<Byte>)
    ensures Key(Key(word)) == Key(word)
  {
    var k := Key(word);
    KeyIsValid(word);
    if k != [] {
      CStrOfNulFree(k);
      assert Take(k, MaxWord) == k;
    } else {
      assert CStr(k) == [];
    }
  }

  /** The key is a prefix of the word it came from. */
  lemma KeyIsPrefix(word: seq<Byte>)
    ensures Key(word) <= word
  {
    var t := Take(CStr(word), MaxWord);
    var k := Key(word);
    assert forall i :: 0 <= i < |k| ==> k[i] == t[i] == CStr(word)[i] == word[i];
  }

  /** A word made only of white space has no key. */
  lemma KeyOfBlank(word: seq<Byte>)
    requires NoNul(word) && forall i :: 0 <= i < |word| ==> IsSpace(word[i])
    ensures Key(word) == []
  {
    CStrOfNulFree(word);
  }

  /** The entries' keys are pairwise distinct and well formed. */
  predicate Table(es: seq<Entry>)
  {
    (forall i :: 0 <= i < |es| ==> ValidKey(es[i].word)) &&
    (forall i, j :: 0 <= i < j < |es| ==> es[i].word != es[j].word)
  }

  /** Position of the entry for `k`, or `|es|` when there is none. */
  function IndexOf(es: seq<Entry>, k: seq<Byte>): (i: nat)
    ensures i <= |es|
    ensures i < |es| ==> es[i].word == k
    ensures forall j :: 0 <= j < i ==> es[j].word != k
  {
    if es == [] then 0 else if es[0].word == k then 0 else 1 + IndexOf(es[1..], k)
  }

  /**
    The table after `add_word(word, count)`; `None` stands for a null
    pointer.  An existing entry is incremented in place, a new word is
    pushed at the head.
  */
  function Added(es: seq<Entry>, word: Option<seq<Byte>>, count: int): seq<Entry>
  {
    match word
    case None => es
    case Some(w) =>
      var k := Key(w);
      if k == [] then es
      else
        var i := IndexOf(es, k);
        if i < |es| then es[i := Entry(k, es[i].count + count)] else [Entry(k, count)] + es
  }

  /** The count the table holds for `k`, 0 when absent. */
  function CountOf(es: seq<Entry>, k: seq<Byte>): int
  {
    var i := IndexOf(es, k);
    if i < |es| then es[i].count else 0
  }

  /** The key set of a table. */
  function Keys(es: seq<Entry>): set<seq<Byte>>
  {
    set i | 0 <= i < |es| :: es[i].word
  }

  /** `add_word` keeps keys unique and well formed. */
  lemma AddedIsTable(es: seq<Entry>, word: Option<seq<Byte>>, count: int)
    requires Table(es)
    ensures Table(Added(es, word, count))
  {
    if word.Some? {
      KeyIsValid(word.value);
      var k := Key(word.value);
      if k != [] && IndexOf(es, k) == |es| {
        var r := Added(es, word, count);
        assert forall i :: 1 <= i < |r| ==> r[i] == es[i - 1];
      }
    }
  }

  /**
    An empty or blank word leaves the table as it is; otherwise the word's
    count grows by `count`, a new word enters with exactly `count`, and no
    other key's count changes.
  */
  lemma AddedCounts(es: seq<Entry>, word: Option<seq<Byte>>, count: int, k: seq<Byte>)
    requires Table(es)
    ensures word.None? || Key(word.value) == [] ==> Added(es, word, count) == es
    ensures word.Some? && Key(word.value) != [] && k == Key(word.value) ==>
      CountOf(Added(es, word, count), k) == CountOf(es, k) + count
    ensures !(word.Some? && k == Key(word.value)) ==>
      CountOf(Added(es, word, count), k) == CountOf(es, k)
  {
    if word.Some? && Key(word.value) != [] {
      var w := Key(word.value);
      var r := Added(es, word, count);
      var i := IndexOf(es, w);
      AddedIsTable(es, word, count);
      if i < |es| {
        UniqueIndex(r, i, w);
        if k != w {
          var j := IndexOf(es, k);
          if j < |es| {
            UniqueIndex(r, j, k);
          } else {
            assert forall t :: 0 <= t < |r| ==> r[t].word != k;
          }
        }
      } else {
        UniqueIndex(r, 0, w);
        if k != w {
          var j := IndexOf(es, k);
          if j < |es| {
            assert r[j + 1] == es[j];
            UniqueIndex(r, j + 1, k);
          } else {
            assert forall t :: 1 <= t < |r| ==> r[t] == es[t - 1];
          }
        }
      }
    }
  }

  /** In a table the entry holding a key is the one IndexOf finds. */
  lemma UniqueIndex(es: seq<Entry>, i: int, k: seq<Byte>)
    requires Table(es) && 0 <= i < |es| && es[i].word == k
    ensures IndexOf(es, k) == i
  {
  }

  /** The keys grow by the new word's key, if any. */
  lemma AddedKeys(es: seq<Entry>, word: Option<seq<Byte>>, count: int)
    ensures Keys(Added(es, word, count)) ==
      Keys(es) + (if word.Some? && Key(word.value) != [] then {Key(word.value)} else {})
  {
    if word.Some? && Key(word.value) != [] {
      var k := Key(word.value);
      var r := Added(es, word, count);
      var i := IndexOf(es, k);
      if i < |es| {
        assert forall j :: 0 <= j < |es| ==> r[j].word == es[j].word;
      } else {
        assert r[0].word == k;
        assert forall j :: 0 <= j < |es| ==> r[j + 1] == es[j];
        forall x | x in Keys(r) ensures x in Keys(es) + {k} {
          var j :| 0 <= j < |r| && r[j].word == x;
          if j > 0 {
            assert x == es[j - 1].word;
          }
        }
      }
    }
  }

  /** The order in which two records arrive does not change any count. */
  lemma AddedCommutes(es: seq<Entry>, a: Option<seq<Byte>>, x: int, b: Option<seq<Byte>>, y: int, k: seq<Byte>)
    requires Table(es)
    ensures CountOf(Added(Added(es, a, x), b, y), k) == CountOf(Added(Added(es, b, y), a, x), k)
  {
    AddedIsTable(es, a, x);
    AddedIsTable(es, b, y);
    AddedCounts(es, a, x, k);
    AddedCounts(es, b, y, k);
    AddedCounts(Added(es, a, x), b, y, k);
    AddedCounts(Added(es, b, y), a, x, k);
  }

  /** The word's key found at `i`, with no earlier match: its count grows there. */
  lemma AddedFound(es: seq<Entry>, w: seq<Byte>, count: int, i: int)
    requires Key(w) != [] && 0 <= i < |es| && es[i].word == Key(w)
    requires forall j :: 0 <= j < i ==> es[j].word != Key(w)
    ensures Added(es, Some(w), count) == es[i := Entry(Key(w), es[i].count + count)]
  {
  }

  /** A key the table lacks is pushed at the head. */
  lemma AddedMissing(es: seq<Entry>, w: seq<Byte>, count: int)
    requires Key(w) != [] && forall j :: 0 <= j < |es| ==> es[j].word != Key(w)
    ensures Added(es, Some(w), count) == [Entry(Key(w), count)] + es
  {
  }

  lemma TrimStep(s: seq<Byte>, len: int)
    requires 0 < len <= |s| && IsSpace(s[len - 1])
    ensures TrimTrailingSpace(s[..len]) == TrimTrailingSpace(s[..len - 1])
  {
    assert s[..len][..len - 1] == s[..len - 1];
  }

  /** The trimming loop of `add_word`: the length of the word without trailing white space. */
  method TrimLength(s: seq<Byte>) returns (len: nat)
    ensures len <= |s| && s[..len] == TrimTrailingSpace(s)
  {
    len := |s|;
    assert s[..len] == s;
    while len > 0 && IsSpace(s[len - 1])
      invariant 0 <= len <= |s|
      invariant TrimTrailingSpace(s[..len]) == TrimTrailingSpace(s)
    {
      TrimStep(s, len);
      len := len - 1;
    }
  }

  /** The table `word_counts` and the operation `add_word` on it. */
  class WordCounts {
    var entries: seq<Entry>

    predicate Valid()
      reads this
    {
      Table(entries)
    }

    constructor()
      ensures Valid() && entries == []
    {
      entries := [];
    }

    /**
      `add_word`: skip a null or empty word, cut the word to 255 bytes,
      strip trailing white space, then walk the list and either add to the
      matching entry or push a new one.
    */
    method AddWord(word: Option<seq<Byte>>, count: int)
      requires Valid()
      modifies this
      ensures Valid()
      ensures entries == Added(old(entries), word, count)
    {
      AddedIsTable(entries, word, count);
      if word.None? || CStr(word.value) == [] {
        assert word.Some? ==> Key(word.value) == [];
        return;
      }
      var normalized := Take(CStr(word.value), MaxWord);
      var len := TrimLength(normalized);
      if len == 0 {
        return;
      }
      var key := normalized[..len];
      var es := entries;
      var i := 0;
      while i < |es|
        invariant 0 <= i <= |es|
        invariant forall j :: 0 <= j < i ==> es[j].word != key
      {
        if es[i].word == key {
          AddedFound(es, word.value, count, i);
          entries := es[i := Entry(key, es[i].count + count)];
          return;
        }
        i := i + 1;
      }
      AddedMissing(es, word.value, count);
      entries := [Entry(key, count)] + es;
    }
  }
}
