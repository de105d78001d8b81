/** Frequency counting: `buildFrequencyMap` (script.js:12-18).
    The JavaScript object `freqMap` is an ordered dictionary; it is modelled as
    the sequence of its entries, in the order in which keys were first added. */
module Frequency {

  /** One entry of the frequency map: a character and its count. */
  datatype Entry = Entry(ch: char, freq: nat)

  /** `c` is a key of the map. */
  ghost predicate HasKey(entries: seq<Entry>, c: char)
  {
    exists i :: 0 <= i < |entries| && entries[i].ch == c
  }

  /** No key appears twice, as in a dictionary. */
  ghost predicate DistinctKeys(entries: seq<Entry>)
  {
    forall i, j :: 0 <= i < j < |entries| ==> entries[i].ch != entries[j].ch
  }

  /** Sum of all counts. */
  function Total(entries: seq<Entry>): nat
  {
    if entries == [] then 0 else Total(entries[..|entries| - 1]) + entries[|entries| - 1].freq
  }

  /** Replacing one entry changes the total by the difference of the counts. */
  lemma {:induction false} TotalUpdate(entries: seq<Entry>, k: nat, e: Entry)
    requires k < |entries|
    ensures Total(entries[k := e]) == Total(entries) - entries[k].freq + e.freq
    decreases |entries|
  {
    var n := |entries|;
    var updated := entries[k := e];
    if k == n - 1 {
      assert updated[..n - 1] == entries[..n - 1];
    } else {
      assert updated[..n - 1] == entries[..n - 1][k := e];
      TotalUpdate(entries[..n - 1], k, e);
    }
  }

  /** Position of the first occurrence of `c` in `s`. */
  function FirstIndex(s: string, c: char): (k: nat)
    requires c in s
    ensures k < |s| && s[k] == c && c !in s[..k]
  {
    if s[0] == c then 0
    else
      var k := FirstIndex(s[1..], c);
      assert s[..k + 1] == [s[0]] + s[1..][..k];
      k + 1
  }

  /** The lookup `freqMap[char]`: the index of the entry for `c`, or
      `|entries|` when `c` is not a key. */
  function IndexOfKey(entries: seq<Entry>, c: char): (k: nat)
    ensures k <= |entries|
    ensures k < |entries| ==> entries[k].ch == c
    ensures k == |entries| <==> !HasKey(entries, c)
  {
    if entries == [] then 0
    else if entries[0].ch == c then 0
    else
      var k := IndexOfKey(entries[1..], c);
      assert HasKey(entries, c) ==> HasKey(entries[1..], c) by {
        if HasKey(entries, c) {
          var i :| 0 <= i < |entries| && entries[i].ch == c;
          assert entries[1..][i - 1].ch == c;
        }
      }
      assert k < |entries| - 1 ==> entries[k + 1].ch == c;
      k + 1
  }

  /** `entries` is exactly the frequency map of `t`: one entry per distinct
      character, holding its number of occurrences. */
  ghost predicate Describes(t: string, entries: seq<Entry>)
  {
    && DistinctKeys(entries)
    && (forall c :: c in t <==> HasKey(entries, c))
    && (forall j :: 0 <= j < |entries| ==> entries[j].freq == multiset(t)[entries[j].ch])
  }

  /** The keys of `entries` occur in `s` and are listed in order of first
      occurrence in `s`. */
  ghost predicate InFirstOccurrenceOrder(s: string, entries: seq<Entry>)
  {
    && (forall j :: 0 <= j < |entries| ==> entries[j].ch in s)
    && (forall j, k :: 0 <= j < k < |entries| ==>
          entries[j].ch in s && entries[k].ch in s &&
          FirstIndex(s, entries[j].ch) < FirstIndex(s, entries[k].ch))
  }

  /** Incrementing the entry of an already present character `c`. */
  lemma IncrementStep(t: string, entries: seq<Entry>, k: nat, c: char)
    requires Describes(t, entries)
    requires k < |entries| && entries[k].ch == c
    ensures Describes(t + [c], entries[k := Entry(c, entries[k].freq + 1)])
  {
    var updated := entries[k := Entry(c, entries[k].freq + 1)];
    forall d | d in t + [c]
      ensures HasKey(updated, d)
    {
      if d == c {
        assert updated[k].ch == d;
      } else {
        assert d in t;
        var j :| 0 <= j < |entries| && entries[j].ch == d;
        assert updated[j].ch == d;
      }
    }
    assert multiset(t + [c]) == multiset(t) + multiset{c};
  }

  /** Adding a new entry for a character `c` that is not yet a key. */
  lemma AppendStep(t: string, entries: seq<Entry>, c: char)
    requires Describes(t, entries)
    requires !HasKey(entries, c)
    ensures Describes(t + [c], entries + [Entry(c, 1)])
  {
    var updated := entries + [Entry(c, 1)];
    forall d | d in t + [c]
      ensures HasKey(updated, d)
    {
      if d == c {
        assert updated[|entries|].ch == d;
      } else {
        assert d in t;
        var j :| 0 <= j < |entries| && entries[j].ch == d;
        assert updated[j].ch == d;
      }
    }
    forall d | HasKey(updated, d)
      ensures d in t + [c]
    {
      var j :| 0 <= j < |updated| && updated[j].ch == d;
      if j < |entries| { assert HasKey(entries, d); }
    }
    assert multiset(t + [c]) == multiset(t) + multiset{c};
    assert c !in t;
  }

  /** Appending the character met first at position `i` keeps the keys in
      order of first occurrence. */
  lemma FirstOccurrenceStep(s: string, i: nat, entries: seq<Entry>)
    requires i < |s| && s[i] !in s[..i]
    requires InFirstOccurrenceOrder(s, entries)
    requires forall j :: 0 <= j < |entries| ==> FirstIndex(s, entries[j].ch) < i
    ensures InFirstOccurrenceOrder(s, entries + [Entry(s[i], 1)])
    ensures forall j :: 0 <= j <= |entries| ==> FirstIndex(s, (entries + [Entry(s[i], 1)])[j].ch) < i + 1
  {
    var c := s[i];
    var f := FirstIndex(s, c);
    var updated := entries + [Entry(c, 1)];
    forall j | 0 <= j < |updated|
      ensures updated[j].ch in s && FirstIndex(s, updated[j].ch) <= i
      ensures j < |entries| ==> FirstIndex(s, updated[j].ch) < i
    {
      if j < |entries| { assert updated[j] == entries[j]; }
    }
  }

  /** Changing only counts keeps the keys and therefore their order. */
  lemma SameKeysStep(s: string, entries: seq<Entry>, k: nat, e: Entry)
    requires k < |entries| && entries[k].ch == e.ch
    requires InFirstOccurrenceOrder(s, entries)
    ensures InFirstOccurrenceOrder(s, entries[k := e])
  {
    var updated := entries[k := e];
    assert forall j :: 0 <= j < |entries| ==> updated[j].ch == entries[j].ch;
  }

  /** The loop invariant of `buildFrequencyMap` after `i` characters of `s`. */
  ghost predicate CountedUpTo(s: string, i: nat, entries: seq<Entry>)
    requires i <= |s|
  {
    && Describes(s[..i], entries)
    && Total(entries) == i
    && InFirstOccurrenceOrder(s, entries)
    && (forall j :: 0 <= j < |entries| ==> FirstIndex(s, entries[j].ch) < i)
  }

  /** Counting a character that is already a key keeps the invariant. */
  lemma IncrementKeepsCount(s: string, i: nat, entries: seq<Entry>, k: nat)
    requires i < |s| && CountedUpTo(s, i, entries)
    requires k < |entries| && entries[k].ch == s[i]
    ensures CountedUpTo(s, i + 1, entries[k := Entry(s[i], entries[k].freq + 1)])
  {
    var c := s[i];
    var e := Entry(c, entries[k].freq + 1);
    assert s[..i + 1] == s[..i] + [c];
    TotalUpdate(entries, k, e);
    IncrementStep(s[..i], entries, k, c);
    SameKeysStep(s, entries, k, e);
  }

  /** Counting a character met for the first time keeps the invariant. */
  lemma AppendKeepsCount(s: string, i: nat, entries: seq<Entry>)
    requires i < |s| && CountedUpTo(s, i, entries)
    requires !HasKey(entries, s[i])
    ensures CountedUpTo(s, i + 1, entries + [Entry(s[i], 1)])
  {
    var c := s[i];
    assert s[..i + 1] == s[..i] + [c];
    AppendStep(s[..i], entries, c);
    FirstOccurrenceStep(s, i, entries);
    assert (entries + [Entry(c, 1)])[..|entries|] == entries;
  }

  /** `freqMap[char] = (freqMap[char] || 0) + 1`: the count of a present key
      goes up by one, a new key is added at the end with count 1. */
  function Bump(entries: seq<Entry>, c: char): seq<Entry>
  {
    var k := IndexOfKey(entries, c);
    if k < |entries| then entries[k := Entry(c, entries[k].freq + 1)] else entries + [Entry(c, 1)]
  }

  /** The frequency map `buildFrequencyMap` returns for `s`: every character
      of `s` bumped into the map in turn, starting from the empty map. */
  function FrequencyMap(s: string): seq<Entry>
  {
    if s == [] then [] else Bump(FrequencyMap(s[..|s| - 1]), s[|s| - 1])
  }

  /** The frequency map of a prefix of `s` satisfies the loop invariant of
      `buildFrequencyMap`. */
  lemma {:induction false} CountedPrefix(s: string, i: nat)
    requires i <= |s|
    ensures CountedUpTo(s, i, FrequencyMap(s[..i]))
  {
    if i > 0 {
      var j := i - 1;
      CountedPrefix(s, j);
      BumpKeepsCount(s, j, FrequencyMap(s[..j]));
      FrequencyMapSnoc(s, j);
    }
  }

  /** One more character of `s` bumps one more entry. */
  lemma FrequencyMapSnoc(s: string, i: nat)
    requires i < |s|
    ensures FrequencyMap(s[..i + 1]) == Bump(FrequencyMap(s[..i]), s[i])
  {
    assert s[..i + 1][..i] == s[..i];
  }

  /** `FrequencyMap(s)` holds every character of `s` exactly once, with its
      number of occurrences, in order of first occurrence. */
  lemma FrequencyMapCounts(s: string)
    ensures DistinctKeys(FrequencyMap(s))
    ensures forall c :: c in s <==> HasKey(FrequencyMap(s), c)
    ensures forall i :: 0 <= i < |FrequencyMap(s)| ==>
              FrequencyMap(s)[i].freq == multiset(s)[FrequencyMap(s)[i].ch]
    ensures Total(FrequencyMap(s)) == |s|
    ensures InFirstOccurrenceOrder(s, FrequencyMap(s))
  {
    CountedPrefix(s, |s|);
    assert s[..|s|] == s;
    CountedAll(s, FrequencyMap(s));
  }

  /** Counting one more character keeps the invariant. */
  lemma BumpKeepsCount(s: string, i: nat, entries: seq<Entry>)
    requires i < |s| && CountedUpTo(s, i, entries)
    ensures CountedUpTo(s, i + 1, Bump(entries, s[i]))
  {
    var k := IndexOfKey(entries, s[i]);
    if k < |entries| {
      IncrementKeepsCount(s, i, entries, k);
    } else {
      AppendKeepsCount(s, i, entries);
    }
  }

  /** `buildFrequencyMap`: one pass over the input, incrementing the entry of
      each character or adding it with count 1. The result holds every
      character of `s` exactly once, with its number of occurrences, in order
      of first occurrence; the counts add up to the input length. */
  method BuildFrequencyMap(s: string) returns (entries: seq<Entry>)
    ensures DistinctKeys(entries)
    ensures forall c :: c in s <==> HasKey(entries, c)
    ensures forall i :: 0 <= i < |entries| ==> entries[i].freq == multiset(s)[entries[i].ch]
    ensures Total(entries) == |s|
    ensures InFirstOccurrenceOrder(s, entries)
    ensures s == [] <==> entries == []
    ensures entries == FrequencyMap(s)
  {
    entries := [];
    for i := 0 to |s|
      invariant entries == FrequencyMap(s[..i])
    {
      FrequencyMapSnoc(s, i);
      entries := Bump(entries, s[i]);
    }
    assert s[..|s|] == s;
    FrequencyMapCounts(s);
  }

  /** The invariant after the last character gives the frequency map of the
      whole input. */
  lemma CountedAll(s: string, entries: seq<Entry>)
    requires CountedUpTo(s, |s|, entries)
    ensures DistinctKeys(entries)
    ensures forall c :: c in s <==> HasKey(entries, c)
    ensures forall i :: 0 <= i < |entries| ==> entries[i].freq == multiset(s)[entries[i].ch]
    ensures Total(entries) == |s|
    ensures InFirstOccurrenceOrder(s, entries)
    ensures s == [] <==> entries == []
  {
    assert s[..|s|] == s;
    if entries != [] { assert entries[0].ch in s; }
  }
}
