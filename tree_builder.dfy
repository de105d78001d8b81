/** Greedy tree building: `buildHuffmanTree` (script.js:21-31). */
module TreeBuilder {
  import opened Wrappers
  import opened Frequency
  import opened HuffmanNode

  /** Ascending by frequency. */
  ghost predicate SortedByFreq(s: seq<Node>)
  {
    forall i, j :: 0 <= i < j < |s| ==> Weight(s[i]) <= Weight(s[j])
  }

  /** The nodes of `s` whose frequency is `f`, in their order in `s`. */
  function WithFreq(s: seq<Node>, f: nat): seq<Node>
  {
    if s == [] then []
    else WithFreq(s[..|s| - 1], f) + (if Weight(s[|s| - 1]) == f then [s[|s| - 1]] else [])
  }

  /** Inserts `x` into `s` after the last node, counted from the end, that
      is no heavier than `x`. */
  function Insert(s: seq<Node>, x: Node): (r: seq<Node>)
    ensures |r| == |s| + 1
  {
    if s == [] || Weight(s[|s| - 1]) <= Weight(x) then s + [x]
    else Insert(s[..|s| - 1], x) + [s[|s| - 1]]
  }

  /** Inserting adds exactly `x`. */
  lemma {:induction false} InsertAdds(s: seq<Node>, x: Node)
    ensures multiset(Insert(s, x)) == multiset(s) + multiset{x}
    decreases |s|
  {
    if s != [] && Weight(s[|s| - 1]) > Weight(x) {
      var n := |s|;
      InsertAdds(s[..n - 1], x);
      assert s == s[..n - 1] + [s[n - 1]];
    }
  }

  /** Every node of `Insert(s, x)` is `x` or a node of `s`. */
  lemma InsertMembers(s: seq<Node>, x: Node)
    ensures forall y :: y in Insert(s, x) ==> y in s || y == x
  {
    InsertAdds(s, x);
    forall y | y in Insert(s, x) ensures y in s || y == x {
      assert y in multiset(Insert(s, x));
    }
  }

  /** The last node of a sorted forest is at least as heavy as the others. */
  lemma LastIsHeaviest(s: seq<Node>)
    requires s != [] && SortedByFreq(s)
    ensures forall y :: y in s[..|s| - 1] ==> Weight(y) <= Weight(s[|s| - 1])
  {
    forall y | y in s[..|s| - 1] ensures Weight(y) <= Weight(s[|s| - 1]) {
      var i :| 0 <= i < |s| - 1 && s[..|s| - 1][i] == y;
      assert s[i] == y;
    }
  }

  /** Inserting into a sorted forest keeps it sorted. */
  lemma {:induction false} InsertSorted(s: seq<Node>, x: Node)
    requires SortedByFreq(s)
    ensures SortedByFreq(Insert(s, x))
    decreases |s|
  {
    if s != [] && Weight(s[|s| - 1]) > Weight(x) {
      var n := |s|;
      var init := s[..n - 1];
      assert SortedByFreq(init);
      InsertSorted(init, x);
      InsertMembers(init, x);
      LastIsHeaviest(s);
      SortedSnoc(Insert(init, x), s[n - 1]);
    }
  }

  /** Appending a node no lighter than every node of a sorted forest keeps it sorted. */
  lemma SortedSnoc(front: seq<Node>, last: Node)
    requires SortedByFreq(front)
    requires forall y :: y in front ==> Weight(y) <= Weight(last)
    ensures SortedByFreq(front + [last])
  {
    var r := front + [last];
    forall i, j | 0 <= i < j < |r|
      ensures Weight(r[i]) <= Weight(r[j])
    {
      if j == |front| {
        assert r[i] == front[i];
      } else {
        assert r[i] == front[i] && r[j] == front[j];
      }
    }
  }

  /** Inserting puts `x` after every node of equal frequency and leaves the
      order of the other nodes alone. */
  lemma {:induction false} InsertStable(s: seq<Node>, x: Node, f: nat)
    ensures WithFreq(Insert(s, x), f) == WithFreq(s, f) + (if f == Weight(x) then [x] else [])
    decreases |s|
  {
    if s == [] || Weight(s[|s| - 1]) <= Weight(x) {
      WithFreqSnoc(s, x, f);
    } else {
      var n := |s|;
      InsertStable(s[..n - 1], x, f);
      InsertStableStep(s[..n - 1], s[n - 1], x, f);
      assert s[..n - 1] + [s[n - 1]] == s;
    }
  }

  /** The inductive step of `InsertStable`: `x` goes in before a heavier
      last node. */
  lemma InsertStableStep(init: seq<Node>, last: Node, x: Node, f: nat)
    requires Weight(last) > Weight(x)
    requires WithFreq(Insert(init, x), f) == WithFreq(init, f) + (if f == Weight(x) then [x] else [])
    ensures WithFreq(Insert(init + [last], x), f)
      == WithFreq(init + [last], f) + (if f == Weight(x) then [x] else [])
  {
    assert (init + [last])[..|init|] == init;
    WithFreqSnoc(Insert(init, x), last, f);
    WithFreqSnoc(init, last, f);
    var w := WithFreq(init, f);
    if f == Weight(x) {
      assert (w + [x]) + [] == (w + []) + [x];
    } else {
      var l := if f == Weight(last) then [last] else [];
      assert (w + []) + l == (w + l) + [];
    }
  }

  lemma WithFreqSnoc(s: seq<Node>, x: Node, f: nat)
    ensures WithFreq(s + [x], f) == WithFreq(s, f) + (if Weight(x) == f then [x] else [])
  {
    assert (s + [x])[..|s|] == s;
  }

  /** The stable sort `nodes.sort((a, b) => a.freq - b.freq)` (line 24),
      modelled as an insertion sort: the result is sorted and a permutation of
      the input. */
  function SortByFreq(s: seq<Node>): (r: seq<Node>)
    ensures |r| == |s|
    ensures SortedByFreq(r)
    ensures multiset(r) == multiset(s)
  {
    if s == [] then []
    else
      var n := |s|;
      var front := SortByFreq(s[..n - 1]);
      InsertSorted(front, s[n - 1]);
      InsertAdds(front, s[n - 1]);
      assert s == s[..n - 1] + [s[n - 1]];
      Insert(front, s[n - 1])
  }

  /** Sorting one node leaves it alone. */
  lemma SortOne(x: Node)
    ensures SortByFreq([x]) == [x]
  {
    assert [x][..0] == [];
  }

  /** Sorting two nodes inserts the second into the first. */
  lemma SortTwo(x: Node, y: Node)
    ensures SortByFreq([x, y]) == Insert([x], y)
  {
    assert [x, y][..1] == [x];
    SortOne(x);
  }

  /** Sorting three nodes inserts the third into the sorted first two. */
  lemma SortThree(x: Node, y: Node, z: Node)
    ensures SortByFreq([x, y, z]) == Insert(SortByFreq([x, y]), z)
  {
    assert [x, y, z][..2] == [x, y];
  }

  /** Sorting four nodes inserts the fourth into the sorted first three. */
  lemma SortFourth(w: Node, x: Node, y: Node, z: Node)
    ensures SortByFreq([w, x, y, z]) == Insert(SortByFreq([w, x, y]), z)
  {
    assert [w, x, y, z][..3] == [w, x, y];
  }

  /** ECMAScript requires `Array.prototype.sort` to be stable: nodes of equal
      frequency keep their relative order. */
  lemma {:induction false} SortIsStable(s: seq<Node>, f: nat)
    ensures WithFreq(SortByFreq(s), f) == WithFreq(s, f)
    decreases |s|
  {
    if s != [] {
      var n := |s|;
      var init, x := s[..n - 1], s[n - 1];
      var extra := if f == Weight(x) then [x] else [];
      calc {
        WithFreq(SortByFreq(s), f);
        WithFreq(Insert(SortByFreq(init), x), f);
        { InsertStable(SortByFreq(init), x, f); }
        WithFreq(SortByFreq(init), f) + extra;
        { SortIsStable(init, f); }
        WithFreq(init, f) + extra;
        WithFreq(s, f);
      }
    }
  }

  /** The multiset of leaf entries of a forest. */
  function ForestBag(s: seq<Node>): multiset<Entry>
  {
    if s == [] then multiset{} else LeafBag(s[0]) + ForestBag(s[1..])
  }

  /** The sum of the frequencies of a forest's roots. */
  function ForestFreq(s: seq<Node>): nat
  {
    if s == [] then 0 else Weight(s[0]) + ForestFreq(s[1..])
  }

  lemma BagSingleton(x: Node)
    ensures ForestBag([x]) == LeafBag(x)
  {
    assert [x][1..] == [];
  }

  lemma FreqSingleton(x: Node)
    ensures ForestFreq([x]) == Weight(x)
  {
    assert [x][1..] == [];
  }

  lemma {:induction false} BagAppend(a: seq<Node>, b: seq<Node>)
    ensures ForestBag(a + b) == ForestBag(a) + ForestBag(b)
    decreases |a|
  {
    if a == [] {
      assert a + b == b;
    } else {
      assert (a + b)[1..] == a[1..] + b;
      BagAppend(a[1..], b);
    }
  }

  lemma {:induction false} FreqAppend(a: seq<Node>, b: seq<Node>)
    ensures ForestFreq(a + b) == ForestFreq(a) + ForestFreq(b)
    decreases |a|
  {
    if a == [] {
      assert a + b == b;
    } else {
      assert (a + b)[1..] == a[1..] + b;
      FreqAppend(a[1..], b);
    }
  }

  /** Removing the node at position `k` of `b`, where `b` is a permutation of
      a forest starting with that node, leaves a permutation of the rest. */
  lemma RemoveFirstMatch(a: seq<Node>, b: seq<Node>, k: nat)
    requires a != [] && multiset(a) == multiset(b)
    requires k < |b| && b[k] == a[0]
    ensures multiset(a[1..]) == multiset(b[..k] + b[k + 1..])
    ensures b == b[..k] + ([b[k]] + b[k + 1..]) && ([b[k]] + b[k + 1..])[1..] == b[k + 1..]
  {
    var x := a[0];
    assert a == [x] + a[1..];
    assert b == b[..k] + ([x] + b[k + 1..]);
    assert multiset(b[..k] + b[k + 1..]) == multiset(b[..k]) + multiset(b[k + 1..]);
    assert multiset(b) == multiset(b[..k]) + multiset{x} + multiset(b[k + 1..]);
    assert multiset(a[1..]) == multiset(a) - multiset{x};
    assert ([x] + b[k + 1..])[1..] == b[k + 1..];
  }

  /** A permutation of a forest has the same leaves. */
  lemma {:induction false} BagPermutation(a: seq<Node>, b: seq<Node>)
    requires multiset(a) == multiset(b)
    ensures ForestBag(a) == ForestBag(b)
    decreases |a|
  {
    if a != [] {
      assert a[0] in multiset(b);
      var k :| 0 <= k < |b| && b[k] == a[0];
      RemoveFirstMatch(a, b, k);
      BagPermutation(a[1..], b[..k] + b[k + 1..]);
      BagAppend(b[..k], [b[k]] + b[k + 1..]);
      BagAppend(b[..k], b[k + 1..]);
    }
  }

  /** A permutation of a forest has the same total weight. */
  lemma {:induction false} FreqPermutation(a: seq<Node>, b: seq<Node>)
    requires multiset(a) == multiset(b)
    ensures ForestFreq(a) == ForestFreq(b)
    decreases |a|
  {
    if a != [] {
      assert a[0] in multiset(b);
      var k :| 0 <= k < |b| && b[k] == a[0];
      RemoveFirstMatch(a, b, k);
      FreqPermutation(a[1..], b[..k] + b[k + 1..]);
      FreqAppend(b[..k], [b[k]] + b[k + 1..]);
      FreqAppend(b[..k], b[k + 1..]);
    }
  }

  /** The initial forest: one leaf per map entry, in entry order (line 22). */
  function LeafForest(entries: seq<Entry>): (r: seq<Node>)
    ensures |r| == |entries|
    ensures forall i :: 0 <= i < |r| ==> r[i] == Leaf(entries[i])
  {
    seq(|entries|, i requires 0 <= i < |entries| => Leaf(entries[i]))
  }

  /** The initial forest holds exactly the map's entries. */
  lemma {:induction false} LeafForestBag(entries: seq<Entry>)
    ensures ForestBag(LeafForest(entries)) == multiset(entries)
    decreases |entries|
  {
    if entries != [] {
      var e, rest := entries[0], entries[1..];
      LeafForestBag(rest);
      assert LeafForest(entries)[1..] == LeafForest(rest);
      assert entries == [e] + rest;
      assert LeafBag(Leaf(e)) == multiset{e};
    }
  }

  /** The initial forest weighs the total of the map's counts. */
  lemma {:induction false} LeafForestFreq(entries: seq<Entry>)
    ensures ForestFreq(LeafForest(entries)) == Total(entries)
    decreases |entries|
  {
    if entries != [] {
      var e, rest := entries[0], entries[1..];
      LeafForestFreq(rest);
      assert LeafForest(entries)[1..] == LeafForest(rest);
      assert entries == [e] + rest;
      TotalAppend([e], rest);
      assert Total([e]) == e.freq by { assert [e][..0] == []; }
    }
  }

  /** The loop starts from a forest of well-formed leaves holding the map. */
  lemma InitialForest(entries: seq<Entry>)
    ensures ForestOf(LeafForest(entries), multiset(entries), Total(entries))
  {
    LeafForestBag(entries);
    LeafForestFreq(entries);
    AllWellFormedIff(LeafForest(entries));
  }


  /** Every node of the forest is well-formed. */
  ghost predicate AllWellFormed(s: seq<Node>)
  {
    s == [] || (WellFormed(s[0]) && AllWellFormed(s[1..]))
  }

  lemma {:induction false} AllWellFormedIff(s: seq<Node>)
    ensures AllWellFormed(s) <==> forall i :: 0 <= i < |s| ==> WellFormed(s[i])
    decreases |s|
  {
    if s != [] {
      AllWellFormedIff(s[1..]);
      assert forall i :: 1 <= i < |s| ==> s[i] == s[1..][i - 1];
    }
  }

  /** What every forest of the loop satisfies: well-formed nodes holding, all
      together, exactly the map's entries and its total count. */
  ghost predicate ForestOf(nodes: seq<Node>, bag: multiset<Entry>, total: nat)
  {
    && AllWellFormed(nodes)
    && ForestBag(nodes) == bag
    && ForestFreq(nodes) == total
  }

  /** Sorting keeps `ForestOf`. */
  lemma SortKeepsForest(nodes: seq<Node>, bag: multiset<Entry>, total: nat)
    requires ForestOf(nodes, bag, total)
    ensures ForestOf(SortByFreq(nodes), bag, total)
  {
    var sorted := SortByFreq(nodes);
    BagPermutation(nodes, sorted);
    FreqPermutation(nodes, sorted);
    AllWellFormedIff(nodes);
    AllWellFormedIff(sorted);
    forall i | 0 <= i < |sorted| ensures WellFormed(sorted[i]) {
      assert sorted[i] in multiset(nodes);
    }
  }

  /** Merging the first two nodes of a sorted forest keeps `ForestOf`; the
      merged node has no character, the sum of the frequencies and the
      lighter child on the left. */
  lemma MergeKeepsForest(left: Node, right: Node, rest: seq<Node>, bag: multiset<Entry>, total: nat)
    requires ForestOf([left, right] + rest, bag, total) && Weight(left) <= Weight(right)
    ensures left.N? && right.N? && left.freq <= right.freq
    ensures ForestOf(rest + [N(None, left.freq + right.freq, left, right)], bag, total)
  {
    MergeKeepsWellFormed(left, right, rest);
    MergeKeepsBag(left, right, rest, bag);
    MergeKeepsFreq(left, right, rest, total);
  }

  lemma MergeKeepsWellFormed(left: Node, right: Node, rest: seq<Node>)
    requires AllWellFormed([left, right] + rest) && Weight(left) <= Weight(right)
    ensures left.N? && right.N? && left.freq <= right.freq
    ensures AllWellFormed(rest + [N(None, left.freq + right.freq, left, right)])
  {
    var sorted := [left, right] + rest;
    AllWellFormedIff(sorted);
    assert sorted[0] == left && sorted[1] == right && sorted[2..] == rest;
    assert WellFormed(left) && WellFormed(right);
    var merged := N(None, left.freq + right.freq, left, right);
    assert WellFormed(merged);
    TailWellFormed(sorted);
    WellFormedSnoc(rest, merged);
    AllWellFormedIff(rest + [merged]);
  }

  /** Replacing the first two nodes of a forest by their merge, appended at
      the end, keeps the leaves of the forest. */
  lemma MergeKeepsBag(l: Node, r: Node, rest: seq<Node>, bag: multiset<Entry>)
    requires l.N? && r.N? && ForestBag([l, r] + rest) == bag
    ensures ForestBag(rest + [N(None, l.freq + r.freq, l, r)]) == bag
  {
    MergedForestBag(l, r, rest, l.freq + r.freq);
  }

  lemma MergedForestBag(l: Node, r: Node, rest: seq<Node>, f: nat)
    ensures ForestBag(rest + [N(None, f, l, r)]) == ForestBag([l, r] + rest)
  {
    var merged := N(None, f, l, r);
    BagAppend(rest, [merged]);
    BagSingleton(merged);
    MergedBag(l, r, f);
    UnionRotate(LeafBag(l), LeafBag(r), ForestBag(rest));
    BagFirstTwo([l, r] + rest);
    assert ([l, r] + rest)[2..] == rest;
  }

  lemma MergedBag(l: Node, r: Node, f: nat)
    ensures LeafBag(N(None, f, l, r)) == LeafBag(l) + LeafBag(r)
  {
  }

  lemma UnionRotate(a: multiset<Entry>, b: multiset<Entry>, c: multiset<Entry>)
    ensures c + (a + b) == a + b + c
  {
  }

  /** The leaves of a forest: those of its first two nodes and of the rest. */
  lemma BagFirstTwo(sorted: seq<Node>)
    requires |sorted| > 1
    ensures ForestBag(sorted) == LeafBag(sorted[0]) + LeafBag(sorted[1]) + ForestBag(sorted[2..])
  {
    assert sorted[1..][0] == sorted[1] && sorted[1..][1..] == sorted[2..];
  }

  /** Replacing the first two nodes of a forest by their merge, appended at
      the end, keeps the total weight of the forest. */
  lemma MergeKeepsFreq(left: Node, right: Node, rest: seq<Node>, total: nat)
    requires left.N? && right.N? && ForestFreq([left, right] + rest) == total
    ensures ForestFreq(rest + [N(None, left.freq + right.freq, left, right)]) == total
  {
    var sorted := [left, right] + rest;
    var merged := N(None, left.freq + right.freq, left, right);
    assert sorted[0] == left && sorted[1..][0] == right && sorted[1..][1..] == rest;
    assert ForestFreq(sorted[1..]) == Weight(right) + ForestFreq(rest);
    FreqAppend(rest, [merged]);
    FreqSingleton(merged);
  }

  lemma TailWellFormed(sorted: seq<Node>)
    requires |sorted| > 1 && forall i :: 0 <= i < |sorted| ==> WellFormed(sorted[i])
    ensures forall i :: 0 <= i < |sorted| - 2 ==> WellFormed(sorted[2..][i])
  {
    forall i | 0 <= i < |sorted| - 2 ensures WellFormed(sorted[2..][i]) {
      assert sorted[2..][i] == sorted[i + 2];
    }
  }

  lemma WellFormedSnoc(rest: seq<Node>, x: Node)
    requires forall i :: 0 <= i < |rest| ==> WellFormed(rest[i])
    requires WellFormed(x)
    ensures forall i :: 0 <= i < |rest| + 1 ==> WellFormed((rest + [x])[i])
  {
  }

  /** A forest of one node holds the whole map in that node. */
  lemma ForestOfSingleton(nodes: seq<Node>, bag: multiset<Entry>, total: nat)
    requires |nodes| == 1 && ForestOf(nodes, bag, total)
    ensures WellFormed(nodes[0])
    ensures multiset(LeafEntries(nodes[0])) == bag
    ensures nodes[0].freq == total
  {
    assert nodes == [nodes[0]];
    BagSingleton(nodes[0]);
    LeafBagIsEntries(nodes[0]);
    FreqSingleton(nodes[0]);
    AllWellFormedIff(nodes);
  }

  /** One pass of the `while (nodes.length > 1)` loop: sort the forest by
      frequency, shift off the two lightest nodes and push their merge. */
  function MergeStep(nodes: seq<Node>): (r: seq<Node>)
    requires |nodes| > 1
    ensures |r| == |nodes| - 1
  {
    MergeFront(SortByFreq(nodes))
  }

  /** Shift the first two nodes off a forest and push their merge. */
  function MergeFront(sorted: seq<Node>): (r: seq<Node>)
    requires |sorted| > 1
    ensures |r| == |sorted| - 1
  {
    sorted[2..] + [N(None, Weight(sorted[0]) + Weight(sorted[1]), sorted[0], sorted[1])]
  }

  /** The whole loop: merge steps until at most one node is left. */
  function Greedy(nodes: seq<Node>): (r: seq<Node>)
    ensures |nodes| == 0 ==> r == []
    ensures |nodes| >= 1 ==> |r| == 1
    decreases |nodes|
  {
    if |nodes| <= 1 then nodes else Greedy(MergeStep(nodes))
  }

  /** The tree `buildHuffmanTree` returns for a frequency map: the node left
      after merging the leaf forest, `None` for `undefined`. */
  function HuffmanTree(entries: seq<Entry>): Option<Node>
  {
    var forest := Greedy(LeafForest(entries));
    if forest == [] then None else Some(forest[0])
  }

  /** One pass of the loop of `buildHuffmanTree` (lines 24-29): sort the
      forest by frequency, shift off the two lightest nodes and push their
      merge, whose frequency is their sum. The forest keeps its leaves and its
      total weight and loses one node; the result is exactly
      `MergeStep(nodes)`. */
  method MergeLightestPair(nodes: seq<Node>, ghost bag: multiset<Entry>, ghost total: nat) returns (next: seq<Node>)
    requires |nodes| > 1 && ForestOf(nodes, bag, total)
    ensures ForestOf(next, bag, total)
    ensures |next| == |nodes| - 1
    ensures next[|next| - 1].N? && next[|next| - 1].ch.None?
    ensures MergedLightest(next, nodes)
    ensures next == MergeStep(nodes)
  {
    var sorted := SortByFreq(nodes);
    SortKeepsForest(nodes, bag, total);
    MergeFrontForest(sorted, bag, total);
    LightestMerged(sorted, nodes);
    FrontMerged(sorted);
    var left, right, rest := sorted[0], sorted[1], sorted[2..];
    next := rest + [N(None, left.freq + right.freq, left, right)];
    assert next == MergeFront(sorted);
  }

  /** Merging the first two nodes of a sorted forest keeps its leaves and
      its total weight. */
  lemma MergeFrontForest(sorted: seq<Node>, bag: multiset<Entry>, total: nat)
    requires |sorted| > 1 && SortedByFreq(sorted) && ForestOf(sorted, bag, total)
    ensures sorted[0].N? && sorted[1].N?
    ensures ForestOf(MergeFront(sorted), bag, total)
  {
    var left, right, rest := sorted[0], sorted[1], sorted[2..];
    assert sorted == [left, right] + rest;
    MergeKeepsForest(left, right, rest, bag, total);
    FrontMerged(sorted);
  }

  /** The last node of `next` merges two nodes of `nodes`, the left no heavier
      than the right and the right no heavier than any node left over. */
  ghost predicate MergedLightest(next: seq<Node>, nodes: seq<Node>)
  {
    && |next| > 0
    && var m := next[|next| - 1];
    && m.N? && m.left.N? && m.right.N? && m.freq == m.left.freq + m.right.freq
    && multiset(next[..|next| - 1]) + multiset{m.left, m.right} == multiset(nodes)
    && Weight(m.left) <= Weight(m.right)
    && forall y :: y in next[..|next| - 1] ==> Weight(m.right) <= Weight(y)
  }

  /** The last node of `MergeFront(sorted)` merges the two lightest nodes. */
  lemma LightestMerged(sorted: seq<Node>, nodes: seq<Node>)
    requires |sorted| > 1 && SortedByFreq(sorted) && sorted[0].N? && sorted[1].N?
    requires multiset(sorted) == multiset(nodes)
    ensures MergedLightest(MergeFront(sorted), nodes)
  {
    var left, right, rest := sorted[0], sorted[1], sorted[2..];
    LightestPair(sorted);
    FrontMerged(sorted);
    PushedMerge(left, right, rest, nodes);
  }

  /** A merge step merges the front of the sorted forest. */
  lemma MergeStepOfSorted(nodes: seq<Node>, sorted: seq<Node>)
    requires |nodes| > 1 && sorted == SortByFreq(nodes)
    ensures |sorted| > 1 && MergeStep(nodes) == MergeFront(sorted)
  {
  }

  /** `MergeFront` on a forest whose first two nodes are not `Nil`. */
  lemma FrontMerged(sorted: seq<Node>)
    requires |sorted| > 1 && sorted[0].N? && sorted[1].N?
    ensures MergeFront(sorted) == sorted[2..] + [N(None, sorted[0].freq + sorted[1].freq, sorted[0], sorted[1])]
  {
  }

  /** The node pushed after shifting off `left` and `right` merges them, and
      the forest before the push is the rest. */
  lemma PushedMerge(left: Node, right: Node, rest: seq<Node>, nodes: seq<Node>)
    requires left.N? && right.N? && Weight(left) <= Weight(right)
    requires multiset(rest) + multiset{left, right} == multiset(nodes)
    requires forall y :: y in rest ==> Weight(right) <= Weight(y)
    ensures MergedLightest(rest + [N(None, left.freq + right.freq, left, right)], nodes)
  {
    var next := rest + [N(None, left.freq + right.freq, left, right)];
    assert next[..|next| - 1] == rest;
  }

  /** The first two nodes of a sorted forest are no heavier than any other,
      and together with the rest they are the whole forest. */
  lemma LightestPair(sorted: seq<Node>)
    requires |sorted| > 1 && SortedByFreq(sorted)
    ensures Weight(sorted[0]) <= Weight(sorted[1])
    ensures forall y :: y in sorted[2..] ==> Weight(sorted[1]) <= Weight(y)
    ensures multiset(sorted[2..]) + multiset{sorted[0], sorted[1]} == multiset(sorted)
  {
    assert sorted == [sorted[0], sorted[1]] + sorted[2..];
    forall y | y in sorted[2..] ensures Weight(sorted[1]) <= Weight(y) {
      var i :| 0 <= i < |sorted[2..]| && sorted[2..][i] == y;
      assert sorted[i + 2] == y;
    }
  }

  /** `buildHuffmanTree`: starting from one leaf per entry, repeatedly sorts
      the forest, removes the two lightest nodes and appends their merge, until
      at most one node is left. `None` is the `undefined` of an empty map.
      The root is well-formed, its leaves are exactly the map's entries, its
      frequency is the sum of all counts; it is a bare leaf for one entry and a
      merged node otherwise, after exactly one merge per entry but one. */
  method BuildHuffmanTree(entries: seq<Entry>) returns (root: Option<Node>, ghost merges: nat)
    ensures root.None? <==> entries == []
    ensures root.Some? ==> WellFormed(root.value)
    ensures root.Some? ==> multiset(LeafEntries(root.value)) == multiset(entries)
    ensures root.Some? ==> root.value.freq == Total(entries)
    ensures |entries| == 1 ==> root == Some(Leaf(entries[0]))
    ensures |entries| >= 2 ==> root.Some? && root.value.ch.None?
    ensures entries != [] ==> merges == |entries| - 1
    ensures root == HuffmanTree(entries)
  {
    var nodes := LeafForest(entries);
    ghost var bag, total := multiset(entries), Total(entries);
    InitialForest(entries);
    merges := 0;
    while |nodes| > 1
      invariant |nodes| + merges == |entries|
      invariant entries != [] ==> |nodes| >= 1
      invariant ForestOf(nodes, bag, total)
      invariant |entries| == 1 ==> nodes == [Leaf(entries[0])]
      invariant merges > 0 ==> |nodes| >= 1 && nodes[|nodes| - 1].N? && nodes[|nodes| - 1].ch.None?
      invariant Greedy(nodes) == Greedy(LeafForest(entries))
      decreases |nodes|
    {
      nodes := MergeLightestPair(nodes, bag, total);
      merges := merges + 1;
    }
    if |nodes| == 0 {
      root := None;
    } else {
      ForestOfSingleton(nodes, bag, total);
      root := Some(nodes[0]);
    }
  }
}
