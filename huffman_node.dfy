/** The tree node `HuffmanNode` (script.js:2-9) and the notions about trees
    that the other components share. */
module HuffmanNode {
  import opened Wrappers
  import opened Frequency

  /** `Nil` is JavaScript `null`. A node has a character (`None` for the
      `null` of an internal node), a frequency and two possibly-null children. */
  datatype Node = Nil | N(ch: Option<char>, freq: nat, left: Node, right: Node)

  /** The leaf made from one frequency-map entry: `new HuffmanNode(char, freq)`. */
  function Leaf(e: Entry): Node
  {
    N(Some(e.ch), e.freq, Nil, Nil)
  }

  /** The weight the sort compares (`a.freq - b.freq`); the forest never holds `null`. */
  function Weight(n: Node): nat
  {
    if n.Nil? then 0 else n.freq
  }

  /** A tree of the shape the greedy builder produces: every leaf has a
      character and no children; every merged node has no character, two
      non-null children, the sum of their frequencies, and a left child no
      heavier than the right one. */
  ghost predicate WellFormed(t: Node)
    ensures WellFormed(t) ==> t.N?
  {
    match t
    case Nil => false
    case N(ch, f, l, r) =>
      if ch.Some? then l.Nil? && r.Nil?
      else WellFormed(l) && WellFormed(r) && f == l.freq + r.freq && l.freq <= r.freq
  }

  /** `t` is a node carrying the character `c`. */
  predicate IsCharNode(t: Node, c: char)
  {
    t.N? && t.ch == Some(c)
  }

  /** The (character, frequency) pairs of the nodes that carry a character,
      left to right. */
  function LeafEntries(t: Node): seq<Entry>
  {
    match t
    case Nil => []
    case N(ch, f, l, r) =>
      (if ch.Some? then [Entry(ch.value, f)] else []) + LeafEntries(l) + LeafEntries(r)
  }

  /** The leaf entries of `t` as a multiset, counted node by node. */
  function LeafBag(t: Node): multiset<Entry>
  {
    match t
    case Nil => multiset{}
    case N(ch, f, l, r) =>
      (if ch.Some? then multiset{Entry(ch.value, f)} else multiset{}) + LeafBag(l) + LeafBag(r)
  }

  /** Counting node by node gives the multiset of the leaf entries. */
  lemma {:induction false} LeafBagIsEntries(t: Node)
    ensures LeafBag(t) == multiset(LeafEntries(t))
  {
    match t
    case Nil =>
    case N(ch, f, l, r) =>
      LeafBagIsEntries(l);
      LeafBagIsEntries(r);
      var own := if ch.Some? then [Entry(ch.value, f)] else [];
      assert LeafEntries(t) == own + LeafEntries(l) + LeafEntries(r);
  }

  /** The characters carried by nodes of `t`. */
  function LeafChars(t: Node): set<char>
  {
    match t
    case Nil => {}
    case N(ch, _, l, r) =>
      (if ch.Some? then {ch.value} else {}) + LeafChars(l) + LeafChars(r)
  }

  /** The node reached from `t` by following `path`, '0' to the left and any
      other bit to the right; `Nil` once the path leaves the tree. */
  function Follow(t: Node, path: string): Node
  {
    if path == [] || t.Nil? then (if path == [] then t else Nil)
    else Follow(if path[0] == '0' then t.left else t.right, path[1..])
  }

  /** A character is carried by some node exactly when it is the key of some
      leaf entry, and a well-formed tree's frequency is the sum of its leaf
      frequencies. */
  lemma {:induction false} LeafEntriesFacts(t: Node)
    ensures forall c :: c in LeafChars(t) <==> exists e :: e in LeafEntries(t) && e.ch == c
    ensures WellFormed(t) ==> t.freq == Total(LeafEntries(t))
  {
    match t
    case Nil =>
    case N(ch, f, l, r) =>
      LeafEntriesFacts(l);
      LeafEntriesFacts(r);
      var own := if ch.Some? then [Entry(ch.value, f)] else [];
      assert LeafEntries(t) == own + LeafEntries(l) + LeafEntries(r);
      forall c | c in LeafChars(t)
        ensures exists e :: e in LeafEntries(t) && e.ch == c
      {
        if ch.Some? && c == ch.value {
          assert Entry(c, f) in LeafEntries(t);
        } else if c in LeafChars(l) {
          var e :| e in LeafEntries(l) && e.ch == c;
          assert e in LeafEntries(t);
        } else {
          assert c in LeafChars(r);
          var e :| e in LeafEntries(r) && e.ch == c;
          assert e in LeafEntries(t);
        }
      }
      if WellFormed(t) {
        if ch.Some? {
          assert LeafEntries(t) == [Entry(ch.value, f)];
        } else {
          assert LeafEntries(t) == LeafEntries(l) + LeafEntries(r);
          TotalAppend(LeafEntries(l), LeafEntries(r));
        }
      }
  }

  /** The total of a concatenation is the sum of the totals. */
  lemma {:induction false} TotalAppend(a: seq<Entry>, b: seq<Entry>)
    ensures Total(a + b) == Total(a) + Total(b)
    decreases |b|
  {
    if b != [] {
      var n := |b|;
      assert (a + b)[..|a + b| - 1] == a + b[..n - 1];
      TotalAppend(a, b[..n - 1]);
    } else {
      assert a + b == a;
    }
  }

  /** Following a path in two pieces is following the concatenated path. */
  lemma {:induction false} FollowAppend(t: Node, p: string, q: string)
    ensures Follow(t, p + q) == Follow(Follow(t, p), q)
    decreases |p|
  {
    if p == [] {
      assert p + q == q;
    } else if t.Nil? {
      assert Follow(t, p) == Nil;
      if q != [] { assert Follow(Nil, q) == Nil; }
    } else {
      assert (p + q)[1..] == p[1..] + q;
      FollowAppend(if p[0] == '0' then t.left else t.right, p[1..], q);
    }
  }

  /** In a well-formed tree a node reached by any path is `null` or again a
      well-formed subtree; past a leaf every path falls off the tree. */
  lemma {:induction false} FollowWellFormed(t: Node, p: string)
    requires WellFormed(t)
    ensures Follow(t, p).Nil? || WellFormed(Follow(t, p))
    ensures t.ch.Some? && p != [] ==> Follow(t, p).Nil?
    decreases |p|
  {
    if p != [] {
      var child := if p[0] == '0' then t.left else t.right;
      if child.N? {
        FollowWellFormed(child, p[1..]);
      } else {
        FollowNil(p[1..]);
      }
    }
  }

  /** Nothing is reached from `null`, except by the empty path. */
  lemma {:induction false} FollowNil(p: string)
    ensures Follow(Nil, p) == Nil
  {
  }
}
