/** Decoding: `decompressString` (script.js:150-164). */
module Decoder {
  import opened Wrappers
  import opened HuffmanNode
  import opened CodeGen
  import opened BitPacking

  /** `prefix` in front of a decoding result; a failed decoding stays failed. */
  function Prepend(prefix: string, r: Option<string>): (p: Option<string>)
    ensures p.Some? <==> r.Some?
    ensures r.Some? ==> p.value == prefix + r.value
  {
    if r.None? then None else Some(prefix + r.value)
  }

  /** The decoding loop from node `cur` on the remaining bits: each bit moves
      to the left child on '0' and to the right child otherwise; reaching a
      node with a character emits it and goes back to `root`. `None` is the
      `TypeError` of reading a field of `null`, which aborts the whole
      decoding. Bits left over after the last emitted character emit nothing. */
  function Walk(root: Node, cur: Node, bits: string): Option<string>
    decreases |bits|
  {
    if bits == [] then Some("")
    else if cur.Nil? then None
    else
      var next := if bits[0] == '0' then cur.left else cur.right;
      if next.Nil? then None
      else if next.ch.Some? then Prepend([next.ch.value], Walk(root, root, bits[1..]))
      else Walk(root, next, bits[1..])
  }

  /** `decompressString`: walks the tree bit by bit, appending the character
      of every node with a character that it reaches and restarting from the
      root. */
  method DecompressString(compressed: string, tree: Node) returns (result: Option<string>)
    ensures result == Walk(tree, tree, compressed)
  {
    var out := "";
    var cur := tree;
    assert compressed[0..] == compressed;
    PrependNothing(Walk(tree, tree, compressed));
    for i := 0 to |compressed|
      invariant Prepend(out, Walk(tree, cur, compressed[i..])) == Walk(tree, tree, compressed)
    {
      assert compressed[i..][0] == compressed[i] && compressed[i..][1..] == compressed[i + 1..];
      if cur.Nil? {
        return None;
      }
      cur := if compressed[i] == '0' then cur.left else cur.right;
      if cur.Nil? {
        return None;
      }
      if cur.ch.Some? {
        PrependTwice(out, [cur.ch.value], Walk(tree, tree, compressed[i + 1..]));
        out := out + [cur.ch.value];
        cur := tree;
      }
    }
    assert compressed[|compressed|..] == [];
    assert out + "" == out;
    return Some(out);
  }

  lemma PrependNothing(r: Option<string>)
    ensures Prepend("", r) == r
  {
    if r.Some? { assert "" + r.value == r.value; }
  }

  lemma PrependTwice(a: string, b: string, r: Option<string>)
    ensures Prepend(a, Prepend(b, r)) == Prepend(a + b, r)
  {
    if r.Some? { assert a + (b + r.value) == (a + b) + r.value; }
  }

  /** A child of a merged node of a well-formed tree is a well-formed tree. */
  lemma ChildWellFormed(cur: Node, bit: char)
    requires WellFormed(cur) && cur.ch.None?
    ensures WellFormed(if bit == '0' then cur.left else cur.right)
  {
  }

  /** Walking from a merged node along a path that ends at a node with
      character `c` emits exactly `c` and restarts from the root. */
  lemma {:induction false} WalkCode(root: Node, cur: Node, q: string, rest: string, c: char)
    requires WellFormed(cur) && cur.ch.None?
    requires q != [] && IsCharNode(Follow(cur, q), c)
    ensures Walk(root, cur, q + rest) == Prepend([c], Walk(root, root, rest))
    decreases |q|
  {
    var next := if q[0] == '0' then cur.left else cur.right;
    ChildWellFormed(cur, q[0]);
    assert (q + rest)[0] == q[0] && (q + rest)[1..] == q[1..] + rest;
    if |q| == 1 {
      assert q[1..] + rest == rest;
      assert Follow(cur, q) == Follow(next, []);
    } else {
      FollowWellFormed(next, q[1..]);
      WalkCode(root, next, q[1..], rest, c);
    }
  }

  /** Bits that stop inside the tree, at a merged node, emit nothing. */
  lemma {:induction false} WalkPartial(root: Node, cur: Node, q: string)
    requires WellFormed(cur) && cur.ch.None?
    requires Follow(cur, q).N? && Follow(cur, q).ch.None?
    ensures Walk(root, cur, q) == Some("")
    decreases |q|
  {
    if q != [] {
      var next := if q[0] == '0' then cur.left else cur.right;
      ChildWellFormed(cur, q[0]);
      FollowWellFormed(next, q[1..]);
      WalkPartial(root, next, q[1..]);
    }
  }

  /** Decoding reverses encoding: in a tree of the builder's shape whose root
      is a merged node, the encoding of any string of its characters decodes
      to that string, whatever bits follow. */
  lemma {:induction false} DecodeEncoded(root: Node, s: string, rest: string)
    requires WellFormed(root) && root.ch.None?
    requires forall c :: c in s ==> c in CodeTable(root, "")
    ensures Walk(root, root, Encoded(s, CodeTable(root, "")) + rest) == Prepend(s, Walk(root, root, rest))
    decreases |s|
  {
    if s != [] {
      assert forall d :: d in s[1..] ==> d in s;
      DecodeEncoded(root, s[1..], rest);
      DecodeStep(root, s, rest);
    } else {
      assert Encoded(s, CodeTable(root, "")) + rest == rest;
      PrependNothing(Walk(root, root, rest));
    }
  }

  /** One step of `DecodeEncoded`: the code of the first character decodes
      to that character, and decoding goes on from the root. */
  lemma DecodeStep(root: Node, s: string, rest: string)
    requires WellFormed(root) && root.ch.None?
    requires s != [] && s[0] in CodeTable(root, "")
    requires Walk(root, root, Encoded(s[1..], CodeTable(root, "")) + rest) == Prepend(s[1..], Walk(root, root, rest))
    ensures Walk(root, root, Encoded(s, CodeTable(root, "")) + rest) == Prepend(s, Walk(root, root, rest))
  {
    var codes := CodeTable(root, "");
    var c, tail := s[0], s[1..];
    var q, after := codes[c], Encoded(tail, codes) + rest;
    CodeLeadsTo(root, c);
    EncodedRest(s, codes, rest);
    WalkCode(root, root, q, after, c);
    PrependTwice([c], tail, Walk(root, root, rest));
    assert [c] + tail == s;
  }

  /** In a tree with a merged root, the code of a character is a nonempty
      path to a node holding it. */
  lemma CodeLeadsTo(root: Node, c: char)
    requires WellFormed(root) && root.ch.None? && c in CodeTable(root, "")
    ensures CodeTable(root, "")[c] != [] && IsCharNode(Follow(root, CodeTable(root, "")[c]), c)
  {
    var q := CodeTable(root, "")[c];
    CodeIsPath(root, "", c);
    assert q[0..] == q;
    CodesNonEmpty(root, c);
  }

  /** The encoding of a nonempty text followed by `rest`: the code of the
      first character, then the encoding of the others followed by `rest`. */
  lemma EncodedRest(s: string, codes: map<char, string>, rest: string)
    requires s != [] && s[0] in codes
    ensures Encoded(s, codes) + rest == codes[s[0]] + (Encoded(s[1..], codes) + rest)
  {
    EncodedCons(s, codes);
  }

  /** Number of '0' steps from `t` to the leftmost node with a character. */
  function LeftDepth(t: Node): nat
    requires WellFormed(t)
  {
    if t.ch.None? then 1 + LeftDepth(t.left) else 0
  }

  /** The character of the leftmost node with a character. */
  function LeftmostChar(t: Node): char
    requires WellFormed(t)
  {
    if t.ch.None? then LeftmostChar(t.left) else t.ch.value
  }

  /** The number of complete runs of `depth` in `p`. */
  function Runs(p: nat, depth: nat): (r: nat)
    requires depth > 0
    ensures r <= p
  {
    if p < depth then 0 else 1 + Runs(p - depth, depth)
  }

  /** `n` copies of `c`. */
  function Repeat(c: char, n: nat): (r: string)
    ensures |r| == n && forall i :: 0 <= i < n ==> r[i] == c
  {
    if n == 0 then "" else [c] + Repeat(c, n - 1)
  }

  lemma ZerosCons(n: nat)
    requires n > 0
    ensures Zeros(n) == "0" + Zeros(n - 1)
  {
  }

  /** Along the left spine of a well-formed tree, `k` zeros lead to a merged
      node while `k` is below the depth of the leftmost leaf, and exactly that
      many zeros lead to the leftmost leaf. */
  lemma {:induction false} LeftSpine(t: Node, k: nat)
    requires WellFormed(t) && k <= LeftDepth(t)
    ensures k < LeftDepth(t) ==> Follow(t, Zeros(k)).N? && Follow(t, Zeros(k)).ch.None?
    ensures k == LeftDepth(t) ==> IsCharNode(Follow(t, Zeros(k)), LeftmostChar(t))
    decreases t
  {
    if t.ch.None? {
      LeftSpine(t.left, if k == 0 then 0 else k - 1);
    }
    if k > 0 {
      ZerosCons(k);
      assert Zeros(k)[1..] == Zeros(k - 1);
    }
  }

  /** Decoding the zero padding from the root emits the leftmost character
      once per complete run of `LeftDepth(root)` zeros; the rest emits
      nothing. */
  lemma {:induction false} WalkZeros(root: Node, p: nat)
    requires WellFormed(root) && root.ch.None?
    ensures Walk(root, root, Zeros(p)) == Some(Repeat(LeftmostChar(root), Runs(p, LeftDepth(root))))
    decreases p
  {
    var depth := LeftDepth(root);
    var c := LeftmostChar(root);
    if p < depth {
      LeftSpine(root, p);
      if p == 0 {
        assert Zeros(0) == [];
      } else {
        WalkPartial(root, root, Zeros(p));
      }
    } else {
      LeftSpine(root, depth);
      assert Zeros(p) == Zeros(depth) + Zeros(p - depth) by {
        ZerosAppend(depth, p - depth);
      }
      WalkCode(root, root, Zeros(depth), Zeros(p - depth), c);
      WalkZeros(root, p - depth);
    }
  }

  lemma {:induction false} ZerosAppend(a: nat, b: nat)
    ensures Zeros(a + b) == Zeros(a) + Zeros(b)
    decreases b
  {
    if b > 0 {
      ZerosAppend(a, b - 1);
    } else {
      assert Zeros(a) + "" == Zeros(a);
    }
  }
}
