/** Code assignment and encoding: `generateHuffmanCodes` (script.js:34-42)
    and `compressString` (script.js:45-51). */
module CodeGen {
  import opened Wrappers
  import opened HuffmanNode

  /** The code map built by `generateHuffmanCodes(t, prefix, {})`: every node
      that carries a character maps it to the path leading to it, extended by
      `prefix`. The own entry is written first, then the left subtree's, then
      the right subtree's, so on a clash the later write wins, as with the
      shared JavaScript object. */
  function CodeTable(t: Node, prefix: string): map<char, string>
  {
    match t
    case Nil => map[]
    case N(ch, _, l, r) =>
      (if ch.Some? then map[ch.value := prefix] else map[])
      + CodeTable(l, prefix + "0") + CodeTable(r, prefix + "1")
  }

  /** `generateHuffmanCodes(root, currentCode, codeMap)`: walks the tree
      depth-first, left before right, writing `codeMap[char] = currentCode` at
      every node that carries a character. The shared accumulator is threaded
      through the calls: the result is the incoming map overwritten with the
      code table of `root`. */
  method GenerateHuffmanCodes(root: Node, currentCode: string, codeMap: map<char, string>)
    returns (codes: map<char, string>)
    ensures codes == codeMap + CodeTable(root, currentCode)
    decreases root
  {
    if root.Nil? {
      return codeMap;
    }
    var own: map<char, string> := if root.ch.Some? then map[root.ch.value := currentCode] else map[];
    codes := codeMap;
    if root.ch.Some? {
      codes := codes[root.ch.value := currentCode];
    }
    assert codes == codeMap + own;
    codes := GenerateHuffmanCodes(root.left, currentCode + "0", codes);
    codes := GenerateHuffmanCodes(root.right, currentCode + "1", codes);
    UnionAssoc(codeMap, own, CodeTable(root.left, currentCode + "0"));
    UnionAssoc(codeMap, own + CodeTable(root.left, currentCode + "0"), CodeTable(root.right, currentCode + "1"));
  }

  lemma UnionAssoc(a: map<char, string>, b: map<char, string>, c: map<char, string>)
    ensures a + (b + c) == (a + b) + c
  {
  }

  lemma UnionEmpty(m: map<char, string>)
    ensures map[] + m == m
  {
  }

  /** The characters with a code are exactly those carried by the tree. */
  lemma {:induction false} CodeTableKeys(t: Node, prefix: string)
    ensures CodeTable(t, prefix).Keys == LeafChars(t)
  {
    match t
    case Nil =>
    case N(ch, _, l, r) =>
      CodeTableKeys(l, prefix + "0");
      CodeTableKeys(r, prefix + "1");
  }

  /** Every code is `prefix` followed by a path that leads from the root to a
      node carrying that character. */
  lemma {:induction false} CodeIsPath(t: Node, prefix: string, c: char)
    requires c in CodeTable(t, prefix)
    ensures prefix <= CodeTable(t, prefix)[c]
    ensures IsCharNode(Follow(t, CodeTable(t, prefix)[c][|prefix|..]), c)
  {
    match t
    case N(ch, _, l, r) =>
      var code := CodeTable(t, prefix)[c];
      if c in CodeTable(r, prefix + "1") {
        CodeIsPath(r, prefix + "1", c);
        ChildPath(t, prefix, '1', code);
      } else if c in CodeTable(l, prefix + "0") {
        CodeIsPath(l, prefix + "0", c);
        ChildPath(t, prefix, '0', code);
      } else {
        assert code == prefix;
      }
  }

  /** A path that starts with `bit` after `prefix` leads from `t` where the
      rest of it leads from the child that `bit` selects. */
  lemma ChildPath(t: Node, prefix: string, bit: char, code: string)
    requires t.N? && prefix + [bit] <= code
    ensures prefix <= code
    ensures Follow(t, code[|prefix|..]) == Follow(if bit == '0' then t.left else t.right, code[|prefix| + 1..])
  {
    var p := code[|prefix|..];
    assert p[0] == bit && p[1..] == code[|prefix| + 1..];
  }

  /** The codes consist of '0' and '1' only, after the prefix. */
  lemma {:induction false} CodesAreBinary(t: Node, prefix: string, c: char)
    requires c in CodeTable(t, prefix)
    ensures forall i :: |prefix| <= i < |CodeTable(t, prefix)[c]| ==> CodeTable(t, prefix)[c][i] in "01"
  {
    match t
    case N(ch, _, l, r) =>
      if c in CodeTable(r, prefix + "1") {
        CodesAreBinary(r, prefix + "1", c);
        CodeIsPath(r, prefix + "1", c);
        assert CodeTable(r, prefix + "1")[c][|prefix|] == (prefix + "1")[|prefix|];
      } else if c in CodeTable(l, prefix + "0") {
        CodesAreBinary(l, prefix + "0", c);
        CodeIsPath(l, prefix + "0", c);
        assert CodeTable(l, prefix + "0")[c][|prefix|] == (prefix + "0")[|prefix|];
      }
  }

  /** In a tree of the builder's shape whose root is a merged node, every code
      is longer than the prefix: only a bare-leaf root gets the empty code. */
  lemma CodesNonEmpty(t: Node, c: char)
    requires WellFormed(t) && t.ch.None? && c in CodeTable(t, "")
    ensures CodeTable(t, "")[c] != ""
  {
    CodeIsPath(t, "", c);
  }

  /** The code of a single-leaf tree is the empty string. */
  lemma LeafCodeIsEmpty(c: char, f: nat)
    ensures CodeTable(N(Some(c), f, Nil, Nil), "") == map[c := ""]
  {
  }

  /** Prefix freedom: in a tree of the builder's shape no code is a prefix of
      the code of another character. */
  lemma PrefixFree(t: Node, c: char, d: char)
    requires WellFormed(t)
    requires c in CodeTable(t, "") && d in CodeTable(t, "") && c != d
    ensures !(CodeTable(t, "")[c] <= CodeTable(t, "")[d])
  {
    var codes := CodeTable(t, "");
    var p, q := codes[c], codes[d];
    CodeIsPath(t, "", c);
    CodeIsPath(t, "", d);
    assert p[0..] == p && q[0..] == q;
    if p <= q {
      assert q == p + q[|p|..] && p + [] == p;
      PathEndsAtLeaf(t, p, q[|p|..]);
    }
  }

  /** A path that reaches a node carrying a character cannot be extended to
      reach any other node of a tree of the builder's shape. */
  lemma PathEndsAtLeaf(t: Node, p: string, rest: string)
    requires WellFormed(t) && Follow(t, p).N? && Follow(t, p).ch.Some?
    requires Follow(t, p + rest).N?
    ensures rest == []
  {
    FollowAppend(t, p, rest);
    FollowWellFormed(t, p);
    FollowWellFormed(Follow(t, p), rest);
  }

  /** `huffmanCodes[char]` appended to a string: a missing key reads as
      `undefined`, which the concatenation turns into the text "undefined". */
  function CodeOf(codes: map<char, string>, c: char): string
  {
    if c in codes then codes[c] else "undefined"
  }

  /** The concatenation of the codes of the first `n` characters of `s`, in
      order. */
  function EncodedPrefix(s: string, n: nat, codes: map<char, string>): string
    requires n <= |s|
  {
    if n == 0 then "" else EncodedPrefix(s, n - 1, codes) + CodeOf(codes, s[n - 1])
  }

  /** The concatenation of the codes of the characters of `s`, in order. */
  function Encoded(s: string, codes: map<char, string>): string
  {
    EncodedPrefix(s, |s|, codes)
  }

  /** A prefix of the first part of a concatenation encodes as in the first
      part alone. */
  lemma {:induction false} PrefixOfFront(a: string, b: string, n: nat, codes: map<char, string>)
    requires n <= |a|
    ensures EncodedPrefix(a + b, n, codes) == EncodedPrefix(a, n, codes)
  {
    if n > 0 {
      PrefixOfFront(a, b, n - 1, codes);
    }
  }

  /** A prefix reaching into the second part of a concatenation encodes as
      the whole first part followed by the prefix of the second part. */
  lemma {:induction false} PrefixOfBack(a: string, b: string, k: nat, codes: map<char, string>)
    requires k <= |b|
    ensures EncodedPrefix(a + b, |a| + k, codes) == Encoded(a, codes) + EncodedPrefix(b, k, codes)
  {
    if k == 0 {
      PrefixOfFront(a, b, |a|, codes);
    } else {
      PrefixOfBack(a, b, k - 1, codes);
      PrefixOfBackStep(a, b, k, codes);
    }
  }

  lemma PrefixOfBackStep(a: string, b: string, k: nat, codes: map<char, string>)
    requires 0 < k <= |b|
    requires EncodedPrefix(a + b, |a| + k - 1, codes) == Encoded(a, codes) + EncodedPrefix(b, k - 1, codes)
    ensures EncodedPrefix(a + b, |a| + k, codes) == Encoded(a, codes) + EncodedPrefix(b, k, codes)
  {
    assert (a + b)[|a| + k - 1] == b[k - 1];
    var x, y, z := Encoded(a, codes), EncodedPrefix(b, k - 1, codes), CodeOf(codes, b[k - 1]);
    assert (x + y) + z == x + (y + z);
  }

  /** Encoding is a homomorphism: a concatenation encodes as the
      concatenation of the encodings. */
  lemma EncodedAppend(a: string, b: string, codes: map<char, string>)
    ensures Encoded(a + b, codes) == Encoded(a, codes) + Encoded(b, codes)
  {
    PrefixOfBack(a, b, |b|, codes);
  }

  /** The encoding of a nonempty string starts with the code of its first
      character. */
  lemma EncodedCons(s: string, codes: map<char, string>)
    requires s != []
    ensures Encoded(s, codes) == CodeOf(codes, s[0]) + Encoded(s[1..], codes)
  {
    assert s == [s[0]] + s[1..];
    EncodedAppend([s[0]], s[1..], codes);
    var one := [s[0]];
    assert Encoded(one, codes) == EncodedPrefix(one, 0, codes) + CodeOf(codes, one[0]);
    assert "" + CodeOf(codes, s[0]) == CodeOf(codes, s[0]);
  }

  /** The sum of the lengths of the codes of the characters of `s`. */
  function CodeLengths(s: string, codes: map<char, string>): nat
  {
    if s == [] then 0 else |CodeOf(codes, s[0])| + CodeLengths(s[1..], codes)
  }

  /** The code string is as long as the codes of its characters together. */
  lemma {:induction false} EncodedLength(s: string, codes: map<char, string>)
    ensures |Encoded(s, codes)| == CodeLengths(s, codes)
    decreases |s|
  {
    if s != [] {
      EncodedCons(s, codes);
      EncodedLength(s[1..], codes);
    }
  }

  /** Encoding a string whose every character has a code of the tree gives a
      string of '0' and '1' only. */
  lemma EncodedIsBinary(s: string, t: Node)
    requires forall c :: c in s ==> c in CodeTable(t, "")
    ensures forall i :: 0 <= i < |Encoded(s, CodeTable(t, ""))| ==> Encoded(s, CodeTable(t, ""))[i] in "01"
  {
    PrefixIsBinary(s, |s|, t);
  }

  lemma {:induction false} PrefixIsBinary(s: string, n: nat, t: Node)
    requires n <= |s|
    requires forall c :: c in s ==> c in CodeTable(t, "")
    ensures forall i :: 0 <= i < |EncodedPrefix(s, n, CodeTable(t, ""))| ==> EncodedPrefix(s, n, CodeTable(t, ""))[i] in "01"
  {
    if n > 0 {
      var codes := CodeTable(t, "");
      PrefixIsBinary(s, n - 1, t);
      CodesAreBinary(t, "", s[n - 1]);
      var front, last := EncodedPrefix(s, n - 1, codes), CodeOf(codes, s[n - 1]);
      forall i | 0 <= i < |front + last| ensures (front + last)[i] in "01" {
        if i >= |front| { assert (front + last)[i] == last[i - |front|]; }
      }
    }
  }

  /** `compressString`: appends the code of each character of `s` in turn. */
  method CompressString(s: string, codes: map<char, string>) returns (compressed: string)
    ensures compressed == Encoded(s, codes)
  {
    compressed := "";
    for i := 0 to |s|
      invariant compressed == EncodedPrefix(s, i, codes)
    {
      compressed := compressed + CodeOf(codes, s[i]);
    }
  }
}
