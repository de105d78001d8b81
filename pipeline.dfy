/** The two handlers chained: compressing a file's text (script.js:94-102)
    and decompressing the downloaded bytes with the saved tree
    (script.js:182-192). The Base64 text, the `Blob` and the `localStorage`
    JSON string carry the bytes and the tree object unchanged and are not
    modelled. */
module Pipeline {
  import opened Wrappers
  import opened Frequency
  import opened HuffmanNode
  import opened TreeBuilder
  import opened CodeGen
  import opened BitPacking
  import opened TreeCodec
  import opened Decoder

  /** What compression produces: the bytes of the downloaded file and the
      tree object saved for decompression. `bitLength`, the length of the code
      string before padding, is not saved by script.js; only the corrected
      decoder `DecompressExact` reads it. */
  datatype Compressed = Compressed(file: seq<byte>, savedTree: SerialTree, bitLength: nat)

  /** The number of zeros `binaryToBase64` appends to `n` code bits. */
  function Padding(n: nat): (p: nat)
    ensures p < 8 && (n + p) % 8 == 0
  {
    PaddedLength(n) - n
  }

  /** Every character of `s` is the same: `s` has at most one distinct
      character. */
  predicate SingleCharacter(s: string)
  {
    forall i :: 0 <= i < |s| ==> s[i] == s[0]
  }

  /** A saved tree for `content`: of the builder's shape, with the text's
      length as its total, whose leaves are the entries of the text's
      frequency map, so that it carries exactly the text's characters. */
  ghost predicate TreeOf(content: string, t: Node)
  {
    && WellFormed(t)
    && t.freq == |content|
    && multiset(LeafEntries(t)) == multiset(FrequencyMap(content))
    && CarriesCharsOf(content, t)
  }

  /** The tree the compress handler builds for `content`: the greedy merge of
      the leaves of its frequency map; none for an empty text. */
  function BuiltTree(content: string): Option<Node>
  {
    HuffmanTree(FrequencyMap(content))
  }

  /** `t` carries exactly the characters that occur in `s`. */
  ghost predicate CarriesCharsOf(s: string, t: Node)
  {
    && (forall i :: 0 <= i < |s| ==> s[i] in LeafChars(t))
    && (forall c :: c in LeafChars(t) ==> c in s)
  }

  /** What the compress handler's output says about `content`: the saved
      tree is a tree of `content`, and the file holds the code string of the
      text followed by the zero padding. */
  ghost predicate Encodes(content: string, c: Compressed)
  {
    var t := DeserializeTree(c.savedTree);
    && TreeOf(content, t)
    && c.bitLength == |Encoded(content, CodeTable(t, ""))|
    && Unpacked(c.file) == Encoded(content, CodeTable(t, "")) + Zeros(Padding(c.bitLength))
  }

  /** The first two steps of the compress handler: the frequency map of the
      text and the tree built from it. An empty text has no tree. A text of
      one distinct character gets a bare leaf. */
  method HuffmanTreeOf(content: string) returns (root: Option<Node>)
    ensures root.None? <==> content == []
    ensures root.Some? ==> TreeOf(content, root.value)
    ensures root == BuiltTree(content)
    ensures root.Some? && SingleCharacter(content) ==>
      root.value == N(Some(content[0]), |content|, Nil, Nil)
  {
    var entries := BuildFrequencyMap(content);
    ghost var merges: nat;
    root, merges := BuildHuffmanTree(entries);
    if root.Some? {
      BuiltTreeIsTreeOf(content, entries, root.value);
      if SingleCharacter(content) {
        OneDistinct(content, entries);
      }
    }
  }

  /** The compress handler: frequency map, tree, codes, code string, bytes,
      saved tree. An empty text has no tree, and `generateHuffmanCodes` then
      fails on `undefined`: the handler reports an error and produces
      nothing. */
  method Compress(content: string) returns (result: Option<Compressed>)
    ensures result.None? <==> content == []
    ensures result.Some? ==> Encodes(content, result.value)
    ensures result.Some? ==>
      BuiltTree(content).Some? && result.value.savedTree == SerializeTree(BuiltTree(content).value)
    ensures result.Some? && SingleCharacter(content) ==>
      result.value.file == [] && result.value.bitLength == 0
  {
    var root := HuffmanTreeOf(content);
    if root.None? {
      return None;
    }
    var tree := root.value;
    var codes := GenerateHuffmanCodes(tree, "", map[]);
    UnionEmpty(CodeTable(tree, ""));
    var compressed := CompressString(content, codes);
    var file := PackBits(compressed);
    result := Some(Compressed(file, SerializeTree(tree), |compressed|));
    CompressedEncodes(content, tree, result.value);
    if SingleCharacter(content) {
      LeafCodeIsEmpty(content[0], |content|);
      EncodedOfOneCode(content, content[0]);
    }
  }

  /** The pieces the compress handler computes fit together as `Encodes`
      says. */
  lemma CompressedEncodes(content: string, tree: Node, c: Compressed)
    requires TreeOf(content, tree)
    requires c.savedTree == SerializeTree(tree)
    requires c.bitLength == |Encoded(content, CodeTable(tree, ""))|
    requires IsBinary(Encoded(content, CodeTable(tree, ""))) ==>
      Unpacked(c.file) == Encoded(content, CodeTable(tree, "")) + Zeros(PaddedLength(c.bitLength) - c.bitLength)
    ensures Encodes(content, c)
  {
    DeserializeSerialize(tree);
    assert DeserializeTree(c.savedTree) == tree;
    LeafCharsHaveCodes(content, tree);
    EncodedBits(content, tree);
    var bits := Encoded(content, CodeTable(tree, ""));
    assert Unpacked(c.file) == bits + Zeros(Padding(c.bitLength));
  }

  /** The built tree is a tree of the text whose frequency map it was built
      from. */
  lemma BuiltTreeIsTreeOf(content: string, entries: seq<Entry>, tree: Node)
    requires entries == FrequencyMap(content)
    requires forall ch :: ch in content <==> HasKey(entries, ch)
    requires Total(entries) == |content|
    requires WellFormed(tree) && multiset(LeafEntries(tree)) == multiset(entries) && tree.freq == Total(entries)
    ensures TreeOf(content, tree)
  {
    LeafCharsOfEntries(content, entries, tree);
  }

  lemma EncodedBits(s: string, t: Node)
    requires forall c :: c in s ==> c in CodeTable(t, "")
    ensures IsBinary(Encoded(s, CodeTable(t, "")))
  {
    EncodedIsBinary(s, t);
  }

  /** The decompress handler: the file's bytes as bits, then the decoding walk
      over the saved tree. Without a saved tree it reports an error and
      produces nothing. */
  method Decompress(file: seq<byte>, savedTree: Option<SerialTree>) returns (result: Option<string>)
    ensures savedTree.None? ==> result.None?
    ensures savedTree.Some? ==>
      var t := DeserializeTree(savedTree.value);
      result == Walk(t, t, Unpacked(file))
  {
    var bits := UnpackBytes(file);
    if savedTree.None? {
      return None;
    }
    var tree := DeserializeTree(savedTree.value);
    result := DecompressString(bits, tree);
  }

  /** Compressing and then decompressing with the saved tree, as the code is
      written. A text of one distinct character comes back empty, since its
      only code is the empty string. A text of two or more distinct characters
      comes back followed by copies of the tree's leftmost character, one for
      every complete run of the zero padding along the left spine. */
  method RoundTrip(content: string) returns (decoded: Option<string>, ghost tree: Node)
    ensures content == [] ==> decoded.None?
    ensures content != [] && SingleCharacter(content) ==>
      decoded == Some("")
    ensures !SingleCharacter(content) ==>
      && WellFormed(tree) && tree.ch.None?
      && decoded == Some(content + Repeat(LeftmostChar(tree),
           Runs(Padding(|Encoded(content, CodeTable(tree, ""))|), LeftDepth(tree))))
    ensures !SingleCharacter(content) ==>
      decoded.Some? && content <= decoded.value && |decoded.value| < |content| + 8
    ensures content != [] ==> BuiltTree(content) == Some(tree)
  {
    tree := Nil;
    var compressed := Compress(content);
    if compressed.None? {
      return None, tree;
    }
    var c := compressed.value;
    decoded := Decompress(c.file, Some(c.savedTree));
    tree := DeserializeTree(c.savedTree);
    DeserializeSerialize(BuiltTree(content).value);
    DecodedText(content, c, decoded, tree);
  }

  /** What decoding the compressed file gives back, by the number of
      distinct characters of the text. */
  lemma DecodedText(content: string, c: Compressed, decoded: Option<string>, tree: Node)
    requires Encodes(content, c)
    requires SingleCharacter(content) ==> c.file == []
    requires tree == DeserializeTree(c.savedTree) && decoded == Walk(tree, tree, Unpacked(c.file))
    ensures content != [] && SingleCharacter(content) ==>
      decoded == Some("")
    ensures !SingleCharacter(content) ==>
      && WellFormed(tree) && tree.ch.None?
      && decoded == Some(content + Repeat(LeftmostChar(tree),
           Runs(Padding(|Encoded(content, CodeTable(tree, ""))|), LeftDepth(tree))))
    ensures !SingleCharacter(content) ==>
      decoded.Some? && content <= decoded.value && |decoded.value| < |content| + 8
  {
    if !SingleCharacter(content) {
      DecodePadded(content, c);
    } else {
      assert Unpacked(c.file) == "";
    }
  }

  /** Decoding the file of a text with two distinct characters gives the text
      followed by the characters the zero padding decodes to. */
  lemma DecodePadded(content: string, c: Compressed)
    requires Encodes(content, c)
    requires !SingleCharacter(content)
    ensures var t := DeserializeTree(c.savedTree);
      && t.ch.None?
      && Walk(t, t, Unpacked(c.file))
         == Some(content + Repeat(LeftmostChar(t), Runs(Padding(c.bitLength), LeftDepth(t))))
      && |Repeat(LeftmostChar(t), Runs(Padding(c.bitLength), LeftDepth(t)))| < 8
  {
    var t := DeserializeTree(c.savedTree);
    LeafCharsHaveCodes(content, t);
    MergedRoot(content, t);
    var pad := Padding(c.bitLength);
    DecodeEncoded(t, content, Zeros(pad));
    WalkZeros(t, pad);
  }

  /** A tree whose leaves are the entries of the frequency map of `s`
      carries exactly the characters of `s`. */
  lemma LeafCharsOfEntries(s: string, entries: seq<Entry>, t: Node)
    requires forall c :: c in s <==> HasKey(entries, c)
    requires multiset(LeafEntries(t)) == multiset(entries)
    ensures CarriesCharsOf(s, t)
  {
    LeafEntriesFacts(t);
    forall c | c in s ensures c in LeafChars(t) {
      var i :| 0 <= i < |entries| && entries[i].ch == c;
      assert entries[i] in multiset(entries);
      assert entries[i] in LeafEntries(t);
    }
    forall c | c in LeafChars(t) ensures c in s {
      var e :| e in LeafEntries(t) && e.ch == c;
      assert e in multiset(LeafEntries(t));
      var i :| 0 <= i < |entries| && entries[i] == e;
    }
  }

  lemma LeafCharsHaveCodes(s: string, t: Node)
    requires CarriesCharsOf(s, t)
    ensures forall c :: c in s ==> c in CodeTable(t, "")
  {
    CodeTableKeys(t, "");
  }

  /** A text with a single distinct character has a one-entry frequency map. */
  lemma OneDistinct(s: string, entries: seq<Entry>)
    requires s != [] && SingleCharacter(s)
    requires DistinctKeys(entries) && forall c :: c in s <==> HasKey(entries, c)
    ensures |entries| == 1 && entries[0].ch == s[0]
  {
    assert s[0] in s;
    assert HasKey(entries, s[0]);
    forall j | 0 <= j < |entries| ensures entries[j].ch == s[0] {
      assert HasKey(entries, entries[j].ch);
      var i :| 0 <= i < |s| && s[i] == entries[j].ch;
    }
    FirstTwoDiffer(entries);
  }

  lemma FirstTwoDiffer(entries: seq<Entry>)
    requires DistinctKeys(entries)
    ensures |entries| > 1 ==> entries[0].ch != entries[1].ch
  {
  }

  /** Every character of the text having the empty code, the code string is
      empty. */
  lemma EncodedOfOneCode(s: string, c: char)
    requires forall i :: 0 <= i < |s| ==> s[i] == c
    ensures Encoded(s, map[c := ""]) == ""
  {
    PrefixOfOneCode(s, |s|, c);
  }

  lemma {:induction false} PrefixOfOneCode(s: string, n: nat, c: char)
    requires n <= |s| && forall i :: 0 <= i < |s| ==> s[i] == c
    ensures EncodedPrefix(s, n, map[c := ""]) == ""
  {
    if n > 0 {
      PrefixOfOneCode(s, n - 1, c);
    }
  }

  /** A tree carrying two distinct characters of a well-formed tree has a
      merged root. */
  lemma MergedRoot(s: string, t: Node)
    requires WellFormed(t)
    requires CarriesCharsOf(s, t)
    requires !SingleCharacter(s)
    ensures t.ch.None?
  {
    var i :| 0 <= i < |s| && s[i] != s[0];
    assert s[0] in s && s[i] in s;
    LeafCharsOfLeaf(t);
  }

  lemma LeafCharsOfLeaf(t: Node)
    requires WellFormed(t)
    ensures t.ch.Some? ==> LeafChars(t) == {t.ch.value}
  {
  }

  /** The decompress handler with the padding dropped: only the first
      `bitLength` bits of the file, the length of the code string, are
      decoded. */
  method DecompressExact(file: seq<byte>, bitLength: nat, savedTree: Option<SerialTree>) returns (result: Option<string>)
    ensures savedTree.None? ==> result.None?
    ensures savedTree.Some? ==>
      var t := DeserializeTree(savedTree.value);
      result == Walk(t, t, CodeBits(file, bitLength))
  {
    var bits := UnpackBytes(file);
    if savedTree.None? {
      return None;
    }
    if bitLength <= |bits| {
      bits := bits[..bitLength];
    }
    var tree := DeserializeTree(savedTree.value);
    result := DecompressString(bits, tree);
  }

  /** Compressing and then decompressing with the corrected decoder gives
      back every text of two or more distinct characters. */
  method RoundTripExact(content: string) returns (decoded: Option<string>)
    ensures content == [] ==> decoded.None?
    ensures content != [] && SingleCharacter(content) ==>
      decoded == Some("")
    ensures !SingleCharacter(content) ==>
      decoded == Some(content)
  {
    var compressed := Compress(content);
    if compressed.None? {
      return None;
    }
    var c := compressed.value;
    CodeBitsOfFile(content, c);
    decoded := DecompressExact(c.file, c.bitLength, Some(c.savedTree));
    DecodedExact(content, DeserializeTree(c.savedTree), decoded);
  }

  /** What decoding exactly the code string gives back, by the number of
      distinct characters of the text. */
  lemma DecodedExact(content: string, t: Node, decoded: Option<string>)
    requires TreeOf(content, t)
    requires SingleCharacter(content) ==> Encoded(content, CodeTable(t, "")) == ""
    requires decoded == Walk(t, t, Encoded(content, CodeTable(t, "")))
    ensures content != [] && SingleCharacter(content) ==>
      decoded == Some("")
    ensures !SingleCharacter(content) ==>
      decoded == Some(content)
  {
    if !SingleCharacter(content) {
      DecodesExactly(content, t);
    }
  }

  /** The first `bitLength` bits of `file`, or all of them when there are
      fewer. */
  function CodeBits(file: seq<byte>, bitLength: nat): string
  {
    if bitLength <= 8 * |file| then Unpacked(file)[..bitLength] else Unpacked(file)
  }

  /** The first `bitLength` bits of a compressed file are the code string. */
  lemma CodeBitsOfFile(content: string, c: Compressed)
    requires Encodes(content, c)
    ensures TreeOf(content, DeserializeTree(c.savedTree))
    ensures CodeBits(c.file, c.bitLength) == Encoded(content, CodeTable(DeserializeTree(c.savedTree), ""))
  {
  }

  /** In a tree of a text of two distinct characters, decoding the code string
      of the text gives back the text. */
  lemma DecodesExactly(content: string, t: Node)
    requires TreeOf(content, t)
    requires !SingleCharacter(content)
    ensures Walk(t, t, Encoded(content, CodeTable(t, ""))) == Some(content)
  {
    var bits := Encoded(content, CodeTable(t, ""));
    LeafCharsHaveCodes(content, t);
    MergedRoot(content, t);
    DecodeEncoded(t, content, "");
    assert bits + "" == bits && content + "" == content;
  }
}
