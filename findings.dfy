/** The zero padding of `binaryToBase64` (script.js:55) is decoded by
    `decompressString` (script.js:150-164) as if it were code bits: a
    concrete text whose round trip comes back longer. */
module Findings {
  import opened Wrappers
  import opened Frequency
  import opened HuffmanNode
  import opened TreeBuilder
  import opened CodeGen
  import opened BitPacking
  import opened TreeCodec
  import opened Decoder
  import opened Pipeline

  /** The tree the compress handler builds for the text "ab" (`AbBuilt`):
      both counts are 1, the stable sort keeps 'a' first, and the merge puts
      it on the left. */
  function AbTree(): Node
  {
    N(None, 2, N(Some('a'), 1, Nil, Nil), N(Some('b'), 1, Nil, Nil))
  }

  /** What the compress handler produces for "ab": the codes "0" and "1"
      give the code string "01", padded to the single byte 0x40. */
  function AbCompressed(): Compressed
  {
    Compressed([0x40], SerializeTree(AbTree()), 2)
  }

  /** Compressing "ab" and decompressing the result, as the code is written,
      gives back "abaaaaaa": the six zero bits of padding become six extra
      copies of 'a'. */
  method AbRoundTrip() returns (decoded: Option<string>)
    ensures decoded == Some("abaaaaaa")
  {
    ghost var tree: Node;
    decoded, tree := RoundTrip("ab");
    assert "ab"[1] != "ab"[0];
    AbBuilt();
    AbOutcome();
  }

  /** What the round trip of "ab" gives back, by the built tree. */
  lemma AbOutcome()
    ensures "ab" + Repeat(LeftmostChar(AbTree()),
      Runs(Padding(|Encoded("ab", CodeTable(AbTree(), ""))|), LeftDepth(AbTree()))) == "abaaaaaa"
  {
    AbCodes();
    assert Padding(2) == 6;
    AbPadding();
    AbText();
  }

  /** The frequency map of "ab": 'a' then 'b', once each. */
  lemma AbFrequencies()
    ensures FrequencyMap("ab") == [Entry('a', 1), Entry('b', 1)]
  {
    assert "ab"[..1] == "a" && "a"[..0] == "";
    assert FrequencyMap("a") == [Entry('a', 1)];
  }

  /** The compress handler builds `AbTree()` for "ab". */
  lemma AbBuilt()
    ensures BuiltTree("ab") == Some(AbTree())
  {
    AbFrequencies();
    var a, b := Leaf(Entry('a', 1)), Leaf(Entry('b', 1));
    assert LeafForest([Entry('a', 1), Entry('b', 1)]) == [a, b];
    AbMerged(a, b);
  }

  /** Both leaves weigh 1: the stable sort keeps them in order and the one
      merge makes `AbTree()`. */
  lemma AbMerged(a: Node, b: Node)
    requires a == Leaf(Entry('a', 1)) && b == Leaf(Entry('b', 1))
    ensures Greedy([a, b]) == [AbTree()]
  {
    SortTwo(a, b);
    assert Insert([a], b) == [a, b];
    FrontMerged([a, b]);
    assert [a, b][2..] == [];
  }

  /** The padding decodes to extra characters, as the code is written: the
      bits "01000000" of the file for "ab" decode to "ab" followed by six
      copies of 'a'. */
  lemma PaddingCounterexample()
    ensures Encodes("ab", AbCompressed())
    ensures Walk(AbTree(), AbTree(), Unpacked(AbCompressed().file)) == Some("abaaaaaa")
  {
    AbEncodes();
    AbDecodes();
  }

  /** The file of "ab" decodes to "ab" and six copies of 'a'. */
  lemma AbDecodes()
    ensures Walk(AbTree(), AbTree(), Unpacked(AbCompressed().file)) == Some("abaaaaaa")
  {
    var t, bits := AbTree(), Unpacked(AbCompressed().file);
    AbPadding();
    AbBits();
    AbCodes();
    AbText();
    assert forall c :: c in "ab" ==> c in CodeTable(t, "");
    DecodesWithPadding(t, "ab", 6, bits, "aaaaaa");
  }

  lemma AbText()
    ensures "ab" + "aaaaaa" == "abaaaaaa"
  {
  }

  /** The bits of the file for "ab": its code string and six zeros. */
  lemma AbBits()
    ensures Unpacked(AbCompressed().file) == Encoded("ab", CodeTable(AbTree(), "")) + Zeros(6)
  {
    AbFile();
    AbCodes();
    assert Zeros(6) == "000000";
    assert "01" + "000000" == "01000000";
  }

  /** The six padding zeros after "01" decode to six copies of 'a'. */
  lemma AbPadding()
    ensures WellFormed(AbTree()) && AbTree().ch.None?
    ensures Repeat(LeftmostChar(AbTree()), Runs(6, LeftDepth(AbTree()))) == "aaaaaa"
  {
    var t := AbTree();
    assert LeftDepth(t) == 1 && LeftmostChar(t) == 'a';
    assert Runs(6, 1) == 6;
  }

  /** A code string followed by `pad` zeros decodes to the text followed by
      `extra`, the decoding of the zeros. */
  lemma DecodesWithPadding(t: Node, s: string, pad: nat, bits: string, extra: string)
    requires WellFormed(t) && t.ch.None?
    requires forall c :: c in s ==> c in CodeTable(t, "")
    requires bits == Encoded(s, CodeTable(t, "")) + Zeros(pad)
    requires Repeat(LeftmostChar(t), Runs(pad, LeftDepth(t))) == extra
    ensures Walk(t, t, bits) == Some(s + extra)
  {
    DecodeEncoded(t, s, Zeros(pad));
    WalkZeros(t, pad);
  }

  lemma AbEncodes()
    ensures Encodes("ab", AbCompressed())
  {
    DeserializeSerialize(AbTree());
    AbCodes();
    AbIsTreeOf();
    AbBits();
    assert Padding(2) == 6;
  }

  lemma AbFile()
    ensures Unpacked(AbCompressed().file) == "01000000"
  {
    var file := AbCompressed().file;
    assert file[..0] == [] && file[0] == 0x40;
    assert ToBinaryString(0x40) == "1000000";
    assert ByteToBits(0x40) == "01000000";
  }

  lemma AbCodes()
    ensures CodeTable(AbTree(), "") == map['a' := "0", 'b' := "1"]
    ensures Encoded("ab", CodeTable(AbTree(), "")) == "01"
  {
    var t := AbTree();
    var codes := CodeTable(t, "");
    var ca, cb := CodeTable(t.left, "0"), CodeTable(t.right, "1");
    assert "" + "0" == "0" && "" + "1" == "1";
    assert codes == map[] + ca + cb;
    assert ca == map['a' := "0"] && cb == map['b' := "1"];
    assert CodeOf(codes, 'a') == "0" && CodeOf(codes, 'b') == "1";
    assert EncodedPrefix("ab", 1, codes) == "0";
  }

  lemma AbIsTreeOf()
    ensures TreeOf("ab", AbTree())
  {
    AbFrequencies();
    assert LeafEntries(AbTree()) == [Entry('a', 1), Entry('b', 1)];
    assert LeafChars(AbTree()) == {'a', 'b'};
  }
}
