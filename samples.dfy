/** A worked example of the tree builder and the code generator: the
    frequency map with counts 4, 2, 1 and 1 for a, b, c and d gets the
    codes "0", "10", "110" and "111", so the most frequent character has the
    shortest code. */
module Samples {
  import opened Wrappers
  import opened Frequency
  import opened HuffmanNode
  import opened TreeBuilder
  import opened CodeGen

  function A(): Node { Leaf(Entry('a', 4)) }
  function B(): Node { Leaf(Entry('b', 2)) }
  function C(): Node { Leaf(Entry('c', 1)) }
  function D(): Node { Leaf(Entry('d', 1)) }

  /** The merge of the two leaves of count 1. */
  function CD(): Node { N(None, 2, C(), D()) }

  /** The merge of 'b' with `CD()`. */
  function BCD(): Node { N(None, 4, B(), CD()) }


  /** The tree `buildHuffmanTree` returns for the counts 4, 2, 1, 1. */
  lemma SampleTree()
    ensures HuffmanTree([Entry('a', 4), Entry('b', 2), Entry('c', 1), Entry('d', 1)])
      == Some(N(None, 8, A(), BCD()))
  {
    assert LeafForest([Entry('a', 4), Entry('b', 2), Entry('c', 1), Entry('d', 1)]) == [A(), B(), C(), D()];
    FirstMerge();
    SecondMerge();
    LastMerge();
  }

  /** The codes of that tree: one bit for 'a', two for 'b', three for 'c'
      and 'd'. */
  lemma SampleCodes()
    ensures var t := HuffmanTree([Entry('a', 4), Entry('b', 2), Entry('c', 1), Entry('d', 1)]);
      && t.Some?
      && CodeTable(t.value, "") == map['a' := "0", 'b' := "10", 'c' := "110", 'd' := "111"]
  {
    SampleTree();
    CodesOfRoot();
  }

  lemma CodesOfRoot()
    ensures CodeTable(N(None, 8, A(), BCD()), "") == map['a' := "0", 'b' := "10", 'c' := "110", 'd' := "111"]
  {
    var t := N(None, 8, A(), BCD());
    assert "" + "0" == "0" && "" + "1" == "1";
    assert CodeTable(t, "") == map[] + CodeTable(A(), "0") + CodeTable(BCD(), "1");
    CodesOfA();
    CodesOfBcd();
    CodesJoin(CodeTable(A(), "0"), CodeTable(BCD(), "1"));
  }

  lemma CodesJoin(left: map<char, string>, right: map<char, string>)
    requires left == map['a' := "0"]
    requires right == map['b' := "10", 'c' := "110", 'd' := "111"]
    ensures map[] + left + right == map['a' := "0", 'b' := "10", 'c' := "110", 'd' := "111"]
  {
  }

  lemma CodesOfA()
    ensures CodeTable(A(), "0") == map['a' := "0"]
  {
  }

  lemma CodesOfCd()
    ensures CodeTable(CD(), "11") == map['c' := "110", 'd' := "111"]
  {
    assert "11" + "0" == "110" && "11" + "1" == "111";
  }

  lemma CodesOfBcd()
    ensures CodeTable(BCD(), "1") == map['b' := "10", 'c' := "110", 'd' := "111"]
  {
    CodesOfCd();
    assert "1" + "0" == "10" && "1" + "1" == "11";
  }

  /** First pass: the stable sort gives c, d, b, a; 'c' and 'd' merge. */
  lemma FirstMerge()
    ensures MergeStep([A(), B(), C(), D()]) == [B(), A(), CD()]
  {
    SortFour();
    MergeStepOfSorted([A(), B(), C(), D()], [C(), D(), B(), A()]);
    FirstFront();
  }

  lemma FirstFront()
    ensures MergeFront([C(), D(), B(), A()]) == [B(), A(), CD()]
  {
    FrontMerged([C(), D(), B(), A()]);
    assert [C(), D(), B(), A()][2..] == [B(), A()];
  }

  lemma SortFour()
    ensures SortByFreq([A(), B(), C(), D()]) == [C(), D(), B(), A()]
  {
    SortAbc();
    SortFourth(A(), B(), C(), D());
    InsertD();
  }

  lemma SortAbc()
    ensures SortByFreq([A(), B(), C()]) == [C(), B(), A()]
  {
    SortTwo(A(), B());
    InsertB();
    SortThree(A(), B(), C());
    InsertC();
  }

  lemma InsertB()
    ensures Insert([A()], B()) == [B(), A()]
  {
    assert [A()][..0] == [];
  }

  lemma InsertC()
    ensures Insert([B(), A()], C()) == [C(), B(), A()]
  {
    assert [B(), A()][..1] == [B()] && [B()][..0] == [];
  }

  lemma InsertD()
    ensures Insert([C(), B(), A()], D()) == [C(), D(), B(), A()]
  {
    assert [C(), B(), A()][..2] == [C(), B()] && [C(), B()][..1] == [C()];
    assert Insert([C()], D()) == [C(), D()];
    assert Insert([C(), B()], D()) == [C(), D(), B()];
  }

  /** Second pass: the stable sort gives b, cd, a; 'b' and `CD()` merge. */
  lemma SecondMerge()
    ensures MergeStep([B(), A(), CD()]) == [A(), BCD()]
  {
    SortBaCd();
    MergeStepOfSorted([B(), A(), CD()], [B(), CD(), A()]);
    SecondFront();
  }

  lemma SecondFront()
    ensures MergeFront([B(), CD(), A()]) == [A(), BCD()]
  {
    FrontMerged([B(), CD(), A()]);
    assert [B(), CD(), A()][2..] == [A()];
  }

  lemma SortBaCd()
    ensures SortByFreq([B(), A(), CD()]) == [B(), CD(), A()]
  {
    SortTwo(B(), A());
    InsertA();
    SortThree(B(), A(), CD());
    InsertCd();
  }

  lemma InsertA()
    ensures Insert([B()], A()) == [B(), A()]
  {
  }

  lemma InsertCd()
    ensures Insert([B(), A()], CD()) == [B(), CD(), A()]
  {
    assert [B(), A()][..1] == [B()];
  }

  /** Last pass: both nodes weigh 4 and stay in order; 'a' goes left. */
  lemma LastMerge()
    ensures Greedy([A(), BCD()]) == [N(None, 8, A(), BCD())]
  {
    SortTwo(A(), BCD());
    assert Insert([A()], BCD()) == [A(), BCD()];
    MergeStepOfSorted([A(), BCD()], [A(), BCD()]);
    FrontMerged([A(), BCD()]);
    assert [A(), BCD()][2..] == [];
  }
}
