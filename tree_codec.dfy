/** Saving and restoring the tree: `serializeTree` and `deserializeTree`
    (script.js:65-80). The plain object that `JSON.stringify` writes and
    `JSON.parse` reads back is modelled as its own datatype. */
module TreeCodec {
  import opened Wrappers
  import opened HuffmanNode

  /** A plain object `{char, freq, left, right}`, or `null`. */
  datatype SerialTree = Null | Obj(ch: Option<char>, freq: nat, left: SerialTree, right: SerialTree)

  /** `serializeTree`: `null` for `null`, otherwise an object with the same
      character, frequency and serialised children. */
  function SerializeTree(node: Node): (o: SerialTree)
    ensures o.Null? <==> node.Nil?
    ensures node.N? ==> o.ch == node.ch && o.freq == node.freq
  {
    match node
    case Nil => Null
    case N(ch, f, l, r) => Obj(ch, f, SerializeTree(l), SerializeTree(r))
  }

  /** `deserializeTree`: `null` for `null`, otherwise a node with the same
      character, frequency and deserialised children. */
  function DeserializeTree(o: SerialTree): (node: Node)
    ensures node.Nil? <==> o.Null?
    ensures o.Obj? ==> node.ch == o.ch && node.freq == o.freq
  {
    match o
    case Null => Nil
    case Obj(ch, f, l, r) => N(ch, f, DeserializeTree(l), DeserializeTree(r))
  }

  /** Restoring a saved tree gives back the same tree. */
  lemma {:induction false} DeserializeSerialize(t: Node)
    ensures DeserializeTree(SerializeTree(t)) == t
  {
    match t
    case Nil =>
    case N(_, _, l, r) =>
      DeserializeSerialize(l);
      DeserializeSerialize(r);
  }

  /** Saving a restored object gives back the same object. */
  lemma {:induction false} SerializeDeserialize(o: SerialTree)
    ensures SerializeTree(DeserializeTree(o)) == o
  {
    match o
    case Null =>
    case Obj(_, _, l, r) =>
      SerializeDeserialize(l);
      SerializeDeserialize(r);
  }
}
