# Huffman file compressor, modelled in Dafny

The application compresses a text file in the browser. It works in these steps:

1. Count how often each character occurs (`buildFrequencyMap`).
2. Build a Huffman tree from the counts (`buildHuffmanTree`). The forest is sorted by frequency, the two lightest nodes are merged, and this repeats until one node is left.
3. Give every character the path from the root to its node as its code, with '0' for left and '1' for right (`generateHuffmanCodes`).
4. Concatenate the codes of the text (`compressString`).
5. Pad the bit string with zeros to whole bytes and pack it into bytes, most significant bit first (`binaryToBase64`).
6. Save the tree as a plain object (`serializeTree`).

Decompression runs the other way:

1. Unpack the bytes of the file into bits (`base64ToBinary`).
2. Restore the tree (`deserializeTree`).
3. Walk the tree bit by bit (`decompressString`). Each node that holds a character emits it, and the walk restarts at the root.

The model has one Dafny module per part:

| module | file | models |
|---|---|---|
| `Wrappers` | wrappers.dfy | `Option` |
| `Frequency` | frequency.dfy | `buildFrequencyMap` |
| `HuffmanNode` | huffman_node.dfy | the `HuffmanNode` record |
| `TreeBuilder` | tree_builder.dfy | `buildHuffmanTree` |
| `CodeGen` | code_gen.dfy | `generateHuffmanCodes` and `compressString` |
| `BitPacking` | bit_packing.dfy | the packing loop of `binaryToBase64` and the unpacking loop of `base64ToBinary` |
| `TreeCodec` | tree_codec.dfy | `serializeTree` and `deserializeTree` |
| `Decoder` | decoder.dfy | `decompressString` |
| `Pipeline` | pipeline.dfy | the compress and decompress handlers, chained |
| `Findings` | findings.dfy | a concrete input for the padding defect below |
| `Samples` | samples.dfy | a worked example of `buildHuffmanTree` and `generateHuffmanCodes` |

How each part is written:

- **Loops are methods.** The loops that build a map, a forest, a string or a byte array are methods with loop invariants. Each one is proved against a specification function:
  - `BuildFrequencyMap` against `FrequencyMap`, whose properties `FrequencyMapCounts` proves
  - `BuildHuffmanTree` against `HuffmanTree`, the greedy merge `Greedy` of the leaf forest, and against `ForestOf`
  - `CompressString` against `Encoded`
  - `PackBits` and `UnpackBytes` against `Unpacked`
  - `DecompressString` against `Walk`
- **The code map is threaded through calls.** `generateHuffmanCodes` writes into one shared map. The model is a recursive method that passes the map along, proved against `CodeTable`.
- **Pure code stays pure.** The tree and its saved form are datatypes, and the two tree conversions are functions.

JavaScript behaviour that the model reproduces:

- A character without a code adds the text `undefined` to the code string.
- `parseInt(…, 2)` is modelled with its whitespace trimming and its longest-binary-prefix rule. The `Uint8Array` store is modelled as reduction modulo 256.
- Reading a field of `null` while decoding throws a `TypeError`. The model returns `None` for it.
- An empty text makes `generateHuffmanCodes(undefined)` throw. The compress handler then produces nothing, and the model returns `None`.
- A text of one distinct character is not given a one-bit code. Its tree is a bare leaf, so `generateHuffmanCodes` gives that character the empty code, the code string is empty and the file has no bytes. Decoding the empty bit string yields the empty string, so the text comes back empty (`Pipeline.Compress`, `Pipeline.RoundTrip`). Decoding a nonempty bit string with a bare-leaf tree reads a field of `null`; the model returns `None` for that crash rather than excluding it by a precondition.
- The two handlers are chained with the file bytes and the saved tree passed along unchanged. This makes the round trip of the code as written (`Pipeline.RoundTrip`) a theorem.

## Model

| member | source | states |
|---|---|---|
| `Frequency.BuildFrequencyMap` | script.js:12-18 | The result is `FrequencyMap(s)`, every character bumped into the map in turn. The keys are distinct and are exactly the characters of the text. Each count is the number of occurrences of its character. The counts sum to the text's length. Entries come in order of first occurrence. The map is empty iff the text is empty. |
| `Frequency.FrequencyMapCounts` | script.js:12-18 | The map of bumps has distinct keys, exactly the text's characters, each with its number of occurrences, summing to the text's length, in order of first occurrence. |
| `Frequency.CountedPrefix` | script.js:14-15 | The map of bumps of the first `i` characters is a correct count of that prefix. |
| `Frequency.CountedAll` | script.js:12-18 | The loop invariant at the end of the text gives every postcondition of `buildFrequencyMap`. |
| `Frequency.BumpKeepsCount` | script.js:14-15 | One `freqMap[char] = (freqMap[char] \|\| 0) + 1` step extends a correct count of a prefix by one character. |
| `Frequency.IncrementKeepsCount` | script.js:15 | Incrementing a present key keeps the count correct for the longer prefix. |
| `Frequency.AppendKeepsCount` | script.js:15 | Adding an absent key with count 1 keeps the count correct for the longer prefix, and keeps first-occurrence order. |
| `Frequency.IncrementStep` | script.js:15 | Incrementing the entry of `c` describes the text extended by `c`. |
| `Frequency.AppendStep` | script.js:15 | Appending `(c, 1)` for a new `c` describes the text extended by `c`. |
| `Frequency.FirstOccurrenceStep` | script.js:14-15 | A key first seen at position `i` goes after all keys first seen earlier. |
| `Frequency.SameKeysStep` | script.js:15 | Updating a count does not change the order of the keys. |
| `Frequency.IndexOfKey` | script.js:15 | The index of a key's entry is found iff the key is present. |
| `Frequency.TotalUpdate` | script.js:15 | Replacing one entry changes the total by the difference of the counts. |
| `HuffmanNode.WellFormed` | script.js:22-28 | A tree in the builder's shape is never `null`. A leaf has no children. A merged node has two children, the sum of their frequencies, and the lighter child on the left. |
| `HuffmanNode.LeafEntriesFacts` | script.js:2-9 | A character is in the tree iff some leaf holds it. A well-formed tree's frequency is the sum of its leaf counts. |
| `HuffmanNode.FollowAppend` | script.js:155 | Following `p + q` is following `p` and then `q`. |
| `HuffmanNode.FollowWellFormed` | script.js:155 | Along any path a well-formed tree stays well-formed or reaches `null`. No step leads out of a leaf. |
| `TreeBuilder.SortByFreq` | script.js:24 | The sorted forest is ascending by frequency and is a permutation of the input. |
| `TreeBuilder.SortIsStable` | script.js:24 | Nodes of equal frequency keep their relative order, as the stable `Array.prototype.sort` requires. |
| `TreeBuilder.InsertSorted` | script.js:24 | Insertion into a sorted forest keeps it sorted. |
| `TreeBuilder.InsertAdds` | script.js:24 | Insertion adds exactly the new node. |
| `TreeBuilder.InsertStable` | script.js:24 | Insertion places the new node after every node of the same frequency. |
| `TreeBuilder.InitialForest` | script.js:22 | The initial forest is well-formed and holds exactly the map's entries and total. |
| `TreeBuilder.SortKeepsForest` | script.js:24 | Sorting keeps the forest's leaves, total and well-formedness. |
| `TreeBuilder.LightestPair` | script.js:24-26 | The two nodes shifted off a sorted forest are no heavier than any node left, and with the rest they make up the whole forest. |
| `TreeBuilder.MergeKeepsForest` | script.js:25-28 | Replacing the two lightest nodes by their merge keeps the forest's leaves, total and well-formedness. The merged node has the lighter child on the left. |
| `TreeBuilder.MergeKeepsWellFormed` | script.js:25-28 | The merged node is well-formed, and so is the rest of the forest. |
| `TreeBuilder.MergeKeepsBag` | script.js:25-28 | The merge keeps the multiset of leaves. |
| `TreeBuilder.MergeKeepsFreq` | script.js:27 | The merge keeps the total frequency. |
| `TreeBuilder.BagPermutation` | script.js:24 | Permuting a forest keeps its leaves. |
| `TreeBuilder.FreqPermutation` | script.js:24 | Permuting a forest keeps its total. |
| `TreeBuilder.ForestOfSingleton` | script.js:30 | A forest of one node holds every entry and the whole total in that node. |
| `TreeBuilder.MergeLightestPair` | script.js:24-28 | One pass of the loop is exactly `MergeStep`: stable sort, shift the first two nodes, push their merge. It keeps the leaves, total and well-formedness, and shrinks the forest by exactly one. The pushed node has no character and the sum of its children's frequencies. Its children are two nodes of the old forest, the lighter on the left, and no remaining node is lighter than either of them. |
| `TreeBuilder.MergeFrontForest` | script.js:25-28 | Merging the first two nodes of a sorted forest keeps its leaves, total and well-formedness. |
| `TreeBuilder.LightestMerged` | script.js:24-28 | The pushed node of a merge step merges the two lightest nodes of the forest. |
| `TreeBuilder.PushedMerge` | script.js:25-28 | The pushed node merges the two shifted-off nodes, the forest before the push is the rest, and no node of the rest is lighter than the merged children. |
| `TreeBuilder.Greedy` | script.js:23-29 | Merging until at most one node is left leaves nothing for an empty forest and exactly one node otherwise. |
| `TreeBuilder.BuildHuffmanTree` | script.js:21-31 | The result is exactly `HuffmanTree(entries)`: the last node of the greedy merge of the leaf forest, `None` for `undefined`. An empty map gives `None`. Otherwise the root is well-formed, its leaves are exactly the map's entries and its frequency is the sum of all counts. One entry gives a bare leaf. Two or more give a merged root, after exactly n−1 merges. |
| `CodeGen.GenerateHuffmanCodes` | script.js:34-42 | The result is the incoming map overwritten by the code table of the tree, in the order the recursion writes it. |
| `CodeGen.CodeTableKeys` | script.js:36-40 | The characters with a code are exactly the characters in the tree. |
| `CodeGen.CodeIsPath` | script.js:36-40 | Every code is the prefix followed by the root-to-node path ('0' left, '1' right) to a node holding that character. |
| `CodeGen.CodesAreBinary` | script.js:39-40 | Codes consist of '0' and '1' only. |
| `CodeGen.CodesNonEmpty` | script.js:36-40 | In a tree whose root is a merged node, no code is empty. |
| `CodeGen.LeafCodeIsEmpty` | script.js:34-38 | A bare-leaf root gives its character the empty code. |
| `CodeGen.PrefixFree` | script.js:34-42 | In a tree of the builder's shape, no code is a prefix of another character's code. |
| `CodeGen.PathEndsAtLeaf` | script.js:155-157 | A path that reaches a character cannot be extended inside a tree of the builder's shape. |
| `CodeGen.CompressString` | script.js:45-51 | The result is the concatenation of the characters' codes in input order. A missing code contributes the text `undefined`. |
| `CodeGen.EncodedAppend` | script.js:47-48 | The encoding of a concatenation is the concatenation of the encodings. |
| `CodeGen.EncodedCons` | script.js:47-48 | The encoding of a nonempty text is the first character's code followed by the encoding of the rest. |
| `CodeGen.EncodedLength` | script.js:45-51 | The code string is as long as the sum of the code lengths of the input characters. |
| `CodeGen.EncodedIsBinary` | script.js:45-51 | When every character has a code, the code string is a bit string. |
| `BitPacking.PaddedLength` | script.js:55 | `Math.ceil(n / 8) * 8` is the least multiple of 8 not below `n`. |
| `BitPacking.PadToBytes` | script.js:55 | The padded string extends the bits with '0's only, has a length that is a multiple of 8, and is fewer than 8 characters longer: the shortest such extension. |
| `BitPacking.ParseIntOfBinary` | script.js:59 | `parseInt(s, 2)` of a nonempty bit string is its binary value. |
| `BitPacking.ByteOfBinary` | script.js:58-59 | A group of eight bits becomes the byte of its binary value. |
| `BitPacking.PaddedBinaryIsFixed` | script.js:143-144 | `toString(2)` followed by `padStart(8, '0')` is the 8-bit MSB-first form of the byte. |
| `BitPacking.ByteToBitsIsFixed` | script.js:143-144 | Every byte unpacks to exactly its 8-bit MSB-first form. |
| `BitPacking.ParseFixedBits` | script.js:59 | Parsing the fixed-width form of `n` gives back `n`. |
| `BitPacking.FixedBitsOfParse` | script.js:143-144 | The fixed-width form of the value of a bit string is that string. |
| `BitPacking.UnpackedBytes` | script.js:142-145 | Byte `k` of the input occupies bits `8k` to `8k+8` of the unpacked string. |
| `BitPacking.UnpackGroups` | script.js:142-145 | A string whose 8-bit groups are the forms of the bytes is their unpacking. |
| `BitPacking.RepackUnpacked` | script.js:55-60 | Unpacked bytes need no padding, and packing them gives back the same bytes. |
| `BitPacking.PackStep` | script.js:57-59 | One iteration of the packing loop stores the next 8-bit group, and keeps the groups stored so far. |
| `BitPacking.PackedAll` | script.js:55-60 | The loop invariant at the end gives every postcondition of the packing loop. |
| `BitPacking.PackBits` | script.js:55-60 | Packing gives ⌈n/8⌉ bytes, byte `k` being the value of group `k` of the zero-padded bits. For a bit string, unpacking the bytes gives the bits followed by the zero padding only. |
| `BitPacking.UnpackBytes` | script.js:139-147 | Each byte becomes 8 bits, MSB-first, in order. The result is a bit string of 8 bits per byte. |
| `TreeCodec.SerializeTree` | script.js:66-74 | `null` maps to `null` and only `null` does. A node keeps its character and frequency. |
| `TreeCodec.DeserializeTree` | script.js:77-80 | `null` maps to `null` and only `null` does. An object keeps its character and frequency. |
| `TreeCodec.DeserializeSerialize` | script.js:66-80 | Restoring a saved tree gives the same tree. |
| `TreeCodec.SerializeDeserialize` | script.js:66-80 | Saving a restored object gives the same object. |
| `Decoder.DecompressString` | script.js:150-164 | The loop's result is the decoding walk of the whole bit string from the root. A `null` dereference aborts with `None`. |
| `Decoder.WalkCode` | script.js:154-160 | Walking a path to a node holding `c` emits exactly `c` and restarts at the root. |
| `Decoder.WalkPartial` | script.js:154-161 | Trailing bits that stop at a merged node emit nothing. |
| `Decoder.DecodeEncoded` | script.js:150-164 | Decoding inverts encoding. In a tree of the builder's shape with a merged root, the code string of any text of its characters, followed by any bits, decodes to that text followed by what those bits decode to. |
| `Decoder.DecodeStep` | script.js:154-160 | The code of the first character decodes to that character, and decoding continues from the root on the rest of the code string. |
| `Decoder.CodeLeadsTo` | script.js:154-157 | In a tree with a merged root, a character's code is a nonempty path to a node holding that character. |
| `Decoder.EncodedRest` | script.js:47-48 | The code string of a nonempty text is the first character's code followed by the code string of the rest. |
| `Decoder.LeftSpine` | script.js:155 | Following '0's from the root reaches merged nodes until the leftmost character is reached. |
| `Decoder.WalkZeros` | script.js:150-164 | A run of `p` zero bits decodes to the leftmost character, once per complete run of the left-spine depth. |
| `Decoder.ZerosAppend` | script.js:55 | Padding zeros split at any point. |
| `Pipeline.Padding` | script.js:55 | The padding is fewer than 8 zeros and completes a byte. |
| `Pipeline.HuffmanTreeOf` | script.js:94-95 | The tree is exactly `BuiltTree(content)`, the greedy merge of the leaves of the text's frequency map. An empty text has no tree. Otherwise the tree is well-formed, has the text's length as its frequency, its leaves are the entries of the text's frequency map, and it holds exactly the text's characters. A text of one distinct character gets a bare leaf. |
| `Pipeline.Compress` | script.js:94-102 | An empty text produces nothing. Otherwise the saved tree is the serialized `BuiltTree(content)`, and the file holds the code string of the text under that tree, followed by the zero padding. A text of one distinct character gives an empty file. |
| `Pipeline.CompressedEncodes` | script.js:94-101 | The values the compress handler computes fit together as described above. |
| `Pipeline.BuiltTreeIsTreeOf` | script.js:94-95 | The tree built from a text's frequency map has the map's entries as its leaves, and holds exactly the text's characters and its length. |
| `Pipeline.LeafCharsOfEntries` | script.js:22 | A tree whose leaves are a text's map entries holds exactly that text's characters. |
| `Pipeline.LeafCharsHaveCodes` | script.js:96-97 | Every character of the text has a code, so no `undefined` enters the code string. |
| `Pipeline.OneDistinct` | script.js:12-22 | A text of one distinct character has a one-entry map. |
| `Pipeline.EncodedOfOneCode` | script.js:45-51 | With the empty code for its only character, a text encodes to the empty string. |
| `Pipeline.MergedRoot` | script.js:23-28 | A tree holding two distinct characters has a merged root. |
| `Pipeline.Decompress` | script.js:182-192 | Without a saved tree nothing is produced. Otherwise the result is the decoding walk of all the file's bits, padding included, over the restored tree. |
| `Pipeline.RoundTrip` | script.js:94-192 | Compressing and then decompressing, as the code is written, gives three outcomes. An empty text gives nothing. A text of one distinct character comes back empty. Any other text comes back followed by fewer than 8 copies of the leftmost character of the built tree `BuiltTree(content)`, one per complete left-spine run of the zero padding. |
| `Pipeline.DecodedText` | script.js:150-164 | The same three outcomes, for any compressed file that encodes the text. |
| `Pipeline.DecodePadded` | script.js:150-164 | The padded file of a text of two or more distinct characters decodes to the text followed by what the zero padding decodes to. |
| `Pipeline.DecompressExact` | script.js:182-192 | The decompress handler corrected to decode only the first `bitLength` bits of the file. |
| `Pipeline.CodeBitsOfFile` | script.js:55 | The first `bitLength` bits of the compressed file are exactly the code string. |
| `Pipeline.DecodesExactly` | script.js:150-164 | For a text of two or more distinct characters, the code string decodes to exactly the text. |
| `Pipeline.DecodedExact` | script.js:150-164 | Decoding exactly the code string gives the text back when it has two or more distinct characters, and the empty string when it has one. |
| `Pipeline.RoundTripExact` | script.js:94-192 | With the corrected decoder, an empty text gives nothing, a text of one distinct character comes back empty, and every other text comes back exactly. |
| `Findings.AbCodes` | script.js:34-42 | The tree of "ab" gives `a` the code "0" and `b` the code "1", so "ab" encodes to "01". |
| `Findings.AbFile` | script.js:57-59 | The file 0x40 unpacks to "01000000". |
| `Findings.AbIsTreeOf` | script.js:21-31 | The merged tree with leaf `a` on the left and leaf `b` on the right is a tree of "ab". |
| `Findings.AbFrequencies` | script.js:12-18 | The frequency map of "ab" is `a` then `b`, once each. |
| `Findings.AbMerged` | script.js:23-29 | Two leaves of weight 1 stay in order under the stable sort and merge with `a` on the left. |
| `Findings.AbBuilt` | script.js:21-31 | The tree built for "ab" is the merged tree with leaf `a` on the left and leaf `b` on the right. |
| `Findings.AbOutcome` | script.js:150-164 | Under that tree the round trip of "ab" yields "ab" followed by six copies of `a`. |
| `Findings.AbRoundTrip` | script.js:94-192 | Compressing "ab" and decompressing the result, as the code is written, gives "abaaaaaa". |
| `Findings.AbEncodes` | script.js:94-98 | The file 0x40 with that tree is a compression of "ab". |
| `Findings.AbBits` | script.js:55-59 | The file bits for "ab" are its code string "01" followed by six zeros. |
| `Findings.AbPadding` | script.js:150-164 | In the tree of "ab", the six padding zeros decode to "aaaaaa". |
| `Findings.DecodesWithPadding` | script.js:150-164 | A code string followed by zero padding decodes to the text followed by what the zeros decode to. |
| `Findings.AbDecodes` | script.js:150-164 | The file for "ab" decodes to "abaaaaaa". |
| `Findings.PaddingCounterexample` | script.js:55 | The file 0x40 with the tree of "ab" is a compression of "ab", and its padded bits decode to "abaaaaaa". |
| `Samples.FirstMerge` | script.js:24-28 | For counts a4 b2 c1 d1 the stable sort gives c, d, b, a, and `c` and `d` merge. |
| `Samples.SecondMerge` | script.js:24-28 | Then the sort gives b, cd, a, and `b` merges with the merge of `c` and `d`. |
| `Samples.LastMerge` | script.js:23-29 | Two nodes of weight 4 stay in order, and `a` ends up on the left of the root. |
| `Samples.SampleTree` | script.js:21-31 | The tree built for counts a4 b2 c1 d1 has leaf `a` on the left of the root and `b`, `c`, `d` ever deeper on the right. |
| `Samples.SampleCodes` | script.js:34-42 | Its codes are a = "0", b = "10", c = "110", d = "111": lengths 1, 2, 3 and 3, the shortest code for the most frequent character. |

## Left out

- The user interface is not modelled, because it is browser plumbing with no logic of the codec: the click handlers, `FileReader`, `alert`, `Blob`, `URL.createObjectURL`, `setTimeout` and the download link (script.js:83-92, 103-125, 167-179, 193-218). The text read from the file is a parameter.
- Base64 (section 4 of RFC 4648) is carried unchanged and not modelled, because browser builtins perform it: `btoa`, `atob`, `base64ToBlob`, the data URL and the `split(',')` that strips its header. The model passes the packed bytes straight to the unpacking loop.
- `localStorage` and `JSON.stringify`/`JSON.parse` of the tree are not modelled, because they are foreign storage calls. The saved tree object is passed as a parameter (`Option<SerialTree>`, with `None` for a missing item). A tree left over from an earlier compression is any `Some` value.
- The `Object.entries` rule that lists integer-like keys first is not modelled. The model keeps the map's insertion order. `Frequency.BuildFrequencyMap` states first-occurrence order, which differs from JavaScript for texts whose characters include the digits '0'–'9'.
- Characters are abstract `char`s, because the model ignores the encoding details of `readAsText` and of `for…of` over strings.
- In-place mutation of the `nodes` array is modelled on values. `sort`, `shift` and `push` are modelled as a stable sort function, slicing and appending on a `seq` that the loop reassigns. The shared `codeMap` object is threaded through the recursive calls as a value.
- `TreeBuilder.SortByFreq`: the model is one particular stable sort (insertion). Any stable sort gives the same order, and `TreeBuilder.SortIsStable` states stability.
- `TreeBuilder.BuildHuffmanTree`: the `merges` count is ghost, because the source has no such variable.
- `Pipeline.RoundTrip`: the outcome for a text of two or more distinct characters is stated through the built tree (a ghost out-parameter, equal to `BuiltTree(content)`). That outcome is the text followed by the leftmost character `Runs(…)` times. `Findings.AbRoundTrip` evaluates it for "ab".
- `CodeGen.GenerateHuffmanCodes`: for a `null` root at the top level the source returns `undefined` (script.js:35); the model returns the incoming map. The recursive calls ignore the returned value, and the compress handler reaches the top level with `undefined` only for an empty text, which `Pipeline.Compress` models as producing nothing.
- `Pipeline.Compressed.bitLength` is not written by the source. Only the corrected `Pipeline.DecompressExact` reads it.

## Findings

| source | as written | input that shows it | evidently intended | confidence | as-written member | corrected member |
|---|---|---|---|---|---|---|
| script.js:55 | The code string is padded with zeros to whole bytes, and the bit count is not stored. `decompressString` (script.js:150-164) then decodes the padding as code bits. | "ab": the codes are a = "0" and b = "1", so the code string is "01" and the file is the byte 0x40 ("01000000"). It decompresses to "abaaaaaa". | Decode only the code bits, so that the text comes back exactly. | not executed | `Findings.AbRoundTrip` | `Pipeline.RoundTripExact` |
