/** Bit strings and bytes: the packing loop of `binaryToBase64`
    (script.js:54-60) and the unpacking loop of `base64ToBinary`
    (script.js:139-147). A bit string is a JavaScript string of '0' and '1'
    characters; a byte is an element of a `Uint8Array`. */
module BitPacking {
  import opened Wrappers

  type byte = x: int | 0 <= x < 256

  /** Every character is '0' or '1'. */
  predicate IsBinary(s: string)
  {
    forall i :: 0 <= i < |s| ==> s[i] == '0' || s[i] == '1'
  }

  function Pow2(n: nat): (r: nat)
    ensures r >= 1
  {
    if n == 0 then 1 else 2 * Pow2(n - 1)
  }

  /** `n` copies of '0'. */
  function Zeros(n: nat): (r: string)
    ensures |r| == n && IsBinary(r)
    ensures forall i :: 0 <= i < n ==> r[i] == '0'
  {
    if n == 0 then "" else Zeros(n - 1) + "0"
  }

  /** `Math.ceil(n / 8) * 8`: the length rounded up to whole bytes. */
  function PaddedLength(n: nat): (r: nat)
    ensures r % 8 == 0 && n <= r < n + 8
  {
    ((n + 7) / 8) * 8
  }

  /** `bits.padEnd(PaddedLength(|bits|), '0')`: zeros appended up to a whole
      number of bytes. The result extends `bits` by fewer than eight zeros,
      the fewest that reach a multiple of eight. */
  function PadToBytes(bits: string): (r: string)
    ensures |r| == PaddedLength(|bits|)
    ensures bits <= r && |r| % 8 == 0 && |r| < |bits| + 8
    ensures forall i :: |bits| <= i < |r| ==> r[i] == '0'
  {
    bits + Zeros(PaddedLength(|bits|) - |bits|)
  }

  /** The digit of a bit. */
  function Digit(b: nat): char
    requires b < 2
  {
    if b == 0 then '0' else '1'
  }

  /** The value of a bit string read most significant bit first. */
  function ParseBinary(s: string): (r: nat)
    requires IsBinary(s)
    ensures r < Pow2(|s|)
  {
    if s == [] then 0
    else 2 * ParseBinary(s[..|s| - 1]) + (if s[|s| - 1] == '1' then 1 else 0)
  }

  /** `StrWhiteSpaceChar` of ECMAScript: the white space and line terminators
      that `parseInt` skips before the number. */
  predicate IsJsWhiteSpace(c: char)
  {
    || c == '\U{0009}' || c == '\U{000B}' || c == '\U{000C}' || c == '\U{0020}'
    || c == '\U{00A0}' || c == '\U{FEFF}' || c == '\U{1680}'
    || ('\U{2000}' <= c <= '\U{200A}') || c == '\U{202F}' || c == '\U{205F}' || c == '\U{3000}'
    || c == '\U{000A}' || c == '\U{000D}' || c == '\U{2028}' || c == '\U{2029}'
  }

  /** `s` without its leading white space. */
  function TrimStart(s: string): (r: string)
    ensures r == [] || !IsJsWhiteSpace(r[0])
  {
    if s != [] && IsJsWhiteSpace(s[0]) then TrimStart(s[1..]) else s
  }

  /** The longest prefix of `s` made of binary digits. */
  function BinaryPrefix(s: string): (r: string)
    ensures IsBinary(r)
  {
    if s != [] && (s[0] == '0' || s[0] == '1') then [s[0]] + BinaryPrefix(s[1..]) else []
  }

  /** `parseInt(s, 2)`: skip white space, read an optional sign, then the
      longest run of binary digits; `None` is `NaN`, when there is no digit. */
  function ParseInt2(s: string): Option<int>
  {
    var t := TrimStart(s);
    var signed := t != [] && (t[0] == '-' || t[0] == '+');
    var digits := BinaryPrefix(if signed then t[1..] else t);
    var magnitude: int := if digits == [] then 0 else ParseBinary(digits);
    if digits == [] then None
    else if signed && t[0] == '-' then Some(-magnitude)
    else Some(magnitude)
  }

  /** ECMAScript `ToUint8`, applied by `new Uint8Array(...)`: `NaN` becomes 0
      and any other integer is taken modulo 256. */
  function ToUint8(v: Option<int>): byte
  {
    if v.None? then 0 else v.value % 256
  }

  /** The byte stored for one group of eight characters. */
  function ByteOf(group: string): byte
  {
    ToUint8(ParseInt2(group))
  }

  /** On a nonempty bit string `parseInt(s, 2)` is the plain binary value. */
  lemma ParseIntOfBinary(s: string)
    requires IsBinary(s) && s != []
    ensures ParseInt2(s) == Some(ParseBinary(s))
  {
    assert s[0] == '0' || s[0] == '1';
    assert !IsJsWhiteSpace(s[0]);
    assert TrimStart(s) == s;
    BinaryPrefixOfBinary(s);
    assert BinaryPrefix(s) == s;
    var magnitude: int := ParseBinary(s);
    assert ParseInt2(s) == Some(magnitude);
  }

  lemma {:induction false} BinaryPrefixOfBinary(s: string)
    requires IsBinary(s)
    ensures BinaryPrefix(s) == s
  {
    if s != [] {
      BinaryPrefixOfBinary(s[1..]);
    }
  }

  /** Eight bits are stored as their value. */
  lemma ByteOfBinary(group: string)
    requires IsBinary(group) && |group| == 8
    ensures ByteOf(group) == ParseBinary(group)
  {
    ParseIntOfBinary(group);
    var v := ParseBinary(group);
    assert v < 256 by { assert Pow2(8) == 256; }
    assert ToUint8(Some(v)) == v;
  }

  /** `n.toString(2)`: the binary digits of `n` without leading zeros ("0"
      for zero). */
  function ToBinaryString(n: nat): (r: string)
    ensures r != [] && IsBinary(r)
  {
    if n < 2 then [Digit(n)] else ToBinaryString(n / 2) + [Digit(n % 2)]
  }

  /** `s.padStart(width, '0')`. */
  function PadStart(s: string, width: nat): (r: string)
    ensures |r| == if |s| < width then width else |s|
  {
    if |s| < width then Zeros(width - |s|) + s else s
  }

  /** `byte.toString(2).padStart(8, '0')`: a byte as eight characters. */
  function ByteToBits(b: byte): string
  {
    PadStart(ToBinaryString(b), 8)
  }

  /** The `w` low bits of `n`, most significant first. */
  function FixedBits(n: nat, w: nat): (r: string)
    ensures |r| == w && IsBinary(r)
  {
    if w == 0 then "" else FixedBits(n / 2, w - 1) + [Digit(n % 2)]
  }

  lemma {:induction false} FixedBitsOfZero(w: nat)
    ensures FixedBits(0, w) == Zeros(w)
  {
    if w > 0 {
      FixedBitsOfZero(w - 1);
    }
  }

  /** A number below `2^w` has at most `w` binary digits, and padding them
      with zeros on the left gives its `w`-bit form. */
  lemma {:induction false} PaddedBinaryIsFixed(n: nat, w: nat)
    requires 1 <= w && n < Pow2(w)
    ensures |ToBinaryString(n)| <= w
    ensures PadStart(ToBinaryString(n), w) == FixedBits(n, w)
    decreases w
  {
    if n < 2 {
      SingleDigitIsFixed(n, w);
    } else {
      assert w != 1;
      assert n / 2 < Pow2(w - 1);
      PaddedBinaryIsFixed(n / 2, w - 1);
      PaddedBinaryStep(n, w);
    }
  }

  lemma SingleDigitIsFixed(n: nat, w: nat)
    requires 1 <= w && n < 2
    ensures |ToBinaryString(n)| <= w
    ensures PadStart(ToBinaryString(n), w) == FixedBits(n, w)
  {
    FixedBitsOfZero(w - 1);
    assert FixedBits(n, w) == Zeros(w - 1) + [Digit(n % 2)];
  }

  lemma PaddedBinaryStep(n: nat, w: nat)
    requires 2 <= w && 2 <= n
    requires |ToBinaryString(n / 2)| <= w - 1
    requires PadStart(ToBinaryString(n / 2), w - 1) == FixedBits(n / 2, w - 1)
    ensures |ToBinaryString(n)| <= w
    ensures PadStart(ToBinaryString(n), w) == FixedBits(n, w)
  {
    var d := [Digit(n % 2)];
    var t := ToBinaryString(n / 2);
    assert ToBinaryString(n) == t + d;
    assert Zeros(w - |t| - 1) + (t + d) == (Zeros(w - 1 - |t|) + t) + d;
  }

  /** The eight characters written for a byte are its 8-bit form. */
  lemma ByteToBitsIsFixed(b: byte)
    ensures ByteToBits(b) == FixedBits(b, 8)
  {
    assert Pow2(8) == 256;
    PaddedBinaryIsFixed(b, 8);
  }

  /** Reading back the `w`-bit form of a number below `2^w` gives the number. */
  lemma {:induction false} ParseFixedBits(n: nat, w: nat)
    requires n < Pow2(w)
    ensures ParseBinary(FixedBits(n, w)) == n
    decreases w
  {
    if w > 0 {
      ParseFixedBits(n / 2, w - 1);
      var r := FixedBits(n, w);
      assert r[..w - 1] == FixedBits(n / 2, w - 1);
    }
  }

  /** Writing the value of a bit string with as many bits gives the string. */
  lemma {:induction false} FixedBitsOfParse(s: string)
    requires IsBinary(s)
    ensures FixedBits(ParseBinary(s), |s|) == s
    decreases |s|
  {
    if s != [] {
      var n := |s|;
      FixedBitsOfParse(s[..n - 1]);
      assert s == s[..n - 1] + [s[n - 1]];
    }
  }

  /** The string the unpacking loop builds: the eight characters of each byte,
      in order. */
  function Unpacked(bytes: seq<byte>): (r: string)
    ensures |r| == 8 * |bytes|
  {
    if bytes == [] then ""
    else
      ByteToBitsIsFixed(bytes[|bytes| - 1]);
      Unpacked(bytes[..|bytes| - 1]) + ByteToBits(bytes[|bytes| - 1])
  }

  /** A group of eight characters lying inside the left operand of a
      concatenation. */
  lemma GroupOfConcat(a: string, b: string, k: nat)
    requires 8 * k + 8 <= |a|
    ensures (a + b)[8 * k..8 * k + 8] == a[8 * k..8 * k + 8]
  {
  }

  /** A group of eight characters lying inside a prefix. */
  lemma GroupOfPrefix(s: string, n: nat, k: nat)
    requires 8 * k + 8 <= n <= |s|
    ensures s[..n][8 * k..8 * k + 8] == s[8 * k..8 * k + 8]
  {
  }

  /** The characters written for bytes are all binary digits. */
  lemma {:induction false} UnpackedIsBinary(bytes: seq<byte>)
    ensures IsBinary(Unpacked(bytes))
    decreases |bytes|
  {
    if bytes != [] {
      var m := |bytes|;
      UnpackedIsBinary(bytes[..m - 1]);
      ByteToBitsIsFixed(bytes[m - 1]);
      var a, b := Unpacked(bytes[..m - 1]), ByteToBits(bytes[m - 1]);
      assert forall i :: |a| <= i < |a + b| ==> (a + b)[i] == b[i - |a|];
    }
  }

  /** Each byte occupies eight characters, its value most significant bit
      first. */
  lemma {:induction false} UnpackedBytes(bytes: seq<byte>)
    ensures forall k :: 0 <= k < |bytes| ==> Unpacked(bytes)[8 * k..8 * k + 8] == FixedBits(bytes[k], 8)
    decreases |bytes|
  {
    if bytes != [] {
      var m := |bytes|;
      var front := bytes[..m - 1];
      UnpackedBytes(front);
      ByteToBitsIsFixed(bytes[m - 1]);
      var a, b := Unpacked(front), FixedBits(bytes[m - 1], 8);
      assert Unpacked(bytes) == a + b;
      forall k | 0 <= k < m
        ensures (a + b)[8 * k..8 * k + 8] == FixedBits(bytes[k], 8)
      {
        if k < m - 1 {
          GroupOfConcat(a, b, k);
          assert front[k] == bytes[k];
        } else {
          assert (a + b)[|a|..] == b;
        }
      }
    }
  }

  /** Bytes whose every byte is written as the matching group of eight
      characters of a string unpack back to that string. */
  lemma {:induction false} UnpackGroups(padded: string, bytes: seq<byte>)
    requires |padded| == 8 * |bytes|
    requires forall k :: 0 <= k < |bytes| ==> FixedBits(bytes[k], 8) == padded[8 * k..8 * k + 8]
    ensures Unpacked(bytes) == padded
    decreases |bytes|
  {
    if bytes != [] {
      var m := |bytes|;
      var n := 8 * (m - 1);
      FrontGroups(padded, bytes);
      UnpackGroups(padded[..n], bytes[..m - 1]);
      assert padded[n..] == padded[8 * (m - 1)..8 * (m - 1) + 8];
      LastGroup(padded[..n], padded[n..], bytes);
      assert padded == padded[..n] + padded[n..];
    }
  }

  /** The groups of all bytes but the last lie in the front of the string. */
  lemma FrontGroups(padded: string, bytes: seq<byte>)
    requires bytes != [] && |padded| == 8 * |bytes|
    requires forall k :: 0 <= k < |bytes| ==> FixedBits(bytes[k], 8) == padded[8 * k..8 * k + 8]
    ensures var m := |bytes|;
      forall k :: 0 <= k < m - 1 ==> FixedBits(bytes[..m - 1][k], 8) == padded[..8 * (m - 1)][8 * k..8 * k + 8]
  {
    var m := |bytes|;
    var n := 8 * (m - 1);
    forall k | 0 <= k < m - 1
      ensures FixedBits(bytes[..m - 1][k], 8) == padded[..n][8 * k..8 * k + 8]
    {
      GroupOfPrefix(padded, n, k);
    }
  }

  /** Appending the last byte appends its group. */
  lemma LastGroup(front: string, last: string, bytes: seq<byte>)
    requires bytes != [] && FixedBits(bytes[|bytes| - 1], 8) == last
    requires Unpacked(bytes[..|bytes| - 1]) == front
    ensures Unpacked(bytes) == front + last
  {
    ByteToBitsIsFixed(bytes[|bytes| - 1]);
  }

  /** The other direction of the round trip: the characters written for some
      bytes need no padding and pack back to the same bytes. */
  lemma RepackUnpacked(bytes: seq<byte>)
    ensures PadToBytes(Unpacked(bytes)) == Unpacked(bytes)
    ensures forall k :: 0 <= k < |bytes| ==> ByteOf(Unpacked(bytes)[8 * k..8 * k + 8]) == bytes[k]
  {
    var bits := Unpacked(bytes);
    WholeBytesNeedNoPadding(|bytes|);
    assert bits + Zeros(0) == bits;
    UnpackedBytes(bytes);
    forall k | 0 <= k < |bytes|
      ensures ByteOf(bits[8 * k..8 * k + 8]) == bytes[k]
    {
      ByteOfFixedBits(bytes[k]);
    }
  }

  /** A length of whole bytes is not padded. */
  lemma WholeBytesNeedNoPadding(m: nat)
    ensures PaddedLength(8 * m) == 8 * m
  {
    var q := (8 * m + 7) / 8;
    assert 8 * q <= 8 * m + 7 < 8 * q + 8;
    assert q == m;
  }

  /** A byte's eight characters are stored back as that byte. */
  lemma ByteOfFixedBits(b: byte)
    ensures ByteOf(FixedBits(b, 8)) == b
  {
    ByteOfBinary(FixedBits(b, 8));
    assert Pow2(8) == 256;
    ParseFixedBits(b, 8);
  }

  /** The bytes stored so far by the packing loop: byte `k` is the value of
      group `k` of `padded`, and, for a bit string, its 8-bit form is that
      group. */
  ghost predicate PackedUpTo(padded: string, bytes: seq<byte>)
  {
    && 8 * |bytes| <= |padded|
    && (forall k :: 0 <= k < |bytes| ==> bytes[k] == ByteOf(padded[8 * k..8 * k + 8]))
    && (IsBinary(padded) ==> forall k :: 0 <= k < |bytes| ==> FixedBits(bytes[k], 8) == padded[8 * k..8 * k + 8])
  }

  /** One iteration of the packing loop keeps its invariant. */
  lemma PackStep(padded: string, bytes: seq<byte>)
    requires PackedUpTo(padded, bytes) && 8 * |bytes| + 8 <= |padded|
    ensures PackedUpTo(padded, bytes + [ByteOf(padded[8 * |bytes|..8 * |bytes| + 8])])
  {
    var i := 8 * |bytes|;
    var group := padded[i..i + 8];
    ValuesStep(padded, bytes, ByteOf(group));
    if IsBinary(padded) {
      GroupStored(group);
      FormsStep(padded, bytes, ByteOf(group));
    }
  }

  lemma ValuesStep(padded: string, bytes: seq<byte>, b: byte)
    requires 8 * |bytes| + 8 <= |padded|
    requires forall k :: 0 <= k < |bytes| ==> bytes[k] == ByteOf(padded[8 * k..8 * k + 8])
    requires b == ByteOf(padded[8 * |bytes|..8 * |bytes| + 8])
    ensures forall k :: 0 <= k < |bytes| + 1 ==> (bytes + [b])[k] == ByteOf(padded[8 * k..8 * k + 8])
  {
    forall k | 0 <= k < |bytes| + 1
      ensures (bytes + [b])[k] == ByteOf(padded[8 * k..8 * k + 8])
    {
      if k < |bytes| { assert (bytes + [b])[k] == bytes[k]; }
    }
  }

  lemma FormsStep(padded: string, bytes: seq<byte>, b: byte)
    requires 8 * |bytes| + 8 <= |padded|
    requires forall k :: 0 <= k < |bytes| ==> FixedBits(bytes[k], 8) == padded[8 * k..8 * k + 8]
    requires FixedBits(b, 8) == padded[8 * |bytes|..8 * |bytes| + 8]
    ensures forall k :: 0 <= k < |bytes| + 1 ==> FixedBits((bytes + [b])[k], 8) == padded[8 * k..8 * k + 8]
  {
    forall k | 0 <= k < |bytes| + 1
      ensures FixedBits((bytes + [b])[k], 8) == padded[8 * k..8 * k + 8]
    {
      if k < |bytes| { assert (bytes + [b])[k] == bytes[k]; }
    }
  }

  /** A group of eight bits is stored as a byte whose 8-bit form is the
      group. */
  lemma GroupStored(group: string)
    requires IsBinary(group) && |group| == 8
    ensures FixedBits(ByteOf(group), 8) == group
  {
    ByteOfBinary(group);
    FixedBitsOfParse(group);
  }

  /** When every group is stored, the bytes are the packing of `bits`. */
  lemma PackedAll(bits: string, bytes: seq<byte>)
    requires PackedUpTo(PadToBytes(bits), bytes) && 8 * |bytes| == |PadToBytes(bits)|
    ensures |bytes| == (|bits| + 7) / 8
    ensures forall k :: 0 <= k < |bytes| ==> bytes[k] == ByteOf(PadToBytes(bits)[8 * k..8 * k + 8])
    ensures IsBinary(bits) ==> Unpacked(bytes) == bits + Zeros(PaddedLength(|bits|) - |bits|)
  {
    var padded := PadToBytes(bits);
    if IsBinary(bits) {
      assert IsBinary(padded);
      UnpackGroups(padded, bytes);
    }
  }

  /** The packing loop of `binaryToBase64`: pad the bit string with zeros to
      whole bytes, then store each group of eight characters as the byte
      `parseInt(group, 2)`. For a bit string, unpacking the bytes gives back
      the bits followed by the zero padding. */
  method PackBits(bits: string) returns (bytes: seq<byte>)
    ensures |bytes| == (|bits| + 7) / 8
    ensures forall k :: 0 <= k < |bytes| ==> bytes[k] == ByteOf(PadToBytes(bits)[8 * k..8 * k + 8])
    ensures IsBinary(bits) ==> Unpacked(bytes) == bits + Zeros(PaddedLength(|bits|) - |bits|)
  {
    var padded := PadToBytes(bits);
    bytes := [];
    var i := 0;
    while i < |padded|
      invariant i == 8 * |bytes| <= |padded|
      invariant PackedUpTo(padded, bytes)
    {
      GroupFits(|bytes|, |padded|);
      PackStep(padded, bytes);
      bytes := bytes + [ByteOf(padded[i..i + 8])];
      i := i + 8;
    }
    PackedAll(bits, bytes);
  }

  /** Below a whole number of bytes, a group that starts on a byte boundary
      fits entirely. */
  lemma GroupFits(m: nat, n: nat)
    requires n % 8 == 0 && 8 * m < n
    ensures 8 * m + 8 <= n
  {
  }

  /** The unpacking loop of `base64ToBinary`: each byte written as
      `toString(2)` padded on the left with zeros to eight characters. */
  method UnpackBytes(bytes: seq<byte>) returns (bits: string)
    ensures bits == Unpacked(bytes)
    ensures |bits| == 8 * |bytes| && IsBinary(bits)
    ensures forall k :: 0 <= k < |bytes| ==> bits[8 * k..8 * k + 8] == FixedBits(bytes[k], 8)
  {
    bits := "";
    for i := 0 to |bytes|
      invariant bits == Unpacked(bytes[..i])
    {
      assert bytes[..i + 1][..i] == bytes[..i];
      bits := bits + PadStart(ToBinaryString(bytes[i]), 8);
    }
    assert bytes[..|bytes|] == bytes;
    UnpackedIsBinary(bytes);
    UnpackedBytes(bytes);
  }
}
