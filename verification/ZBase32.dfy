/** The z-base-32 encoder (section 5.1.6 of RFC 6189), which internal/keydir and internal/discovery both carry. */
module ZBase32 {
  import opened Wrappers

  const ALPHABET := "ybndrfg8ejkmcpqxot1uwisza345h769"

  function Letter(v: bv5): char {
    ALPHABET[v as int]
  }

  // ---------------------------------------------------------------- the input as a string of bits

  /** Bit `k` of a byte, the most significant first. */
  function Bit(b: bv8, k: nat): bool
    requires k < 8
  {
    match k
    case 0 => b & 0x80 != 0
    case 1 => b & 0x40 != 0
    case 2 => b & 0x20 != 0
    case 3 => b & 0x10 != 0
    case 4 => b & 0x08 != 0
    case 5 => b & 0x04 != 0
    case 6 => b & 0x02 != 0
    case _ => b & 0x01 != 0
  }

  /** Bit `k` of the input, which is followed by zeros without end. */
  function BitAt(src: seq<bv8>, k: nat): bool {
    k / 8 < |src| && Bit(src[k / 8], k % 8)
  }

  function FromBits5(a: bool, b: bool, c: bool, d: bool, e: bool): bv5 {
    (if a then 16 else 0) | (if b then 8 else 0) | (if c then 4 else 0) | (if d then 2 else 0) | (if e then 1 else 0)
  }

  /** The `i`-th group of five bits. */
  function GroupAt(src: seq<bv8>, i: nat): bv5 {
    FromBits5(
      BitAt(src, 5 * i), BitAt(src, 5 * i + 1), BitAt(src, 5 * i + 2), BitAt(src, 5 * i + 3), BitAt(src, 5 * i + 4))
  }

  function EncodedLength(n: nat): nat {
    (n * 8 + 4) / 5
  }

  /** One letter for every group that holds a bit of the input. */
  function Encoded(src: seq<bv8>): (s: string)
    ensures |s| == EncodedLength(|src|)
  {
    seq(EncodedLength(|src|), i requires 0 <= i => Letter(GroupAt(src, i)))
  }

  // ---------------------------------------------------------------- five bytes as one number

  function BigEndian(a: bv8, b: bv8, c: bv8, d: bv8, e: bv8): bv64 {
    (a as bv64 << 32) | (b as bv64 << 24) | (c as bv64 << 16) | (d as bv64 << 8) | e as bv64
  }

  /** `(n >> (j*5)) & 0x1F`, the shift amount computed for each `j`. */
  function Quintet(n: bv64, j: nat): bv5
    requires j < 8
  {
    match j
    case 7 => ((n >> 35) & 0x1F) as bv5
    case 6 => ((n >> 30) & 0x1F) as bv5
    case 5 => ((n >> 25) & 0x1F) as bv5
    case 4 => ((n >> 20) & 0x1F) as bv5
    case 3 => ((n >> 15) & 0x1F) as bv5
    case 2 => ((n >> 10) & 0x1F) as bv5
    case 1 => ((n >> 5) & 0x1F) as bv5
    case _ => (n & 0x1F) as bv5
  }

  lemma HighQuintets(a: bv8, b: bv8, c: bv8, d: bv8, e: bv8)
    ensures var n := BigEndian(a, b, c, d, e);
            && Quintet(n, 7) == FromBits5(Bit(a, 0), Bit(a, 1), Bit(a, 2), Bit(a, 3), Bit(a, 4))
            && Quintet(n, 6) == FromBits5(Bit(a, 5), Bit(a, 6), Bit(a, 7), Bit(b, 0), Bit(b, 1))
            && Quintet(n, 5) == FromBits5(Bit(b, 2), Bit(b, 3), Bit(b, 4), Bit(b, 5), Bit(b, 6))
            && Quintet(n, 4) == FromBits5(Bit(b, 7), Bit(c, 0), Bit(c, 1), Bit(c, 2), Bit(c, 3))
  {}

  lemma LowQuintets(a: bv8, b: bv8, c: bv8, d: bv8, e: bv8)
    ensures var n := BigEndian(a, b, c, d, e);
            && Quintet(n, 3) == FromBits5(Bit(c, 4), Bit(c, 5), Bit(c, 6), Bit(c, 7), Bit(d, 0))
            && Quintet(n, 2) == FromBits5(Bit(d, 1), Bit(d, 2), Bit(d, 3), Bit(d, 4), Bit(d, 5))
            && Quintet(n, 1) == FromBits5(Bit(d, 6), Bit(d, 7), Bit(e, 0), Bit(e, 1), Bit(e, 2))
            && Quintet(n, 0) == FromBits5(Bit(e, 3), Bit(e, 4), Bit(e, 5), Bit(e, 6), Bit(e, 7))
  {}

  lemma QuintetsOfBytes(a: bv8, b: bv8, c: bv8, d: bv8, e: bv8)
    ensures var n := BigEndian(a, b, c, d, e);
            && Quintet(n, 7) == FromBits5(Bit(a, 0), Bit(a, 1), Bit(a, 2), Bit(a, 3), Bit(a, 4))
            && Quintet(n, 6) == FromBits5(Bit(a, 5), Bit(a, 6), Bit(a, 7), Bit(b, 0), Bit(b, 1))
            && Quintet(n, 5) == FromBits5(Bit(b, 2), Bit(b, 3), Bit(b, 4), Bit(b, 5), Bit(b, 6))
            && Quintet(n, 4) == FromBits5(Bit(b, 7), Bit(c, 0), Bit(c, 1), Bit(c, 2), Bit(c, 3))
            && Quintet(n, 3) == FromBits5(Bit(c, 4), Bit(c, 5), Bit(c, 6), Bit(c, 7), Bit(d, 0))
            && Quintet(n, 2) == FromBits5(Bit(d, 1), Bit(d, 2), Bit(d, 3), Bit(d, 4), Bit(d, 5))
            && Quintet(n, 1) == FromBits5(Bit(d, 6), Bit(d, 7), Bit(e, 0), Bit(e, 1), Bit(e, 2))
            && Quintet(n, 0) == FromBits5(Bit(e, 3), Bit(e, 4), Bit(e, 5), Bit(e, 6), Bit(e, 7))
  {
    hide Quintet, BigEndian, FromBits5, Bit;
    HighQuintets(a, b, c, d, e);
    LowQuintets(a, b, c, d, e);
  }

  lemma GroupsOfFive(five: seq<bv8>)
    requires |five| == 5
    ensures GroupAt(five, 0) ==
            FromBits5(Bit(five[0], 0), Bit(five[0], 1), Bit(five[0], 2), Bit(five[0], 3), Bit(five[0], 4))
    ensures GroupAt(five, 1) ==
            FromBits5(Bit(five[0], 5), Bit(five[0], 6), Bit(five[0], 7), Bit(five[1], 0), Bit(five[1], 1))
    ensures GroupAt(five, 2) ==
            FromBits5(Bit(five[1], 2), Bit(five[1], 3), Bit(five[1], 4), Bit(five[1], 5), Bit(five[1], 6))
    ensures GroupAt(five, 3) ==
            FromBits5(Bit(five[1], 7), Bit(five[2], 0), Bit(five[2], 1), Bit(five[2], 2), Bit(five[2], 3))
    ensures GroupAt(five, 4) ==
            FromBits5(Bit(five[2], 4), Bit(five[2], 5), Bit(five[2], 6), Bit(five[2], 7), Bit(five[3], 0))
    ensures GroupAt(five, 5) ==
            FromBits5(Bit(five[3], 1), Bit(five[3], 2), Bit(five[3], 3), Bit(five[3], 4), Bit(five[3], 5))
    ensures GroupAt(five, 6) ==
            FromBits5(Bit(five[3], 6), Bit(five[3], 7), Bit(five[4], 0), Bit(five[4], 1), Bit(five[4], 2))
    ensures GroupAt(five, 7) ==
            FromBits5(Bit(five[4], 3), Bit(five[4], 4), Bit(five[4], 5), Bit(five[4], 6), Bit(five[4], 7))
  {
    hide FromBits5, Bit;
  }

  /** Five bytes on their own: quintet `j` is group `7 - j`. */
  lemma QuintetOfFive(five: seq<bv8>, j: nat)
    requires |five| == 5 && j < 8
    ensures Quintet(BigEndian(five[0], five[1], five[2], five[3], five[4]), j) == GroupAt(five, 7 - j)
  {
    hide Quintet, BigEndian, FromBits5, Bit, GroupAt;
    QuintetsOfBytes(five[0], five[1], five[2], five[3], five[4]);
    GroupsOfFive(five);
  }

  lemma GroupOfBlock(src: seq<bv8>, q: nat, g: nat)
    requires 5 * q + 5 <= |src| && g < 8
    ensures GroupAt(src, 8 * q + g) == GroupAt(src[5 * q..5 * q + 5], g)
  {
    hide FromBits5, Bit, BitAt;
    assert 5 * (8 * q + g) == 40 * q + 5 * g;
    BitOfBlock(src, q, 5 * g);
    BitOfBlock(src, q, 5 * g + 1);
    BitOfBlock(src, q, 5 * g + 2);
    BitOfBlock(src, q, 5 * g + 3);
    BitOfBlock(src, q, 5 * g + 4);
  }

  lemma BitOfBlock(src: seq<bv8>, q: nat, t: nat)
    requires 5 * q + 5 <= |src| && t < 40
    ensures BitAt(src, 40 * q + t) == BitAt(src[5 * q..5 * q + 5], t)
  {
    hide Bit;
    assert (40 * q + t) / 8 == 5 * q + t / 8 && (40 * q + t) % 8 == t % 8;
  }

  /** The quintets of the `q`-th five bytes are the next eight groups. */
  lemma QuintetIsGroup(src: seq<bv8>, q: nat, j: nat)
    requires 5 * q + 5 <= |src| && j < 8
    ensures Quintet(BigEndian(src[5 * q], src[5 * q + 1], src[5 * q + 2], src[5 * q + 3], src[5 * q + 4]), j)
         == GroupAt(src, 8 * q + (7 - j))
  {
    hide Quintet, BigEndian, GroupAt;
    QuintetOfFive(src[5 * q..5 * q + 5], j);
    GroupOfBlock(src, q, 7 - j);
  }

  lemma PaddingAddsZeros(src: seq<bv8>, padded: seq<bv8>, k: nat)
    requires |src| <= |padded| && padded[..|src|] == src
    requires forall i :: |src| <= i < |padded| ==> padded[i] == 0
    ensures BitAt(padded, k) == BitAt(src, k)
  {
    if k / 8 < |src| {
      assert padded[k / 8] == padded[..|src|][k / 8];
    } else if k / 8 < |padded| {
      assert !Bit(0, k % 8);
    }
  }

  // ---------------------------------------------------------------- the encoder

  /** The input at the front of a zeroed buffer. */
  method PaddedCopy(src: seq<bv8>, size: nat) returns (padded: array<bv8>)
    requires |src| <= size
    ensures fresh(padded) && padded.Length == size
    ensures padded[..|src|] == src
    ensures forall k :: |src| <= k < size ==> padded[k] == 0
  {
    padded := new bv8[size](_ => 0);
    var c := 0;
    while c < |src|
      invariant 0 <= c <= |src|
      invariant padded[..c] == src[..c]
      invariant forall k :: c <= k < size ==> padded[k] == 0
    {
      padded[c] := src[c];
      c := c + 1;
    }
  }

  method ZBase32Encode(src: seq<bv8>) returns (s: string)
    ensures s == Encoded(src)
  {
    hide Quintet, BigEndian, FromBits5, Bit, BitAt, GroupAt;
    var size := (|src| + 4) / 5 * 5;
    var padded := PaddedCopy(src, size);
    ghost var p := padded[..];
    assert p[..|src|] == src;
    var out := "";
    var i := 0;
    while i < size
      invariant 0 <= i <= size && i % 5 == 0
      invariant p == padded[..] && |out| == i / 5 * 8
      invariant forall k :: 0 <= k < |out| ==> out[k] == Letter(GroupAt(p, k))
    {
      var n := BigEndian(padded[i], padded[i + 1], padded[i + 2], padded[i + 3], padded[i + 4]);
      var j := 7;
      while j >= 0
        invariant -1 <= j <= 7
        invariant p == padded[..] && |out| == i / 5 * 8 + (7 - j)
        invariant forall k :: 0 <= k < |out| ==> out[k] == Letter(GroupAt(p, k))
      {
        QuintetIsGroup(p, i / 5, j);
        out := out + [Letter(Quintet(n, j))];
        j := j - 1;
      }
      i := i + 5;
    }
    var outputLen := (|src| * 8 + 4) / 5;
    forall k: nat ensures GroupAt(p, k) == GroupAt(src, k) {
      SameGroups(src, p, k);
    }
    s := out[..outputLen];
  }

  lemma SameGroups(src: seq<bv8>, padded: seq<bv8>, i: nat)
    requires |src| <= |padded| && padded[..|src|] == src
    requires forall k :: |src| <= k < |padded| ==> padded[k] == 0
    ensures GroupAt(padded, i) == GroupAt(src, i)
  {
    hide BitAt, FromBits5;
    forall k: nat ensures BitAt(padded, k) == BitAt(src, k) {
      PaddingAddsZeros(src, padded, k);
    }
  }

  // ---------------------------------------------------------------- a decoder

  function Value(c: char): Option<bv5> {
    match c
    case 'y' => Some(0)
    case 'b' => Some(1)
    case 'n' => Some(2)
    case 'd' => Some(3)
    case 'r' => Some(4)
    case 'f' => Some(5)
    case 'g' => Some(6)
    case '8' => Some(7)
    case 'e' => Some(8)
    case 'j' => Some(9)
    case 'k' => Some(10)
    case 'm' => Some(11)
    case 'c' => Some(12)
    case 'p' => Some(13)
    case 'q' => Some(14)
    case 'x' => Some(15)
    case 'o' => Some(16)
    case 't' => Some(17)
    case '1' => Some(18)
    case 'u' => Some(19)
    case 'w' => Some(20)
    case 'i' => Some(21)
    case 's' => Some(22)
    case 'z' => Some(23)
    case 'a' => Some(24)
    case '3' => Some(25)
    case '4' => Some(26)
    case '5' => Some(27)
    case 'h' => Some(28)
    case '7' => Some(29)
    case '6' => Some(30)
    case '9' => Some(31)
    case _ => None
  }

  lemma ValueOfLetter(v: bv5)
    ensures Value(Letter(v)) == Some(v)
  {}

  /** Bit `t` of a group, the most significant first. */
  function GroupBit(v: bv5, t: nat): bool
    requires t < 5
  {
    match t
    case 0 => v & 16 != 0
    case 1 => v & 8 != 0
    case 2 => v & 4 != 0
    case 3 => v & 2 != 0
    case _ => v & 1 != 0
  }

  function LetterBit(s: string, k: nat): bool {
    k / 5 < |s| && Value(s[k / 5]).Some? && GroupBit(Value(s[k / 5]).value, k % 5)
  }

  function FromBits8(a: bool, b: bool, c: bool, d: bool, e: bool, f: bool, g: bool, h: bool): bv8 {
    (if a then 0x80 else 0) | (if b then 0x40 else 0) | (if c then 0x20 else 0) | (if d then 0x10 else 0)
    | (if e then 0x08 else 0) | (if f then 0x04 else 0) | (if g then 0x02 else 0) | (if h then 0x01 else 0)
  }

  function ByteAt(s: string, i: nat): bv8 {
    var k := 8 * i;
    FromBits8(LetterBit(s, k), LetterBit(s, k + 1), LetterBit(s, k + 2), LetterBit(s, k + 3),
              LetterBit(s, k + 4), LetterBit(s, k + 5), LetterBit(s, k + 6), LetterBit(s, k + 7))
  }

  /** As many whole bytes as the letters hold, if all of them are letters. */
  function Decoded(s: string): Option<seq<bv8>> {
    if forall i :: 0 <= i < |s| ==> Value(s[i]).Some? then
      Some(seq(|s| * 5 / 8, i requires 0 <= i => ByteAt(s, i)))
    else None
  }

  lemma GroupBits(a: bool, b: bool, c: bool, d: bool, e: bool)
    ensures var v := FromBits5(a, b, c, d, e);
            && GroupBit(v, 0) == a && GroupBit(v, 1) == b && GroupBit(v, 2) == c
            && GroupBit(v, 3) == d && GroupBit(v, 4) == e
  {}

  lemma ByteBits(b: bv8)
    ensures FromBits8(Bit(b, 0), Bit(b, 1), Bit(b, 2), Bit(b, 3), Bit(b, 4), Bit(b, 5), Bit(b, 6), Bit(b, 7)) == b
  {}

  lemma EncodedBits(src: seq<bv8>, k: nat)
    requires k < 5 * EncodedLength(|src|)
    ensures LetterBit(Encoded(src), k) == BitAt(src, k)
  {
    hide Letter, Value, FromBits5, GroupBit, BitAt;
    var i := k / 5;
    ValueOfLetter(GroupAt(src, i));
    GroupBits(
      BitAt(src, 5 * i), BitAt(src, 5 * i + 1), BitAt(src, 5 * i + 2), BitAt(src, 5 * i + 3), BitAt(src, 5 * i + 4));
  }

  lemma DecodedByte(src: seq<bv8>, i: nat)
    requires i < |src|
    ensures ByteAt(Encoded(src), i) == src[i]
  {
    hide LetterBit, FromBits8, Bit, Encoded;
    var k := 8 * i;
    assert 8 * |src| <= 5 * EncodedLength(|src|);
    EncodedBits(src, k);
    EncodedBits(src, k + 1);
    EncodedBits(src, k + 2);
    EncodedBits(src, k + 3);
    EncodedBits(src, k + 4);
    EncodedBits(src, k + 5);
    EncodedBits(src, k + 6);
    EncodedBits(src, k + 7);
    ByteBits(src[i]);
  }

  /** For every input, of any length, the letters determine the bytes. */
  lemma DecodeEncode(src: seq<bv8>)
    ensures |Encoded(src)| == (8 * |src| + 4) / 5
    ensures Decoded(Encoded(src)) == Some(src)
  {
    hide ByteAt, Letter, Value, GroupAt;
    var s := Encoded(src);
    forall i | 0 <= i < |s| ensures Value(s[i]).Some? {
      ValueOfLetter(GroupAt(src, i));
    }
    forall i | 0 <= i < |src| ensures ByteAt(s, i) == src[i] {
      DecodedByte(src, i);
    }
    assert |s| * 5 / 8 == |src|;
    var d := seq(|s| * 5 / 8, i requires 0 <= i => ByteAt(s, i));
    assert d == src;
    assert Decoded(s) == Some(d);
  }

  /** Inputs of any two lengths share an encoding only if they are equal. */
  lemma EncodingIsInjective(a: seq<bv8>, b: seq<bv8>)
    requires Encoded(a) == Encoded(b)
    ensures a == b
  {
    DecodeEncode(a);
    DecodeEncode(b);
  }
}
