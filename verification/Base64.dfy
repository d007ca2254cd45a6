/** Standard base64 (section 4 of RFC 4648) as the browser's `btoa` and `atob` compute it. */
module Base64 {
  import opened Wrappers

  type Byte = x: int | 0 <= x < 256

  const PAD := '='

  function Letter(v: int): char
    requires 0 <= v < 64
  {
    if v < 26 then (v + 65) as char
    else if v < 52 then (v - 26 + 97) as char
    else if v < 62 then (v - 52 + 48) as char
    else if v == 62 then '+'
    else '/'
  }

  function Value(c: char): (r: Option<int>)
    ensures r.Some? ==> 0 <= r.value < 64
  {
    if 'A' <= c <= 'Z' then Some(c as int - 65)
    else if 'a' <= c <= 'z' then Some(c as int - 97 + 26)
    else if '0' <= c <= '9' then Some(c as int - 48 + 52)
    else if c == '+' then Some(62)
    else if c == '/' then Some(63)
    else None
  }

  lemma ValueOfLetter(v: int)
    requires 0 <= v < 64
    ensures Value(Letter(v)) == Some(v)
  {}

  // The four six-bit groups of three bytes.
  function Six0(a: Byte): (v: int) ensures 0 <= v < 64 { a / 4 }
  function Six1(a: Byte, b: Byte): (v: int) ensures 0 <= v < 64 { a % 4 * 16 + b / 16 }
  function Six2(b: Byte, c: Byte): (v: int) ensures 0 <= v < 64 { b % 16 * 4 + c / 64 }
  function Six3(c: Byte): (v: int) ensures 0 <= v < 64 { c % 64 }

  // The three bytes of four six-bit groups.
  function Byte0(p: int, q: int): Byte requires 0 <= p < 64 && 0 <= q < 64 { p * 4 + q / 16 }
  function Byte1(q: int, r: int): Byte requires 0 <= q < 64 && 0 <= r < 64 { q % 16 * 16 + r / 4 }
  function Byte2(r: int, s: int): Byte requires 0 <= r < 64 && 0 <= s < 64 { r % 4 * 64 + s }

  lemma Regroup(a: Byte, b: Byte, c: Byte)
    ensures Byte0(Six0(a), Six1(a, b)) == a
    ensures Byte1(Six1(a, b), Six2(b, c)) == b
    ensures Byte2(Six2(b, c), Six3(c)) == c
  {}

  function Quad(a: Byte, b: Byte, c: Byte): string {
    [Letter(Six0(a)), Letter(Six1(a, b)), Letter(Six2(b, c)), Letter(Six3(c))]
  }

  /** Every three bytes become four letters, a short last group two or three. */
  function Unpadded(bytes: seq<Byte>): string
    decreases |bytes|
  {
    if bytes == [] then ""
    else if |bytes| == 1 then Quad(bytes[0], 0, 0)[..2]
    else if |bytes| == 2 then Quad(bytes[0], bytes[1], 0)[..3]
    else Quad(bytes[0], bytes[1], bytes[2]) + Unpadded(bytes[3..])
  }

  function Padding(n: nat): string {
    if n % 3 == 1 then [PAD, PAD] else if n % 3 == 2 then [PAD] else ""
  }

  function Btoa(bytes: seq<Byte>): string {
    Unpadded(bytes) + Padding(|bytes|)
  }

  /** The white space that forgiving base64 decoding ignores. */
  predicate IsAsciiSpace(c: char) {
    c == '\t' || c == '\n' || c == '\U{000C}' || c == '\r' || c == ' '
  }

  function StripAsciiSpace(s: string): string {
    if s == "" then ""
    else if IsAsciiSpace(s[0]) then StripAsciiSpace(s[1..])
    else [s[0]] + StripAsciiSpace(s[1..])
  }

  /** Removes one or two trailing `=`, only from text whose length is a multiple of four. */
  function StripPadding(s: string): (r: string)
    ensures r <= s
  {
    if |s| == 0 || |s| % 4 != 0 || s[|s| - 1] != PAD then s
    else if s[|s| - 2] == PAD then s[..|s| - 2]
    else s[..|s| - 1]
  }

  /** Decodes unpadded letters; `None` stands for the exception `atob` throws. */
  function DecodeLetters(s: string): Option<seq<Byte>>
    decreases |s|
  {
    if s == "" then Some([])
    else if |s| == 1 then None
    else
      match (Value(s[0]), Value(s[1]))
      case (Some(p), Some(q)) => (
        if |s| == 2 then Some([Byte0(p, q)])
        else
          match Value(s[2])
          case None => None
          case Some(r) => (
            if |s| == 3 then Some([Byte0(p, q), Byte1(q, r)])
            else
              match (Value(s[3]), DecodeLetters(s[4..]))
              case (Some(t), Some(rest)) => Some([Byte0(p, q), Byte1(q, r), Byte2(r, t)] + rest)
              case _ => None
          )
      )
      case _ => None
  }

  function Atob(s: string): Option<seq<Byte>> {
    DecodeLetters(StripPadding(StripAsciiSpace(s)))
  }

  ghost predicate Base64Char(c: char) {
    Value(c).Some? || c == PAD
  }

  lemma QuadValues(a: Byte, b: Byte, c: Byte)
    ensures |Quad(a, b, c)| == 4
    ensures Value(Quad(a, b, c)[0]) == Some(Six0(a))
    ensures Value(Quad(a, b, c)[1]) == Some(Six1(a, b))
    ensures Value(Quad(a, b, c)[2]) == Some(Six2(b, c))
    ensures Value(Quad(a, b, c)[3]) == Some(Six3(c))
  {
    ValueOfLetter(Six0(a));
    ValueOfLetter(Six1(a, b));
    ValueOfLetter(Six2(b, c));
    ValueOfLetter(Six3(c));
  }

  ghost predicate AllLetters(s: string) {
    forall i :: 0 <= i < |s| ==> Value(s[i]).Some?
  }

  lemma LettersConcat(a: string, b: string)
    requires AllLetters(a) && AllLetters(b)
    ensures AllLetters(a + b)
  {}

  lemma QuadLetters(a: Byte, b: Byte, c: Byte)
    ensures |Quad(a, b, c)| == 4 && AllLetters(Quad(a, b, c))
    ensures AllLetters(Quad(a, b, c)[..2]) && AllLetters(Quad(a, b, c)[..3])
  {
    QuadValues(a, b, c);
  }

  lemma {:induction false} UnpaddedShape(bytes: seq<Byte>)
    ensures AllLetters(Unpadded(bytes))
    ensures |Unpadded(bytes)| % 4 == (if |bytes| % 3 == 0 then 0 else |bytes| % 3 + 1)
    decreases |bytes|
  {
    hide Quad, AllLetters;
    if |bytes| == 0 {
      LettersOfEmpty();
    } else if |bytes| == 1 {
      QuadLetters(bytes[0], 0, 0);
    } else if |bytes| == 2 {
      QuadLetters(bytes[0], bytes[1], 0);
    } else {
      QuadLetters(bytes[0], bytes[1], bytes[2]);
      UnpaddedShape(bytes[3..]);
      LettersConcat(Quad(bytes[0], bytes[1], bytes[2]), Unpadded(bytes[3..]));
    }
  }

  lemma LettersOfEmpty()
    ensures AllLetters("")
  {}

  lemma BtoaChars(bytes: seq<Byte>)
    ensures forall i :: 0 <= i < |Btoa(bytes)| ==> Base64Char(Btoa(bytes)[i])
    ensures |Btoa(bytes)| % 4 == 0
  {
    UnpaddedShape(bytes);
  }

  lemma {:induction false} StripAsciiSpaceIdentity(s: string)
    requires forall i :: 0 <= i < |s| ==> !IsAsciiSpace(s[i])
    ensures StripAsciiSpace(s) == s
  {
    if s != "" {
      StripAsciiSpaceIdentity(s[1..]);
    }
  }

  lemma StripPaddingBtoa(bytes: seq<Byte>)
    ensures StripPadding(Btoa(bytes)) == Unpadded(bytes)
  {
    BtoaChars(bytes);
    UnpaddedShape(bytes);
    var u, s := Unpadded(bytes), Btoa(bytes);
    if |bytes| % 3 == 0 {
      assert s == u;
    } else {
      assert s[|s| - 1] == PAD && s[..|u|] == u;
      assert s[|s| - 2] == if |bytes| % 3 == 1 then PAD else u[|u| - 1];
    }
  }

  lemma DecodeQuad(a: Byte, b: Byte, c: Byte, tail: string)
    ensures DecodeLetters(Quad(a, b, c)[..2]) == Some([a])
    ensures DecodeLetters(Quad(a, b, c)[..3]) == Some([a, b])
    ensures DecodeLetters(tail).Some? ==>
              DecodeLetters(Quad(a, b, c) + tail) == Some([a, b, c] + DecodeLetters(tail).value)
  {
    QuadValues(a, b, c);
    Regroup(a, b, c);
    assert (Quad(a, b, c) + tail)[4..] == tail;
  }

  lemma DecodeNothing()
    ensures DecodeLetters("") == Some([])
  {}

  lemma {:induction false} DecodeUnpadded(bytes: seq<Byte>, letters: string)
    requires letters == Unpadded(bytes)
    ensures DecodeLetters(letters) == Some(bytes)
    decreases |bytes|
  {
    DecodeNothing();
    hide DecodeLetters, Quad;
    if |bytes| == 1 {
      DecodeQuad(bytes[0], 0, 0, "");
      assert bytes == [bytes[0]];
    } else if |bytes| == 2 {
      DecodeQuad(bytes[0], bytes[1], 0, "");
      assert bytes == [bytes[0], bytes[1]];
    } else if |bytes| >= 3 {
      var a, b, c, rest := bytes[0], bytes[1], bytes[2], bytes[3..];
      var tail := Unpadded(rest);
      DecodeUnpadded(rest, tail);
      DecodeQuad(a, b, c, tail);
      assert bytes == [a, b, c] + rest;
    }
  }

  /** `atob` undoes `btoa` on every byte string. */
  lemma AtobBtoa(bytes: seq<Byte>)
    ensures Atob(Btoa(bytes)) == Some(bytes)
  {
    BtoaChars(bytes);
    StripAsciiSpaceIdentity(Btoa(bytes));
    StripPaddingBtoa(bytes);
    DecodeUnpadded(bytes, Unpadded(bytes));
  }
}
