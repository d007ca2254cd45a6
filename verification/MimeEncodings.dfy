/** The two encodings the reader knows and the composer does not print: quoted-printable bodies (section 6.7 of RFC
  * 2045) and encoded words (section 2 of RFC 2047). Whatever an encoder leaves plain or escapes, the reader undoes
  * it. */
module MimeEncodings {
  import opened Wrappers
  import opened Base64
  import opened MimeTypes
  import opened Text
  import opened MimeReader
  import MimeNames

  // ---------------------------------------------------------------- quoted-printable

  /** A byte as it is, a byte as `=XX` with digits of either case, or a line break that does not count. */
  datatype Piece = Plain(c: char) | Escaped(byte: Byte, lowerHigh: bool, lowerLow: bool) | SoftBreak(crlf: bool)

  predicate Printable(p: Piece) {
    p.Plain? ==> p.c != '=' && p.c as int < 256
  }

  function HexDigit(v: int, lower: bool): char
    requires 0 <= v < 16
  {
    if v < 10 then (48 + v) as char else if lower then (87 + v) as char else (55 + v) as char
  }

  function PrintedPiece(p: Piece): string {
    match p
    case Plain(c) => [c]
    case Escaped(b, high, low) => ['=', HexDigit(b / 16, high), HexDigit(b % 16, low)]
    case SoftBreak(crlf) => if crlf then "=\r\n" else "=\n"
  }

  function PieceBytes(p: Piece): seq<Byte>
    requires Printable(p)
  {
    match p
    case Plain(c) => [c as int]
    case Escaped(b, _, _) => [b]
    case SoftBreak(_) => []
  }

  function Printed(ps: seq<Piece>): string {
    if ps == [] then "" else PrintedPiece(ps[0]) + Printed(ps[1..])
  }

  function Bytes(ps: seq<Piece>): seq<Byte>
    requires forall p <- ps :: Printable(p)
  {
    if ps == [] then [] else PieceBytes(ps[0]) + Bytes(ps[1..])
  }

  lemma HexDigitsAreRead(v: int, lower: bool)
    requires 0 <= v < 16
    ensures HexValue(HexDigit(v, lower)) == Some(v)
    ensures HexDigit(v, lower) !in {'=', '\r', '\n', '_', '?', ' '}
  {}

  lemma OneDropped(p: Piece, rest: string)
    requires Printable(p)
    ensures DropSoftBreaks(PrintedPiece(p) + rest) ==
            (if p.SoftBreak? then "" else PrintedPiece(p)) + DropSoftBreaks(rest)
  {
    var s := PrintedPiece(p) + rest;
    match p {
      case Plain(c) =>
        assert s[0] == c && s[1..] == rest;
        assert !MatchesAt(s, "=\r\n", 0) && !MatchesAt(s, "=\n", 0) by { StartsWith(s, c); }
      case SoftBreak(crlf) =>
        SoftBreakIsSeen(crlf, rest);
      case Escaped(b, high, low) =>
        var x, y := HexDigit(b / 16, high), HexDigit(b % 16, low);
        HexDigitsAreRead(b / 16, high);
        HexDigitsAreRead(b % 16, low);
        EscapeIsKept(x, y, rest);
    }
  }

  lemma StartsWith(s: string, c: char)
    requires s != "" && s[0] == c && c != '='
    ensures !MatchesAt(s, "=\r\n", 0) && !MatchesAt(s, "=\n", 0)
  {
    assert |s| >= 3 ==> s[..3][0] == c;
    assert |s| >= 2 ==> s[..2][0] == c;
  }

  lemma SoftBreakIsSeen(crlf: bool, rest: string)
    ensures DropSoftBreaks((if crlf then "=\r\n" else "=\n") + rest) == DropSoftBreaks(rest)
  {
    if crlf {
      var s := "=\r\n" + rest;
      assert s[..3] == "=\r\n" && s[3..] == rest;
    } else {
      var s := "=\n" + rest;
      assert s[..2] == "=\n" && s[2..] == rest;
      assert |s| >= 3 ==> s[..3][1] == '\n';
    }
  }

  lemma OneCharIsKept(c: char, rest: string)
    requires c != '='
    ensures DropSoftBreaks([c] + rest) == [c] + DropSoftBreaks(rest)
  {
    StartsWith([c] + rest, c);
    assert ([c] + rest)[1..] == rest;
  }

  lemma EscapeIsKept(x: char, y: char, rest: string)
    requires x !in {'=', '\r', '\n'} && y != '='
    ensures DropSoftBreaks(['=', x, y] + rest) == ['=', x, y] + DropSoftBreaks(rest)
  {
    var s := ['=', x, y] + rest;
    assert s[..3][1] == x && s[..2][1] == x;
    assert s[1..] == [x] + ([y] + rest);
    OneCharIsKept(y, rest);
    OneCharIsKept(x, [y] + rest);
    assert DropSoftBreaks(s) == ['='] + DropSoftBreaks(s[1..]);
  }

  lemma OneUnescaped(p: Piece, rest: string)
    requires Printable(p) && !p.SoftBreak?
    ensures HexUnescape(PrintedPiece(p) + rest) == PieceBytes(p) + HexUnescape(rest)
  {
    var s := PrintedPiece(p) + rest;
    if p.Plain? {
      assert s[1..] == rest;
    } else {
      HexDigitsAreRead(p.byte / 16, p.lowerHigh);
      HexDigitsAreRead(p.byte % 16, p.lowerLow);
      assert s[3..] == rest;
    }
  }

  function Hard(ps: seq<Piece>): (r: seq<Piece>)
    ensures forall p <- r :: p in ps && !p.SoftBreak?
  {
    if ps == [] then [] else (if ps[0].SoftBreak? then [] else [ps[0]]) + Hard(ps[1..])
  }

  lemma {:induction false} SoftBreaksGo(ps: seq<Piece>)
    requires forall p <- ps :: Printable(p)
    ensures DropSoftBreaks(Printed(ps)) == Printed(Hard(ps)) && Bytes(Hard(ps)) == Bytes(ps)
  {
    if ps != [] {
      hide DropSoftBreaks, PrintedPiece, PieceBytes;
      SoftBreaksGo(ps[1..]);
      OneDropped(ps[0], Printed(ps[1..]));
      var rest := Hard(ps[1..]);
      if ps[0].SoftBreak? {
        assert Hard(ps) == rest;
        NoBytes(ps[0]);
      } else {
        assert Hard(ps)[0] == ps[0] && Hard(ps)[1..] == rest;
      }
    } else {
      NothingToDrop();
    }
  }

  lemma NoBytes(p: Piece)
    requires p.SoftBreak?
    ensures PieceBytes(p) == []
  {}

  lemma NothingToDrop()
    ensures DropSoftBreaks("") == ""
  {}

  lemma {:induction false} EscapesGo(ps: seq<Piece>)
    requires forall p <- ps :: Printable(p) && !p.SoftBreak?
    ensures HexUnescape(Printed(ps)) == Bytes(ps)
  {
    if ps != [] {
      hide HexUnescape, PrintedPiece, PieceBytes;
      EscapesGo(ps[1..]);
      OneUnescaped(ps[0], Printed(ps[1..]));
    } else {
      assert HexUnescape("") == [];
    }
  }

  /** A quoted-printable body is read as the text its bytes stand for, wherever it was escaped or broken. */
  lemma QuotedPrintableIsReadBack(browser: Browser, ps: seq<Piece>, text: string)
    requires forall p <- ps :: Printable(p)
    requires browser.decode("utf-8", Bytes(ps)) == Some(text)
    ensures MimeDecodeBody(browser, Printed(ps), "quoted-printable") == text
    ensures MimeDecodeBodyBytes(browser, Printed(ps), "quoted-printable") == browser.encodeUtf8(text)
  {
    hide DropSoftBreaks, HexUnescape, Printed, Bytes, Printable;
    SoftBreaksGo(ps);
    EscapesGo(Hard(ps));
    assert |"base64"| == 6 && |"quoted-printable"| == 16;
  }

  ghost predicate IsHex(c: char) {
    c in "0123456789ABCDEFabcdef"
  }

  lemma HexIff(c: char)
    ensures HexValue(c).Some? <==> IsHex(c)
  {
    var digits := "0123456789ABCDEFabcdef";
    assert |digits| == 22;
    assert '0' <= c <= '9' ==> digits[c as int - 48] == c;
    assert 'A' <= c <= 'F' ==> digits[c as int - 55] == c;
    assert 'a' <= c <= 'f' ==> digits[c as int - 81] == c;
  }

  /** An equals sign that is not followed by two hexadecimal digits stands for itself. */
  lemma LoneEqualsIsKept(rest: string)
    requires |rest| < 2 || !IsHex(rest[0]) || !IsHex(rest[1])
    ensures HexUnescape("=" + rest) == ['=' as int] + HexUnescape(rest)
  {
    hide IsHex, HexValue, HexUnescape;
    var s := "=" + rest;
    assert s[1..] == rest;
    if |rest| >= 2 {
      HexIff(rest[0]);
      HexIff(rest[1]);
    }
    NotEscaped(s);
  }

  lemma NotEscaped(s: string)
    requires s != "" && !HexEscapeAt(s, 0)
    ensures HexUnescape(s) == [s[0] as int % 256] + HexUnescape(s[1..])
  {}

  // ---------------------------------------------------------------- base64, and no encoding

  /** White space goes, and nothing else. */
  lemma {:induction false} StripSpaceIsExact(a: string, c: char, b: string)
    ensures StripSpace(a + [c] + b) == StripSpace(a) + (if IsSpace(c) then "" else [c]) + StripSpace(b)
    decreases |a|
  {
    hide IsSpace;
    var all := a + [c] + b;
    if a == "" {
      assert all[1..] == b;
    } else {
      assert all[1..] == a[1..] + [c] + b;
      StripSpaceIsExact(a[1..], c, b);
    }
  }

  /** A base64 body is read as the text its bytes stand for, wherever white space was put in; one that is no base64 is
    * shown as it is. */
  lemma Base64IsReadBack(browser: Browser, body: string, bytes: seq<Byte>, text: string)
    requires StripSpace(body) == Btoa(bytes) && browser.decode("utf-8", bytes) == Some(text)
    ensures MimeDecodeBody(browser, body, "base64") == text
    ensures MimeDecodeBodyBytes(browser, body, "base64") == bytes
  {
    hide StripSpace, Btoa, Atob;
    AtobBtoa(bytes);
    assert |"base64"| == 6 && |"quoted-printable"| == 16;
  }

  lemma NoBase64IsKept(browser: Browser, body: string)
    requires Atob(StripSpace(body)).None?
    ensures MimeDecodeBody(browser, body, "base64") == body && MimeDecodeBodyBytes(browser, body, "base64") == []
  {
    hide StripSpace, Atob;
    assert |"base64"| == 6 && |"quoted-printable"| == 16;
  }

  /** In any other encoding the body is the text. */
  lemma OtherEncodingsAreKept(browser: Browser, body: string, encoding: string)
    requires encoding !in {"base64", "quoted-printable"}
    ensures MimeDecodeBody(browser, body, encoding) == body
    ensures MimeDecodeBodyBytes(browser, body, encoding) == browser.encodeUtf8(body)
  {}

  // ---------------------------------------------------------------- encoded words

  /** Text without an equals sign, or a word in one of the two encodings; a space in the second is an underscore. */
  datatype Chunk =
    | Raw(text: string)
    | BWord(charset: string, small: bool, bytes: seq<Byte>)
    | QWord(charset: string, small: bool, pieces: seq<Piece>)

  predicate WordPiece(p: Piece) {
    && Printable(p) && !p.SoftBreak?
    && (p.Plain? ==> p.c != '?' && p.c != '_')
  }

  predicate Good(browser: Browser, c: Chunk) {
    match c
    case Raw(text) => '=' !in text
    case BWord(charset, _, bytes) => charset != "" && '?' !in charset && browser.decode(charset, bytes).Some?
    case QWord(charset, _, pieces) =>
      && charset != "" && '?' !in charset && (forall p <- pieces :: WordPiece(p))
      && browser.decode(charset, Bytes(pieces)).Some?
  }

  function SpaceAsUnderscore(s: string): string {
    seq(|s|, i requires 0 <= i < |s| => if s[i] == ' ' then '_' else s[i])
  }

  function Word(charset: string, encoding: char, text: string): string {
    "=?" + charset + "?" + [encoding] + "?" + text + "?="
  }

  function PrintedChunk(c: Chunk): string {
    match c
    case Raw(text) => text
    case BWord(charset, small, bytes) => Word(charset, if small then 'b' else 'B', Btoa(bytes))
    case QWord(charset, small, pieces) =>
      Word(charset, if small then 'q' else 'Q', SpaceAsUnderscore(Printed(pieces)))
  }

  function ShownChunk(browser: Browser, c: Chunk): string
    requires Good(browser, c)
  {
    match c
    case Raw(text) => text
    case BWord(charset, _, bytes) => browser.decode(charset, bytes).value
    case QWord(charset, _, pieces) => browser.decode(charset, Bytes(pieces)).value
  }

  function PrintedChunks(cs: seq<Chunk>): string {
    if cs == [] then "" else PrintedChunk(cs[0]) + PrintedChunks(cs[1..])
  }

  function ShownChunks(browser: Browser, cs: seq<Chunk>): string
    requires forall c <- cs :: Good(browser, c)
  {
    if cs == [] then "" else ShownChunk(browser, cs[0]) + ShownChunks(browser, cs[1..])
  }

  lemma {:induction false} WordTextHasNo(ps: seq<Piece>)
    requires forall p <- ps :: WordPiece(p)
    ensures '?' !in Printed(ps) && '_' !in Printed(ps)
  {
    if ps != [] {
      WordTextHasNo(ps[1..]);
      PieceHasNo(ps[0]);
      hide PrintedPiece;
    }
  }

  lemma PieceHasNo(p: Piece)
    requires WordPiece(p)
    ensures '?' !in PrintedPiece(p) && '_' !in PrintedPiece(p)
  {
    if p.Escaped? {
      HexDigitsAreRead(p.byte / 16, p.lowerHigh);
      HexDigitsAreRead(p.byte % 16, p.lowerLow);
    }
  }

  lemma UnderscoresGo(s: string)
    requires '_' !in s
    ensures UnderscoresToSpaces(SpaceAsUnderscore(s)) == s
    ensures '?' !in s ==> '?' !in SpaceAsUnderscore(s)
  {
    var t := SpaceAsUnderscore(s);
    assert forall i :: 0 <= i < |s| ==> s[i] in s;
    assert '?' !in s ==> forall i :: 0 <= i < |t| ==> t[i] != '?';
  }

  lemma Base64HasNo(bytes: seq<Byte>)
    ensures '?' !in Btoa(bytes)
  {
    hide Btoa;
    BtoaChars(bytes);
  }

  lemma WordIsShown(browser: Browser, whole: string, c: Chunk, rest: string)
    requires !c.Raw? && Good(browser, c)
    ensures DecodeWords(browser, whole, PrintedChunk(c) + rest) ==
            ShownChunk(browser, c) + DecodeWords(browser, whole, rest)
  {
    hide Btoa, Atob, Printed, Bytes, HexUnescape, UnderscoresToSpaces, SpaceAsUnderscore, DecodeWords, WordPiece;
    var encoding := if c.BWord? then (if c.small then 'b' else 'B') else (if c.small then 'q' else 'Q');
    var text := if c.BWord? then Btoa(c.bytes) else SpaceAsUnderscore(Printed(c.pieces));
    if c.BWord? {
      AtobBtoa(c.bytes);
      Base64HasNo(c.bytes);
    } else {
      WordTextHasNo(c.pieces);
      UnderscoresGo(Printed(c.pieces));
      WordPiecesArePrintable(c.pieces);
      EscapesGo(c.pieces);
    }
    assert DecodeWordText(browser, c.charset, encoding, text) == Some(ShownChunk(browser, c));
    OneWord(browser, whole, c.charset, encoding, text, ShownChunk(browser, c), rest);
  }

  lemma WordPiecesArePrintable(ps: seq<Piece>)
    requires forall p <- ps :: WordPiece(p)
    ensures forall p <- ps :: Printable(p) && !p.SoftBreak?
  {}

  lemma OneWord(
    browser: Browser, whole: string, charset: string, encoding: char, text: string, shown: string, rest: string)
    requires charset != "" && '?' !in charset && '?' !in text && encoding in "BbQq"
    requires DecodeWordText(browser, charset, encoding, text) == Some(shown)
    ensures DecodeWords(browser, whole, Word(charset, encoding, text) + rest) ==
            shown + DecodeWords(browser, whole, rest)
  {
    hide EncodedWordAtStart, DecodeWordText;
    var s := Word(charset, encoding, text) + rest;
    MimeNames.WordIsFound(charset, encoding, text, rest);
    assert s == "=?" + charset + "?" + [encoding] + "?" + text + "?=" + rest;
    assert s[|charset| + |text| + 7..] == rest;
  }

  lemma OneCharIsShown(browser: Browser, whole: string, c: char, rest: string)
    requires c != '='
    ensures DecodeWords(browser, whole, [c] + rest) == [c] + DecodeWords(browser, whole, rest)
  {
    hide DecodeWordText;
    var s := [c] + rest;
    assert s[1..] == rest;
    assert EncodedWordAtStart(s).None? by {
      hide IndexOf;
      assert |s| >= 2 ==> s[..2][0] == c;
    }
    hide EncodedWordAtStart;
  }

  lemma {:induction false} RawIsShown(browser: Browser, whole: string, text: string, rest: string)
    requires '=' !in text
    ensures DecodeWords(browser, whole, text + rest) == text + DecodeWords(browser, whole, rest)
    decreases |text|
  {
    hide DecodeWords;
    if text == "" {
      assert text + rest == rest;
    } else {
      assert text + rest == [text[0]] + (text[1..] + rest);
      assert text == [text[0]] + text[1..];
      RawIsShown(browser, whole, text[1..], rest);
      OneCharIsShown(browser, whole, text[0], text[1..] + rest);
    }
  }

  /** Any number of encoded words, in either encoding and any charset the browser knows, among text without equals
    * signs: each is replaced by what it stands for, and the text is left alone. */
  lemma EncodedWordsAreReadBack(browser: Browser, cs: seq<Chunk>)
    requires forall c <- cs :: Good(browser, c)
    ensures MimeDecodeWord(browser, PrintedChunks(cs)) == ShownChunks(browser, cs)
  {
    ChunksAreShown(browser, PrintedChunks(cs), cs);
  }

  lemma {:induction false} ChunksAreShown(browser: Browser, whole: string, cs: seq<Chunk>)
    requires forall c <- cs :: Good(browser, c)
    ensures DecodeWords(browser, whole, PrintedChunks(cs)) == ShownChunks(browser, cs)
    decreases |cs|
  {
    hide DecodeWords, PrintedChunk, ShownChunk, Good;
    if cs == [] {
      NothingToShow(browser, whole);
    } else {
      ChunksAreShown(browser, whole, cs[1..]);
      ChunkIsShown(browser, whole, cs[0], PrintedChunks(cs[1..]));
    }
  }

  lemma NothingToShow(browser: Browser, whole: string)
    ensures DecodeWords(browser, whole, "") == ""
  {}

  lemma ChunkIsShown(browser: Browser, whole: string, c: Chunk, rest: string)
    requires Good(browser, c)
    ensures DecodeWords(browser, whole, PrintedChunk(c) + rest) ==
            ShownChunk(browser, c) + DecodeWords(browser, whole, rest)
  {
    hide DecodeWords, Bytes;
    if c.Raw? {
      RawIsShown(browser, whole, c.text, rest);
    } else {
      WordIsShown(browser, whole, c, rest);
    }
  }
}
