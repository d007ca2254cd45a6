/** The reading half of the browser's MIME code: client/crypto.js. */
module MimeReader {
  import opened Wrappers
  import opened Text
  import opened Base64
  import opened MimeTypes

  datatype Entity = Entity(headers: string, body: string)

  // ---------------------------------------------------------------- header and body

  function MimeSplit(text: string): (e: Entity)
    ensures |e.body| <= |text|
  {
    match IndexOf(text, "\r\n\r\n")
    case Some(i) => Entity(text[..i], text[i + 4..])
    case None =>
      match IndexOf(text, "\n\n")
      case Some(i) => Entity(text[..i], text[i + 2..])
      case None => Entity("", text)
  }

  predicate IsBlank(c: char) {
    c == ' ' || c == '\t'
  }

  function DropBlanks(s: string): (r: string)
    ensures |r| <= |s|
  {
    if s != "" && IsBlank(s[0]) then DropBlanks(s[1..]) else s
  }

  function NewlineLength(s: string): (n: nat)
    ensures n <= |s|
  {
    if MatchesAt(s, "\r\n", 0) then 2 else if s != "" && s[0] == '\n' then 1 else 0
  }

  /** `headers.replace(/\r?\n[ \t]+/g, " ")`. */
  function Unfold(s: string): string
    decreases |s|
  {
    var n := NewlineLength(s);
    if s == "" then ""
    else if 0 < n < |s| && IsBlank(s[n]) then " " + Unfold(DropBlanks(s[n..]))
    else [s[0]] + Unfold(s[1..])
  }

  function FindHeader(lines: seq<string>, lower: string): string {
    if lines == [] then ""
    else
      match IndexOf(lines[0], ":")
      case None => FindHeader(lines[1..], lower)
      case Some(colon) =>
        if Lower(Trim(lines[0][..colon])) == lower then Trim(lines[0][colon + 1..])
        else FindHeader(lines[1..], lower)
  }

  function MimeHeader(headers: string, name: string): string {
    FindHeader(SplitLines(Unfold(headers)), Lower(name))
  }

  function MediaTypeOf(value: string): string {
    match IndexOf(value, ";")
    case None => Lower(Trim(value))
    case Some(i) => Lower(Trim(value[..i]))
  }

  function OrElse(value: string, fallback: string): string {
    if value == "" then fallback else value
  }

  // ---------------------------------------------------------------- header parameters

  /** The first capture of a pattern, given what it captures when anchored at each position. */
  function Leftmost(n: nat, at: nat -> Option<string>, i: nat := 0): Option<string>
    requires i <= n
    decreases n - i
  {
    if at(i).Some? then at(i)
    else if i == n then None
    else Leftmost(n, at, i + 1)
  }

  lemma {:induction false} LeftmostIs(n: nat, at: nat -> Option<string>, i: nat, k: nat)
    requires i <= k <= n && at(k).Some?
    requires forall j: nat :: i <= j < k ==> at(j).None?
    ensures Leftmost(n, at, i) == at(k)
    decreases k - i
  {
    if i < k {
      LeftmostIs(n, at, i + 1, k);
    }
  }

  lemma {:induction false} LeftmostNone(n: nat, at: nat -> Option<string>, i: nat)
    requires i <= n
    requires forall j: nat :: i <= j <= n ==> at(j).None?
    ensures Leftmost(n, at, i).None?
    decreases n - i
  {
    if i < n {
      LeftmostNone(n, at, i + 1);
    }
  }

  function SkipSpaces(s: string, i: nat): (k: nat)
    requires i <= |s|
    ensures i <= k <= |s|
    decreases |s| - i
  {
    if i < |s| && IsSpace(s[i]) then SkipSpaces(s, i + 1) else i
  }

  /** End of the longest run matching `[^;\s]*`. */
  function TokenEnd(s: string, i: nat): (k: nat)
    requires i <= |s|
    ensures i <= k <= |s|
    decreases |s| - i
  {
    if i < |s| && s[i] != ';' && !IsSpace(s[i]) then TokenEnd(s, i + 1) else i
  }

  /** `key([^;\s]+)` anchored at `i`. */
  function TokenAt(s: string, key: string, i: nat): Option<string> {
    if !MatchesAt(Lower(s), key, i) then None
    else
      var from := i + |key|;
      var to := TokenEnd(s, from);
      if from < to then Some(s[from..to]) else None
  }

  /** `key"([^"]*)"` anchored at `i`, the opening quote being the last character of `key`. */
  function QuotedAt(s: string, key: string, i: nat): Option<string> {
    if !MatchesAt(Lower(s), key, i) then None
    else
      var from := i + |key|;
      match IndexOf(s, "\"", from)
      case None => None
      case Some(to) => Some(s[from..to])
  }

  function BoundaryQuotedAt(ct: string, i: nat): Option<string> {
    if i < |ct| && ct[i] == ';' then
      match QuotedAt(ct, "boundary=\"", SkipSpaces(ct, i + 1))
      case Some(b) => if b == "" then None else Some(b)
      case None => None
    else None
  }

  function BoundaryTokenAt(ct: string, i: nat): Option<string> {
    if i < |ct| && ct[i] == ';' then TokenAt(ct, "boundary=", SkipSpaces(ct, i + 1)) else None
  }

  function MimeBoundary(ct: string): Option<string> {
    match Leftmost(|ct|, (i: nat) => BoundaryQuotedAt(ct, i))
    case Some(b) => Some(b)
    case None => Leftmost(|ct|, (i: nat) => BoundaryTokenAt(ct, i))
  }

  function ExtendedValue(browser: Browser, token: string): Option<string> {
    match IndexOf(token, "''")
    case Some(i) => browser.decodeURIComponent(token[i + 2..])
    case None => None
  }

  function PlainParamValue(header: string, param: string): string {
    match Leftmost(|header|, (i: nat) => QuotedAt(header, Lower(param) + "=\"", i))
    case Some(v) => v
    case None =>
      match Leftmost(|header|, (i: nat) => TokenAt(header, Lower(param) + "=", i))
      case Some(v) => v
      case None => ""
  }

  function MimeParamValue(browser: Browser, header: string, param: string): string {
    if header == "" then ""
    else
      match Leftmost(|header|, (i: nat) => TokenAt(header, Lower(param) + "*=", i))
      case None => PlainParamValue(header, param)
      case Some(token) =>
        match ExtendedValue(browser, token)
        case Some(v) => v
        case None => PlainParamValue(header, param)
  }

  // ---------------------------------------------------------------- encoded words (RFC 2047)

  function HexValue(c: char): Option<int> {
    if '0' <= c <= '9' then Some(c as int - 48)
    else if 'A' <= c <= 'F' then Some(c as int - 55)
    else if 'a' <= c <= 'f' then Some(c as int - 87)
    else None
  }

  predicate HexEscapeAt(s: string, i: nat) {
    i + 2 < |s| && s[i] == '=' && HexValue(s[i + 1]).Some? && HexValue(s[i + 2]).Some?
  }

  /** Replaces `=XX` by the byte it names and keeps the low byte of every other character. */
  function HexUnescape(s: string): seq<Byte>
    decreases |s|
  {
    if s == "" then []
    else if HexEscapeAt(s, 0) then
      [(HexValue(s[1]).value * 16 + HexValue(s[2]).value) % 256] + HexUnescape(s[3..])
    else [s[0] as int % 256] + HexUnescape(s[1..])
  }

  function UnderscoresToSpaces(s: string): string {
    seq(|s|, i requires 0 <= i < |s| => if s[i] == '_' then ' ' else s[i])
  }

  function DecodeWordText(browser: Browser, charset: string, encoding: char, text: string): Option<string> {
    if encoding == 'B' || encoding == 'b' then
      match Atob(text)
      case None => None
      case Some(bytes) => browser.decode(charset, bytes)
    else browser.decode(charset, HexUnescape(UnderscoresToSpaces(text)))
  }

  datatype EncodedWord = EncodedWord(charset: string, encoding: char, text: string, length: nat)

  /** `=\?([^?]+)\?([BbQq])\?([^?]*)\?=` anchored at the start of `s`. */
  function EncodedWordAtStart(s: string): (r: Option<EncodedWord>)
    ensures r.Some? ==> MatchesAt(s, "=?", 0) && 0 < r.value.length <= |s|
  {
    if !MatchesAt(s, "=?", 0) then None
    else
      match IndexOf(s, "?", 2)
      case None => None
      case Some(i) =>
        if i == 2 || !(i + 2 < |s| && s[i + 1] in "BbQq" && s[i + 2] == '?') then None
        else
          match IndexOf(s, "?", i + 3)
          case None => None
          case Some(j) =>
            if j + 1 < |s| && s[j + 1] == '=' then
              Some(EncodedWord(s[2..i], s[i + 1], s[i + 3..j], j + 2))
            else None
  }

  function DecodeWords(browser: Browser, whole: string, s: string): string
    decreases |s|
  {
    if s == "" then ""
    else
      match EncodedWordAtStart(s)
      case None => [s[0]] + DecodeWords(browser, whole, s[1..])
      case Some(w) =>
        (match DecodeWordText(browser, w.charset, w.encoding, w.text)
         case Some(t) => t
         case None => whole)
        + DecodeWords(browser, whole, s[w.length..])
  }

  function MimeDecodeWord(browser: Browser, s: string): string {
    DecodeWords(browser, s, s)
  }

  // ---------------------------------------------------------------- transfer encodings

  function StripSpace(s: string): string {
    if s == "" then ""
    else if IsSpace(s[0]) then StripSpace(s[1..])
    else [s[0]] + StripSpace(s[1..])
  }

  /** `body.replace(/=\r?\n/g, "")`. */
  function DropSoftBreaks(s: string): string
    decreases |s|
  {
    if s == "" then ""
    else if MatchesAt(s, "=\r\n", 0) then DropSoftBreaks(s[3..])
    else if MatchesAt(s, "=\n", 0) then DropSoftBreaks(s[2..])
    else [s[0]] + DropSoftBreaks(s[1..])
  }

  function DecodeUtf8(browser: Browser, bytes: seq<Byte>): string {
    match browser.decode("utf-8", bytes)
    case Some(t) => t
    case None => ""
  }

  function MimeDecodeBody(browser: Browser, body: string, encoding: string): string {
    if encoding == "quoted-printable" then DecodeUtf8(browser, HexUnescape(DropSoftBreaks(body)))
    else if encoding == "base64" then
      match Atob(StripSpace(body))
      case Some(bytes) => DecodeUtf8(browser, bytes)
      case None => body
    else body
  }

  function MimeDecodeBodyBytes(browser: Browser, body: string, encoding: string): seq<Byte> {
    if encoding == "base64" then
      match Atob(StripSpace(body))
      case Some(bytes) => bytes
      case None => []
    else if encoding == "quoted-printable" then
      browser.encodeUtf8(MimeDecodeBody(browser, body, "quoted-printable"))
    else browser.encodeUtf8(body)
  }

  // ---------------------------------------------------------------- multipart framing

  predicate IsSeparator(line: string, delim: string) {
    line == delim || line == delim + " "
  }

  predicate IsClosing(line: string, delim: string) {
    line == delim + "--" || line == delim + "-- "
  }

  function Flush(current: Option<seq<string>>): seq<string> {
    if current.Some? && current.value != [] then [Join(current.value, "\n")] else []
  }

  /** The parts found from `lines` on, `current` holding the lines of the part being read, if any. */
  function PartsFrom(lines: seq<string>, delim: string, current: Option<seq<string>>): seq<string> {
    if lines == [] || IsClosing(lines[0], delim) then Flush(current)
    else if IsSeparator(lines[0], delim) then Flush(current) + PartsFrom(lines[1..], delim, Some([]))
    else if current.Some? then PartsFrom(lines[1..], delim, Some(current.value + [lines[0]]))
    else PartsFrom(lines[1..], delim, None)
  }

  function PartsOf(body: string, boundary: string): seq<string> {
    PartsFrom(SplitLines(body), "--" + boundary, None)
  }

  method MimeMultipartParts(body: string, boundary: string) returns (parts: seq<string>)
    ensures parts == PartsOf(body, boundary)
  {
    hide IsClosing, IsSeparator, SplitLines;
    var delim := "--" + boundary;
    var current: Option<seq<string>> := None;
    var lines := SplitLines(body);
    var closed := false;
    parts := [];
    var i := 0;
    while i < |lines| && !closed
      invariant 0 <= i <= |lines|
      invariant PartsOf(body, boundary)
             == parts + if closed then Flush(current) else PartsFrom(lines[i..], delim, current)
      decreases |lines| - i, !closed
    {
      var line := lines[i];
      if IsClosing(line, delim) {
        closed := true;
      } else {
        if IsSeparator(line, delim) {
          parts := parts + Flush(current);
          current := Some([]);
        } else if current.Some? {
          current := Some(current.value + [line]);
        }
        i := i + 1;
      }
    }
    parts := parts + Flush(current);
  }

  function Weight(lines: seq<string>): nat {
    if lines == [] then 0 else |lines[0]| + 1 + Weight(lines[1..])
  }

  lemma {:induction false} WeightAppend(lines: seq<string>, line: string)
    ensures Weight(lines + [line]) == Weight(lines) + |line| + 1
  {
    if lines != [] {
      assert (lines + [line])[1..] == lines[1..] + [line];
      WeightAppend(lines[1..], line);
    }
  }

  lemma {:induction false} SplitLinesWeight(s: string)
    ensures Weight(SplitLines(s)) <= |s| + 1
    decreases |s|
  {
    match IndexOf(s, "\n")
    case None =>
    case Some(i) => SplitLinesWeight(s[i + 1..]);
  }

  lemma {:induction false} JoinWeight(lines: seq<string>)
    requires lines != []
    ensures |Join(lines, "\n")| + 1 == Weight(lines)
  {
    if |lines| > 1 {
      JoinWeight(lines[1..]);
    }
  }

  lemma {:induction false} PartsFromShorter(lines: seq<string>, delim: string, current: Option<seq<string>>)
    ensures forall p <- PartsFrom(lines, delim, current) ::
              |p| + (if current.Some? then 0 else |delim|) < Weight(lines)
                + (if current.Some? then Weight(current.value) else 0)
    decreases lines
  {
    if current.Some? && current.value != [] {
      JoinWeight(current.value);
    }
    if lines == [] || IsClosing(lines[0], delim) {
    } else if IsSeparator(lines[0], delim) {
      PartsFromShorter(lines[1..], delim, Some([]));
    } else if current.Some? {
      WeightAppend(current.value, lines[0]);
      PartsFromShorter(lines[1..], delim, Some(current.value + [lines[0]]));
    } else {
      PartsFromShorter(lines[1..], delim, None);
    }
  }

  lemma PartsShorter(body: string, boundary: string)
    ensures forall p <- PartsOf(body, boundary) :: |p| < |body|
  {
    SplitLinesWeight(body);
    PartsFromShorter(SplitLines(body), "--" + boundary, None);
  }

  // ---------------------------------------------------------------- the text body

  function ExtractText(browser: Browser, headers: string, body: string): Option<string>
    decreases |body|, 1, 0
  {
    var ct := OrElse(MimeHeader(headers, "Content-Type"), "text/plain");
    var mediaType := MediaTypeOf(ct);
    if mediaType == "text/plain" then
      var enc := Trim(Lower(MimeHeader(headers, "Content-Transfer-Encoding")));
      Some(MimeDecodeBody(browser, DropFinalNewline(body), enc))
    else if "multipart/" <= mediaType then
      match MimeBoundary(ct)
      case None => None
      case Some(boundary) =>
        PartsShorter(body, boundary);
        ExtractFirst(browser, PartsOf(body, boundary), |body|)
    else None
  }

  /** The text of the first part that has one. */
  function ExtractFirst(browser: Browser, parts: seq<string>, ghost bound: nat): Option<string>
    requires forall p <- parts :: |p| < bound
    decreases bound, 0, |parts|
  {
    if parts == [] then None
    else
      var e := MimeSplit(parts[0]);
      var media := MediaTypeOf(OrElse(MimeHeader(e.headers, "Content-Type"), "text/plain"));
      if media == "application/pgp-signature" || media == "application/pgp-keys" then
        ExtractFirst(browser, parts[1..], bound)
      else
        match ExtractText(browser, e.headers, e.body)
        case Some(t) => Some(t)
        case None => ExtractFirst(browser, parts[1..], bound)
  }

  function ExtractTextBody(browser: Browser, raw: string): string {
    var e := MimeSplit(raw);
    match ExtractText(browser, e.headers, e.body)
    case Some(t) => t
    case None => e.body
  }

  predicate IsLetter(c: char) {
    'A' <= c <= 'Z' || 'a' <= c <= 'z'
  }

  predicate IsHeaderNameChar(c: char) {
    IsLetter(c) || '0' <= c <= '9' || c == '-'
  }

  /** `/^[A-Za-z][A-Za-z0-9-]*:/` or `/^[ \t]/`. */
  predicate LooksLikeHeaderLine(line: string) {
    && line != ""
    && (|| IsBlank(line[0])
        || (&& IsLetter(line[0])
            && match IndexOf(line, ":")
               case None => false
               case Some(colon) => forall i :: 0 <= i < colon ==> IsHeaderNameChar(line[i])))
  }

  function NewlinePairAt(text: string, i: nat): (n: nat)
    requires i <= |text|
    ensures i + n <= |text|
  {
    var first := NewlineLength(text[i..]);
    var second := NewlineLength(text[i + first..]);
    if first > 0 && second > 0 then first + second else 0
  }

  /** The leftmost match of `/\r?\n\r?\n/`: its position and length. */
  function FindBlankLine(text: string, i: nat := 0): (r: Option<(nat, nat)>)
    requires i <= |text|
    ensures r.Some? ==> r.value.0 + r.value.1 <= |text|
    decreases |text| - i
  {
    if NewlinePairAt(text, i) > 0 then Some((i, NewlinePairAt(text, i)))
    else if i == |text| then None
    else FindBlankLine(text, i + 1)
  }

  function StripMimeHeadersIfPresent(text: string): string {
    match FindBlankLine(text)
    case None => text
    case Some(m) =>
      if forall line <- SplitLines(text[..m.0]) :: LooksLikeHeaderLine(line) then text[m.0 + m.1..]
      else text
  }

  function ExtractDecryptedBody(browser: Browser, decrypted: string): string {
    var e := MimeSplit(decrypted);
    var text :=
      if e.headers != "" && MimeHeader(e.headers, "Content-Type") != "" then ExtractText(browser, e.headers, e.body)
      else None;
    match text
    case Some(t) => t
    case None => StripMimeHeadersIfPresent(decrypted)
  }

  const BEGIN_PGP := "-----BEGIN PGP MESSAGE-----"
  const END_PGP := "-----END PGP MESSAGE-----"

  function ExtractPGPBlock(raw: string): Option<string> {
    match IndexOf(raw, BEGIN_PGP)
    case None => None
    case Some(start) =>
      match IndexOf(raw, END_PGP, start)
      case None => None
      case Some(end) => Some(raw[start..end + |END_PGP|])
  }

  // ---------------------------------------------------------------- attachments

  predicate IsPgpPart(mediaType: string) {
    || mediaType == "application/pgp-signature"
    || mediaType == "application/pgp-keys"
    || mediaType == "application/pgp-encrypted"
  }

  /** What the attachment walk does with an entity, decided from its headers alone. */
  datatype Role = Ignored | Container(boundary: string) | Leaf(contentType: string, disposition: string)

  function RoleOf(headers: string): Role {
    var ct := OrElse(MimeHeader(headers, "Content-Type"), "text/plain");
    var mediaType := MediaTypeOf(ct);
    var disp := MimeHeader(headers, "Content-Disposition");
    if IsPgpPart(mediaType) then Ignored
    else if mediaType == "text/plain" && MediaTypeOf(Trim(disp)) != "attachment" then Ignored
    else if "multipart/" <= mediaType then
      match MimeBoundary(ct)
      case None => Ignored
      case Some(boundary) => Container(boundary)
    else Leaf(ct, disp)
  }

  /** The attachments below one entity, in the order the walk meets them. */
  function Attachments(browser: Browser, headers: string, body: string): seq<Attachment>
    decreases |body|, 1, 0
  {
    match RoleOf(headers)
    case Ignored => []
    case Container(boundary) =>
      PartsShorter(body, boundary);
      AttachmentsOfParts(browser, PartsOf(body, boundary), |body|)
    case Leaf(ct, disp) => [LeafAttachment(browser, headers, body, ct, disp)]
  }

  function LeafAttachment(browser: Browser, headers: string, body: string, ct: string, disp: string): Attachment {
    var enc := Trim(Lower(MimeHeader(headers, "Content-Transfer-Encoding")));
    var name := OrElse(MimeParamValue(browser, disp, "filename"), MimeParamValue(browser, ct, "name"));
    Attachment(
      MimeDecodeWord(browser, name),
      MediaTypeOf(ct),
      MimeDecodeBodyBytes(browser, DropFinalNewline(body), enc))
  }

  function AttachmentsOfParts(browser: Browser, parts: seq<string>, ghost bound: nat): seq<Attachment>
    requires forall p <- parts :: |p| < bound
    decreases bound, 0, |parts|
  {
    if parts == [] then []
    else
      var e := MimeSplit(parts[0]);
      Attachments(browser, e.headers, e.body) + AttachmentsOfParts(browser, parts[1..], bound)
  }

  lemma AttachmentsOfPartsCons(browser: Browser, parts: seq<string>, i: nat, bound: nat)
    requires i < |parts| && forall p <- parts :: |p| < bound
    ensures AttachmentsOfParts(browser, parts[i..], bound)
         == Attachments(browser, MimeSplit(parts[i]).headers, MimeSplit(parts[i]).body)
            + AttachmentsOfParts(browser, parts[i + 1..], bound)
  {
    assert parts[i..][0] == parts[i] && parts[i..][1..] == parts[i + 1..];
  }

  function ParseMIMEAttachments(browser: Browser, mimeText: string): seq<Attachment> {
    var e := MimeSplit(mimeText);
    if e.headers == "" then [] else Attachments(browser, e.headers, e.body)
  }

  // ---------------------------------------------------------------- opening a message

  datatype SignatureStatus = NoSignature | UnknownKey | Verified | Invalid

  datatype Decrypted = Decrypted(body: string, status: SignatureStatus, attachments: seq<Attachment>)

  /** The OpenPGP library: the text in an armored block and the number of its signatures, None where decryption throws;
    * and whether the first signature verifies under a sender's key. */
  datatype OpenPgp = OpenPgp(
    open: (string, string) -> Option<(string, nat)>, verifies: (string, string, string) -> bool)

  datatype DecryptError = DecryptionFailed

  function DecryptMessage(
    browser: Browser, pgp: OpenPgp, raw: string, privateKey: Option<string>, sender: Option<string>)
    : Result<Decrypted, DecryptError>
  {
    match (ExtractPGPBlock(raw), privateKey)
    case (Some(pgpBlock), Some(key)) => (
      match pgp.open(pgpBlock, key)
      case None => Err(DecryptionFailed)
      case Some((data, signatures)) =>
        var status :=
          if signatures == 0 then NoSignature
          else if sender.None? || sender.value == "" then UnknownKey
          else if pgp.verifies(pgpBlock, key, sender.value) then Verified
          else Invalid;
        Ok(Decrypted(ExtractDecryptedBody(browser, data), status, ParseMIMEAttachments(browser, data)))
    )
    case _ => Ok(Decrypted(ExtractTextBody(browser, raw), NoSignature, []))
  }

  /** The shared array that the recursive walk pushes into. */
  class AttachmentCollector {
    var result: seq<Attachment>

    constructor ()
      ensures result == []
    {
      result := [];
    }

    method Collect(browser: Browser, headers: string, body: string)
      modifies this
      ensures result == old(result) + Attachments(browser, headers, body)
      decreases |body|, 1
    {
      match RoleOf(headers) {
        case Ignored =>
        case Container(boundary) =>
          var parts := MimeMultipartParts(body, boundary);
          PartsShorter(body, boundary);
          CollectParts(browser, parts, |body|);
        case Leaf(ct, disp) =>
          result := result + [LeafAttachment(browser, headers, body, ct, disp)];
      }
    }

    method CollectParts(browser: Browser, parts: seq<string>, ghost bound: nat)
      requires forall p <- parts :: |p| < bound
      modifies this
      ensures result == old(result) + AttachmentsOfParts(browser, parts, bound)
      decreases bound, 0
    {
      ghost var total := result + AttachmentsOfParts(browser, parts, bound);
      var i := 0;
      while i < |parts|
        invariant 0 <= i <= |parts|
        invariant total == result + AttachmentsOfParts(browser, parts[i..], bound)
      {
        AttachmentsOfPartsCons(browser, parts, i, bound);
        CollectPart(browser, parts[i], AttachmentsOfParts(browser, parts[i + 1..], bound));
        i := i + 1;
      }
    }

    method CollectPart(browser: Browser, part: string, ghost rest: seq<Attachment>)
      modifies this
      ensures result + rest
           == old(result) + (Attachments(browser, MimeSplit(part).headers, MimeSplit(part).body) + rest)
      decreases |part|, 2
    {
      var e := MimeSplit(part);
      ghost var before, found := result, Attachments(browser, e.headers, e.body);
      Collect(browser, e.headers, e.body);
      ConcatAssoc(before, found, rest);
    }
  }

  method ParseAttachments(browser: Browser, mimeText: string) returns (result: seq<Attachment>)
    ensures result == ParseMIMEAttachments(browser, mimeText)
  {
    var e := MimeSplit(mimeText);
    if e.headers == "" {
      return [];
    }
    var collector := new AttachmentCollector();
    collector.Collect(browser, e.headers, e.body);
    result := collector.result;
  }
}
