/** The writing half of the browser's MIME code: client/pages/compose.js. */
module MimeWriter {
  import opened Text
  import opened Base64
  import opened MimeTypes

  const CRLF := "\r\n"
  const FOLD := 76
  const CHUNK := 0x8000

  function NormalizeCRLF(s: string): string {
    ToCRLF(ToLF(s))
  }

  /** The file's bytes reach `btoa` in chunks; the result is that of one call. */
  method Uint8ToBase64(bytes: seq<Byte>) returns (b64: string)
    ensures b64 == Btoa(bytes)
  {
    var binary: seq<Byte> := [];
    var i := 0;
    while i < |bytes|
      invariant 0 <= i
      invariant binary == bytes[..if i < |bytes| then i else |bytes|]
    {
      var end := if i + CHUNK < |bytes| then i + CHUNK else |bytes|;
      binary := binary + bytes[i..end];
      i := i + CHUNK;
    }
    assert binary == bytes;
    b64 := Btoa(binary);
  }

  function FoldLines(b64: string): (lines: seq<string>)
    decreases |b64|
  {
    if b64 == "" then []
    else if |b64| <= FOLD then [b64]
    else [b64[..FOLD]] + FoldLines(b64[FOLD..])
  }

  method FoldBase64(b64: string) returns (folded: string)
    ensures folded == Join(FoldLines(b64), CRLF)
  {
    var lines: seq<string> := [];
    var i := 0;
    assert b64[0..] == b64;
    while i < |b64|
      invariant 0 <= i
      invariant FoldLines(b64) == lines + FoldLines(if i < |b64| then b64[i..] else "")
    {
      var end := if i + FOLD < |b64| then i + FOLD else |b64|;
      ghost var rest := b64[i..];
      assert rest[..end - i] == b64[i..end] && rest[end - i..] == b64[end..];
      assert end == |b64| ==> rest == b64[i..end] && b64[end..] == "";
      assert FoldLines(rest) == [b64[i..end]] + FoldLines(b64[end..]);
      lines := lines + [b64[i..end]];
      i := i + FOLD;
    }
    assert lines == FoldLines(b64);
    folded := Join(lines, CRLF);
  }

  predicate AsciiPrintable(name: string) {
    forall i :: 0 <= i < |name| ==> ' ' <= name[i] <= '~'
  }

  function EncodeRFC2231(browser: Browser, name: string): string {
    "utf-8''" + browser.encodeURIComponent(name)
  }

  function FilenameParam(browser: Browser, name: string): string {
    if AsciiPrintable(name) then "filename=\"" + name + "\"" else "filename*=" + EncodeRFC2231(browser, name)
  }

  function BuildAttachmentPart(browser: Browser, att: Attachment): string {
    FieldLine("Content-Type", att.contentType) + CRLF
    + FieldLine("Content-Disposition", "attachment; " + FilenameParam(browser, att.name)) + CRLF
    + FieldLine("Content-Transfer-Encoding", "base64") + CRLF
    + CRLF
    + Join(FoldLines(Btoa(att.bytes)), CRLF)
  }

  function AttachmentSections(browser: Browser, boundary: string, atts: seq<Attachment>): string {
    if atts == [] then ""
    else
      "--" + boundary + CRLF + BuildAttachmentPart(browser, atts[0]) + CRLF
      + AttachmentSections(browser, boundary, atts[1..])
  }

  function TextPart(body: string): string {
    FieldLine("Content-Type", "text/plain; charset=utf-8") + CRLF
    + FieldLine("Content-Transfer-Encoding", "8bit") + CRLF
    + CRLF
    + NormalizeCRLF(body)
  }

  function KeySection(boundary: string, senderKey: string): string {
    if senderKey == "" then ""
    else
      "--" + boundary + CRLF
      + FieldLine("Content-Type", "application/pgp-keys") + CRLF
      + FieldLine("Content-Disposition", "attachment; filename=\"publickey.asc\"") + CRLF
      + FieldLine("Content-Transfer-Encoding", "7bit") + CRLF
      + CRLF
      + NormalizeCRLF(senderKey) + CRLF
  }

  lemma NoKeySection(boundary: string)
    ensures KeySection(boundary, "") == ""
  {}

  function MixedType(boundary: string): string {
    "multipart/mixed; boundary=\"" + boundary + "\""
  }

  function MixedHeader(boundary: string): string {
    FieldLine("Content-Type", MixedType(boundary))
  }

  function Closing(boundary: string): string {
    "--" + boundary + "--" + CRLF
  }

  /** What the encrypted payload is meant to contain. */
  function InnerMIME(browser: Browser, body: string, senderKey: string, atts: seq<Attachment>, boundary: string)
    : string
  {
    if senderKey == "" && atts == [] then TextPart(body)
    else
      MixedHeader(boundary) + CRLF + CRLF
      + "--" + boundary + CRLF + TextPart(body) + CRLF
      + KeySection(boundary, senderKey)
      + AttachmentSections(browser, boundary, atts)
      + Closing(boundary)
  }

  method AppendAttachments(browser: Browser, boundary: string, atts: seq<Attachment>, start: string)
    returns (msg: string)
    ensures msg == start + AttachmentSections(browser, boundary, atts)
  {
    msg := start;
    var i := 0;
    while i < |atts|
      invariant 0 <= i <= |atts|
      invariant start + AttachmentSections(browser, boundary, atts)
             == msg + AttachmentSections(browser, boundary, atts[i..])
    {
      assert atts[i..][0] == atts[i] && atts[i..][1..] == atts[i + 1..];
      var section := "--" + boundary + CRLF + BuildAttachmentPart(browser, atts[i]) + CRLF;
      ConcatAssoc(msg, section, AttachmentSections(browser, boundary, atts[i + 1..]));
      msg := msg + section;
      i := i + 1;
    }
  }

  method BuildInnerMIME(browser: Browser, body: string, senderKey: string, atts: seq<Attachment>, boundary: string)
    returns (result: string)
    ensures result == InnerMIME(browser, body, senderKey, atts, boundary)
  {
    hide TextPart, KeySection, MixedHeader, Closing, AttachmentSections;
    var hasKey := senderKey != "";
    var hasAtts := |atts| > 0;
    if !hasKey && !hasAtts {
      return TextPart(body);
    }
    result := MixedHeader(boundary) + CRLF + CRLF + "--" + boundary + CRLF + TextPart(body) + CRLF;
    if hasKey {
      result := result + KeySection(boundary, senderKey);
    } else {
      NoKeySection(boundary);
    }
    result := AppendAttachments(browser, boundary, atts, result);
    result := result + Closing(boundary);
  }

  /** A message for a recipient without a key. */
  function PlaintextMessage(
    browser: Browser, headers: seq<string>, body: string, atts: seq<Attachment>, boundary: string): string
  {
    if atts == [] then
      Join(headers + [FieldLine("Content-Type", "text/plain; charset=utf-8")], CRLF) + CRLF + CRLF + NormalizeCRLF(body)
    else
      Join(headers + [MixedHeader(boundary)], CRLF) + CRLF + CRLF
      + "--" + boundary + CRLF + TextPart(body) + CRLF
      + AttachmentSections(browser, boundary, atts)
      + Closing(boundary)
  }

  method BuildPlaintextMessage(
    browser: Browser, headers: seq<string>, body: string, atts: seq<Attachment>, boundary: string) returns (msg: string)
    ensures msg == PlaintextMessage(browser, headers, body, atts, boundary)
  {
    if |atts| == 0 {
      return Join(headers + [FieldLine("Content-Type", "text/plain; charset=utf-8")], CRLF)
             + CRLF + CRLF + NormalizeCRLF(body);
    }
    msg := Join(headers + [MixedHeader(boundary)], CRLF) + CRLF + CRLF;
    msg := msg + "--" + boundary + CRLF + TextPart(body) + CRLF;
    msg := AppendAttachments(browser, boundary, atts, msg);
    msg := msg + Closing(boundary);
  }

  const ENCRYPTED_TYPE := "Content-Type: multipart/encrypted; " + "protocol=\"application/pgp-encrypted\";"
  const CONTROL_TYPE := "Content-Type: application/pgp-encrypted"
  const CONTROL_BODY := "Version: 1"
  const PAYLOAD_TYPE := "Content-Type: application/octet-stream; " + "name=\"encrypted.asc\""
  const PAYLOAD_DISPOSITION := "Content-Disposition: inline; " + "filename=\"encrypted.asc\""

  /** The lines before the armored block, the blank line after the headers included. */
  function PGPLines(headers: seq<string>, boundary: string): seq<string> {
    headers + [ENCRYPTED_TYPE, "\tboundary=\"" + boundary + "\"", ""]
    + ["--" + boundary, CONTROL_TYPE, "", CONTROL_BODY, "", "--" + boundary, PAYLOAD_TYPE, PAYLOAD_DISPOSITION, ""]
  }

  /** The outer message around an armored PGP block. */
  function BuildPGPMIME(headers: seq<string>, pgpBlock: string, boundary: string): string {
    Join(PGPLines(headers, boundary) + [NormalizeCRLF(pgpBlock), "--" + boundary + "--"], CRLF)
  }
}
