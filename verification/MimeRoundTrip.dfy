/** Reading back what the composer prints. */
module MimeRoundTrip {
  import opened Wrappers
  import opened Text
  import opened Base64
  import opened MimeTypes
  import opened MimeReader
  import opened MimeWriter
  import opened MimeHeaders
  import opened MimeFraming
  import opened MimeNames

  // ---------------------------------------------------------------- what is asked of the input

  ghost predicate UsableBoundary(boundary: string) {
    boundary != "" && CleanLine(boundary) && '"' !in boundary
  }

  /** Text without a carriage return of its own, none of whose lines looks like a delimiter. */
  ghost predicate Framable(text: string, boundary: string) {
    && NoLoneCR(text)
    && forall line <- SplitLines(ToLF(text)) :: !Delimiter(line, boundary)
  }

  /** The content type the reader sees. */
  function TypeRead(att: Attachment): string {
    OrElse(Trim(att.contentType), "text/plain")
  }

  /** An attachment of which nothing arrives: PGP material is passed over, and a multipart type makes the reader look
    * for parts inside, which folded base64 never has. */
  predicate Dropped(att: Attachment) {
    IsPgpPart(MediaTypeOf(TypeRead(att))) || "multipart/" <= MediaTypeOf(TypeRead(att))
  }

  /** Any type on one line, and any name that can be printed. */
  ghost predicate ReadableAttachment(browser: Browser, att: Attachment) {
    CleanLine(att.contentType) && Sendable(browser, att.name)
  }

  function NameRead(browser: Browser, name: string): string {
    MimeParamValue(browser, "attachment; " + FilenameParam(browser, name), "filename")
  }

  ghost predicate AllReadable(browser: Browser, atts: seq<Attachment>) {
    forall i :: 0 <= i < |atts| ==> ReadableAttachment(browser, atts[i])
  }

  /** The attachment as the recipient sees it: same bytes, bare lower-case media type, and the name read from the
    * disposition or, if nothing is left of it, from the type. */
  function Received(browser: Browser, att: Attachment): Attachment {
    var name := OrElse(NameRead(browser, att.name), MimeParamValue(browser, TypeRead(att), "name"));
    Attachment(MimeDecodeWord(browser, name), MediaTypeOf(TypeRead(att)), att.bytes)
  }

  function ReceivedOne(browser: Browser, att: Attachment): seq<Attachment> {
    if Dropped(att) then [] else [Received(browser, att)]
  }

  /** All but the dropped ones, in order. */
  function ReceivedAll(browser: Browser, atts: seq<Attachment>): seq<Attachment> {
    if atts == [] then [] else ReceivedOne(browser, atts[0]) + ReceivedAll(browser, atts[1..])
  }

  lemma {:induction false} ReceivedCount(browser: Browser, atts: seq<Attachment>)
    ensures |ReceivedAll(browser, atts)| <= |atts|
    ensures |ReceivedAll(browser, atts)| == |atts| <==> forall i :: 0 <= i < |atts| ==> !Dropped(atts[i])
    decreases |atts|
  {
    hide Dropped, Received;
    if atts != [] {
      ReceivedCount(browser, atts[1..]);
      assert forall i :: 0 < i < |atts| ==> atts[i] == atts[1..][i - 1];
      assert forall i :: 0 <= i < |atts| - 1 ==> atts[1..][i] == atts[i + 1];
    }
  }

  /** A key file attached under the type a browser gives it does not arrive. */
  lemma KeyFileIsDropped(name: string, bytes: seq<Byte>)
    ensures Dropped(Attachment(name, KEY_TYPE, bytes))
  {
    hide MediaTypeOf;
    KeyMediaType();
    TrimIdentity(KEY_TYPE);
  }

  /** Nor does a saved web page or message whose type brings a boundary of its own. */
  lemma ContainerFileIsDropped(name: string, bytes: seq<Byte>, boundary: string)
    requires UsableBoundary(boundary)
    ensures MimeBoundary(MixedType(boundary)) == Some(boundary) && Dropped(Attachment(name, MixedType(boundary), bytes))
  {
    hide MediaTypeOf, MimeBoundary, Trim;
    MixedTypeIsMultipart(boundary);
    TrimIdentity(MixedType(boundary));
  }

  /** An attachment has the name it was sent with if and only if the name is readable or, where nothing is read from the
    * disposition, the type says the same name. */
  lemma ReceivedAsSentIff(browser: Browser, att: Attachment)
    requires Sendable(browser, att.name) && NeverLengthens(browser)
    ensures Received(browser, att).bytes == att.bytes
    ensures Received(browser, att).name == att.name <==>
            if NameRead(browser, att.name) != "" then ReadableName(browser, att.name)
            else MimeDecodeWord(browser, MimeParamValue(browser, TypeRead(att), "name")) == att.name
  {
    hide ReadableName, MediaTypeOf, TypeRead, MimeDecodeWord, MimeParamValue, Sendable, NeverLengthens;
    NameSurvivesIff(browser, att.name);
  }

  /** In particular a readable, non-empty name. */
  lemma ReceivedAsSent(browser: Browser, att: Attachment)
    requires ReadableName(browser, att.name)
    requires att.name != "" || MimeParamValue(browser, TypeRead(att), "name") == ""
    ensures Received(browser, att) == Attachment(att.name, MediaTypeOf(TypeRead(att)), att.bytes)
  {
    hide ReadableName, MediaTypeOf, TypeRead, MimeDecodeWord, MimeParamValue;
    FilenameIsReadBack(browser, att.name);
  }

  // ---------------------------------------------------------------- entities as lines

  function EntityLines(headers: seq<string>, body: seq<string>): seq<string> {
    headers + [""] + body
  }

  lemma JoinEntity(headers: seq<string>, body: seq<string>, sep: string)
    requires headers != [] && body != []
    ensures Join(EntityLines(headers, body), sep) == Join(headers, sep) + sep + sep + Join(body, sep)
  {
    JoinConcat(headers + [""], body, sep);
    JoinConcat(headers, [""], sep);
    assert Join(headers, sep) + sep + "" == Join(headers, sep) + sep;
  }

  /** An entity whose lines were read out of a frame is split at its blank line. */
  lemma SplitReadEntity(headers: seq<string>, body: seq<string>)
    requires headers != [] && HeaderLines(headers) && body != [] && CleanLines(body)
    ensures MimeSplit(Join(EntityLines(headers, body), "\n")) == Entity(Join(headers, "\n"), Join(body, "\n"))
  {
    JoinEntity(headers, body, "\n");
    NoCRInJoin(body);
    SplitEntity(headers, "\n", Join(body, "\n"));
  }

  function PartFields(ct: string, disposition: string, encoding: string): seq<Field> {
    [Field("Content-Type", ct), Field("Content-Disposition", disposition), Field("Content-Transfer-Encoding", encoding)]
  }

  function TextFields(ct: string, encoding: string): seq<Field> {
    [Field("Content-Type", ct), Field("Content-Transfer-Encoding", encoding)]
  }

  const TEXT_TYPE := "text/plain; charset=utf-8"
  const KEY_TYPE := "application/pgp-keys"
  const KEY_DISPOSITION := "attachment; filename=\"publickey.asc\""

  function AttachmentFields(browser: Browser, att: Attachment): seq<Field> {
    PartFields(att.contentType, "attachment; " + FilenameParam(browser, att.name), "base64")
  }

  function BodyLines(text: string): seq<string> {
    SplitLines(ToLF(text))
  }

  function FoldedLines(b64: string): (lines: seq<string>)
    ensures lines != []
  {
    if b64 == "" then [""] else FoldLines(b64)
  }

  function TextLines(body: string): seq<string> {
    EntityLines(FieldLines(TextFields(TEXT_TYPE, "8bit")), BodyLines(body))
  }

  function KeyLines(key: string): seq<string> {
    EntityLines(FieldLines(PartFields(KEY_TYPE, KEY_DISPOSITION, "7bit")), BodyLines(key))
  }

  function AttachmentLines(browser: Browser, att: Attachment): seq<string> {
    EntityLines(FieldLines(AttachmentFields(browser, att)), FoldedLines(Btoa(att.bytes)))
  }

  function AttachmentParts(browser: Browser, atts: seq<Attachment>): (r: seq<seq<string>>)
    ensures |r| == |atts|
  {
    seq(|atts|, i requires 0 <= i < |atts| => AttachmentLines(browser, atts[i]))
  }

  function KeyParts(key: string): seq<seq<string>> {
    if key == "" then [] else [KeyLines(key)]
  }

  // ---------------------------------------------------------------- printed form = framed lines

  lemma NormalizedLines(text: string)
    requires '\r' !in ToLF(text)
    ensures CleanLines(BodyLines(text)) && BodyLines(text) != []
    ensures NormalizeCRLF(text) == Join(BodyLines(text), CRLF)
    ensures ToLF(text) == Join(BodyLines(text), "\n")
  {
    JoinSplit(ToLF(text));
    ToCRLFJoin(BodyLines(text));
  }

  /** The printed form of a part with three header fields. */
  lemma PrintedPart(ct: string, disposition: string, encoding: string, body: seq<string>)
    requires body != []
    ensures Join(EntityLines(FieldLines(PartFields(ct, disposition, encoding)), body), CRLF)
         == FieldLine("Content-Type", ct) + CRLF
            + FieldLine("Content-Disposition", disposition) + CRLF
            + FieldLine("Content-Transfer-Encoding", encoding) + CRLF
            + CRLF
            + Join(body, CRLF)
  {
    hide FieldLine;
    var h := FieldLines(PartFields(ct, disposition, encoding));
    JoinEntity(h, body, CRLF);
    assert h == [h[0], h[1], h[2]];
    JoinThree(h[0], h[1], h[2], CRLF);
    ConcatAssoc(h[0] + CRLF, h[1] + CRLF, h[2]);
    ConcatAssoc(h[0] + CRLF, h[1], CRLF);
  }

  lemma TextPartLines(body: string)
    requires '\r' !in ToLF(body)
    ensures TextPart(body) == Join(TextLines(body), CRLF)
  {
    hide FieldLine;
    NormalizedLines(body);
    var h := FieldLines(TextFields(TEXT_TYPE, "8bit"));
    JoinEntity(h, BodyLines(body), CRLF);
    assert h[1..] == [h[1]];
  }

  lemma KeySectionLines(boundary: string, key: string)
    requires '\r' !in ToLF(key) && key != ""
    ensures KeySection(boundary, key) == "--" + boundary + CRLF + Join(KeyLines(key), CRLF) + CRLF
  {
    hide FieldLine, Join, NormalizeCRLF, EntityLines, FieldLines;
    NormalizedLines(key);
    PrintedPart(KEY_TYPE, KEY_DISPOSITION, "7bit", BodyLines(key));
    var start, text := "--" + boundary + CRLF, Join(KeyLines(key), CRLF);
    var a, b, c := FieldLine("Content-Type", KEY_TYPE) + CRLF, FieldLine("Content-Disposition", KEY_DISPOSITION) + CRLF,
      FieldLine("Content-Transfer-Encoding", "7bit") + CRLF;
    KeyGroup(start, a, b, c, CRLF, Join(BodyLines(key), CRLF));
  }

  lemma KeyGroup(start: string, a: string, b: string, c: string, blank: string, body: string)
    ensures start + a + b + c + blank + body == start + (a + b + c + blank + body)
  {
    ConcatAssoc(start, a, b);
    ConcatAssoc(start, a + b, c);
    ConcatAssoc(start, a + b + c, blank);
    ConcatAssoc(start, a + b + c + blank, body);
  }

  lemma FoldedLinesJoin(b64: string, sep: string)
    ensures Join(FoldedLines(b64), sep) == Join(FoldLines(b64), sep)
  {}

  lemma AttachmentPartLines(browser: Browser, att: Attachment)
    ensures BuildAttachmentPart(browser, att) == Join(AttachmentLines(browser, att), CRLF)
  {
    hide FieldLine, Join, FoldedLines, FoldLines, EntityLines, FieldLines;
    PrintedPart(
      att.contentType, "attachment; " + FilenameParam(browser, att.name), "base64", FoldedLines(Btoa(att.bytes)));
    FoldedLinesJoin(Btoa(att.bytes), CRLF);
  }

  lemma {:induction false} SectionsAreFramed(browser: Browser, boundary: string, atts: seq<Attachment>)
    ensures AttachmentSections(browser, boundary, atts) + Closing(boundary)
         == Join(FrameLines(AttachmentParts(browser, atts), boundary), CRLF)
  {
    hide Join, FrameLines, BuildAttachmentPart, AttachmentLines;
    if atts == [] {
      JoinEmptyFrame(boundary, CRLF);
      assert AttachmentParts(browser, atts) == [];
    } else {
      var first, rest := AttachmentLines(browser, atts[0]), AttachmentParts(browser, atts[1..]);
      assert AttachmentParts(browser, atts) == [first] + rest;
      SectionsAreFramed(browser, boundary, atts[1..]);
      AttachmentPartLines(browser, atts[0]);
      EntityLinesNonempty(browser, atts[0]);
      JoinFrame(first, rest, boundary, CRLF);
      ConcatAssoc(
        "--" + boundary + CRLF + BuildAttachmentPart(browser, atts[0]) + CRLF,
        AttachmentSections(browser, boundary, atts[1..]),
        Closing(boundary));
    }
  }

  lemma TextLinesNonempty(body: string)
    ensures TextLines(body) != []
  {}

  lemma KeyLinesNonempty(key: string)
    ensures KeyLines(key) != []
  {}

  lemma EntityLinesNonempty(browser: Browser, att: Attachment)
    ensures AttachmentLines(browser, att) != []
  {}

  /** The whole multipart body is the frame of its parts. */
  lemma MixedBodyIsFramed(browser: Browser, boundary: string, body: string, key: string, atts: seq<Attachment>)
    requires '\r' !in ToLF(body) && '\r' !in ToLF(key)
    ensures "--" + boundary + CRLF + TextPart(body) + CRLF + KeySection(boundary, key)
            + AttachmentSections(browser, boundary, atts) + Closing(boundary)
         == Join(FrameLines([TextLines(body)] + (KeyParts(key) + AttachmentParts(browser, atts)), boundary), CRLF)
  {
    hide Join, FrameLines, TextPart, TextLines, KeyLines, AttachmentParts, AttachmentSections, Closing;
    assert TextLines(body) != [] by { TextLinesNonempty(body); }
    var sections := AttachmentSections(browser, boundary, atts) + Closing(boundary);
    var attParts := AttachmentParts(browser, atts);
    var rest := KeyParts(key) + attParts;
    SectionsAreFramed(browser, boundary, atts);
    assert KeySection(boundary, key) + sections == Join(FrameLines(rest, boundary), CRLF) by {
      if key == "" {
        assert rest == attParts;
        assert "" + sections == sections;
      } else {
        KeySectionLines(boundary, key);
        KeyLinesNonempty(key);
        JoinFrame(KeyLines(key), attParts, boundary, CRLF);
      }
    }
    TextPartLines(body);
    JoinFrame(TextLines(body), rest, boundary, CRLF);
    var first := "--" + boundary + CRLF + TextPart(body) + CRLF;
    ConcatAssoc(first, KeySection(boundary, key), sections);
    ConcatAssoc(first + KeySection(boundary, key), AttachmentSections(browser, boundary, atts), Closing(boundary));
  }

  // ---------------------------------------------------------------- reading header values

  /** The header values of a part with three fields. */
  lemma PartHeaders(ct: string, disposition: string, encoding: string, sep: string)
    requires CleanLine(ct) && CleanLine(disposition) && CleanLine(encoding) && IsNewline(sep)
    ensures var fields := PartFields(ct, disposition, encoding);
            && HeaderLines(FieldLines(fields))
            && MimeHeader(Join(FieldLines(fields), sep), "Content-Type") == Trim(ct)
            && MimeHeader(Join(FieldLines(fields), sep), "Content-Disposition") == Trim(disposition)
            && MimeHeader(Join(FieldLines(fields), sep), "Content-Transfer-Encoding") == Trim(encoding)
  {
    hide MimeHeader, Join, FieldLines, Lower, Trim, Lookup;
    HeaderNamesDiffer();
    var fields := PartFields(ct, disposition, encoding);
    forall name: string ensures MimeHeader(Join(FieldLines(fields), sep), name) == Lookup(fields, Lower(name)) {
      MimeHeaderOfFields(fields, sep, name);
    }
    FieldsAreHeaderLines(fields);
    forall lower: string ensures Lookup(fields, lower)
      == if Lower("Content-Type") == lower then Trim(ct)
         else if Lower("Content-Disposition") == lower then Trim(disposition)
         else if Lower("Content-Transfer-Encoding") == lower then Trim(encoding) else ""
    {
      LookupTriple(fields[0], fields[1], fields[2], lower);
      LookupPair(fields[1], fields[2], lower);
    }
  }

  /** The header values of a part with two fields. */
  lemma TextHeaders(ct: string, encoding: string, sep: string)
    requires CleanLine(ct) && CleanLine(encoding) && IsNewline(sep)
    ensures var fields := TextFields(ct, encoding);
            && HeaderLines(FieldLines(fields))
            && MimeHeader(Join(FieldLines(fields), sep), "Content-Type") == Trim(ct)
            && MimeHeader(Join(FieldLines(fields), sep), "Content-Disposition") == ""
            && MimeHeader(Join(FieldLines(fields), sep), "Content-Transfer-Encoding") == Trim(encoding)
  {
    hide MimeHeader, Join, FieldLines, Lower, Trim, Lookup;
    HeaderNamesDiffer();
    var fields := TextFields(ct, encoding);
    forall name: string ensures MimeHeader(Join(FieldLines(fields), sep), name) == Lookup(fields, Lower(name)) {
      MimeHeaderOfFields(fields, sep, name);
    }
    FieldsAreHeaderLines(fields);
    forall lower: string ensures Lookup(fields, lower)
      == if Lower("Content-Type") == lower then Trim(ct)
         else if Lower("Content-Transfer-Encoding") == lower then Trim(encoding) else ""
    {
      LookupPair(fields[0], fields[1], lower);
    }
  }

  lemma TextMediaType()
    ensures MediaTypeOf(TEXT_TYPE) == "text/plain"
  {
    hide MediaTypeOf;
    assert TEXT_TYPE == "text/plain" + ";" + " charset=utf-8";
    MediaTypeWithParams("text/plain", " charset=utf-8");
    assert Lower("text/plain") == "text/plain";
  }

  lemma KeyMediaType()
    ensures MediaTypeOf(KEY_TYPE) == KEY_TYPE
  {
    hide MediaTypeOf;
    MediaTypeAlone(KEY_TYPE);
    assert Lower(KEY_TYPE) == KEY_TYPE;
  }

  // ---------------------------------------------------------------- reading one part

  /** A text/plain entity without a transfer encoding yields its body, less one final newline. */
  lemma PlainTextEntity(browser: Browser, headers: string, body: string)
    requires MimeHeader(headers, "Content-Type") != ""
    requires MediaTypeOf(MimeHeader(headers, "Content-Type")) == "text/plain"
    requires Trim(Lower(MimeHeader(headers, "Content-Transfer-Encoding"))) in {"", "8bit"}
    ensures ExtractText(browser, headers, body) == Some(DropFinalNewline(body))
    ensures MediaTypeOf(Trim(MimeHeader(headers, "Content-Disposition"))) == "" ==> RoleOf(headers) == Ignored
  {
    hide MimeHeader, MediaTypeOf, Trim, Lower, MimeBoundary;
  }

  /** The text part of a composed message. */
  lemma TextEntity(browser: Browser, body: string, sep: string)
    requires IsNewline(sep)
    ensures ExtractText(browser, Join(FieldLines(TextFields(TEXT_TYPE, "8bit")), sep), body)
         == Some(DropFinalNewline(body))
    ensures RoleOf(Join(FieldLines(TextFields(TEXT_TYPE, "8bit")), sep)) == Ignored
  {
    hide Join, FieldLines, MediaTypeOf, Trim, Lower, ExtractText, RoleOf, DropFinalNewline;
    TrimIdentity(TEXT_TYPE);
    TextMediaType();
    EightBit();
    TextEntityOf(browser, TEXT_TYPE, "8bit", body, sep);
  }

  lemma TextEntityOf(browser: Browser, ct: string, encoding: string, body: string, sep: string)
    requires IsNewline(sep) && CleanLine(ct) && CleanLine(encoding)
    requires ct != "" && Trim(ct) == ct && MediaTypeOf(ct) == "text/plain" && Trim(Lower(Trim(encoding))) == "8bit"
    ensures ExtractText(browser, Join(FieldLines(TextFields(ct, encoding)), sep), body) == Some(DropFinalNewline(body))
    ensures RoleOf(Join(FieldLines(TextFields(ct, encoding)), sep)) == Ignored
  {
    hide MimeHeader, Join, FieldLines, TextFields, MediaTypeOf, Trim, Lower, ExtractText, RoleOf, DropFinalNewline,
      CleanLine;
    TextHeaders(ct, encoding, sep);
    NoDisposition();
    PlainTextEntity(browser, Join(FieldLines(TextFields(ct, encoding)), sep), body);
  }

  lemma EightBit()
    ensures Trim(Lower(Trim("8bit"))) == "8bit"
  {
    TrimIdentity("8bit");
    assert Lower("8bit") == "8bit";
  }

  lemma NoDisposition()
    ensures MediaTypeOf(Trim("")) == ""
  {}

  // ---------------------------------------------------------------- reading an attachment's bytes

  lemma {:induction false} StripSpaceConcat(a: string, b: string)
    ensures StripSpace(a + b) == StripSpace(a) + StripSpace(b)
  {
    if a == "" {
      assert a + b == b;
    } else {
      assert (a + b)[1..] == a[1..] + b;
      StripSpaceConcat(a[1..], b);
    }
  }

  lemma {:induction false} StripSpaceIdentity(s: string)
    requires forall i :: 0 <= i < |s| ==> Base64Char(s[i])
    ensures StripSpace(s) == s
  {
    if s != "" {
      StripSpaceIdentity(s[1..]);
    }
  }

  lemma StripSpaceDropsNewline(s: string)
    ensures StripSpace(DropFinalNewline(s)) == StripSpace(s)
  {
    if s != "" && s[|s| - 1] == '\n' {
      var t := s[..|s| - 1];
      assert s == t + "\n";
      StripSpaceConcat(t, "\n");
      if t != "" && t[|t| - 1] == '\r' {
        assert t == t[..|t| - 1] + "\r";
        StripSpaceConcat(t[..|t| - 1], "\r");
      }
    }
  }

  /** Folding keeps lines to 76 columns and never starts one with a dash. */
  lemma {:induction false} FoldShape(b64: string)
    requires forall i :: 0 <= i < |b64| ==> Base64Char(b64[i])
    ensures forall line <- FoldLines(b64) :: CleanLine(line) && 0 < |line| <= 76 && line[0] != '-'
    ensures forall i :: 0 <= i < |FoldLines(b64)| - 1 ==> |FoldLines(b64)[i]| == 76
    decreases |b64|
  {
    hide Value;
    assert forall c: char :: c in ['-', '\n', '\r'] ==> !Base64Char(c) by { DashIsNotBase64(); }
    if |b64| > FOLD {
      FoldShape(b64[FOLD..]);
    }
  }

  lemma DashIsNotBase64()
    ensures !Base64Char('-') && !Base64Char('\n') && !Base64Char('\r')
  {}

  /** Folding adds nothing but white space. */
  lemma {:induction false} FoldStrips(b64: string)
    requires forall i :: 0 <= i < |b64| ==> Base64Char(b64[i])
    ensures StripSpace(Join(FoldLines(b64), "\n")) == b64
    decreases |b64|
  {
    if |b64| <= FOLD {
      StripSpaceIdentity(b64);
    } else {
      var head, tail := b64[..FOLD], b64[FOLD..];
      FoldStrips(tail);
      StripSpaceIdentity(head);
      StripSpaceConcat(head + "\n", Join(FoldLines(tail), "\n"));
      StripSpaceConcat(head, "\n");
      assert head + tail == b64;
    }
  }

  lemma BytesAreReadBack(browser: Browser, bytes: seq<Byte>)
    ensures MimeDecodeBodyBytes(browser, DropFinalNewline(Join(FoldedLines(Btoa(bytes)), "\n")), "base64") == bytes
  {
    hide DropFinalNewline, Join, Atob, Btoa, FoldLines;
    BtoaChars(bytes);
    FoldStrips(Btoa(bytes));
    FoldedLinesJoin(Btoa(bytes), "\n");
    StripSpaceDropsNewline(Join(FoldedLines(Btoa(bytes)), "\n"));
    AtobBtoa(bytes);
  }

  lemma Base64Literal()
    ensures Trim(Lower("base64")) == "base64"
  {
    assert Lower("base64") == "base64";
    TrimIdentity("base64");
  }

  /** One attachment part is read back as the attachment it was built from. */
  lemma AttachmentPartIsReadBack(browser: Browser, att: Attachment)
    requires ReadableAttachment(browser, att)
    ensures var headers := Join(FieldLines(AttachmentFields(browser, att)), "\n");
            var body := Join(FoldedLines(Btoa(att.bytes)), "\n");
            Attachments(browser, headers, body) == ReceivedOne(browser, att)
  {
    hide MimeHeader, Join, FieldLines, MediaTypeOf, MimeParamValue, Trim, Lower, MimeDecodeBodyBytes, DropFinalNewline,
      FilenameParam, Sendable, FoldedLines, MimeBoundary, IsPgpPart;
    var headers := Join(FieldLines(AttachmentFields(browser, att)), "\n");
    var body := Join(FoldedLines(Btoa(att.bytes)), "\n");
    var disp := "attachment; " + FilenameParam(browser, att.name);
    FilenameHeaderEnds(browser, att.name);
    CleanDisposition(browser, att.name);
    PartHeaders(att.contentType, disp, "base64", "\n");
    AttachmentMediaType(FilenameParam(browser, att.name));
    BytesAreReadBack(browser, att.bytes);
    Base64Literal();
    Base64LiteralTrim();
    if Dropped(att) {
      NoPartsInside(browser, att.bytes, headers);
    } else {
      assert RoleOf(headers) == Leaf(TypeRead(att), disp);
    }
  }

  lemma {:induction false} NoParts(lines: seq<string>, boundary: string)
    requires forall i :: 0 <= i < |lines| ==> !Delimiter(lines[i], boundary)
    ensures PartsFrom(lines, "--" + boundary, None) == []
  {
    hide IsSeparator, IsClosing;
    if lines != [] {
      NoParts(lines[1..], boundary);
    }
  }

  /** Read as a container, the printed bytes have no parts, whatever the boundary. */
  lemma NoPartsInside(browser: Browser, bytes: seq<Byte>, headers: string)
    requires !RoleOf(headers).Leaf?
    ensures Attachments(browser, headers, Join(FoldedLines(Btoa(bytes)), "\n")) == []
  {
    hide RoleOf, Join, FoldedLines, Btoa, Delimiter, PartsFrom, SplitLines;
    var lines := FoldedLines(Btoa(bytes));
    var body := Join(lines, "\n");
    if RoleOf(headers).Container? {
      var boundary := RoleOf(headers).boundary;
      FoldedIsFrameable(bytes, boundary);
      SplitJoin(lines, "\n");
      NoParts(lines, boundary);
      PartsShorter(body, boundary);
    }
  }

  lemma Base64LiteralTrim()
    ensures Trim("base64") == "base64"
  {
    TrimIdentity("base64");
  }

  lemma CleanDisposition(browser: Browser, name: string)
    requires CleanLine(FilenameParam(browser, name))
    ensures CleanLine("attachment; " + FilenameParam(browser, name))
  {}

  // ---------------------------------------------------------------- the parts of a composed message

  lemma NotADelimiter(line: string, boundary: string)
    requires line == "" || line[0] != '-'
    ensures !Delimiter(line, boundary)
  {}

  /** An entity with ordinary fields and a body free of delimiters can be framed. */
  lemma EntityIsFrameable(fields: seq<Field>, body: seq<string>, boundary: string)
    requires fields != [] && WellFormed(fields) && forall i :: 0 <= i < |fields| ==> fields[i].name[0] != '-'
    requires body != [] && CleanLines(body) && forall i :: 0 <= i < |body| ==> !Delimiter(body[i], boundary)
    ensures Frameable(EntityLines(FieldLines(fields), body), boundary)
  {
    hide Delimiter;
    FieldsAreHeaderLines(fields);
    var lines := EntityLines(FieldLines(fields), body);
    forall i | 0 <= i < |lines| ensures CleanLine(lines[i]) && !Delimiter(lines[i], boundary) {
      if i < |fields| {
        assert lines[i] == FieldLines(fields)[i] && lines[i][0] == fields[i].name[0];
        NotADelimiter(lines[i], boundary);
      } else if i == |fields| {
        NotADelimiter(lines[i], boundary);
      } else {
        assert lines[i] == body[i - |fields| - 1];
      }
    }
  }

  lemma TextLiteralsAreClean()
    ensures CleanLine(TEXT_TYPE) && CleanLine("8bit")
  {}

  lemma KeyLiteralsAreClean()
    ensures CleanLine(KEY_TYPE) && CleanLine("7bit")
  {}

  lemma KeyDispositionIsClean()
    ensures CleanLine(KEY_DISPOSITION)
  {}

  lemma LiteralsAreClean()
    ensures CleanLine(TEXT_TYPE) && CleanLine("8bit")
    ensures CleanLine(KEY_TYPE) && CleanLine(KEY_DISPOSITION) && CleanLine("7bit")
  {
    hide CleanLine;
    TextLiteralsAreClean();
    KeyLiteralsAreClean();
    KeyDispositionIsClean();
  }

  lemma FieldsAreWellFormed(ct: string, disposition: string, encoding: string)
    requires CleanLine(ct) && CleanLine(disposition) && CleanLine(encoding)
    ensures WellFormed(PartFields(ct, disposition, encoding)) && WellFormed(TextFields(ct, encoding))
  {
    hide CleanLine;
    HeaderNamesDiffer();
  }

  lemma TextIsFrameable(body: string, boundary: string)
    requires Framable(body, boundary)
    ensures Frameable(TextLines(body), boundary)
  {
    hide Delimiter, FieldLines, NormalizeCRLF, Join, ToLF, SplitLines, WellFormed;
    ToLFClean(body);
    NormalizedLines(body);
    LiteralsAreClean();
    FieldsAreWellFormed(TEXT_TYPE, "", "8bit");
    EntityIsFrameable(TextFields(TEXT_TYPE, "8bit"), BodyLines(body), boundary);
  }

  lemma KeyIsFrameable(key: string, boundary: string)
    requires Framable(key, boundary)
    ensures Frameable(KeyLines(key), boundary)
  {
    hide Delimiter, FieldLines, NormalizeCRLF, Join, ToLF, SplitLines, WellFormed;
    ToLFClean(key);
    NormalizedLines(key);
    LiteralsAreClean();
    FieldsAreWellFormed(KEY_TYPE, KEY_DISPOSITION, "7bit");
    EntityIsFrameable(PartFields(KEY_TYPE, KEY_DISPOSITION, "7bit"), BodyLines(key), boundary);
  }

  lemma FoldedIsFrameable(bytes: seq<Byte>, boundary: string)
    ensures CleanLines(FoldedLines(Btoa(bytes)))
    ensures forall i :: 0 <= i < |FoldedLines(Btoa(bytes))| ==> !Delimiter(FoldedLines(Btoa(bytes))[i], boundary)
  {
    hide Delimiter, Btoa, FoldLines;
    BtoaChars(bytes);
    FoldShape(Btoa(bytes));
    var lines := FoldedLines(Btoa(bytes));
    forall i | 0 <= i < |lines| ensures CleanLine(lines[i]) && !Delimiter(lines[i], boundary) {
      assert lines[i] in lines;
      NotADelimiter(lines[i], boundary);
    }
  }

  lemma AttachmentIsFrameable(browser: Browser, att: Attachment, boundary: string)
    requires ReadableAttachment(browser, att)
    ensures Frameable(AttachmentLines(browser, att), boundary)
  {
    hide Delimiter, FieldLines, FoldedLines, Trim, MediaTypeOf, MimeParamValue, Sendable, FilenameParam;
    FilenameHeaderEnds(browser, att.name);
    CleanDisposition(browser, att.name);
    HeaderNamesDiffer();
    FoldedIsFrameable(att.bytes, boundary);
    EntityIsFrameable(AttachmentFields(browser, att), FoldedLines(Btoa(att.bytes)), boundary);
  }

  function AllParts(browser: Browser, body: string, key: string, atts: seq<Attachment>): seq<seq<string>> {
    [TextLines(body)] + (KeyParts(key) + AttachmentParts(browser, atts))
  }

  ghost predicate Composable(browser: Browser, body: string, key: string, atts: seq<Attachment>, boundary: string) {
    && UsableBoundary(boundary)
    && Framable(body, boundary) && Framable(key, boundary)
    && AllReadable(browser, atts)
  }

  lemma AllPartsFrameable(browser: Browser, body: string, key: string, atts: seq<Attachment>, boundary: string)
    requires Composable(browser, body, key, atts, boundary)
    ensures AllFrameable(AllParts(browser, body, key, atts), boundary)
  {
    hide Frameable, Framable, TextLines, KeyLines, AttachmentLines, ReadableAttachment, UsableBoundary;
    TextIsFrameable(body, boundary);
    KeyIsFrameable(key, boundary);
    forall i | 0 <= i < |atts| ensures Frameable(AttachmentParts(browser, atts)[i], boundary) {
      AttachmentIsFrameable(browser, atts[i], boundary);
    }
  }

  function TextOf(part: seq<string>): string {
    Join(part, "\n")
  }

  /** The texts the reader takes out of the frame. */
  lemma PartTextsOfMessage(browser: Browser, body: string, key: string, atts: seq<Attachment>)
    ensures PartTexts(AllParts(browser, body, key, atts))
         == [TextOf(TextLines(body))] + (PartTexts(KeyParts(key)) + PartTexts(AttachmentParts(browser, atts)))
  {
    hide TextLines, KeyParts, AttachmentParts, Join;
  }

  lemma TextPartSplits(body: string, boundary: string)
    requires Framable(body, boundary)
    ensures MimeSplit(TextOf(TextLines(body))) == Entity(Join(FieldLines(TextFields(TEXT_TYPE, "8bit")), "\n"),
      ToLF(body))
  {
    hide FieldLines, MimeSplit, SplitLines, ToLF, Delimiter, WellFormed;
    ToLFClean(body);
    NormalizedLines(body);
    LiteralsAreClean();
    FieldsAreWellFormed(TEXT_TYPE, "", "8bit");
    FieldsAreHeaderLines(TextFields(TEXT_TYPE, "8bit"));
    SplitReadEntity(FieldLines(TextFields(TEXT_TYPE, "8bit")), BodyLines(body));
  }

  lemma KeyPartSplits(key: string, boundary: string)
    requires Framable(key, boundary)
    ensures MimeSplit(TextOf(KeyLines(key)))
         == Entity(Join(FieldLines(PartFields(KEY_TYPE, KEY_DISPOSITION, "7bit")), "\n"), ToLF(key))
  {
    hide FieldLines, MimeSplit, SplitLines, ToLF, Delimiter, WellFormed;
    ToLFClean(key);
    NormalizedLines(key);
    LiteralsAreClean();
    FieldsAreWellFormed(KEY_TYPE, KEY_DISPOSITION, "7bit");
    FieldsAreHeaderLines(PartFields(KEY_TYPE, KEY_DISPOSITION, "7bit"));
    SplitReadEntity(FieldLines(PartFields(KEY_TYPE, KEY_DISPOSITION, "7bit")), BodyLines(key));
  }

  lemma KeyPartIsIgnored()
    ensures RoleOf(Join(FieldLines(PartFields(KEY_TYPE, KEY_DISPOSITION, "7bit")), "\n")) == Ignored
  {
    hide MimeHeader, Join, FieldLines, MediaTypeOf, MimeBoundary, Trim;
    LiteralsAreClean();
    PartHeaders(KEY_TYPE, KEY_DISPOSITION, "7bit", "\n");
    assert Trim(KEY_TYPE) == KEY_TYPE by { TrimIdentity(KEY_TYPE); }
    KeyMediaType();
  }

  lemma AttachmentPartSplits(browser: Browser, att: Attachment)
    requires ReadableAttachment(browser, att)
    ensures MimeSplit(TextOf(AttachmentLines(browser, att)))
         == Entity(Join(FieldLines(AttachmentFields(browser, att)), "\n"), Join(FoldedLines(Btoa(att.bytes)), "\n"))
  {
    hide FieldLines, MimeSplit, Delimiter, WellFormed, FoldedLines, Trim, MediaTypeOf, MimeParamValue, Sendable,
      FilenameParam;
    FilenameHeaderEnds(browser, att.name);
    CleanDisposition(browser, att.name);
    Base64LiteralClean();
    FieldsAreWellFormed(att.contentType, "attachment; " + FilenameParam(browser, att.name), "base64");
    FieldsAreHeaderLines(AttachmentFields(browser, att));
    FoldedIsFrameable(att.bytes, "");
    SplitReadEntity(FieldLines(AttachmentFields(browser, att)), FoldedLines(Btoa(att.bytes)));
  }

  lemma Base64LiteralClean()
    ensures CleanLine("base64")
  {}

  /** The attachment parts are read back one by one, in order. */
  lemma {:induction false} AttachmentPartsAreReadBack(browser: Browser, atts: seq<Attachment>, bound: nat)
    requires AllReadable(browser, atts)
    requires forall p <- PartTexts(AttachmentParts(browser, atts)) :: |p| < bound
    ensures AttachmentsOfParts(browser, PartTexts(AttachmentParts(browser, atts)), bound) == ReceivedAll(browser, atts)
    decreases |atts|
  {
    hide ReadableAttachment, AttachmentLines, Join, FieldLines, MimeSplit, Attachments, FoldedLines, ReceivedOne, Btoa,
      PartTexts, AttachmentParts, TextOf, AttachmentFields;
    AttachmentTextsCons(browser, atts);
    var texts := PartTexts(AttachmentParts(browser, atts));
    if atts != [] {
      var first, rest := TextOf(AttachmentLines(browser, atts[0])), PartTexts(AttachmentParts(browser, atts[1..]));
      assert texts[0] == first && forall p <- rest :: p in texts;
      var e := Entity(
        Join(FieldLines(AttachmentFields(browser, atts[0])), "\n"),
        Join(FoldedLines(Btoa(atts[0].bytes)), "\n"));
      AttachmentPartSplits(browser, atts[0]);
      AttachmentPartIsReadBack(browser, atts[0]);
      AttachmentPartsAreReadBack(browser, atts[1..], bound);
      AttachmentsOfFirst(browser, first, rest, e, bound);
    }
  }

  lemma AttachmentTextsCons(browser: Browser, atts: seq<Attachment>)
    ensures PartTexts(AttachmentParts(browser, atts))
         == if atts == [] then []
            else [TextOf(AttachmentLines(browser, atts[0]))] + PartTexts(AttachmentParts(browser, atts[1..]))
  {
    hide AttachmentLines, Join;
  }

  // ---------------------------------------------------------------- the whole message

  /** Reading a multipart body made of the composed parts, whatever headers announced it. */
  lemma MixedBodyIsReadBack(
    browser: Browser, headers: string, mixed: string, body: string, key: string, atts: seq<Attachment>,
    boundary: string, sep: string)
    requires Composable(browser, body, key, atts, boundary) && IsNewline(sep)
    requires mixed == Join(FrameLines(AllParts(browser, body, key, atts), boundary), sep)
    requires MimeHeader(headers, "Content-Type") == MixedType(boundary)
    ensures ExtractText(browser, headers, mixed) == Some(DropFinalNewline(ToLF(body)))
    ensures Attachments(browser, headers, mixed) == ReceivedAll(browser, atts)
  {
    hide MimeHeader, Join, FrameLines, AllParts, MediaTypeOf, MimeBoundary, PartsOf, MixedType, Framable, AllReadable;
    MixedTypeIsMultipart(boundary);
    AllPartsFrameable(browser, body, key, atts, boundary);
    FramedPartsAreReadBack(AllParts(browser, body, key, atts), boundary, sep);
    PartsShorter(mixed, boundary);
    var parts := PartsOf(mixed, boundary);
    assert RoleOf(headers) == Container(boundary);
    MixedPartsAreReadBack(browser, parts, body, key, atts, boundary, |mixed|);
  }

  lemma MixedTypeIsMultipart(boundary: string)
    requires UsableBoundary(boundary)
    ensures MixedType(boundary) != "" && MediaTypeOf(MixedType(boundary)) == "multipart/mixed"
    ensures "multipart/" <= "multipart/mixed" && !IsPgpPart("multipart/mixed")
    ensures MimeBoundary(MixedType(boundary)) == Some(boundary)
  {
    hide MediaTypeOf;
    var ct := MixedType(boundary);
    assert ct == "multipart/mixed" + ";" + (" boundary=\"" + boundary + "\"");
    MediaTypeWithParams("multipart/mixed", " boundary=\"" + boundary + "\"");
    assert Lower("multipart/mixed") == "multipart/mixed";
    BoundaryFound(boundary);
  }

  const MIXED_PREFIX := "multipart/mixed; boundary=\""

  /** The only semicolon of the prefix, and what follows it. */
  lemma MixedPrefix(rest: string)
    ensures var s := MIXED_PREFIX + rest;
            && |MIXED_PREFIX| == 27
            && (forall j :: 0 <= j < 15 ==> s[j] != ';')
            && s[15] == ';' && SkipSpaces(s, 16) == 17
            && MatchesAt(Lower(s), "boundary=\"", 17)
  {
    var s := MIXED_PREFIX + rest;
    assert s[16] == ' ' && s[17] == 'b';
    assert SkipSpaces(s, 17) == 17;
    assert Lower(s)[17..27] == "boundary=\"";
  }

  lemma BoundaryFound(boundary: string)
    requires UsableBoundary(boundary)
    ensures MimeBoundary(MixedType(boundary)) == Some(boundary)
  {
    hide SkipSpaces, Lower, IndexOf, MatchesAt, CleanLine;
    var ct := MixedType(boundary);
    assert ct == MIXED_PREFIX + boundary + "\"";
    MixedPrefix(boundary + "\"");
    ConcatAssoc(MIXED_PREFIX, boundary, "\"");
    ClosingQuote(MIXED_PREFIX, boundary);
    var at := (i: nat) => BoundaryQuotedAt(ct, i);
    assert |"boundary=\""| == 10;
    assert QuotedAt(ct, "boundary=\"", 17) == Some(boundary);
    assert at(15) == Some(boundary);
    LeftmostIs(|ct|, at, 0, 15);
  }

  lemma AttachmentsOfFirst(browser: Browser, part: string, rest: seq<string>, e: Entity, bound: nat)
    requires MimeSplit(part) == e
    requires |part| < bound && forall p <- rest :: |p| < bound
    ensures AttachmentsOfParts(browser, [part] + rest, bound)
         == Attachments(browser, e.headers, e.body) + AttachmentsOfParts(browser, rest, bound)
  {
    hide Attachments, MimeSplit;
    assert ([part] + rest)[0] == part && ([part] + rest)[1..] == rest;
  }

  lemma ExtractFromFirst(browser: Browser, part: string, rest: seq<string>, e: Entity, bound: nat)
    requires MimeSplit(part) == e
    requires |part| < bound && forall p <- rest :: |p| < bound
    requires MimeHeader(e.headers, "Content-Type") != ""
    requires MediaTypeOf(MimeHeader(e.headers, "Content-Type")) == "text/plain"
    requires ExtractText(browser, e.headers, e.body).Some?
    ensures ExtractFirst(browser, [part] + rest, bound) == ExtractText(browser, e.headers, e.body)
  {
    hide ExtractText, MimeSplit, MimeHeader, MediaTypeOf;
    assert ([part] + rest)[0] == part && ([part] + rest)[1..] == rest;
  }

  lemma IgnoredHasNoAttachments(browser: Browser, headers: string, body: string)
    requires RoleOf(headers) == Ignored
    ensures Attachments(browser, headers, body) == []
  {}

  lemma MixedPartsAreReadBack(
    browser: Browser, parts: seq<string>, body: string, key: string, atts: seq<Attachment>, boundary: string,
    bound: nat)
    requires Composable(browser, body, key, atts, boundary)
    requires parts == PartTexts(AllParts(browser, body, key, atts))
    requires forall p <- parts :: |p| < bound
    ensures ExtractFirst(browser, parts, bound) == Some(DropFinalNewline(ToLF(body)))
    ensures AttachmentsOfParts(browser, parts, bound) == ReceivedAll(browser, atts)
  {
    hide AllParts, PartTexts, TextLines, KeyLines, AttachmentParts, MimeSplit, MimeHeader, RoleOf, ExtractText,
      FieldLines, Join, DropFinalNewline, ToLF, AllReadable, UsableBoundary, MediaTypeOf, ReceivedAll, TextOf,
      ExtractFirst, AttachmentsOfParts, Attachments, KeyParts;
    var text, keys := TextOf(TextLines(body)), PartTexts(KeyParts(key));
    var files := PartTexts(AttachmentParts(browser, atts));
    PartTextsOfMessage(browser, body, key, atts);
    assert parts == [text] + (keys + files);
    assert parts[0] == text && forall p <- keys + files :: p in parts;
    assert forall p <- files :: p in keys + files;
    var e := Entity(Join(FieldLines(TextFields(TEXT_TYPE, "8bit")), "\n"), ToLF(body));
    TextPartSplits(body, boundary);
    TextEntity(browser, ToLF(body), "\n");
    TextPartType();
    ExtractFromFirst(browser, text, keys + files, e, bound);
    AttachmentsOfFirst(browser, text, keys + files, e, bound);
    IgnoredHasNoAttachments(browser, e.headers, e.body);
    assert [] + AttachmentsOfParts(browser, keys + files, bound) == AttachmentsOfParts(browser, keys + files, bound);
    KeyPartsAreSkipped(browser, key, files, boundary, bound);
    AttachmentPartsAreReadBack(browser, atts, bound);
  }

  lemma KeyPartsAreSkipped(browser: Browser, key: string, files: seq<string>, boundary: string, bound: nat)
    requires Framable(key, boundary)
    requires forall p <- PartTexts(KeyParts(key)) + files :: |p| < bound
    requires forall p <- files :: |p| < bound
    ensures AttachmentsOfParts(browser, PartTexts(KeyParts(key)) + files, bound) ==
      AttachmentsOfParts(browser, files, bound)
  {
    hide PartTexts, KeyParts, KeyLines, MimeSplit, RoleOf, Attachments, AttachmentsOfParts, FieldLines, Join, Framable,
      TextOf;
    if key == "" {
      NoKeyParts();
      assert [] + files == files;
    } else {
      OneKeyPart(key);
      var text := TextOf(KeyLines(key));
      var e := Entity(Join(FieldLines(PartFields(KEY_TYPE, KEY_DISPOSITION, "7bit")), "\n"), ToLF(key));
      assert text in PartTexts(KeyParts(key)) + files;
      KeyPartSplits(key, boundary);
      KeyPartIsIgnored();
      AttachmentsOfFirst(browser, text, files, e, bound);
      IgnoredHasNoAttachments(browser, e.headers, e.body);
      assert [] + AttachmentsOfParts(browser, files, bound) == AttachmentsOfParts(browser, files, bound);
    }
  }

  lemma NoKeyParts()
    ensures PartTexts(KeyParts("")) == []
  {}

  lemma OneKeyPart(key: string)
    requires key != ""
    ensures PartTexts(KeyParts(key)) == [TextOf(KeyLines(key))]
  {
    hide KeyLines, Join;
  }

  /** The text part is neither a key nor a signature. */
  lemma TextPartType()
    ensures MimeHeader(Join(FieldLines(TextFields(TEXT_TYPE, "8bit")), "\n"), "Content-Type") != ""
    ensures MediaTypeOf(MimeHeader(Join(FieldLines(TextFields(TEXT_TYPE, "8bit")), "\n"), "Content-Type")) ==
      "text/plain"
  {
    hide MimeHeader, Join, FieldLines, MediaTypeOf;
    TextLiteralsAreClean();
    TextHeaders(TEXT_TYPE, "8bit", "\n");
    assert Trim(TEXT_TYPE) == TEXT_TYPE by { TrimIdentity(TEXT_TYPE); }
    TextMediaType();
  }

  // ---------------------------------------------------------------- newline bookkeeping

  lemma {:induction false} ToLFUndoesToCRLF(s: string)
    requires '\r' !in s
    ensures ToLF(ToCRLF(s)) == s
  {
    if s != "" {
      ToLFUndoesToCRLF(s[1..]);
      var t := ToCRLF(s[1..]);
      if s[0] == '\n' {
        assert ToCRLF(s)[0..2] == "\r\n" && ToCRLF(s)[2..] == t;
      } else {
        assert s[0] in s;
        assert ToCRLF(s) == [s[0]] + t && ToCRLF(s)[1..] == t;
        if MatchesAt(ToCRLF(s), "\r\n", 0) {
          MatchesAtElement(ToCRLF(s), "\r\n", 0, 0);
        }
      }
    }
  }

  lemma {:induction false} ToCRLFLast(s: string)
    requires s != ""
    ensures ToCRLF(s) != "" && (s[|s| - 1] != '\n' ==> ToCRLF(s)[|ToCRLF(s)| - 1] == s[|s| - 1])
  {
    if |s| > 1 {
      ToCRLFLast(s[1..]);
    }
  }

  lemma DropCRAppended(t: string)
    ensures DropCR(t + "\r") == t
    ensures '\r' !in t ==> DropCR(t) == t
  {
    assert (t + "\r")[..|t|] == t;
    assert t != "" ==> t[|t| - 1] in t;
  }

  lemma DropAppended(t: string)
    ensures DropFinalNewline(t + "\r\n") == t
    ensures '\r' !in t ==> DropFinalNewline(t + "\n") == t
  {
    hide DropCR;
    DropCRAppended(t);
    assert t + "\r\n" == t + "\r" + "\n";
    LastDropped(t + "\r", '\n');
    LastDropped(t, '\n');
  }

  lemma LastDropped(t: string, c: char)
    ensures (t + [c])[|t|] == c && (t + [c])[..|t|] == t
  {
  }

  lemma DropFinalNewlineOfCRLF(s: string)
    requires '\r' !in s
    ensures DropFinalNewline(ToCRLF(s)) == ToCRLF(DropFinalNewline(s))
    ensures '\r' !in DropFinalNewline(s)
  {
    if s != "" && s[|s| - 1] == '\n' {
      var t := s[..|s| - 1];
      assert s == t + "\n";
      DropAppended(t);
      DropAppended(ToCRLF(t));
      ToCRLFConcat(t, "\n");
      assert ToCRLF("\n") == "\r\n";
    } else if s != "" {
      ToCRLFLast(s);
    }
  }

  /** What a final newline costs: reading removes one, so text survives exactly when it does not end in one. */
  lemma OneNewlineIsLost(text: string)
    requires '\r' !in ToLF(text)
    ensures ToLF(DropFinalNewline(NormalizeCRLF(text))) == DropFinalNewline(ToLF(text))
    ensures ToLF(DropFinalNewline(ToLF(text))) == DropFinalNewline(ToLF(text))
    ensures DropFinalNewline(ToLF(text)) == ToLF(text) <==> (text == "" || text[|text| - 1] != '\n')
  {
    hide ToLF, ToCRLF;
    var s := ToLF(text);
    var t := DropFinalNewline(s);
    DropFinalNewlineOfCRLF(s);
    ToLFUndoesToCRLF(t);
    ToLFIdentity(t);
    if text == "" {
      ToLFOfEmpty();
    } else {
      ToLFLast(text);
    }
  }

  lemma ToLFOfEmpty()
    ensures ToLF("") == ""
  {}

  lemma {:induction false} ToLFLast(s: string)
    requires s != ""
    ensures ToLF(s) != "" && ToLF(s)[|ToLF(s)| - 1] == s[|s| - 1]
    decreases |s|
  {
    if MatchesAt(s, "\r\n", 0) {
      MatchesAtElement(s, "\r\n", 0, 1);
      if |s| > 2 {
        ToLFLast(s[2..]);
      }
    } else if |s| > 1 {
      ToLFLast(s[1..]);
    }
  }

  // ---------------------------------------------------------------- entities with given headers

  /** None of the fields is one the MIME reader looks up. */
  ghost predicate Unrelated(fields: seq<Field>) {
    forall i :: 0 <= i < |fields| ==>
      && Lower(fields[i].name) != Lower("Content-Type")
      && Lower(fields[i].name) != Lower("Content-Disposition")
      && Lower(fields[i].name) != Lower("Content-Transfer-Encoding")
  }

  lemma {:induction false} LookupAfterUnrelated(fields: seq<Field>, last: Field, lower: string)
    requires Unrelated(fields)
    requires lower in {Lower("Content-Type"), Lower("Content-Disposition"), Lower("Content-Transfer-Encoding")}
    ensures Lookup(fields + [last], lower) == if Lower(last.name) == lower then Trim(last.value) else ""
  {
    hide Lower, Trim;
    var all := fields + [last];
    if fields == [] {
      assert all == [last];
      assert Lookup([last][1..], lower) == "";
    } else {
      assert all[0] == fields[0] && all[1..] == fields[1..] + [last];
      LookupAfterUnrelated(fields[1..], last, lower);
    }
  }

  /** Splitting a printed entity and finding its content type. */
  lemma PrintedEntity(fields: seq<Field>, ct: string, body: string, sep: string)
    requires WellFormed(fields) && Unrelated(fields) && CleanLine(ct)
    requires IsNewline(sep) && (sep == "\n" ==> '\r' !in body)
    ensures var headers := Join(FieldLines(fields) + [FieldLine("Content-Type", ct)], sep);
            && headers != ""
            && MimeSplit(headers + sep + sep + body) == Entity(headers, body)
            && MimeHeader(headers, "Content-Type") == Trim(ct)
            && MimeHeader(headers, "Content-Disposition") == ""
            && MimeHeader(headers, "Content-Transfer-Encoding") == ""
  {
    hide MimeSplit, MimeHeader, Lower, Trim, Join, FieldLines, Unrelated;
    HeaderNamesDiffer();
    var all := fields + [Field("Content-Type", ct)];
    var lines := FieldLines(all);
    FieldLinesAppend(fields, ct);
    FieldsAreHeaderLines(all);
    SplitEntity(lines, sep, body);
    JoinLength(lines, sep, |fields|);
    forall name | name in {"Content-Type", "Content-Disposition", "Content-Transfer-Encoding"}
      ensures MimeHeader(Join(lines, sep), name)
           == if Lower("Content-Type") == Lower(name) then Trim(ct) else ""
    {
      MimeHeaderOfFields(all, sep, name);
      LookupAfterUnrelated(fields, Field("Content-Type", ct), Lower(name));
    }
  }

  lemma FieldLinesAppend(fields: seq<Field>, ct: string)
    ensures FieldLines(fields + [Field("Content-Type", ct)]) == FieldLines(fields) + [FieldLine("Content-Type", ct)]
  {
    hide FieldLine;
  }

  lemma MixedTypeIsClean(boundary: string)
    requires UsableBoundary(boundary)
    ensures CleanLine(MixedType(boundary)) && Trim(MixedType(boundary)) == MixedType(boundary)
  {
    TrimIdentity(MixedType(boundary));
  }

  /** A multipart message printed under any other header fields. */
  lemma MixedMessageIsReadBack(
    browser: Browser, fields: seq<Field>, raw: string, body: string, key: string, atts: seq<Attachment>,
    boundary: string, sep: string)
    requires Composable(browser, body, key, atts, boundary) && IsNewline(sep)
    requires WellFormed(fields) && Unrelated(fields)
    requires raw == Join(FieldLines(fields) + [MixedHeader(boundary)], sep) + sep + sep
                    + Join(FrameLines(AllParts(browser, body, key, atts), boundary), sep)
    ensures ExtractTextBody(browser, raw) == DropFinalNewline(ToLF(body))
    ensures ExtractDecryptedBody(browser, raw) == DropFinalNewline(ToLF(body))
    ensures ParseMIMEAttachments(browser, raw) == ReceivedAll(browser, atts)
  {
    hide MimeSplit, MimeHeader, Join, FieldLines, Unrelated, WellFormed, FrameLines, AllParts, MixedType, ExtractText,
      Attachments, DropFinalNewline, ToLF, Framable, AllReadable;
    MixedTypeIsClean(boundary);
    FrameHasNoCR(browser, body, key, atts, boundary);
    MixedTypeIsMultipart(boundary);
    var mixed := Join(FrameLines(AllParts(browser, body, key, atts), boundary), sep);
    var headers := Join(FieldLines(fields) + [MixedHeader(boundary)], sep);
    PrintedEntity(fields, MixedType(boundary), mixed, sep);
    MixedBodyIsReadBack(browser, headers, mixed, body, key, atts, boundary, sep);
  }

  lemma FrameHasNoCR(browser: Browser, body: string, key: string, atts: seq<Attachment>, boundary: string)
    requires Composable(browser, body, key, atts, boundary)
    ensures CleanLines(FrameLines(AllParts(browser, body, key, atts), boundary))
    ensures '\r' !in Join(FrameLines(AllParts(browser, body, key, atts), boundary), "\n")
  {
    hide Framable, AllReadable, AllParts, FrameLines;
    AllPartsFrameable(browser, body, key, atts, boundary);
    FrameLinesClean(AllParts(browser, body, key, atts), boundary);
    NoCRInJoin(FrameLines(AllParts(browser, body, key, atts), boundary));
  }

  lemma ToLFJoin(lines: seq<string>)
    requires lines != [] && CleanLines(lines)
    ensures ToLF(Join(lines, CRLF)) == Join(lines, "\n")
  {
    ToCRLFJoin(lines);
    NoCRInJoin(lines);
    ToLFUndoesToCRLF(Join(lines, "\n"));
  }

  // ---------------------------------------------------------------- main results

  /** The text of a payload as the composer prints it, or with the line feeds alone that OpenPGP text comes back
    * with. */
  ghost predicate Payload(browser: Browser, text: string, body: string, key: string, atts: seq<Attachment>,
    boundary: string) {
    var printed := InnerMIME(browser, body, key, atts, boundary);
    text == printed || text == ToLF(printed)
  }

  /** The encrypted payload: the recipient reads the sender's text (less one final newline, newlines aside) and exactly
    * the attachments that are not dropped, in order, each under its name as it is shown, and never the sender's key.
    */
  lemma InnerMimeRoundTrip(
    browser: Browser, text: string, body: string, senderKey: string, atts: seq<Attachment>, boundary: string)
    requires Composable(browser, body, senderKey, atts, boundary)
    requires Payload(browser, text, body, senderKey, atts, boundary)
    ensures ToLF(ExtractDecryptedBody(browser, text)) == DropFinalNewline(ToLF(body))
    ensures ParseMIMEAttachments(browser, text) == ReceivedAll(browser, atts)
  {
    hide ExtractDecryptedBody, ParseMIMEAttachments, TextPart, KeySection, AttachmentSections, Closing, MixedHeader,
      Join, FrameLines, DropFinalNewline, ToLF, SplitLines, Delimiter, AllReadable, NormalizeCRLF;
    ToLFClean(body);
    OneNewlineIsLost(body);
    if senderKey == "" && atts == [] {
      BarePayloadIsReadBack(browser, body);
      BarePayloadIsReadBackLF(browser, body, boundary);
    } else {
      InnerMimeShape(browser, body, senderKey, atts, boundary);
      InnerMimeShapeLF(browser, body, senderKey, atts, boundary);
      var sep := if text == InnerMIME(browser, body, senderKey, atts, boundary) then CRLF else "\n";
      MixedMessageIsReadBack(browser, [], text, body, senderKey, atts, boundary, sep);
    }
  }

  /** As many attachments arrive as were sent, never more, if and only if none of them is dropped. */
  lemma NothingDroppedIff(
    browser: Browser, text: string, body: string, senderKey: string, atts: seq<Attachment>, boundary: string)
    requires Composable(browser, body, senderKey, atts, boundary)
    requires Payload(browser, text, body, senderKey, atts, boundary)
    ensures |ParseMIMEAttachments(browser, text)| <= |atts|
    ensures |ParseMIMEAttachments(browser, text)| == |atts| <==> forall i :: 0 <= i < |atts| ==> !Dropped(atts[i])
  {
    hide Composable, Payload, ParseMIMEAttachments, ExtractDecryptedBody, ToLF, DropFinalNewline, Dropped;
    InnerMimeRoundTrip(browser, text, body, senderKey, atts, boundary);
    ReceivedCount(browser, atts);
  }

  lemma InnerMimeShapeLF(browser: Browser, body: string, key: string, atts: seq<Attachment>, boundary: string)
    requires Composable(browser, body, key, atts, boundary) && (key != "" || atts != [])
    ensures ToLF(InnerMIME(browser, body, key, atts, boundary))
         == Join(FieldLines([]) + [MixedHeader(boundary)], "\n") + "\n" + "\n"
            + Join(FrameLines(AllParts(browser, body, key, atts), boundary), "\n")
  {
    hide Framable, AllReadable, AllParts, FrameLines, ToLF, Join, InnerMIME, MixedType;
    MixedTypeIsClean(boundary);
    FrameHasNoCR(browser, body, key, atts, boundary);
    HeaderIsClean(boundary);
    var header, frame := [MixedHeader(boundary)], FrameLines(AllParts(browser, body, key, atts), boundary);
    assert FieldLines([]) + header == header;
    var lines := EntityLines(header, frame);
    JoinEntity(header, frame, CRLF);
    JoinEntity(header, frame, "\n");
    InnerMimeShape(browser, body, key, atts, boundary);
    ToLFJoin(lines);
  }

  lemma HeaderIsClean(boundary: string)
    requires CleanLine(MixedType(boundary))
    ensures CleanLine(MixedHeader(boundary))
  {
    hide MixedType;
  }

  lemma BarePayloadIsReadBackLF(browser: Browser, body: string, boundary: string)
    requires Framable(body, boundary)
    ensures ExtractDecryptedBody(browser, ToLF(TextPart(body))) == DropFinalNewline(ToLF(body))
    ensures ParseMIMEAttachments(browser, ToLF(TextPart(body))) == []
  {
    hide MimeSplit, MimeHeader, Join, FieldLines, ExtractText, RoleOf, DropFinalNewline, NormalizeCRLF, Trim, ToLF,
      SplitLines, Frameable, Delimiter;
    var headers := Join(FieldLines(TextFields(TEXT_TYPE, "8bit")), "\n");
    ToLFClean(body);
    TextPartLines(body);
    TextIsFrameable(body, boundary);
    assert CleanLines(TextLines(body)) by { FrameableIsClean(TextLines(body), boundary); }
    TextLinesNonempty(body);
    ToLFJoin(TextLines(body));
    TextPartSplits(body, boundary);
    TextEntity(browser, ToLF(body), "\n");
    TextPartType();
    HeadersNonempty();
    IgnoredHasNoAttachments(browser, headers, ToLF(body));
  }

  lemma FrameableIsClean(part: seq<string>, boundary: string)
    requires Frameable(part, boundary)
    ensures CleanLines(part)
  {
  }

  lemma HeadersNonempty()
    ensures Join(FieldLines(TextFields(TEXT_TYPE, "8bit")), "\n") != ""
  {
    hide Join;
    JoinLength(FieldLines(TextFields(TEXT_TYPE, "8bit")), "\n", 0);
  }

  lemma InnerMimeShape(browser: Browser, body: string, key: string, atts: seq<Attachment>, boundary: string)
    requires key != "" || atts != []
    requires Framable(body, boundary) && Framable(key, boundary)
    ensures InnerMIME(browser, body, key, atts, boundary)
         == Join(FieldLines([]) + [MixedHeader(boundary)], CRLF) + CRLF + CRLF
            + Join(FrameLines(AllParts(browser, body, key, atts), boundary), CRLF)
  {
    hide TextPart, KeySection, AttachmentSections, Closing, FrameLines, ToLF, SplitLines, Delimiter, AllParts;
    ToLFClean(body);
    ToLFClean(key);
    MixedBodyIsFramed(browser, boundary, body, key, atts);
    PartsAsListed(browser, body, key, atts);
    assert FieldLines([]) + [MixedHeader(boundary)] == [MixedHeader(boundary)];
    var start := MixedHeader(boundary) + CRLF + CRLF;
    var a, b, c, d := "--" + boundary + CRLF + TextPart(body) + CRLF, KeySection(boundary, key),
      AttachmentSections(browser, boundary, atts), Closing(boundary);
    ConcatFour(start, a, b, c, d);
    assert InnerMIME(browser, body, key, atts, boundary) == start + a + b + c + d;
  }

  lemma PartsAsListed(browser: Browser, body: string, key: string, atts: seq<Attachment>)
    ensures AllParts(browser, body, key, atts) == [TextLines(body)] + (KeyParts(key) + AttachmentParts(browser, atts))
  {}

  lemma ConcatFour(s: string, a: string, b: string, c: string, d: string)
    ensures s + a + b + c + d == s + (a + b + c + d)
  {}

  /** A payload with neither key nor attachments is one text/plain entity. */
  lemma BarePayloadIsReadBack(browser: Browser, body: string)
    requires '\r' !in ToLF(body)
    ensures ExtractDecryptedBody(browser, TextPart(body)) == DropFinalNewline(NormalizeCRLF(body))
    ensures ParseMIMEAttachments(browser, TextPart(body)) == []
  {
    hide MimeSplit, MimeHeader, Join, FieldLines, ExtractText, RoleOf, DropFinalNewline, NormalizeCRLF, Trim, ToLF,
      SplitLines;
    var lines := FieldLines(TextFields(TEXT_TYPE, "8bit"));
    var headers := Join(lines, CRLF);
    TextLiteralsAreClean();
    TextHeaders(TEXT_TYPE, "8bit", CRLF);
    TrimIdentity(TEXT_TYPE);
    TextEntity(browser, NormalizeCRLF(body), CRLF);
    NormalizedLines(body);
    TextPartLines(body);
    JoinEntity(lines, BodyLines(body), CRLF);
    SplitEntity(lines, CRLF, NormalizeCRLF(body));
    JoinLength(lines, CRLF, 0);
    IgnoredHasNoAttachments(browser, headers, NormalizeCRLF(body));
  }

  /** An unencrypted message is opened without a key: the recipient reads the sender's text, and no attachments come
    * from the message text (the server lists them). */
  lemma PlaintextRoundTrip(
    browser: Browser, pgp: OpenPgp, fields: seq<Field>, body: string, atts: seq<Attachment>, boundary: string,
    sender: Option<string>)
    requires Composable(browser, body, "", atts, boundary)
    requires WellFormed(fields) && Unrelated(fields)
    ensures var read := DecryptMessage(
              browser, pgp, PlaintextMessage(browser, FieldLines(fields), body, atts, boundary), None, sender);
            && read.Ok? && ToLF(read.value.body) == DropFinalNewline(ToLF(body))
            && read.value.attachments == [] && read.value.status == NoSignature
  {
    hide ExtractTextBody, ParseMIMEAttachments, ExtractPGPBlock, DropFinalNewline, ToLF, FieldLines, PlaintextMessage,
      Composable, WellFormed, Unrelated;
    PlaintextIsParsed(browser, fields, body, atts, boundary);
  }

  /** What the body reader and the attachment parser make of the unencrypted message, under its own header fields. */
  lemma PlaintextIsParsed(
    browser: Browser, fields: seq<Field>, body: string, atts: seq<Attachment>, boundary: string)
    requires Composable(browser, body, "", atts, boundary)
    requires WellFormed(fields) && Unrelated(fields)
    ensures ToLF(ExtractTextBody(browser, PlaintextMessage(browser, FieldLines(fields), body, atts, boundary)))
         == DropFinalNewline(ToLF(body))
    ensures ParseMIMEAttachments(browser, PlaintextMessage(browser, FieldLines(fields), body, atts, boundary))
         == ReceivedAll(browser, atts)
  {
    hide ExtractTextBody, ParseMIMEAttachments, DropFinalNewline, ToLF, SplitLines, Delimiter, AllReadable,
      NormalizeCRLF;
    hide Join, FieldLines, WellFormed, Unrelated, PlaintextMessage;
    ToLFClean(body);
    OneNewlineIsLost(body);
    if atts == [] {
      BareMessageIsReadBack(browser, fields, body, boundary);
    } else {
      PlaintextShape(browser, fields, body, atts, boundary);
      var raw := PlaintextMessage(browser, FieldLines(fields), body, atts, boundary);
      MixedMessageIsReadBack(browser, fields, raw, body, "", atts, boundary, CRLF);
    }
  }

  lemma PlaintextShape(browser: Browser, fields: seq<Field>, body: string, atts: seq<Attachment>, boundary: string)
    requires atts != [] && Framable(body, boundary)
    ensures PlaintextMessage(browser, FieldLines(fields), body, atts, boundary)
         == Join(FieldLines(fields) + [MixedHeader(boundary)], CRLF) + CRLF + CRLF
            + Join(FrameLines(AllParts(browser, body, "", atts), boundary), CRLF)
  {
    hide TextPart, AttachmentSections, Closing, FrameLines, ToLF, SplitLines, Delimiter, AllParts, MixedHeader, Join,
      FieldLines;
    EmptyHasNoCR();
    ToLFClean(body);
    MixedBodyIsFramed(browser, boundary, body, "", atts);
    PartsAsListed(browser, body, "", atts);
    var start := Join(FieldLines(fields) + [MixedHeader(boundary)], CRLF) + CRLF + CRLF;
    var a, c, d := "--" + boundary + CRLF + TextPart(body) + CRLF, AttachmentSections(browser, boundary, atts),
      Closing(boundary);
    ConcatFour(start, a, "", c, d);
    assert a + "" == a && start + a + "" == start + a;
    assert PlaintextMessage(browser, FieldLines(fields), body, atts, boundary) == start + a + c + d;
  }

  lemma EmptyHasNoCR()
    ensures '\r' !in ToLF("")
  {}

  lemma BareMessageIsReadBack(browser: Browser, fields: seq<Field>, body: string, boundary: string)
    requires WellFormed(fields) && Unrelated(fields)
    ensures var raw := PlaintextMessage(browser, FieldLines(fields), body, [], boundary);
            && ExtractTextBody(browser, raw) == DropFinalNewline(NormalizeCRLF(body))
            && ParseMIMEAttachments(browser, raw) == []
            && ReceivedAll(browser, []) == []
  {
    hide MimeSplit, MimeHeader, Join, FieldLines, MediaTypeOf, Trim, Lower, ExtractText, RoleOf, DropFinalNewline,
      NormalizeCRLF, WellFormed, Unrelated, Attachments;
    var headers := Join(FieldLines(fields) + [FieldLine("Content-Type", TEXT_TYPE)], CRLF);
    TextLiteralsAreClean();
    TextMediaType();
    TrimIdentity(TEXT_TYPE);
    NoDisposition();
    NoEncoding();
    PrintedEntity(fields, TEXT_TYPE, NormalizeCRLF(body), CRLF);
    PlainTextEntity(browser, headers, NormalizeCRLF(body));
    IgnoredHasNoAttachments(browser, headers, NormalizeCRLF(body));
  }

  lemma NoEncoding()
    ensures Trim(Lower("")) == ""
  {}

  /** For text that does not end in a newline nothing at all is lost, as the composer trims what it sends. */
  lemma ComposedTextSurvives(
    browser: Browser, text: string, body: string, senderKey: string, atts: seq<Attachment>, boundary: string)
    requires Composable(browser, body, senderKey, atts, boundary)
    requires Payload(browser, text, body, senderKey, atts, boundary)
    ensures ToLF(ExtractDecryptedBody(browser, text)) == ToLF(body) <==> (body == "" || body[|body| - 1] != '\n')
  {
    hide InnerMIME, ExtractDecryptedBody, DropFinalNewline, ToLF, AllReadable, UsableBoundary, Payload;
    InnerMimeRoundTrip(browser, text, body, senderKey, atts, boundary);
    ToLFClean(body);
    OneNewlineIsLost(body);
  }
}
