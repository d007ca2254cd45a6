/** Reading messages nested to any depth: the text shown is that of the first text leaf, and the attachments are those
  * of all leaves, in order; how the leaves are nested makes no difference. */
module MimeTrees {
  import opened Wrappers
  import opened MimeFraming
  import opened MimeHeaders
  import opened MimeReader
  import opened MimeTypes
  import opened Text

  datatype Tree =
    | Single(fields: seq<Field>, lines: seq<string>)
    | Group(fields: seq<Field>, boundary: string, parts: seq<Tree>)

  // ---------------------------------------------------------------- printing

  function BodyLines(t: Tree): seq<string>
    decreases t, 0
  {
    match t
    case Single(_, lines) => lines
    case Group(_, boundary, parts) => FrameLines(AllLines(parts), boundary)
  }

  function Lines(t: Tree): seq<string>
    decreases t, 1
  {
    FieldLines(t.fields) + ([""] + BodyLines(t))
  }

  function AllLines(ts: seq<Tree>): (r: seq<seq<string>>)
    ensures |r| == |ts|
    decreases ts, 2
  {
    if ts == [] then [] else [Lines(ts[0])] + AllLines(ts[1..])
  }

  // ---------------------------------------------------------------- what a tree says

  function TypeOf(t: Tree): string {
    OrElse(Lookup(t.fields, Lower("Content-Type")), "text/plain")
  }

  function Media(t: Tree): string {
    MediaTypeOf(TypeOf(t))
  }

  /** The fields are well formed, the parts can be framed, and the type of a group, and of no single part, is a
    * multipart one with this boundary. */
  ghost predicate Sound(t: Tree)
    decreases t
  {
    && t.fields != [] && WellFormed(t.fields)
    && match t
       case Single(_, lines) => lines != [] && CleanLines(lines) && !("multipart/" <= Media(t))
       case Group(_, boundary, parts) =>
         && "multipart/" <= Media(t) && MimeBoundary(TypeOf(t)) == Some(boundary) && CleanLine(boundary)
         && forall p <- parts :: Sound(p) && Frameable(Lines(p), boundary)
  }

  /** The single parts, from left to right. */
  function Leaves(t: Tree): (r: seq<Tree>)
    ensures forall l <- r :: l.Single?
    decreases t, 0
  {
    match t
    case Single(_, _) => [t]
    case Group(_, _, parts) => LeavesOf(parts)
  }

  function LeavesOf(ts: seq<Tree>): (r: seq<Tree>)
    ensures forall l <- r :: l.Single?
    decreases ts, 1
  {
    if ts == [] then [] else Leaves(ts[0]) + LeavesOf(ts[1..])
  }

  /** The encoding and the body of a single part, without its final newline. */
  function EncodingOf(l: Tree): string {
    Trim(Lower(Lookup(l.fields, Lower("Content-Transfer-Encoding"))))
  }

  function Content(l: Tree, sep: string): string
    requires l.Single?
  {
    DropFinalNewline(Join(l.lines, sep))
  }

  /** The text of the first leaf that is plain text. */
  function FirstText(browser: Browser, leaves: seq<Tree>, sep: string): Option<string>
    requires forall l <- leaves :: l.Single?
  {
    if leaves == [] then None
    else if Media(leaves[0]) == "text/plain" then
      Some(MimeDecodeBody(browser, Content(leaves[0], sep), EncodingOf(leaves[0])))
    else FirstText(browser, leaves[1..], sep)
  }

  /** No PGP part, and no plain text unless it is marked as an attachment. */
  predicate IsAttached(l: Tree) {
    && Media(l) !in {"application/pgp-signature", "application/pgp-keys", "application/pgp-encrypted"}
    && (Media(l) == "text/plain" ==> MediaTypeOf(Trim(Lookup(l.fields, Lower("Content-Disposition")))) == "attachment")
  }

  function AttachmentOf(browser: Browser, l: Tree, sep: string): Attachment
    requires l.Single?
  {
    var given := MimeParamValue(browser, Lookup(l.fields, Lower("Content-Disposition")), "filename");
    Attachment(
      MimeDecodeWord(browser, OrElse(given, MimeParamValue(browser, TypeOf(l), "name"))),
      Media(l),
      MimeDecodeBodyBytes(browser, Content(l, sep), EncodingOf(l)))
  }

  function Attached(browser: Browser, leaves: seq<Tree>, sep: string): seq<Attachment>
    requires forall l <- leaves :: l.Single?
  {
    if leaves == [] then []
    else
      (if IsAttached(leaves[0]) then [AttachmentOf(browser, leaves[0], sep)] else [])
      + Attached(browser, leaves[1..], sep)
  }

  lemma {:induction false} OfBoth(browser: Browser, a: seq<Tree>, b: seq<Tree>, sep: string)
    requires (forall l <- a :: l.Single?) && (forall l <- b :: l.Single?)
    ensures FirstText(browser, a + b, sep) ==
            if FirstText(browser, a, sep).Some? then FirstText(browser, a, sep) else FirstText(browser, b, sep)
    ensures Attached(browser, a + b, sep) == Attached(browser, a, sep) + Attached(browser, b, sep)
    decreases |a|
  {
    hide MimeDecodeBody, AttachmentOf, IsAttached, Media, Content, EncodingOf;
    if a == [] {
      assert a + b == b;
    } else {
      assert (a + b)[1..] == a[1..] + b;
      OfBoth(browser, a[1..], b, sep);
    }
  }

  // ---------------------------------------------------------------- reading

  /** A printed entity is split into its header lines and its body. */
  lemma PrintedIsSplit(t: Tree, sep: string)
    requires t.fields != [] && WellFormed(t.fields) && IsNewline(sep)
    requires BodyLines(t) != [] && CleanLines(BodyLines(t))
    ensures MimeSplit(Join(Lines(t), sep)) == Entity(Join(FieldLines(t.fields), sep), Join(BodyLines(t), sep))
    ensures Join(FieldLines(t.fields), sep) != ""
  {
    hide FrameLines, MimeSplit, BodyLines, Join;
    var head, body := FieldLines(t.fields), BodyLines(t);
    FieldsAreHeaderLines(t.fields);
    JoinConcat(head, [""] + body, sep);
    JoinEmptyFirst(body, sep);
    var h, b := Join(head, sep), Join(body, sep);
    assert h + sep + (sep + b) == h + sep + sep + b;
    if sep == "\n" {
      NoCRInJoin(body);
    }
    SplitEntity(head, sep, b);
    JoinLength(head, sep, 0);
  }

  lemma JoinEmptyFirst(body: seq<string>, sep: string)
    requires body != []
    ensures Join([""] + body, sep) == sep + Join(body, sep)
  {
    assert ([""] + body)[1..] == body;
  }

  lemma HeadersAreFound(t: Tree, sep: string)
    requires t.fields != [] && WellFormed(t.fields) && IsNewline(sep)
    ensures var h := Join(FieldLines(t.fields), sep);
      && OrElse(MimeHeader(h, "Content-Type"), "text/plain") == TypeOf(t)
      && MimeHeader(h, "Content-Disposition") == Lookup(t.fields, Lower("Content-Disposition"))
      && MimeHeader(h, "Content-Transfer-Encoding") == Lookup(t.fields, Lower("Content-Transfer-Encoding"))
  {
    hide MimeHeader, Lookup, Lower;
    MimeHeaderOfFields(t.fields, sep, "Content-Type");
    MimeHeaderOfFields(t.fields, sep, "Content-Disposition");
    MimeHeaderOfFields(t.fields, sep, "Content-Transfer-Encoding");
  }

  lemma {:induction false} LinesOfParts(ts: seq<Tree>)
    ensures forall i :: 0 <= i < |ts| ==> AllLines(ts)[i] == Lines(ts[i])
  {
    hide Lines;
    if ts != [] {
      LinesOfParts(ts[1..]);
      forall i | 0 < i < |ts| ensures AllLines(ts)[i] == Lines(ts[i]) {
        assert AllLines(ts)[i] == AllLines(ts[1..])[i - 1];
      }
    }
  }

  /** The body of a group is clean and read as its parts. */
  lemma GroupIsRead(t: Tree, sep: string)
    requires t.Group? && Sound(t) && IsNewline(sep)
    ensures BodyLines(t) != [] && CleanLines(BodyLines(t))
    ensures PartsOf(Join(BodyLines(t), sep), t.boundary) == PartTexts(AllLines(t.parts))
  {
    hide Frameable, Lines, AllLines, PartsOf, PartTexts, Media, MimeBoundary, TypeOf, Join, FrameLines, WellFormed;
    LinesOfParts(t.parts);
    var parts := AllLines(t.parts);
    assert forall i :: 0 <= i < |t.parts| ==> t.parts[i] in t.parts;
    FramedPartsAreReadBack(parts, t.boundary, sep);
    FrameLinesClean(parts, t.boundary);
  }

  lemma BodyIsClean(t: Tree)
    requires Sound(t)
    ensures BodyLines(t) != [] && CleanLines(BodyLines(t))
  {
    hide Media, MimeBoundary, TypeOf, WellFormed;
    if t.Group? {
      GroupIsRead(t, "\n");
    }
  }

  lemma MultipartIsNeither(media: string)
    requires "multipart/" <= media
    ensures media !in {"text/plain", "application/pgp-signature", "application/pgp-keys", "application/pgp-encrypted"}
  {
    assert media[0] == 'm';
    assert "text/plain"[0] == 't' && "application/pgp-signature"[0] == 'a' && "application/pgp-keys"[0] == 'a';
    assert "application/pgp-encrypted"[0] == 'a';
  }

  /** How the lines of a tree end inside the reader: a group's parts are joined again with line feeds. */
  function Inner(t: Tree, sep: string): string {
    if t.Single? then sep else "\n"
  }

  lemma {:induction false} TextOfTree(browser: Browser, t: Tree, sep: string)
    requires Sound(t) && IsNewline(sep)
    ensures ExtractText(browser, Join(FieldLines(t.fields), sep), Join(BodyLines(t), sep)) ==
            FirstText(browser, Leaves(t), Inner(t, sep))
    decreases t, 0
  {
    hide MimeHeader, MimeBoundary, MimeDecodeBody, Join, Frameable, FrameLines, WellFormed, MediaTypeOf, PartsOf, Lines;
    HeadersAreFound(t, sep);
    if t.Single? {
      assert LeavesOf([]) == [];
      SingleText(browser, t, sep);
      hide ExtractText;
    } else {
      GroupIsRead(t, sep);
      MultipartIsNeither(Media(t));
      var body := Join(BodyLines(t), sep);
      PartsShorter(body, t.boundary);
      TextOfParts(browser, t.parts, PartsOf(body, t.boundary), |body|, t.boundary);
    }
  }

  lemma SingleText(browser: Browser, t: Tree, sep: string)
    requires t.Single? && Sound(t) && IsNewline(sep)
    ensures ExtractText(browser, Join(FieldLines(t.fields), sep), Join(t.lines, sep)) == FirstText(browser, [t], sep)
  {
    hide MimeHeader, MimeBoundary, MimeDecodeBody, Join, WellFormed, MediaTypeOf, Lookup, Trim, Lower, DropFinalNewline;
    HeadersAreFound(t, sep);
    assert FirstText(browser, [], sep).None?;
  }

  lemma {:induction false} TextOfParts(
    browser: Browser, ts: seq<Tree>, texts: seq<string>, bound: nat, boundary: string)
    requires forall p <- ts :: Sound(p)
    requires texts == PartTexts(AllLines(ts)) && forall p <- texts :: |p| < bound
    ensures ExtractFirst(browser, texts, bound) == FirstText(browser, LeavesOf(ts), "\n")
    decreases ts, 1
  {
    hide Sound, FirstText, Leaves, Join, Lines, ExtractFirst, ExtractText;
    if ts == [] {
      NoText(browser, bound);
    } else {
      var t := ts[0];
      assert texts[0] == Join(Lines(t), "\n");
      assert texts[1..] == PartTexts(AllLines(ts[1..]));
      TextOfTree(browser, t, "\n");
      TextOfParts(browser, ts[1..], texts[1..], bound, boundary);
      OfBoth(browser, Leaves(t), LeavesOf(ts[1..]), "\n");
      TextOfFirst(browser, t, texts, bound);
    }
  }

  lemma TextOfFirst(browser: Browser, t: Tree, texts: seq<string>, bound: nat)
    requires Sound(t) && texts != [] && texts[0] == Join(Lines(t), "\n") && forall p <- texts :: |p| < bound
    requires ExtractText(browser, Join(FieldLines(t.fields), "\n"), Join(BodyLines(t), "\n")) ==
             FirstText(browser, Leaves(t), "\n")
    ensures ExtractFirst(browser, texts, bound) ==
            if FirstText(browser, Leaves(t), "\n").Some? then FirstText(browser, Leaves(t), "\n")
            else ExtractFirst(browser, texts[1..], bound)
  {
    hide Sound, FirstText, Leaves, Join, Lines, BodyLines, FieldLines, MimeSplit, Media, MediaTypeOf, OrElse;
    hide MimeHeader, ExtractText;
    OnePart(t);
    SkippedHasNoText(browser, t);
  }

  lemma NoText(browser: Browser, bound: nat)
    ensures FirstText(browser, [], "\n").None? && ExtractFirst(browser, [], bound).None?
  {}

  lemma OnePart(t: Tree)
    requires Sound(t)
    ensures MimeSplit(Join(Lines(t), "\n")) == Entity(Join(FieldLines(t.fields), "\n"), Join(BodyLines(t), "\n"))
    ensures MediaTypeOf(OrElse(MimeHeader(Join(FieldLines(t.fields), "\n"), "Content-Type"), "text/plain")) == Media(t)
  {
    hide MimeSplit, Join, Lines, BodyLines, WellFormed, MimeHeader, MediaTypeOf, TypeOf, MimeBoundary;
    BodyIsClean(t);
    PrintedIsSplit(t, "\n");
    HeadersAreFound(t, "\n");
  }

  lemma SkippedHasNoText(browser: Browser, t: Tree)
    requires Sound(t)
    ensures Media(t) in {"application/pgp-signature", "application/pgp-keys"} ==>
              FirstText(browser, Leaves(t), "\n").None?
  {
    hide MimeBoundary, WellFormed, MediaTypeOf, TypeOf;
    assert "application/pgp-signature"[0] == 'a' && "application/pgp-keys"[0] == 'a' && "multipart/"[0] == 'm';
    assert "text/plain"[0] == 't';
    if t.Single? {
      assert FirstText(browser, [], "\n").None?;
    } else {
      MultipartIsNeither(Media(t));
    }
  }

  // ---------------------------------------------------------------- the attachments

  lemma RoleOfGroup(t: Tree, sep: string)
    requires t.Group? && Sound(t) && IsNewline(sep)
    ensures RoleOf(Join(FieldLines(t.fields), sep)) == Container(t.boundary)
  {
    hide MimeHeader, MimeBoundary, Join, Frameable, FrameLines, WellFormed, MediaTypeOf, Lines, BodyLines, Lookup;
    HeadersAreFound(t, sep);
    MultipartIsNeither(Media(t));
  }

  lemma GroupIsWalked(browser: Browser, t: Tree, sep: string, body: string)
    requires t.Group? && Sound(t) && IsNewline(sep)
    ensures forall p <- PartsOf(body, t.boundary) :: |p| < |body|
    ensures Attachments(browser, Join(FieldLines(t.fields), sep), body) ==
            AttachmentsOfParts(browser, PartsOf(body, t.boundary), |body|)
  {
    hide Join, PartsOf, RoleOf, Sound, FieldLines, LeafAttachment, AttachmentsOfParts;
    RoleOfGroup(t, sep);
    PartsShorter(body, t.boundary);
  }

  lemma {:induction false} AttachmentsOfTree(browser: Browser, t: Tree, sep: string)
    requires Sound(t) && IsNewline(sep)
    ensures Attachments(browser, Join(FieldLines(t.fields), sep), Join(BodyLines(t), sep)) ==
            Attached(browser, Leaves(t), Inner(t, sep))
    decreases t, 0
  {
    hide MimeBoundary, Join, Frameable, FrameLines, WellFormed, PartsOf, Lines, Attachments, Attached, Media, TypeOf;
    if t.Single? {
      SingleAttachment(browser, t, sep);
    } else {
      GroupIsRead(t, sep);
      var body := Join(BodyLines(t), sep);
      GroupIsWalked(browser, t, sep, body);
      AttachmentsOfGroup(browser, t.parts, PartsOf(body, t.boundary), |body|, t.boundary);
    }
  }

  lemma SingleAttachment(browser: Browser, t: Tree, sep: string)
    requires t.Single? && Sound(t) && IsNewline(sep)
    ensures Attachments(browser, Join(FieldLines(t.fields), sep), Join(t.lines, sep)) == Attached(browser, [t], sep)
  {
    hide MimeHeader, MimeBoundary, Join, WellFormed, MediaTypeOf, Lookup, Trim, Lower, DropFinalNewline, MimeParamValue,
      MimeDecodeWord, MimeDecodeBodyBytes;
    HeadersAreFound(t, sep);
    assert Attached(browser, [], sep) == [];
    assert [t][1..] == [];
  }

  lemma {:induction false} AttachmentsOfGroup(
    browser: Browser, ts: seq<Tree>, texts: seq<string>, bound: nat, boundary: string)
    requires forall p <- ts :: Sound(p)
    requires texts == PartTexts(AllLines(ts)) && forall p <- texts :: |p| < bound
    ensures AttachmentsOfParts(browser, texts, bound) == Attached(browser, LeavesOf(ts), "\n")
    decreases ts, 1
  {
    hide Sound, Attached, Leaves, Join, Lines, Attachments, AttachmentsOfParts;
    if ts == [] {
      NoAttachments(browser, bound);
    } else {
      var t := ts[0];
      assert texts[0] == Join(Lines(t), "\n");
      assert texts[1..] == PartTexts(AllLines(ts[1..]));
      AttachmentsOfTree(browser, t, "\n");
      AttachmentsOfGroup(browser, ts[1..], texts[1..], bound, boundary);
      OfBoth(browser, Leaves(t), LeavesOf(ts[1..]), "\n");
      AttachmentsOfFirst(browser, t, texts, bound);
    }
  }

  lemma AttachmentsOfFirst(browser: Browser, t: Tree, texts: seq<string>, bound: nat)
    requires Sound(t) && texts != [] && texts[0] == Join(Lines(t), "\n") && forall p <- texts :: |p| < bound
    requires Attachments(browser, Join(FieldLines(t.fields), "\n"), Join(BodyLines(t), "\n")) ==
             Attached(browser, Leaves(t), "\n")
    ensures AttachmentsOfParts(browser, texts, bound) ==
            Attached(browser, Leaves(t), "\n") + AttachmentsOfParts(browser, texts[1..], bound)
  {
    hide Sound, Attached, Leaves, Join, Lines, BodyLines, FieldLines, MimeSplit, Attachments, AttachmentsOfParts;
    AttachmentsOfPartsCons(browser, texts, 0, bound);
    assert texts[0..] == texts;
    OnePart(t);
  }

  lemma NoAttachments(browser: Browser, bound: nat)
    ensures Attached(browser, [], "\n") == [] && AttachmentsOfParts(browser, [], bound) == []
  {}

  // ---------------------------------------------------------------- whole messages

  /** A message whose parts are nested in any way, with either newline: its text is that of the first plain-text leaf,
    * and the attachments are those of all attached leaves, from left to right. */
  lemma NestedMessageIsRead(browser: Browser, t: Tree, sep: string)
    requires Sound(t) && IsNewline(sep)
    ensures var raw, inner := Join(Lines(t), sep), Inner(t, sep);
      && ExtractTextBody(browser, raw) ==
         (match FirstText(browser, Leaves(t), inner)
          case Some(text) => text
          case None => Join(BodyLines(t), sep))
      && ParseMIMEAttachments(browser, raw) == Attached(browser, Leaves(t), inner)
  {
    hide MimeSplit, Join, Lines, BodyLines, Sound, ExtractText, Attachments, FirstText, Attached, Leaves;
    SoundFields(t);
    BodyIsClean(t);
    PrintedIsSplit(t, sep);
    TextOfTree(browser, t, sep);
    AttachmentsOfTree(browser, t, sep);
  }

  lemma SoundFields(t: Tree)
    requires Sound(t)
    ensures t.fields != [] && WellFormed(t.fields)
  {}
}
