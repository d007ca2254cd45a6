/** The two walks over a MIME tree: one lists the attachments, the other fetches one of them by its number
  * (internal/smtp/inbound.go). */
module AttachmentWalk {
  import opened Wrappers
  import GoText
  import Text
  import TextLaws

  datatype Header = Header(contentType: string, typeParams: map<string, string>,
                           disposition: string, dispositionParams: map<string, string>)

  /** A parsed message: the parts of a multipart entity are those read before the first error. */
  datatype Entity = Multipart(header: Header, parts: seq<Entity>) | Leaf(header: Header, body: string)

  datatype AttachmentMeta = AttachmentMeta(partIndex: nat, filename: string, contentType: string, size: nat)

  datatype AttachmentPart = AttachmentPart(filename: string, contentType: string, body: string)

  predicate IsPgpPart(contentType: string) {
    contentType in {"application/pgp-encrypted", "application/pgp-keys", "application/pgp-signature"}
  }

  predicate HasPrefix(s: string, prefix: string) {
    |prefix| <= |s| && s[..|prefix|] == prefix
  }

  predicate IsAttachmentPart(contentType: string, disposition: string) {
    var ct := Text.Lower(GoText.TrimSpace(contentType));
    if IsPgpPart(ct) then false
    else if GoText.EqualFold(disposition, "attachment") then true
    else !HasPrefix(ct, "text/") && !HasPrefix(ct, "multipart/") && ct != ""
  }

  function Lookup(params: map<string, string>, key: string): string {
    if key in params then params[key] else ""
  }

  /** The file name given, or one made from the number of the attachment. */
  function NameOf(h: Header, index: nat): string {
    if Lookup(h.dispositionParams, "filename") != "" then Lookup(h.dispositionParams, "filename")
    else if Lookup(h.typeParams, "name") != "" then Lookup(h.typeParams, "name")
    else "attachment-" + GoText.Decimal(index)
  }

  // ---------------------------------------------------------------- the leaves

  /** The attachment leaves of `e`, depth first. */
  function Leaves(e: Entity): (r: seq<Entity>)
    ensures forall l :: l in r ==> l.Leaf? && IsAttachmentPart(l.header.contentType, l.header.disposition)
    decreases e, 0
  {
    match e
    case Multipart(_, parts) => LeavesOfAll(parts)
    case Leaf(h, _) => if IsAttachmentPart(h.contentType, h.disposition) then [e] else []
  }

  function LeavesOfAll(es: seq<Entity>): (r: seq<Entity>)
    ensures forall l :: l in r ==> l.Leaf? && IsAttachmentPart(l.header.contentType, l.header.disposition)
    decreases es, 1
  {
    if es == [] then [] else Leaves(es[0]) + LeavesOfAll(es[1..])
  }

  lemma {:induction false} LeavesOfPrefix(es: seq<Entity>, e: Entity)
    ensures LeavesOfAll(es + [e]) == LeavesOfAll(es) + Leaves(e)
    decreases |es|
  {
    hide Leaves;
    if es == [] {
      assert [e][1..] == [];
      assert es + [e] == [e];
    } else {
      LeavesOfPrefix(es[1..], e);
      assert (es + [e])[1..] == es[1..] + [e];
    }
  }

  /** What the metadata walk records for `leaves` when the first of them has number `from`. */
  function Metas(leaves: seq<Entity>, from: nat): (r: seq<AttachmentMeta>)
    requires forall l :: l in leaves ==> l.Leaf?
    ensures |r| == |leaves|
  {
    seq(|leaves|, i requires 0 <= i < |leaves| =>
      AttachmentMeta(from + i, NameOf(leaves[i].header, from + i), leaves[i].header.contentType, |leaves[i].body|))
  }

  function Parts(leaves: seq<Entity>, from: nat): (r: seq<AttachmentPart>)
    requires forall l :: l in leaves ==> l.Leaf?
    ensures |r| == |leaves|
  {
    seq(|leaves|, i requires 0 <= i < |leaves| =>
      AttachmentPart(NameOf(leaves[i].header, from + i), leaves[i].header.contentType, leaves[i].body))
  }

  lemma MetasConcat(a: seq<Entity>, b: seq<Entity>, from: nat)
    requires (forall l :: l in a ==> l.Leaf?) && (forall l :: l in b ==> l.Leaf?)
    ensures Metas(a + b, from) == Metas(a, from) + Metas(b, from + |a|)
    ensures Parts(a + b, from) == Parts(a, from) + Parts(b, from + |a|)
  {
    hide NameOf;
  }

  lemma OneMorePart(es: seq<Entity>, i: nat, from: nat)
    requires i < |es|
    ensures LeavesOfAll(es[..i + 1]) == LeavesOfAll(es[..i]) + Leaves(es[i])
    ensures Metas(LeavesOfAll(es[..i + 1]), from) ==
            Metas(LeavesOfAll(es[..i]), from) + Metas(Leaves(es[i]), from + |LeavesOfAll(es[..i])|)
    ensures Parts(LeavesOfAll(es[..i + 1]), from) ==
            Parts(LeavesOfAll(es[..i]), from) + Parts(Leaves(es[i]), from + |LeavesOfAll(es[..i])|)
  {
    hide Metas, Parts, LeavesOfAll, Leaves, IsAttachmentPart;
    LeavesOfPrefix(es[..i], es[i]);
    assert es[..i + 1] == es[..i] + [es[i]];
    MetasConcat(LeavesOfAll(es[..i]), Leaves(es[i]), from);
  }

  lemma NoPartsYet(from: nat)
    ensures LeavesOfAll([]) == [] && Metas([], from) == [] && Parts([], from) == []
  {
  }

  lemma OneLeaf(e: Entity, from: nat)
    requires e.Leaf?
    ensures if IsAttachmentPart(e.header.contentType, e.header.disposition) then
              && Leaves(e) == [e]
              && Metas(Leaves(e), from) ==
                 [AttachmentMeta(from, NameOf(e.header, from), e.header.contentType, |e.body|)]
              && Parts(Leaves(e), from) == [AttachmentPart(NameOf(e.header, from), e.header.contentType, e.body)]
            else Leaves(e) == [] && Metas(Leaves(e), from) == [] && Parts(Leaves(e), from) == []
  {
    hide NameOf;
  }

  // ---------------------------------------------------------------- the walks

  class MetaWalk {
    var result: seq<AttachmentMeta>
    var idx: nat

    constructor ()
      ensures result == [] && idx == 0
    {
      result, idx := [], 0;
    }

    method Collect(e: Entity)
      modifies this
      ensures result == old(result) + Metas(Leaves(e), old(idx))
      ensures idx == old(idx) + |Leaves(e)|
      decreases e
    {
      hide Metas, Parts, LeavesOfAll, IsAttachmentPart;
      if e.Multipart? {
        NoPartsYet(idx);
        var i := 0;
        while i < |e.parts|
          invariant i <= |e.parts|
          invariant result == old(result) + Metas(LeavesOfAll(e.parts[..i]), old(idx))
          invariant idx == old(idx) + |LeavesOfAll(e.parts[..i])|
        {
          OneMorePart(e.parts, i, old(idx));
          Collect(e.parts[i]);
          i := i + 1;
        }
        assert e.parts[..i] == e.parts;
        return;
      }
      OneLeaf(e, idx);
      var h := e.header;
      if !IsAttachmentPart(h.contentType, h.disposition) {
        return;
      }
      var filename := Lookup(h.dispositionParams, "filename");
      if filename == "" {
        filename := Lookup(h.typeParams, "name");
      }
      if filename == "" {
        filename := "attachment-" + GoText.Decimal(idx);
      }
      result := result + [AttachmentMeta(idx, filename, h.contentType, |e.body|)];
      idx := idx + 1;
    }
  }

  /** Numbers a part by the parts collected so far, not by a counter. */
  class PartWalk {
    var parts: seq<AttachmentPart>

    constructor ()
      ensures parts == []
    {
      parts := [];
    }

    method Collect(e: Entity)
      modifies this
      ensures parts == old(parts) + Parts(Leaves(e), |old(parts)|)
      decreases e
    {
      hide Metas, Parts, LeavesOfAll, IsAttachmentPart;
      if e.Multipart? {
        NoPartsYet(|parts|);
        var i := 0;
        while i < |e.parts|
          invariant i <= |e.parts|
          invariant parts == old(parts) + Parts(LeavesOfAll(e.parts[..i]), |old(parts)|)
        {
          OneMorePart(e.parts, i, |old(parts)|);
          Collect(e.parts[i]);
          i := i + 1;
        }
        assert e.parts[..i] == e.parts;
        return;
      }
      OneLeaf(e, |parts|);
      var h := e.header;
      if !IsAttachmentPart(h.contentType, h.disposition) {
        return;
      }
      var filename := Lookup(h.dispositionParams, "filename");
      if filename == "" {
        filename := Lookup(h.typeParams, "name");
      }
      if filename == "" {
        filename := "attachment-" + GoText.Decimal(|parts|);
      }
      parts := parts + [AttachmentPart(filename, h.contentType, e.body)];
    }
  }

  // ---------------------------------------------------------------- the two entry points

  datatype MsgMeta = MsgMeta(securityState: string, signatureStatus: string, hasAttachments: bool,
                             attachments: seq<AttachmentMeta>)

  const NO_META := MsgMeta("plaintext", "none", false, [])

  function SecurityOf(contentType: string): (string, string) {
    if contentType == "multipart/encrypted" then ("pgp_encrypted", "none")
    else if contentType == "multipart/signed" then ("pgp_signed_plaintext", "unknown_key")
    else ("plaintext", "none")
  }

  /** `read` is the MIME parser; an encrypted message reveals nothing, so its tree is not walked. */
  function Meta(read: string -> Option<Entity>, raw: string): MsgMeta {
    match read(raw)
    case None => NO_META
    case Some(e) =>
      var (security, signature) := SecurityOf(e.header.contentType);
      var attachments := if security == "pgp_encrypted" then [] else Metas(Leaves(e), 0);
      MsgMeta(security, signature, attachments != [], attachments)
  }

  method ParseMeta(read: string -> Option<Entity>, raw: string) returns (m: MsgMeta)
    ensures m == Meta(read, raw)
  {
    m := NO_META;
    var e := read(raw);
    if e.None? {
      return;
    }
    var (security, signature) := SecurityOf(e.value.header.contentType);
    m := m.(securityState := security, signatureStatus := signature);
    if security != "pgp_encrypted" {
      var walk := new MetaWalk();
      walk.Collect(e.value);
      m := m.(attachments := walk.result, hasAttachments := |walk.result| > 0);
    }
  }

  datatype ReadError = ParseFailed | OutOfRange(index: int, count: nat)

  function PartAt(read: string -> Option<Entity>, raw: string, index: int): Result<AttachmentPart, ReadError> {
    match read(raw)
    case None => Err(ParseFailed)
    case Some(e) =>
      var parts := Parts(Leaves(e), 0);
      if 0 <= index < |parts| then Ok(parts[index]) else Err(OutOfRange(index, |parts|))
  }

  method ReadAttachmentAt(read: string -> Option<Entity>, raw: string, index: int)
    returns (r: Result<AttachmentPart, ReadError>)
    ensures r == PartAt(read, raw, index)
  {
    var e := read(raw);
    if e.None? {
      return Err(ParseFailed);
    }
    var walk := new PartWalk();
    walk.Collect(e.value);
    if index < 0 || index >= |walk.parts| {
      return Err(OutOfRange(index, |walk.parts|));
    }
    return Ok(walk.parts[index]);
  }

  // ---------------------------------------------------------------- they agree

  /** Entry `i` of the list is numbered `i`, and fetching a listed number succeeds with the same name (given or
    * generated), type and size. */
  lemma WalksAgree(read: string -> Option<Entity>, raw: string, index: int)
    requires 0 <= index < |Meta(read, raw).attachments|
    ensures var list, part := Meta(read, raw).attachments, PartAt(read, raw, index);
      && part.Ok?
      && list[index].partIndex == index
      && list[index].filename == part.value.filename != ""
      && list[index].contentType == part.value.contentType
      && list[index].size == |part.value.body|
  {
    hide Leaves, GoText.Decimal;
  }

  /** Taken alone, the fetching walk would also serve the attachment leaves around an encrypted message, which lists
    * none. It takes the checks of its caller (`AttachmentDownload`) for the two to agree on every message. */
  lemma FetchableIsListedIff(read: string -> Option<Entity>, raw: string)
    ensures (forall i :: PartAt(read, raw, i).Ok? <==> 0 <= i < |Meta(read, raw).attachments|) <==>
            (read(raw).Some? && read(raw).value.header.contentType == "multipart/encrypted" ==>
              Leaves(read(raw).value) == [])
  {
    hide Leaves, NameOf;
    SecurityNamesDiffer();
    if read(raw).Some? && Leaves(read(raw).value) != [] {
      assert PartAt(read, raw, 0).Ok?;
    }
  }

  lemma SecurityNamesDiffer()
    ensures "pgp_encrypted" !in {"plaintext", "pgp_signed_plaintext"}
  {
    assert |"pgp_encrypted"| == 13 && |"plaintext"| == 9 && |"pgp_signed_plaintext"| == 20;
  }

  /** `l` occurs in the tree `e`. */
  ghost predicate Within(l: Entity, e: Entity)
    decreases e
  {
    l == e || (e.Multipart? && exists i :: 0 <= i < |e.parts| && Within(l, e.parts[i]))
  }

  /** The walks miss no attachment and list nothing else. */
  lemma {:induction false} LeavesAreTheAttachments(l: Entity, e: Entity)
    ensures l in Leaves(e) <==>
            Within(l, e) && l.Leaf? && IsAttachmentPart(l.header.contentType, l.header.disposition)
    decreases e, 0
  {
    hide IsAttachmentPart;
    if e.Multipart? {
      LeavesAreAmong(l, e.parts);
    }
  }

  lemma {:induction false} LeavesAreAmong(l: Entity, es: seq<Entity>)
    ensures l in LeavesOfAll(es) <==>
            (exists i :: 0 <= i < |es| && Within(l, es[i]))
            && l.Leaf? && IsAttachmentPart(l.header.contentType, l.header.disposition)
    decreases es, 1
  {
    hide IsAttachmentPart, Leaves, Within;
    if es != [] {
      LeavesAreTheAttachments(l, es[0]);
      LeavesAreAmong(l, es[1..]);
      assert forall i :: 0 < i < |es| ==> es[i] == es[1..][i - 1];
      if i :| 0 <= i < |es| && Within(l, es[i]) {
        assert i > 0 ==> Within(l, es[1..][i - 1]);
      }
      if i :| 0 <= i < |es[1..]| && Within(l, es[1..][i]) {
        assert Within(l, es[i + 1]);
      }
    }
  }

  // ---------------------------------------------------------------- what counts as an attachment

  /** A type `major/minor`, in any case and with white space around it, is an attachment if it is none of the three PGP
    * types and either is marked as one or is neither a text nor a multipart type. */
  lemma AttachmentByType(before: string, major: string, minor: string, after: string, disposition: string)
    requires TextLaws.Blank(before) && TextLaws.Blank(after) && '/' !in major
    requires TextLaws.Trimmed(major + "/" + minor)
    ensures var t := major + "/" + minor;
      IsAttachmentPart(before + t + after, disposition) <==>
      && !GoText.EqualFold(t, "application/pgp-encrypted")
      && !GoText.EqualFold(t, "application/pgp-keys")
      && !GoText.EqualFold(t, "application/pgp-signature")
      && (GoText.EqualFold(disposition, "attachment")
          || (!GoText.EqualFold(major, "text") && !GoText.EqualFold(major, "multipart")))
  {
    hide GoText.TrimSpace, Text.Lower, GoText.EqualFold;
    var t := major + "/" + minor;
    TextLaws.NormalOf(before, t, after);
    PgpTypes(t);
    MajorType(major, minor, "text");
    MajorType(major, minor, "multipart");
    TextAndMultipart();
    assert Text.Lower(t) != "";
  }

  /** A part without a type is an attachment only if it is marked as one. */
  lemma AttachmentWithoutType(blank: string, disposition: string)
    requires TextLaws.Blank(blank)
    ensures IsAttachmentPart(blank, disposition) <==> GoText.EqualFold(disposition, "attachment")
  {
    hide GoText.EqualFold;
    TextLaws.TrimSpaceOf(blank, "", "");
    assert blank + "" + "" == blank;
    assert |"application/pgp-encrypted"| == 25 && |"application/pgp-keys"| == 20 && |"application/pgp-signature"| == 25;
  }

  lemma PgpTypes(t: string)
    ensures IsPgpPart(Text.Lower(t)) <==>
            GoText.EqualFold(t, "application/pgp-encrypted") || GoText.EqualFold(t, "application/pgp-keys")
            || GoText.EqualFold(t, "application/pgp-signature")
  {
    hide GoText.EqualFold, Text.Lower;
    var a, b, c := "application/pgp-encrypted", "application/pgp-keys", "application/pgp-signature";
    TextLaws.FoldIsLower(t, a);
    TextLaws.FoldIsLower(t, b);
    TextLaws.FoldIsLower(t, c);
    AlreadyLower(a);
    AlreadyLower(b);
    AlreadyLower(c);
  }

  lemma AlreadyLower(s: string)
    requires forall i :: 0 <= i < |s| ==> !('A' <= s[i] <= 'Z')
    ensures Text.Lower(s) == s
  {}

  lemma TextAndMultipart()
    ensures "text" + "/" == "text/" && "multipart" + "/" == "multipart/"
  {}

  lemma MajorType(major: string, minor: string, name: string)
    requires '/' !in major && '/' !in name && forall i :: 0 <= i < |name| ==> !('A' <= name[i] <= 'Z')
    ensures HasPrefix(Text.Lower(major + "/" + minor), name + "/") <==> GoText.EqualFold(major, name)
  {
    hide GoText.EqualFold;
    TextLaws.FoldIsLower(major, name);
    AlreadyLower(name);
    var l, m := Text.Lower(major + "/" + minor), Text.Lower(major);
    assert l == m + "/" + Text.Lower(minor) && l[|m|] == '/';
    assert forall i :: 0 <= i < |m| ==> m[i] != '/' by {
      assert forall i :: 0 <= i < |major| ==> major[i] in major;
    }
    if HasPrefix(l, name + "/") {
      assert (name + "/")[|name|] == '/' && l[|name|] == l[..|name| + 1][|name|];
      assert forall i :: 0 <= i < |name| ==> l[i] == l[..|name| + 1][i] && name[i] in name;
      assert forall i :: 0 <= i < |name| ==> l[i] != '/';
      assert |name| == |m|;
      assert m == l[..|name|] == name;
    }
  }

  lemma AllOf(h: Header, es: seq<Entity>)
    ensures Leaves(Multipart(h, es)) == LeavesOfAll(es)
  {}

  /** Parts are listed in their order: those of a longer list are those of its two halves, one after the other. */
  lemma {:induction false} LeavesInOrder(h: Header, a: seq<Entity>, b: seq<Entity>)
    ensures Leaves(Multipart(h, a + b)) == Leaves(Multipart(h, a)) + Leaves(Multipart(h, b))
    decreases |b|
  {
    hide IsAttachmentPart, LeavesOfAll, Leaves;
    AllOf(h, a + b);
    AllOf(h, a);
    AllOf(h, b);
    if b == [] {
      assert a + b == a;
      NoPartsYet(0);
    } else {
      var init, last := b[..|b| - 1], b[|b| - 1];
      LeavesInOrder(h, a, init);
      AllOf(h, a + init);
      AllOf(h, init);
      LeavesOfPrefix(a + init, last);
      LeavesOfPrefix(init, last);
      assert a + b == a + init + [last] && b == init + [last];
    }
  }

  /** Without an error, the state is the one of the outer type; entry `i` describes leaf `i`, under the name of its
    * disposition, else of its type, else its number, and the part fetched under `i` is that leaf. */
  lemma EntriesDescribeLeaves(read: string -> Option<Entity>, raw: string)
    ensures read(raw).None? ==> Meta(read, raw) == MsgMeta("plaintext", "none", false, [])
    ensures read(raw).Some? ==>
              var e, m := read(raw).value, Meta(read, raw);
              var leaves, outer := Leaves(e), e.header.contentType;
              && m.securityState ==
                 (if outer == "multipart/encrypted" then "pgp_encrypted"
                  else if outer == "multipart/signed" then "pgp_signed_plaintext" else "plaintext")
              && m.signatureStatus == (if outer == "multipart/signed" then "unknown_key" else "none")
              && (m.hasAttachments <==> m.attachments != [])
              && |m.attachments| == (if outer == "multipart/encrypted" then 0 else |leaves|)
              && (forall i :: 0 <= i < |m.attachments| ==>
                    Describes(m.attachments[i], i, leaves[i]) && PartAt(read, raw, i).Ok?
                    && IsLeaf(PartAt(read, raw, i).value, m.attachments[i], leaves[i]))
  {
    hide Leaves, GoText.Decimal;
    SecurityNamesDiffer();
    assert |"multipart/encrypted"| == 19 && |"multipart/signed"| == 16;
  }

  predicate Describes(a: AttachmentMeta, i: nat, leaf: Entity) {
    && leaf.Leaf? && a.partIndex == i && a.contentType == leaf.header.contentType && a.size == |leaf.body|
    && var given, typed := leaf.header.dispositionParams, leaf.header.typeParams;
       && ("filename" in given && given["filename"] != "" ==> a.filename == given["filename"])
       && (("filename" !in given || given["filename"] == "") && "name" in typed && typed["name"] != "" ==>
             a.filename == typed["name"])
       && (("filename" !in given || given["filename"] == "") && ("name" !in typed || typed["name"] == "") ==>
             a.filename == "attachment-" + GoText.Decimal(i))
  }

  predicate IsLeaf(p: AttachmentPart, a: AttachmentMeta, leaf: Entity) {
    leaf.Leaf? && p == AttachmentPart(a.filename, leaf.header.contentType, leaf.body)
  }
}
