/** The armored block inside the outer encrypted message. */
module PgpEnvelope {
  import opened Wrappers
  import opened Text
  import opened MimeReader
  import opened MimeWriter
  import opened MimeHeaders
  import opened MimeNames

  ghost predicate FiveDashes(s: string, j: nat) {
    j + 4 < |s| && s[j] == '-' && s[j + 1] == '-' && s[j + 2] == '-' && s[j + 3] == '-' && s[j + 4] == '-'
  }

  /** Text without five dashes in a row, as the composer's own lines are. */
  ghost predicate NoArmor(s: string) {
    forall j: nat :: !FiveDashes(s, j)
  }

  lemma NoArmorGlue(a: string, b: string)
    requires NoArmor(a) && NoArmor(b) && a != "" && a[|a| - 1] != '-'
    ensures NoArmor(a + b)
  {
    var s := a + b;
    assert s[|a| - 1] != '-';
    assert forall j: nat | j + 4 < |a| :: FiveDashes(s, j) ==> FiveDashes(a, j);
    assert forall j: nat | j >= |a| :: FiveDashes(s, j) ==> FiveDashes(b, j - |a|);
  }

  lemma EncryptedTypeHasNoArmor() ensures NoArmor(ENCRYPTED_TYPE)
  {
    NoArmorGlue("Content-Type: multipart/encrypted; ", "protocol=\"application/pgp-encrypted\";");
  }

  lemma ControlHasNoArmor() ensures NoArmor(CONTROL_TYPE) && NoArmor(CONTROL_BODY)
  {}

  lemma PayloadTypeHasNoArmor() ensures NoArmor(PAYLOAD_TYPE)
  {
    NoArmorGlue("Content-Type: application/octet-stream; ", "name=\"encrypted.asc\"");
  }

  lemma PayloadDispositionHasNoArmor() ensures NoArmor(PAYLOAD_DISPOSITION)
  {
    NoArmorGlue("Content-Disposition: inline; ", "filename=\"encrypted.asc\"");
  }

  predicate IsHexDigit(c: char) {
    '0' <= c <= '9' || 'a' <= c <= 'f'
  }

  /** A boundary as the composer generates one. */
  ghost predicate OwnBoundary(boundary: string) {
    |boundary| == 27 && boundary[..3] == "rk-" && forall i :: 3 <= i < 27 ==> IsHexDigit(boundary[i])
  }

  lemma DelimiterHasNoArmor(boundary: string)
    requires OwnBoundary(boundary)
    ensures NoArmor("--" + boundary) && CleanLine("--" + boundary)
  {
    var s := "--" + boundary;
    assert s[2] == boundary[..3][0] && s[3] == boundary[..3][1] && s[4] == boundary[..3][2];
    assert forall k :: 5 <= k < 29 ==> IsHexDigit(s[k]);
  }

  lemma BoundaryLineHasNoArmor(boundary: string)
    requires OwnBoundary(boundary)
    ensures NoArmor("\tboundary=\"" + boundary + "\"")
  {
    var s := "\tboundary=\"" + boundary + "\"";
    assert s[11] == boundary[..3][0] && s[12] == boundary[..3][1] && s[13] == boundary[..3][2];
    assert forall k :: 14 <= k < 38 ==> IsHexDigit(s[k]);
  }

  /** What the composer puts between its headers and the block. */
  function OwnLines(boundary: string): seq<string> {
    [ENCRYPTED_TYPE, "\tboundary=\"" + boundary + "\"", "", "--" + boundary, CONTROL_TYPE, "", CONTROL_BODY, "",
     "--" + boundary, PAYLOAD_TYPE, PAYLOAD_DISPOSITION, ""]
  }

  lemma EmptyHasNoArmor() ensures NoArmor("")
  {}

  lemma OwnLinesHaveNoArmor(boundary: string)
    requires OwnBoundary(boundary)
    ensures forall i :: 0 <= i < |OwnLines(boundary)| ==> NoArmor(OwnLines(boundary)[i])
  {
    hide NoArmor;
    EncryptedTypeHasNoArmor();
    ControlHasNoArmor();
    PayloadTypeHasNoArmor();
    PayloadDispositionHasNoArmor();
    DelimiterHasNoArmor(boundary);
    BoundaryLineHasNoArmor(boundary);
    EmptyHasNoArmor();
  }

  // ---------------------------------------------------------------- markers and lines

  /** A marker line: starts with five dashes and has no newline in it. */
  ghost predicate Marker(p: string) {
    |p| >= 5 && FiveDashes(p, 0) && CleanLine(p)
  }

  lemma BeginIsMarker()
    ensures Marker(BEGIN_PGP) && |BEGIN_PGP| == 27
  {
  }

  lemma EndIsMarker()
    ensures Marker(END_PGP) && |END_PGP| == 25
  {
  }

  lemma MarkersOfPGP()
    ensures Marker(BEGIN_PGP) && Marker(END_PGP) && |BEGIN_PGP| == 27 && |END_PGP| == 25
  {
    hide Marker;
    BeginIsMarker();
    EndIsMarker();
  }

  ghost predicate Free(s: string, p: string) {
    forall j: nat :: !MatchesAt(s, p, j)
  }

  lemma MatchHasDashes(s: string, p: string, j: nat)
    requires MatchesAt(s, p, j) && Marker(p)
    ensures FiveDashes(s, j)
  {
    MatchesAtElement(s, p, j, 0);
    MatchesAtElement(s, p, j, 1);
    MatchesAtElement(s, p, j, 2);
    MatchesAtElement(s, p, j, 3);
    MatchesAtElement(s, p, j, 4);
  }

  lemma NoArmorIsFree(s: string, p: string)
    requires NoArmor(s) && Marker(p)
    ensures Free(s, p)
  {
    forall j: nat ensures !MatchesAt(s, p, j) {
      if MatchesAt(s, p, j) {
        MatchHasDashes(s, p, j);
      }
    }
  }

  /** No match runs over a newline character. */
  lemma MatchAvoidsBreak(s: string, p: string, j: nat, k: nat)
    requires MatchesAt(s, p, j) && CleanLine(p) && k < |s| && (s[k] == '\r' || s[k] == '\n')
    ensures k < j || j + |p| <= k
  {
    if p != "" {
      var i: nat := if j <= k < j + |p| then k - j else 0;
      MatchesAtElement(s, p, j, i);
      assert p[i] in p;
    }
  }

  /** A match in two texts joined by a newline is in one of them. */
  lemma MatchInOneSide(a: string, b: string, p: string, j: nat)
    requires MatchesAt(a + CRLF + b, p, j) && Marker(p)
    ensures (j + |p| <= |a| && MatchesAt(a, p, j)) || (j >= |a| + 2 && MatchesAt(b, p, j - |a| - 2))
  {
    var s := a + CRLF + b;
    assert s[|a|] == '\r' && s[|a| + 1] == '\n';
    MatchAvoidsBreak(s, p, j, |a|);
    MatchAvoidsBreak(s, p, j, |a| + 1);
    if j + |p| <= |a| {
      assert s[j..j + |p|] == a[j..j + |p|];
    } else {
      assert s[j..j + |p|] == b[j - |a| - 2..j - |a| - 2 + |p|];
    }
  }

  lemma FreeAcross(a: string, b: string, p: string)
    requires Marker(p) && Free(a, p) && Free(b, p)
    ensures Free(a + CRLF + b, p)
  {
    hide MatchesAt, Marker;
    forall j: nat ensures !MatchesAt(a + CRLF + b, p, j) {
      if MatchesAt(a + CRLF + b, p, j) {
        MatchInOneSide(a, b, p, j);
      }
    }
  }

  lemma {:induction false} FreeJoin(lines: seq<string>, p: string)
    requires Marker(p) && lines != [] && forall i :: 0 <= i < |lines| ==> Free(lines[i], p)
    ensures Free(Join(lines, CRLF), p)
  {
    hide Free, Marker;
    if |lines| > 1 {
      FreeJoin(lines[1..], p);
      FreeAcross(lines[0], Join(lines[1..], CRLF), p);
    }
  }

  lemma {:induction false} FoundInJoin(lines: seq<string>, i: nat, p: string)
    requires i < |lines| && !Free(lines[i], p)
    ensures !Free(Join(lines, CRLF), p)
  {
    if |lines| > 1 {
      if i == 0 {
        var j: nat :| MatchesAt(lines[0], p, j);
        HeadOfRaw(lines[0], CRLF + Join(lines[1..], CRLF), p, j);
        ConcatAssoc(lines[0], CRLF, Join(lines[1..], CRLF));
      } else {
        FoundInJoin(lines[1..], i - 1, p);
        var rest := Join(lines[1..], CRLF);
        var j: nat :| MatchesAt(rest, p, j);
        MatchesAtShift(lines[0] + CRLF, rest, p, j);
      }
    }
  }

  /** Header lines: not empty, without newlines. */
  ghost predicate PlainLines(lines: seq<string>) {
    forall i :: 0 <= i < |lines| ==> CleanLine(lines[i]) && lines[i] != ""
  }

  lemma {:induction false} NoEmptyLineInJoin(lines: seq<string>, j: nat)
    requires PlainLines(lines) && lines != []
    ensures !MatchesAt(Join(lines, CRLF), CRLF + CRLF, j)
    ensures Join(lines, CRLF) != "" && Join(lines, CRLF)[0] != '\r'
    decreases |lines|
  {
    var line := lines[0];
    assert CleanLine(line) && line[0] in line;
    if |lines| == 1 {
      if MatchesAt(line, CRLF + CRLF, j) {
        MatchesAtElement(line, CRLF + CRLF, j, 0);
      }
    } else {
      var rest := Join(lines[1..], CRLF);
      var s := line + CRLF + rest;
      NoEmptyLineInJoin(lines[1..], if j >= |line| + 2 then j - |line| - 2 else 0);
      if j >= |line| + 2 {
        MatchesAtShift(line + CRLF, rest, CRLF + CRLF, j - |line| - 2);
      } else {
        NoEmptyLineHere(line, rest, j);
      }
    }
  }

  lemma NoEmptyLineHere(line: string, rest: string, j: nat)
    requires CleanLine(line) && rest != "" && rest[0] != '\r' && j < |line| + 2
    ensures !MatchesAt(line + CRLF + rest, CRLF + CRLF, j)
  {
    var s := line + CRLF + rest;
    assert |CRLF + CRLF| == 4 && (CRLF + CRLF)[0] == '\r' && (CRLF + CRLF)[2] == '\r';
    MatchStart(s, CRLF + CRLF, j);
    if j == |line| {
      assert s[j + 2] == rest[0];
      ThirdOfMatch(s, j);
    }
  }

  lemma ThirdOfMatch(s: string, j: nat)
    ensures MatchesAt(s, CRLF + CRLF, j) ==> s[j + 2] == '\r'
  {
    if MatchesAt(s, CRLF + CRLF, j) {
      MatchesAtElement(s, CRLF + CRLF, j, 2);
    }
  }

  // ---------------------------------------------------------------- the printed message

  lemma MatchInMiddle(a: string, b: string, c: string, p: string, k: nat)
    requires k + |p| <= |b|
    ensures MatchesAt(a + b + c, p, |a| + k) <==> MatchesAt(b, p, k)
  {
    assert (a + b + c)[|a| + k..|a| + k + |p|] == b[k..k + |p|];
  }

  function Enclosed(prefix: string, block: string, suffix: string): string {
    prefix + block + suffix
  }

  lemma SliceOfMiddle(a: string, b: string, c: string, n: nat)
    requires n <= |b|
    ensures |a| + n <= |Enclosed(a, b, c)| && Enclosed(a, b, c)[|a|..|a| + n] == b[..n]
  {
  }

  /** Searched from the start of the middle part, a text is found where the middle part has it. */
  lemma FoundInMiddle(prefix: string, block: string, suffix: string, p: string, end: nat)
    requires IndexOf(block, p) == Some(end)
    ensures |prefix| + end + |p| <= |Enclosed(prefix, block, suffix)| && end + |p| <= |block|
    ensures IndexOf(Enclosed(prefix, block, suffix), p, |prefix|) == Some(|prefix| + end)
    ensures Enclosed(prefix, block, suffix)[|prefix|..|prefix| + end + |p|] == block[..end + |p|]
  {
    hide MatchesAt, IndexOf, SameMatches, Enclosed;
    MatchFits(block, p, end);
    SliceOfMiddle(prefix, block, suffix, end + |p|);
    MiddleMatches(prefix, block, suffix, p);
    FirstInMiddle(Enclosed(prefix, block, suffix), |prefix|, block, p, end);
  }

  /** `raw` matches `p` from `base` on just where `block` does. */
  ghost predicate SameMatches(raw: string, base: nat, block: string, p: string) {
    forall k: nat :: k + |p| <= |block| ==> (MatchesAt(raw, p, base + k) <==> MatchesAt(block, p, k))
  }

  lemma MiddleMatches(prefix: string, block: string, suffix: string, p: string)
    ensures SameMatches(Enclosed(prefix, block, suffix), |prefix|, block, p)
  {
    hide MatchesAt;
    forall k: nat | k + |p| <= |block|
      ensures MatchesAt(Enclosed(prefix, block, suffix), p, |prefix| + k) <==> MatchesAt(block, p, k)
    {
      MatchInMiddle(prefix, block, suffix, p, k);
    }
  }

  lemma FirstInMiddle(raw: string, base: nat, block: string, p: string, end: nat)
    requires SameMatches(raw, base, block, p) && base <= |raw|
    requires end + |p| <= |block| && MatchesAt(block, p, end)
    requires forall j: nat :: 0 <= j < end ==> !MatchesAt(block, p, j)
    ensures IndexOf(raw, p, base) == Some(base + end)
  {
    hide MatchesAt, IndexOf;
    forall j: nat | base <= j < base + end ensures !MatchesAt(raw, p, j) {
      var k := j - base;
      assert !MatchesAt(block, p, k);
    }
    IndexOfIs(raw, p, base, base + end);
  }

  lemma MatchFits(s: string, p: string, j: nat)
    requires MatchesAt(s, p, j)
    ensures j + |p| <= |s|
  {
  }

  /** Armored text: a marker line, armor headers, an empty line, the data and the end marker (section 6.2 of RFC
    * 9580). */
  ghost predicate Armored(block: string, end: nat) {
    && MatchesAt(block, BEGIN_PGP, 0) && IndexOf(block, END_PGP) == Some(end)
    && exists j: nat :: j + 4 <= end && MatchesAt(block, CRLF + CRLF, j)
  }

  /** The text before the block: the headers, then the composer's own lines. */
  lemma PrefixShape(headers: seq<string>, boundary: string)
    requires headers != []
    ensures Join(PGPLines(headers, boundary), CRLF) == Join(headers, CRLF) + CRLF + Join(OwnLines(boundary), CRLF)
  {
    hide Join;
    JoinConcat(headers, OwnLines(boundary), CRLF);
    LinesListed(headers, boundary);
  }

  lemma LinesListed(headers: seq<string>, boundary: string)
    ensures PGPLines(headers, boundary) == headers + OwnLines(boundary)
  {
  }

  lemma OwnLinesAreFree(boundary: string, p: string)
    requires OwnBoundary(boundary) && Marker(p)
    ensures Free(Join(OwnLines(boundary), CRLF), p)
  {
    hide Free, NoArmor, Join;
    var own := OwnLines(boundary);
    OwnLinesHaveNoArmor(boundary);
    hide OwnLines;
    forall i | 0 <= i < |own| ensures Free(own[i], p) { NoArmorIsFree(own[i], p); }
    OwnLinesNonempty(boundary);
    FreeJoin(own, p);
  }

  lemma OwnLinesNonempty(boundary: string)
    ensures OwnLines(boundary) != []
  {
  }

  /** Without a marker in the headers the first one is that of the block. */
  lemma LinesAreFree(headers: seq<string>, boundary: string)
    requires OwnBoundary(boundary) && forall i :: 0 <= i < |headers| ==> Free(headers[i], BEGIN_PGP)
    ensures Free(Join(PGPLines(headers, boundary), CRLF), BEGIN_PGP)
  {
    hide Free, Join, OwnLines, PGPLines;
    MarkersOfPGP();
    OwnLinesAreFree(boundary, BEGIN_PGP);
    if headers == [] {
      LinesListed(headers, boundary);
      assert headers + OwnLines(boundary) == OwnLines(boundary);
    } else {
      PrefixShape(headers, boundary);
      FreeJoin(headers, BEGIN_PGP);
      FreeAcross(Join(headers, CRLF), Join(OwnLines(boundary), CRLF), BEGIN_PGP);
    }
  }

  lemma MessageShape(headers: seq<string>, pgpBlock: string, boundary: string)
    ensures BuildPGPMIME(headers, pgpBlock, boundary)
         == Enclosed(Join(PGPLines(headers, boundary), CRLF) + CRLF, NormalizeCRLF(pgpBlock),
           CRLF + ("--" + boundary + "--"))
  {
    hide PGPLines, NormalizeCRLF;
    LinesListed(headers, boundary);
    OwnLinesNonempty(boundary);
    EnvelopeShape(PGPLines(headers, boundary), NormalizeCRLF(pgpBlock), "--" + boundary + "--");
  }

  /** The block is found if no header holds its marker. */
  lemma BlockIsExtracted(prefix: string, block: string, suffix: string, end: nat)
    requires Free(prefix, BEGIN_PGP) && prefix != "" && prefix[|prefix| - 1] == '\n'
    requires MatchesAt(block, BEGIN_PGP, 0) && IndexOf(block, END_PGP) == Some(end)
    ensures ExtractPGPBlock(Enclosed(prefix, block, suffix)) == Some(block[..end + |END_PGP|])
  {
    hide MatchesAt, IndexOf, Free, Enclosed, ExtractPGPBlock;
    BeginFound(prefix, block, suffix);
    FoundInMiddle(prefix, block, suffix, END_PGP, end);
    ExtractsBetween(Enclosed(prefix, block, suffix), |prefix|, |prefix| + end);
  }

  lemma BeginFound(prefix: string, block: string, suffix: string)
    requires Free(prefix, BEGIN_PGP) && prefix != "" && prefix[|prefix| - 1] == '\n'
    requires MatchesAt(block, BEGIN_PGP, 0)
    ensures IndexOf(Enclosed(prefix, block, suffix), BEGIN_PGP) == Some(|prefix|)
  {
    MarkersOfPGP();
    var raw := Enclosed(prefix, block, suffix);
    forall j: nat | j < |prefix| ensures !MatchesAt(raw, BEGIN_PGP, j) {
      MatchBefore(prefix, block + suffix, BEGIN_PGP, j);
      assert prefix + (block + suffix) == raw;
    }
    hide Enclosed, MatchesAt, IndexOf;
    MiddleMatches(prefix, block, suffix, BEGIN_PGP);
    MatchFits(block, BEGIN_PGP, 0);
    IndexOfIs(raw, BEGIN_PGP, 0, |prefix|);
  }

  /** A match beginning before a line end is a match in what comes before it. */
  lemma MatchBefore(prefix: string, rest: string, p: string, j: nat)
    requires prefix != "" && prefix[|prefix| - 1] == '\n' && j < |prefix| && Marker(p)
    ensures MatchesAt(prefix + rest, p, j) ==> j + |p| <= |prefix| && MatchesAt(prefix, p, j)
  {
    var s := prefix + rest;
    if MatchesAt(s, p, j) {
      MatchAvoidsBreak(s, p, j, |prefix| - 1);
      assert s[j..j + |p|] == prefix[j..j + |p|];
    }
  }

  lemma FreeBeforeBreak(s: string, p: string)
    requires Free(s, p) && Marker(p)
    ensures Free(s + CRLF, p)
  {
    EmptyHasNoArmor();
    NoArmorIsFree("", p);
    FreeAcross(s, "", p);
    assert s + CRLF + "" == s + CRLF;
  }

  lemma HeadOfRaw(head: string, rest: string, p: string, q: nat)
    requires MatchesAt(head, p, q)
    ensures MatchesAt(head + rest, p, q)
  {
    assert (head + rest)[q..q + |p|] == head[q..q + |p|];
  }

  /** An end marker before the block is in the headers. */
  lemma EndIsInHead(head: string, own: string, rest: string, e: nat)
    requires Free(own, END_PGP) && e < |head + CRLF + (own + CRLF)|
    requires MatchesAt(head + CRLF + (own + CRLF) + rest, END_PGP, e)
    ensures e + |END_PGP| <= |head|
  {
    MarkersOfPGP();
    var after := own + CRLF;
    FreeBeforeBreak(own, END_PGP);
    assert after[|after| - 1] == '\n';
    var prefix := head + CRLF + after;
    assert prefix[|prefix| - 1] == after[|after| - 1];
    hide MatchesAt, Marker;
    MatchBefore(prefix, rest, END_PGP, e);
    MatchInOneSide(head, after, END_PGP, e);
  }

  lemma MatchInSlice(s: string, i: nat, n: nat, p: string, j: nat)
    requires i <= n <= |s| && MatchesAt(s[i..n], p, j)
    ensures MatchesAt(s, p, i + j)
  {
    var a, b := s[..i], s[i..n];
    assert s == a + b + s[n..];
    MatchInMiddle(a, b, s[n..], p, j);
  }

  /** A piece of the headers has no empty line in it. */
  lemma EmptyLineMissing(head: string, start: nat, stop: nat, text: string, j: nat)
    requires start <= stop <= |head| && !MatchesAt(head, CRLF + CRLF, start + j)
    requires MatchesAt(text, CRLF + CRLF, j)
    ensures head[start..stop] != text
  {
    hide MatchesAt;
    if MatchesAt(head[start..stop], CRLF + CRLF, j) {
      MatchInSlice(head, start, stop, CRLF + CRLF, j);
    }
  }

  lemma MatchInTake(s: string, n: nat, p: string, j: nat)
    requires MatchesAt(s, p, j) && j + |p| <= n <= |s|
    ensures MatchesAt(s[..n], p, j)
  {
    assert s[..n][j..j + |p|] == s[j..j + |p|];
  }

  /** Wherever the first end marker after `start` is, the text up to it is not the block. */
  lemma NotTheBlock(raw: string, head: string, rest: string, block: string, start: nat, e: nat, last: nat, end: nat)
    requires raw == head + rest && start <= e && e + 25 <= |raw| && end + 25 <= |block| && start + 27 <= |head|
    requires e == last || e + 25 <= |head|
    requires e == last ==> |head| + end <= last
    requires forall j: nat :: !MatchesAt(head, CRLF + CRLF, j)
    requires exists j: nat :: j + 4 <= end && MatchesAt(block, CRLF + CRLF, j)
    ensures raw[start..e + 25] != block[..end + 25]
  {
    hide MatchesAt;
    if e + 25 <= |head| {
      var j: nat :| j + 4 <= end && MatchesAt(block, CRLF + CRLF, j);
      assert |CRLF + CRLF| == 4;
      MatchInTake(block, end + 25, CRLF + CRLF, j);
      EmptyLineMissing(head, start, e + 25, block[..end + 25], j);
      SameSlice(head, rest, start, e + 25);
    }
  }

  /** With a marker in the headers what is found begins there: it is either longer than the block, or it ends within the
    * headers too and has no empty line in it. */
  lemma AnotherTextIsExtracted(head: string, own: string, block: string, suffix: string, end: nat)
    requires !Free(head, BEGIN_PGP) && Free(own, END_PGP)
    requires forall j: nat :: !MatchesAt(head, CRLF + CRLF, j)
    requires Armored(block, end)
    ensures ExtractPGPBlock(Enclosed(head + CRLF + (own + CRLF), block, suffix)) != Some(block[..end + |END_PGP|])
  {
    var prefix := head + CRLF + (own + CRLF);
    var raw := Enclosed(prefix, block, suffix);
    var q: nat :| MatchesAt(head, BEGIN_PGP, q);
    var rest := CRLF + (own + CRLF) + (block + suffix);
    RawFromHead(head, own, block, suffix);
    hide IndexOf, MatchesAt, ExtractPGPBlock, Enclosed, Free, Marker;
    MarkersOfPGP();
    HeadOfRaw(head, rest, BEGIN_PGP, q);
    MatchFits(head, BEGIN_PGP, q);
    FoundInMiddle(prefix, block, suffix, END_PGP, end);
    var start := IndexOf(raw, BEGIN_PGP).value;
    assert start <= q;
    var e := IndexOf(raw, END_PGP, start).value;
    assert e <= |prefix| + end;
    MatchFits(raw, END_PGP, e);
    ExtractsBetween(raw, start, e);
    if e < |prefix| {
      EndIsInHead(head, own, block + suffix, e);
    } else {
      assert e == |prefix| + end;
    }
    NotTheBlock(raw, head, rest, block, start, e, |prefix| + end, end);
  }

  lemma RawFromHead(head: string, own: string, block: string, suffix: string)
    ensures Enclosed(head + CRLF + (own + CRLF), block, suffix) == head + (CRLF + (own + CRLF) + (block + suffix))
    ensures Enclosed(head + CRLF + (own + CRLF), block, suffix) == head + CRLF + (own + CRLF) + (block + suffix)
  {
    ConcatAssoc(head + CRLF + (own + CRLF), block, suffix);
    ConcatAssoc(head, CRLF, own + CRLF);
    ConcatAssoc(head, CRLF + (own + CRLF), block + suffix);
  }

  lemma SameSlice(a: string, b: string, i: nat, j: nat)
    requires i <= j <= |a|
    ensures (a + b)[i..j] == a[i..j]
  {
  }

  /** The reader finds exactly the armored block the composer wrapped, newlines normalised, if and only if no header
    * line contains the marker the block begins with. */
  lemma PgpBlockIsExtracted(headers: seq<string>, pgpBlock: string, boundary: string, end: nat)
    requires PlainLines(headers) && OwnBoundary(boundary) && Armored(NormalizeCRLF(pgpBlock), end)
    ensures ExtractPGPBlock(BuildPGPMIME(headers, pgpBlock, boundary))
            == Some(NormalizeCRLF(pgpBlock)[..end + |END_PGP|])
        <==> forall i :: 0 <= i < |headers| ==> !Contains(headers[i], BEGIN_PGP)
  {
    hide NormalizeCRLF, PGPLines, Join, IndexOf, MatchesAt, ExtractPGPBlock, OwnLines, Enclosed, BuildPGPMIME;
    var block, suffix := NormalizeCRLF(pgpBlock), CRLF + ("--" + boundary + "--");
    MessageShape(headers, pgpBlock, boundary);
    MarkersOfPGP();
    if i :| 0 <= i < |headers| && Contains(headers[i], BEGIN_PGP) {
      var head, own := Join(headers, CRLF), Join(OwnLines(boundary), CRLF);
      FoundInJoin(headers, i, BEGIN_PGP);
      OwnLinesAreFree(boundary, END_PGP);
      forall j: nat ensures !MatchesAt(head, CRLF + CRLF, j) { NoEmptyLineInJoin(headers, j); }
      PrefixShape(headers, boundary);
      ConcatAssoc(head + CRLF, own, CRLF);
      AnotherTextIsExtracted(head, own, block, suffix, end);
    } else {
      forall i | 0 <= i < |headers| ensures Free(headers[i], BEGIN_PGP) {
        assert !Contains(headers[i], BEGIN_PGP);
      }
      LinesAreFree(headers, boundary);
      FreeBeforeBreak(Join(PGPLines(headers, boundary), CRLF), BEGIN_PGP);
      BlockIsExtracted(Join(PGPLines(headers, boundary), CRLF) + CRLF, block, suffix, end);
    }
  }

  /** A typed subject can hide the block. */
  lemma TypedMarkerHidesBlock(pgpBlock: string, boundary: string, end: nat)
    requires OwnBoundary(boundary) && Armored(NormalizeCRLF(pgpBlock), end)
    ensures ExtractPGPBlock(BuildPGPMIME(["Subject: " + BEGIN_PGP], pgpBlock, boundary))
         != Some(NormalizeCRLF(pgpBlock)[..end + |END_PGP|])
  {
    hide NormalizeCRLF, ExtractPGPBlock, BuildPGPMIME, IndexOf;
    var headers := ["Subject: " + BEGIN_PGP];
    MarkersOfPGP();
    assert |"Subject: "| == 9;
    assert headers[0][9..36] == BEGIN_PGP;
    assert MatchesAt(headers[0], BEGIN_PGP, 9);
    assert Contains(headers[0], BEGIN_PGP);
    SubjectIsPlain(BEGIN_PGP);
    PgpBlockIsExtracted(headers, pgpBlock, boundary, end);
  }

  lemma SubjectIsPlain(subject: string)
    requires CleanLine(subject)
    ensures CleanLine("Subject: " + subject) && "Subject: " + subject != ""
  {
  }

  /** Five dashes alone do no harm. */
  lemma DashesInSubjectAreHarmless(pgpBlock: string, boundary: string, end: nat)
    requires OwnBoundary(boundary) && Armored(NormalizeCRLF(pgpBlock), end)
    ensures ExtractPGPBlock(BuildPGPMIME(["Subject: -----Original Message-----"], pgpBlock, boundary))
         == Some(NormalizeCRLF(pgpBlock)[..end + |END_PGP|])
  {
    hide NormalizeCRLF, ExtractPGPBlock, BuildPGPMIME, IndexOf;
    var line := "Subject: -----Original Message-----";
    OriginalMessage();
    PgpBlockIsExtracted([line], pgpBlock, boundary, end);
  }

  lemma OriginalMessage()
    ensures !Contains("Subject: -----Original Message-----", BEGIN_PGP)
    ensures CleanLine("Subject: -----Original Message-----")
  {
    hide IndexOf;
    var line := "Subject: -----Original Message-----";
    assert |line| == 35 && |BEGIN_PGP| == 27;
    forall j: nat ensures !MatchesAt(line, BEGIN_PGP, j) {
      assert forall k :: 0 <= k < 9 ==> line[k] != '-';
      if MatchesAt(line, BEGIN_PGP, j) {
        MatchesAtElement(line, BEGIN_PGP, j, 0);
      }
    }
  }

  // ---------------------------------------------------------------- the folded content type

  /** A content type folded once, printed after other fields. */
  lemma FoldedTypeIsRead(fields: seq<FoldedField>, name: string, first: string, value: string)
    requires WellFolded(fields) && FieldName(name) && CleanLine(first) && GoodFolds([Fold("\t", value)])
    requires forall i :: 0 <= i < |fields| ==> Lower(fields[i].name) != Lower(name)
    ensures MimeHeader(PrintFolded(fields + [FoldedField(name, first, [Fold("\t", value)])], CRLF), name)
         == Trim(first + (" " + value))
  {
    hide MimeHeader, PrintFolded, Lower, Trim, FieldName, CleanLine, GoodFolds, SpaceTail;
    var outer := FoldedField(name, first, [Fold("\t", value)]);
    FoldedHeaderIsFound(fields + [outer], CRLF, name);
    OneFold(value);
    LookupLast(fields, outer, Lower(name));
  }

  /** The content type the composer prints over two lines is read as one value, and the boundary in it is found. */
  lemma OuterTypeIsRead(fields: seq<FoldedField>, boundary: string)
    requires WellFolded(fields) && CleanLine(boundary)
    requires forall i :: 0 <= i < |fields| ==> Lower(fields[i].name) != Lower("Content-Type")
    ensures var folds := [Fold("\t", "boundary=\"" + boundary + "\"")];
            var all := fields + [FoldedField("Content-Type", OUTER_TYPE, folds)];
            var read := MimeHeader(PrintFolded(all, CRLF), "Content-Type");
            && read == OUTER_TYPE + " boundary=\"" + boundary + "\""
            && (boundary != "" && '"' !in boundary ==> MimeBoundary(read) == Some(boundary))
  {
    hide MimeHeader, PrintFolded, Lower, Trim, MimeBoundary, WellFolded, CleanLine, FieldName, GoodFolds;
    HeaderNamesDiffer();
    OuterFoldIsGood(boundary);
    FoldedTypeIsRead(fields, "Content-Type", OUTER_TYPE, "boundary=\"" + boundary + "\"");
    OuterValue(boundary);
    if boundary != "" && '"' !in boundary {
      OuterBoundaryFound(boundary);
    }
  }

  lemma OuterValue(boundary: string)
    ensures var value := OUTER_TYPE + " boundary=\"" + boundary + "\"";
            OUTER_TYPE + (" " + ("boundary=\"" + boundary + "\"")) == value && Trim(value) == value
  {
    hide Trim;
    OuterTypeShape();
    assert " " + ("boundary=\"" + boundary + "\"") == " boundary=\"" + boundary + "\"";
    assert OUTER_TYPE + (" boundary=\"" + boundary + "\"") == OUTER_TYPE + " boundary=\"" + boundary + "\"";
    TrimIdentity(OUTER_TYPE + " boundary=\"" + boundary + "\"");
  }

  /** The two semicolons of the printed type. */
  lemma OuterTypeShape()
    ensures |OUTER_TYPE| == 58 && OUTER_TYPE[0] == 'm' && OUTER_TYPE[20] == ' ' && OUTER_TYPE[21] == 'p'
    ensures OUTER_TYPE[57] == ';' && forall j :: 0 <= j < 57 && j != 19 ==> OUTER_TYPE[j] != ';'
  {
    var a, b, c, d := "multipart/encrypted; ", "protocol=\"", "application/pgp-encrypted", "\";";
    assert |a| == 21 && |b| == 10 && |c| == 25 && |d| == 2;
    assert OUTER_TYPE == a + b + c + d;
    NoSemicolons();
    FourPieces(a, b, c, d);
  }

  lemma NoSemicolons()
    ensures var a, b, c, d := "multipart/encrypted; ", "protocol=\"", "application/pgp-encrypted", "\";";
            && (forall j :: 0 <= j < |a| && j != 19 ==> a[j] != ';') && ';' !in b && ';' !in c && d[0] != ';'
  {}

  lemma FourPieces(a: string, b: string, c: string, d: string)
    ensures var s := a + b + c + d;
            && (forall j :: 0 <= j < |a| ==> s[j] == a[j])
            && (forall j :: |a| <= j < |a| + |b| ==> s[j] == b[j - |a|])
            && (forall j :: |a| + |b| <= j < |a| + |b| + |c| ==> s[j] == c[j - |a| - |b|])
            && (forall j :: |a| + |b| + |c| <= j < |s| ==> s[j] == d[j - |a| - |b| - |c|])
  {}

  /** Only the second parameter of the printed type is a boundary. */
  lemma OuterBoundaryFound(boundary: string)
    requires boundary != "" && '"' !in boundary
    ensures var value := OUTER_TYPE + " boundary=\"" + boundary + "\"";
            MimeBoundary(value) == Some(boundary)
  {
    hide SkipSpaces, Lower, IndexOf, MatchesAt;
    var prefix := OUTER_TYPE + " boundary=\"";
    var value := prefix + boundary + "\"";
    OuterTypeShape();
    BoundaryKey(OUTER_TYPE, boundary + "\"");
    ConcatAssoc(prefix, boundary, "\"");
    ProtocolIsNoBoundary(value);
    ClosingQuote(prefix, boundary);
    assert |"boundary=\""| == 10 && |prefix| == 69;
    var at := (i: nat) => BoundaryQuotedAt(value, i);
    assert at(19).None?;
    assert QuotedAt(value, "boundary=\"", 59) == Some(boundary);
    assert at(57) == Some(boundary);
    LeftmostIs(|value|, at, 0, 57);
  }

  lemma ProtocolIsNoBoundary(value: string)
    requires |value| > 21 && value[20] == ' ' && value[21] == 'p'
    ensures SkipSpaces(value, 20) == 21 && !MatchesAt(Lower(value), "boundary=\"", 21)
  {
    assert SkipSpaces(value, 21) == 21;
    MatchStart(Lower(value), "boundary=\"", 21);
  }

  /** What follows the type `t`: a space and the key of the boundary. */
  lemma BoundaryKey(t: string, rest: string)
    ensures var s, n := t + " boundary=\"" + rest, |t|;
            SkipSpaces(s, n) == n + 1 && MatchesAt(Lower(s), "boundary=\"", n + 1)
  {
    var key := " boundary=\"";
    var s, n := t + key + rest, |t|;
    assert |key| == 11;
    assert s[n..n + 11] == key;
    assert forall k :: 0 <= k < 11 ==> s[n + k] == key[k];
    assert SkipSpaces(s, n + 1) == n + 1;
    assert forall k :: 0 <= k < 11 ==> LowerChar(key[k]) == key[k];
    assert Lower(s)[n + 1..n + 11] == key[1..];
  }

  const OUTER_TYPE := "multipart/encrypted; " + "protocol=\"" + "application/pgp-encrypted" + "\";"

  lemma OneFold(text: string)
    ensures SpaceTail([Fold("\t", text)]) == " " + text
  {
    assert [Fold("\t", text)][1..] == [];
    assert SpaceTail([]) == "";
    assert " " + text + "" == " " + text;
  }

  lemma OuterTypeIsClean()
    ensures CleanLine(OUTER_TYPE)
  {
    OuterTypePieces();
    hide CleanLine;
    CleanConcat("multipart/encrypted; ", "protocol=\"");
    CleanConcat("multipart/encrypted; " + "protocol=\"", "application/pgp-encrypted");
    CleanConcat("multipart/encrypted; " + "protocol=\"" + "application/pgp-encrypted", "\";");
  }

  lemma OuterTypePieces()
    ensures CleanLine("multipart/encrypted; ") && CleanLine("protocol=\"")
    ensures CleanLine("application/pgp-encrypted") && CleanLine("\";")
  {
  }

  lemma CleanConcat(a: string, b: string)
    requires CleanLine(a) && CleanLine(b)
    ensures CleanLine(a + b)
  {
  }

  lemma BoundaryParamIsClean(boundary: string)
    requires CleanLine(boundary)
    ensures CleanLine("boundary=\"" + boundary + "\"") && !IsBlank(("boundary=\"" + boundary + "\"")[0])
  {
  }

  lemma OuterFoldIsGood(boundary: string)
    requires CleanLine(boundary)
    ensures GoodFolds([Fold("\t", "boundary=\"" + boundary + "\"")]) && CleanLine(OUTER_TYPE)
  {
    hide CleanLine;
    OuterTypeIsClean();
    BoundaryParamIsClean(boundary);
  }

  lemma {:induction false} LookupLast(fields: seq<FoldedField>, last: FoldedField, lower: string)
    requires forall i :: 0 <= i < |fields| ==> Lower(fields[i].name) != lower
    requires Lower(last.name) == lower
    ensures Lookup(AllUnfolded(fields + [last]), lower) == Trim(Unfolded(last).value)
  {
    hide Lower, Trim, SpaceTail;
    var all := fields + [last];
    if fields == [] {
      assert all == [last];
    } else {
      assert all[0] == fields[0] && all[1..] == fields[1..] + [last];
      assert AllUnfolded(all)[1..] == AllUnfolded(all[1..]);
      LookupLast(fields[1..], last, lower);
    }
  }

  lemma ExtractsBetween(raw: string, begin: nat, end: nat)
    requires IndexOf(raw, BEGIN_PGP) == Some(begin) && begin <= |raw|
    requires IndexOf(raw, END_PGP, begin) == Some(end) && begin <= end && end + |END_PGP| <= |raw|
    ensures ExtractPGPBlock(raw) == Some(raw[begin..end + |END_PGP|])
  {
    hide MatchesAt, IndexOf;
  }

  lemma EnvelopeShape(lines: seq<string>, block: string, closing: string)
    requires lines != []
    ensures Join(lines + [block, closing], CRLF) == (Join(lines, CRLF) + CRLF) + block + (CRLF + closing)
  {
    JoinConcat(lines, [block, closing], CRLF);
    assert [block, closing][1..] == [closing];
    assert Join([block, closing], CRLF) == block + CRLF + closing;
  }
}
