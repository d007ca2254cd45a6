/** Multipart framing (section 5.1.1 of RFC 2046): what the writer frames, the reader finds. */
module MimeFraming {
  import opened Wrappers
  import opened Text
  import opened MimeReader

  ghost predicate Delimiter(line: string, boundary: string) {
    IsSeparator(line, "--" + boundary) || IsClosing(line, "--" + boundary)
  }

  /** Lines that can be framed: clean, at least one, none of them a delimiter. */
  ghost predicate Frameable(part: seq<string>, boundary: string) {
    && part != []
    && CleanLines(part)
    && forall i :: 0 <= i < |part| ==> !Delimiter(part[i], boundary)
  }

  ghost predicate AllFrameable(parts: seq<seq<string>>, boundary: string) {
    forall i :: 0 <= i < |parts| ==> Frameable(parts[i], boundary)
  }

  /** The lines of a multipart body. */
  function FrameLines(parts: seq<seq<string>>, boundary: string): (lines: seq<string>)
    ensures lines != []
  {
    if parts == [] then ["--" + boundary + "--", ""]
    else ["--" + boundary] + parts[0] + FrameLines(parts[1..], boundary)
  }

  function PartTexts(parts: seq<seq<string>>): (texts: seq<string>)
    ensures |texts| == |parts|
  {
    seq(|parts|, i requires 0 <= i < |parts| => Join(parts[i], "\n"))
  }

  lemma {:induction false} PartsFromPartLines(part: seq<string>, rest: seq<string>, boundary: string, read: seq<string>)
    requires forall i :: 0 <= i < |part| ==> !Delimiter(part[i], boundary)
    ensures PartsFrom(part + rest, "--" + boundary, Some(read)) == PartsFrom(rest, "--" + boundary, Some(read + part))
    decreases |part|
  {
    if part == [] {
      assert part + rest == rest && read + part == read;
    } else {
      assert (part + rest)[0] == part[0] && (part + rest)[1..] == part[1..] + rest;
      PartsFromPartLines(part[1..], rest, boundary, read + [part[0]]);
      assert read + [part[0]] + part[1..] == read + part;
    }
  }

  lemma ClosingIsNotSeparator(boundary: string)
    ensures IsClosing("--" + boundary + "--", "--" + boundary)
    ensures IsSeparator("--" + boundary, "--" + boundary)
    ensures !IsClosing("--" + boundary, "--" + boundary)
  {}

  lemma {:induction false} PartsFromFrame(parts: seq<seq<string>>, boundary: string, current: Option<seq<string>>)
    requires AllFrameable(parts, boundary)
    ensures PartsFrom(FrameLines(parts, boundary), "--" + boundary, current) == Flush(current) + PartTexts(parts)
    decreases |parts|
  {
    ClosingIsNotSeparator(boundary);
    var lines, delim := FrameLines(parts, boundary), "--" + boundary;
    if parts != [] {
      var rest := FrameLines(parts[1..], boundary);
      assert lines[1..] == parts[0] + rest;
      PartsFromPartLines(parts[0], rest, boundary, []);
      assert [] + parts[0] == parts[0];
      PartsFromFrame(parts[1..], boundary, Some(parts[0]));
      assert PartTexts(parts) == [Join(parts[0], "\n")] + PartTexts(parts[1..]);
    }
  }

  lemma {:induction false} FrameLinesClean(parts: seq<seq<string>>, boundary: string)
    requires AllFrameable(parts, boundary) && CleanLine(boundary)
    ensures CleanLines(FrameLines(parts, boundary))
    decreases |parts|
  {
    if parts != [] {
      FrameLinesClean(parts[1..], boundary);
    }
  }

  /** Any number of parts, framed with either newline, are read back in order. */
  lemma FramedPartsAreReadBack(parts: seq<seq<string>>, boundary: string, sep: string)
    requires AllFrameable(parts, boundary) && CleanLine(boundary) && IsNewline(sep)
    ensures PartsOf(Join(FrameLines(parts, boundary), sep), boundary) == PartTexts(parts)
  {
    FrameLinesClean(parts, boundary);
    SplitJoin(FrameLines(parts, boundary), sep);
    PartsFromFrame(parts, boundary, None);
  }

  /** The printed form of a frame, one part at a time. */
  lemma JoinFrame(part: seq<string>, parts: seq<seq<string>>, boundary: string, sep: string)
    requires part != []
    ensures Join(FrameLines([part] + parts, boundary), sep)
         == "--" + boundary + sep + Join(part, sep) + sep + Join(FrameLines(parts, boundary), sep)
  {
    assert ([part] + parts)[1..] == parts;
    var head, rest := ["--" + boundary], FrameLines(parts, boundary);
    JoinConcat(head + part, rest, sep);
    JoinConcat(head, part, sep);
  }

  lemma JoinEmptyFrame(boundary: string, sep: string)
    ensures Join(FrameLines([], boundary), sep) == "--" + boundary + "--" + sep
  {}

  // ---------------------------------------------------------------- white space behind a delimiter

  /** A delimiter line without the space that may follow it. */
  function Tidied(line: string, boundary: string): string {
    if line == "--" + boundary + " " then "--" + boundary
    else if line == "--" + boundary + "-- " then "--" + boundary + "--" else line
  }

  function AllTidied(lines: seq<string>, boundary: string): seq<string> {
    if lines == [] then [] else [Tidied(lines[0], boundary)] + AllTidied(lines[1..], boundary)
  }

  /** One space behind a delimiter, closing or not, makes no difference. */
  lemma {:induction false} SpaceAfterDelimiterIsIgnored(
    lines: seq<string>, boundary: string, current: Option<seq<string>>)
    ensures PartsFrom(lines, "--" + boundary, current) ==
            PartsFrom(AllTidied(lines, boundary), "--" + boundary, current)
    decreases |lines|
  {
    if lines != [] {
      var delim, line, tidy := "--" + boundary, lines[0], AllTidied(lines, boundary);
      TidiedIsAlike(line, boundary);
      assert tidy[0] == Tidied(line, boundary) && tidy[1..] == AllTidied(lines[1..], boundary);
      hide IsClosing, IsSeparator, Tidied, Flush;
      if IsSeparator(line, delim) {
        SpaceAfterDelimiterIsIgnored(lines[1..], boundary, Some([]));
      } else if current.Some? {
        SpaceAfterDelimiterIsIgnored(lines[1..], boundary, Some(current.value + [line]));
      } else {
        SpaceAfterDelimiterIsIgnored(lines[1..], boundary, None);
      }
    }
  }

  lemma TidiedIsAlike(line: string, boundary: string)
    ensures var delim, tidy := "--" + boundary, Tidied(line, boundary);
      && (IsClosing(tidy, delim) <==> IsClosing(line, delim))
      && (IsSeparator(tidy, delim) <==> IsSeparator(line, delim))
      && (!IsClosing(line, delim) && !IsSeparator(line, delim) ==> tidy == line)
  {
    ClosingIsNotSeparator(boundary);
    var delim := "--" + boundary;
    assert |delim + " "| == |delim| + 1 && |delim + "--"| == |delim| + 2 && |delim + "-- "| == |delim| + 3;
  }
}
