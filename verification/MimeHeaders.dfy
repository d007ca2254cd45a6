/** What the reader finds in printed header blocks, with their fields folded or not. */
module MimeHeaders {
  import opened Wrappers
  import opened Text
  import opened MimeTypes
  import opened MimeReader

  /** A line that can stand in a header block: not empty, no newline, not a continuation. */
  ghost predicate HeaderLine(line: string) {
    CleanLine(line) && line != "" && !IsBlank(line[0])
  }

  ghost predicate HeaderLines(lines: seq<string>) {
    forall i :: 0 <= i < |lines| ==> HeaderLine(lines[i])
  }

  // ---------------------------------------------------------------- trimming

  lemma TrimIdentity(s: string)
    requires s != "" && !IsSpace(s[0]) && !IsSpace(s[|s| - 1])
    ensures Trim(s) == s
  {}

  lemma TrimAfterSpace(s: string)
    ensures Trim(" " + s) == Trim(s)
  {
    assert (" " + s)[1..] == s;
  }

  // ---------------------------------------------------------------- finding the blank line

  lemma MatchesAtShift(a: string, b: string, p: string, j: nat)
    ensures MatchesAt(a + b, p, |a| + j) <==> MatchesAt(b, p, j)
  {
    if j + |p| <= |b| {
      assert (a + b)[|a| + j..|a| + j + |p|] == b[j..j + |p|];
    }
  }

  lemma MatchesAtElement(s: string, p: string, j: nat, k: nat)
    requires MatchesAt(s, p, j) && k < |p|
    ensures s[j + k] == p[k]
  {
    assert s[j..j + |p|][k] == p[k];
  }

  lemma MatchStart(s: string, p: string, j: nat)
    requires p != ""
    ensures MatchesAt(s, p, j) ==> s[j] == p[0]
  {
    if MatchesAt(s, p, j) {
      MatchesAtElement(s, p, j, 0);
    }
  }

  lemma NoBreakInsideLine(line: string, rest: string, p: string, j: nat)
    requires HeaderLine(line) && j < |line| && p != "" && (p[0] == '\r' || p[0] == '\n')
    ensures !MatchesAt(line + rest, p, j)
  {
    assert (line + rest)[j] == line[j];
    MatchStart(line + rest, p, j);
  }

  /** At the end of a line there is one newline, not two. */
  lemma NoBlankAfterLine(sep: string, tail: string, j: nat)
    requires IsNewline(sep) && j < |sep| && tail != "" && tail[0] != '\r' && tail[0] != '\n'
    ensures !MatchesAt(sep + tail, sep + sep, j)
  {
    var s := sep + tail;
    if MatchesAt(s, sep + sep, j) {
      MatchesAtElement(s, sep + sep, j, 0);
      MatchesAtElement(s, sep + sep, j, |sep|);
    }
  }

  lemma {:induction false} NoEarlierBlankLine(lines: seq<string>, sep: string, rest: string, j: nat)
    requires lines != [] && HeaderLines(lines) && IsNewline(sep)
    requires j < |Join(lines, sep)|
    ensures !MatchesAt(Join(lines, sep) + sep + sep + rest, sep + sep, j)
    decreases |lines|
  {
    hide MatchesAt;
    var line := lines[0];
    var s := Join(lines, sep) + sep + sep + rest;
    if |lines| == 1 {
      assert s == line + (sep + sep + rest);
      NoBreakInsideLine(line, sep + sep + rest, sep + sep, j);
    } else {
      var joined := Join(lines[1..], sep);
      var tail := joined + sep + sep + rest;
      FirstOfJoin(lines[1..], sep);
      assert s == line + (sep + tail) by { hide Join; Unnest(line, sep, joined, sep + sep, rest); }
      if j < |line| {
        NoBreakInsideLine(line, sep + tail, sep + sep, j);
      } else {
        var k := j - |line|;
        MatchesAtShift(line, sep + tail, sep + sep, k);
        if k < |sep| {
          NoBlankAfterLine(sep, tail, k);
        } else {
          NoEarlierBlankLine(lines[1..], sep, rest, k - |sep|);
          MatchesAtShift(sep, tail, sep + sep, k - |sep|);
        }
      }
    }
  }

  lemma Unnest(line: string, sep: string, joined: string, two: string, rest: string)
    requires two == sep + sep
    ensures line + sep + joined + sep + sep + rest == line + (sep + (joined + sep + sep + rest))
  {
  }

  lemma FirstOfJoin(lines: seq<string>, sep: string)
    requires lines != [] && HeaderLines(lines)
    ensures Join(lines, sep) != "" && Join(lines, sep)[0] != '\r' && Join(lines, sep)[0] != '\n'
  {
    assert HeaderLine(lines[0]);
    assert Join(lines, sep)[0] == lines[0][0];
  }

  lemma NoCRNoMatch(s: string, p: string)
    requires '\r' !in s && p != "" && p[0] == '\r'
    ensures forall j: nat :: !MatchesAt(s, p, j)
  {
    forall j: nat ensures !MatchesAt(s, p, j) {
      MatchStart(s, p, j);
    }
  }

  lemma SplitEntity(lines: seq<string>, sep: string, body: string)
    requires lines != [] && HeaderLines(lines) && IsNewline(sep)
    requires sep == "\n" ==> '\r' !in body
    ensures MimeSplit(Join(lines, sep) + sep + sep + body) == Entity(Join(lines, sep), body)
  {
    var headers := Join(lines, sep);
    var s := headers + sep + sep + body;
    forall j: nat | j < |headers| ensures !MatchesAt(s, sep + sep, j) {
      NoEarlierBlankLine(lines, sep, body, j);
    }
    assert s[|headers|..|headers| + |sep + sep|] == sep + sep;
    IndexOfIs(s, sep + sep, 0, |headers|);
    assert s[|headers| + |sep + sep|..] == body;
    if sep == "\n" {
      assert sep + sep == "\n\n";
      NoCRInJoin(lines);
      NoCRNoMatch(s, "\r\n\r\n");
    } else {
      assert sep + sep == "\r\n\r\n";
    }
  }

  lemma {:induction false} NoCRInJoin(lines: seq<string>)
    requires CleanLines(lines)
    ensures '\r' !in Join(lines, "\n")
  {
    if |lines| > 1 {
      NoCRInJoin(lines[1..]);
    }
  }

  // ---------------------------------------------------------------- unfolding

  lemma UnfoldLF(rest: string)
    requires rest == "" || !IsBlank(rest[0])
    ensures Unfold("\n" + rest) == "\n" + Unfold(rest)
  {
    var s := "\n" + rest;
    assert s[1..] == rest;
    assert !MatchesAt(s, "\r\n", 0) by {
      if MatchesAt(s, "\r\n", 0) {
        MatchesAtElement(s, "\r\n", 0, 0);
      }
    }
  }

  lemma UnfoldCRLF(rest: string)
    requires rest == "" || !IsBlank(rest[0])
    ensures Unfold("\r\n" + rest) == "\r\n" + Unfold(rest)
  {
    var s := "\r\n" + rest;
    assert s[0..2] == "\r\n" && s[1..] == "\n" + rest;
    UnfoldLF(rest);
  }

  lemma UnfoldChar(c: char, rest: string)
    requires c != '\r' && c != '\n'
    ensures Unfold([c] + rest) == [c] + Unfold(rest)
  {
    var s := [c] + rest;
    assert s[1..] == rest;
    assert NewlineLength(s) == 0 by {
      if MatchesAt(s, "\r\n", 0) {
        MatchesAtElement(s, "\r\n", 0, 0);
      }
    }
  }

  lemma {:induction false} UnfoldPrefix(line: string, tail: string)
    requires CleanLine(line)
    ensures Unfold(line + tail) == line + Unfold(tail)
  {
    hide Unfold;
    if line == "" {
      assert line + tail == tail;
    } else {
      assert line == [line[0]] + line[1..];
      assert line + tail == [line[0]] + (line[1..] + tail);
      UnfoldChar(line[0], line[1..] + tail);
      UnfoldPrefix(line[1..], tail);
      ConcatAssoc([line[0]], line[1..], Unfold(tail));
    }
  }

  lemma {:induction false} UnfoldIdentity(lines: seq<string>, sep: string)
    requires lines != [] && HeaderLines(lines) && IsNewline(sep)
    ensures Unfold(Join(lines, sep)) == Join(lines, sep)
    decreases |lines|
  {
    if |lines| == 1 {
      UnfoldPrefix(lines[0], "");
      assert lines[0] + "" == lines[0];
    } else {
      var rest := Join(lines[1..], sep);
      UnfoldIdentity(lines[1..], sep);
      UnfoldLF(rest);
      UnfoldCRLF(rest);
      UnfoldPrefix(lines[0], sep + rest);
      ConcatAssoc(lines[0], sep, rest);
    }
  }

  /** On an unfolded block the lookup is a search through its lines. */
  lemma MimeHeaderOfLines(lines: seq<string>, sep: string, name: string)
    requires lines != [] && HeaderLines(lines) && IsNewline(sep)
    ensures MimeHeader(Join(lines, sep), name) == FindHeader(lines, Lower(name))
  {
    UnfoldIdentity(lines, sep);
    SplitJoin(lines, sep);
  }

  // ---------------------------------------------------------------- searching the lines

  lemma FindHeaderFirst(name: string, value: string, rest: seq<string>, lower: string)
    requires ':' !in name && Trim(name) == name
    ensures FindHeader([name + ": " + value] + rest, lower)
         == if Lower(name) == lower then Trim(value) else FindHeader(rest, lower)
  {
    var line := name + ": " + value;
    assert line[|name|..|name| + 1] == ":";
    forall j: nat | j < |name| ensures !MatchesAt(line, ":", j) {
      if MatchesAt(line, ":", j) {
        MatchesAtElement(line, ":", j, 0);
      }
    }
    IndexOfIs(line, ":", 0, |name|);
    assert line[..|name|] == name;
    assert line[|name| + 1..] == " " + value;
    TrimAfterSpace(value);
    assert ([line] + rest)[1..] == rest;
  }

  /** A header field: its name and its value as printed after the colon and a space. */
  datatype Field = Field(name: string, value: string)

  function FieldLines(fields: seq<Field>): (lines: seq<string>)
    ensures |lines| == |fields|
  {
    seq(|fields|, i requires 0 <= i < |fields| => FieldLine(fields[i].name, fields[i].value))
  }

  function Lookup(fields: seq<Field>, lower: string): string {
    if fields == [] then ""
    else if Lower(fields[0].name) == lower then Trim(fields[0].value)
    else Lookup(fields[1..], lower)
  }

  lemma LookupPair(a: Field, b: Field, lower: string)
    ensures Lookup([a, b], lower)
         == if Lower(a.name) == lower then Trim(a.value) else if Lower(b.name) == lower then Trim(b.value) else ""
  {
    assert [a, b][1..] == [b];
    assert Lookup([b], lower) == if Lower(b.name) == lower then Trim(b.value) else Lookup([], lower);
  }

  lemma LookupTriple(a: Field, b: Field, c: Field, lower: string)
    ensures Lookup([a, b, c], lower)
         == if Lower(a.name) == lower then Trim(a.value) else Lookup([b, c], lower)
  {
    assert [a, b, c][1..] == [b, c];
  }

  /** The three header names the MIME code uses are told apart without regard to case. */
  lemma HeaderNamesDiffer()
    ensures Lower("Content-Type") != Lower("Content-Disposition")
    ensures Lower("Content-Type") != Lower("Content-Transfer-Encoding")
    ensures Lower("Content-Disposition") != Lower("Content-Transfer-Encoding")
    ensures FieldName("Content-Type") && FieldName("Content-Disposition") && FieldName("Content-Transfer-Encoding")
  {
    assert |Lower("Content-Type")| == 12 && |Lower("Content-Disposition")| == 19;
    assert |Lower("Content-Transfer-Encoding")| == 25;
  }

  ghost predicate FieldName(name: string) {
    name != "" && CleanLine(name) && ':' !in name && !IsSpace(name[0]) && !IsSpace(name[|name| - 1])
  }

  ghost predicate WellFormed(fields: seq<Field>) {
    forall i :: 0 <= i < |fields| ==> FieldName(fields[i].name) && CleanLine(fields[i].value)
  }

  lemma {:induction false} FindHeaderLookup(fields: seq<Field>, lower: string)
    requires WellFormed(fields)
    ensures FindHeader(FieldLines(fields), lower) == Lookup(fields, lower)
  {
    if fields != [] {
      var rest := FieldLines(fields[1..]);
      assert FieldLines(fields) == [FieldLine(fields[0].name, fields[0].value)] + rest;
      TrimIdentity(fields[0].name);
      FindHeaderFirst(fields[0].name, fields[0].value, rest, lower);
      FindHeaderLookup(fields[1..], lower);
    }
  }

  lemma FieldsAreHeaderLines(fields: seq<Field>)
    requires WellFormed(fields)
    ensures HeaderLines(FieldLines(fields))
  {
    forall i | 0 <= i < |fields| ensures HeaderLine(FieldLines(fields)[i]) {
      assert FieldLine(fields[i].name, fields[i].value)[0] == fields[i].name[0];
    }
  }

  /** Looking a header up in printed fields finds the first field of that name. */
  lemma MimeHeaderOfFields(fields: seq<Field>, sep: string, name: string)
    requires fields != [] && WellFormed(fields) && IsNewline(sep)
    ensures HeaderLines(FieldLines(fields))
    ensures MimeHeader(Join(FieldLines(fields), sep), name) == Lookup(fields, Lower(name))
  {
    FieldsAreHeaderLines(fields);
    MimeHeaderOfLines(FieldLines(fields), sep, name);
    FindHeaderLookup(fields, Lower(name));
  }

  // ---------------------------------------------------------------- folded fields

  /** A continuation line: blanks, then text that begins with none. */
  datatype Fold = Fold(blanks: string, text: string)

  /** A field whose value goes on over further lines. */
  datatype FoldedField = FoldedField(name: string, first: string, folds: seq<Fold>)

  function FoldTail(folds: seq<Fold>, sep: string): string {
    if folds == [] then "" else sep + folds[0].blanks + folds[0].text + FoldTail(folds[1..], sep)
  }

  /** Every fold read as one space. */
  function SpaceTail(folds: seq<Fold>): string {
    if folds == [] then "" else " " + folds[0].text + SpaceTail(folds[1..])
  }

  function Unfolded(f: FoldedField): Field {
    Field(f.name, f.first + SpaceTail(f.folds))
  }

  function AllUnfolded(fields: seq<FoldedField>): (r: seq<Field>)
    ensures |r| == |fields|
  {
    seq(|fields|, i requires 0 <= i < |fields| => Unfolded(fields[i]))
  }

  function PrintFolded(fields: seq<FoldedField>, sep: string): string {
    if fields == [] then ""
    else
      var printed := FieldLine(fields[0].name, fields[0].first) + FoldTail(fields[0].folds, sep);
      if |fields| == 1 then printed else printed + sep + PrintFolded(fields[1..], sep)
  }

  ghost predicate GoodFolds(folds: seq<Fold>) {
    forall i :: 0 <= i < |folds| ==>
      && folds[i].blanks != "" && (forall j :: 0 <= j < |folds[i].blanks| ==> IsBlank(folds[i].blanks[j]))
      && CleanLine(folds[i].text) && (folds[i].text == "" || !IsBlank(folds[i].text[0]))
  }

  ghost predicate WellFolded(fields: seq<FoldedField>) {
    forall i :: 0 <= i < |fields| ==>
      FieldName(fields[i].name) && CleanLine(fields[i].first) && GoodFolds(fields[i].folds)
  }

  lemma {:induction false} DropAllBlanks(blanks: string, rest: string)
    requires forall j :: 0 <= j < |blanks| ==> IsBlank(blanks[j])
    requires rest == "" || !IsBlank(rest[0])
    ensures DropBlanks(blanks + rest) == rest
  {
    if blanks == "" {
      assert blanks + rest == rest;
    } else {
      assert (blanks + rest)[1..] == blanks[1..] + rest;
      DropAllBlanks(blanks[1..], rest);
    }
  }

  lemma UnfoldFold(sep: string, blanks: string, rest: string)
    requires IsNewline(sep) && blanks != "" && forall j :: 0 <= j < |blanks| ==> IsBlank(blanks[j])
    requires rest == "" || !IsBlank(rest[0])
    ensures Unfold(sep + (blanks + rest)) == " " + Unfold(rest)
  {
    var s := sep + (blanks + rest);
    assert s[|sep|..] == blanks + rest;
    DropAllBlanks(blanks, rest);
    if sep == "\r\n" {
      assert s[0..2] == "\r\n";
    } else {
      MatchStart(s, "\r\n", 0);
    }
    hide DropBlanks, MatchesAt;
    assert NewlineLength(s) == |sep|;
  }

  ghost predicate StartsLine(rest: string) {
    rest == "" || rest[0] == '\r' || rest[0] == '\n'
  }

  lemma TailStartsLine(folds: seq<Fold>, sep: string, rest: string)
    requires IsNewline(sep) && StartsLine(rest)
    ensures StartsLine(FoldTail(folds, sep) + rest)
  {
  }

  lemma {:induction false} UnfoldFolds(folds: seq<Fold>, sep: string, rest: string)
    requires IsNewline(sep) && GoodFolds(folds) && StartsLine(rest)
    ensures Unfold(FoldTail(folds, sep) + rest) == SpaceTail(folds) + Unfold(rest)
    decreases |folds|
  {
    hide Unfold;
    if folds == [] {
      assert "" + rest == rest;
    } else {
      var f, tail := folds[0], FoldTail(folds[1..], sep) + rest;
      TailStartsLine(folds[1..], sep, rest);
      UnfoldFolds(folds[1..], sep, rest);
      assert FoldTail(folds, sep) + rest == sep + (f.blanks + (f.text + tail)) by {
        hide FoldTail;
        FoldAssoc(sep, f.blanks, f.text, FoldTail(folds[1..], sep), rest);
      }
      UnfoldFold(sep, f.blanks, f.text + tail);
      UnfoldPrefix(f.text, tail);
      FoldAssoc(" ", "", f.text, SpaceTail(folds[1..]), Unfold(rest));
      assert " " + "" == " " && "" + (f.text + (SpaceTail(folds[1..]) + Unfold(rest))) ==
        f.text + (SpaceTail(folds[1..]) + Unfold(rest));
    }
  }

  lemma FoldAssoc(a: string, b: string, c: string, d: string, e: string)
    ensures a + b + c + d + e == a + (b + (c + (d + e)))
  {
  }

  lemma UnfoldNewline(sep: string, rest: string)
    requires IsNewline(sep) && (rest == "" || !IsBlank(rest[0]))
    ensures Unfold(sep + rest) == sep + Unfold(rest)
  {
    UnfoldLF(rest);
    UnfoldCRLF(rest);
  }

  /** Unfolding a printed block gives the block of the unfolded fields. */
  lemma {:induction false} UnfoldPrinted(fields: seq<FoldedField>, sep: string)
    requires IsNewline(sep) && fields != [] && WellFolded(fields)
    ensures Unfold(PrintFolded(fields, sep)) == Join(FieldLines(AllUnfolded(fields)), sep)
    decreases |fields|
  {
    hide Unfold, FieldLine, SpaceTail, FoldTail;
    var f := fields[0];
    var line, tail := FieldLine(f.name, f.first), FoldTail(f.folds, sep);
    var rest := if |fields| == 1 then "" else sep + PrintFolded(fields[1..], sep);
    FieldLineIsClean(f.name, f.first);
    UnfoldFolds(f.folds, sep, rest);
    UnfoldPrefix(line, tail + rest);
    assert PrintFolded(fields, sep) == line + (tail + rest) by {
      FoldAssoc("", "", line, tail, rest);
      if |fields| > 1 {
        ConcatAssoc(line + tail, sep, PrintFolded(fields[1..], sep));
      }
      ConcatAssoc(line, tail, rest);
    }
    var lines := FieldLines(AllUnfolded(fields));
    assert lines[0] == line + SpaceTail(f.folds) by { ValueGoesOn(f.name, f.first, SpaceTail(f.folds)); }
    if |fields| == 1 {
      UnfoldNothing();
    } else {
      UnfoldPrinted(fields[1..], sep);
      assert lines[1..] == FieldLines(AllUnfolded(fields[1..]));
      PrintedStart(fields[1..], sep);
      UnfoldNewline(sep, PrintFolded(fields[1..], sep));
      FoldAssoc("", line, SpaceTail(f.folds), sep, Join(lines[1..], sep));
    }
  }

  lemma UnfoldNothing()
    ensures Unfold("") == ""
  {
  }

  lemma FieldLineIsClean(name: string, value: string)
    requires FieldName(name) && CleanLine(value)
    ensures CleanLine(FieldLine(name, value))
  {
  }

  lemma ValueGoesOn(name: string, a: string, b: string)
    ensures FieldLine(name, a + b) == FieldLine(name, a) + b
  {
    ConcatAssoc(name + ": ", a, b);
  }

  lemma PrintedStart(fields: seq<FoldedField>, sep: string)
    requires fields != [] && WellFolded(fields)
    ensures PrintFolded(fields, sep) != "" && !IsBlank(PrintFolded(fields, sep)[0])
  {
    assert PrintFolded(fields, sep)[0] == fields[0].name[0];
  }

  /** Looking a header up in printed fields, folded or not, finds the first field of that name, and each fold of its
    * value as one space. */
  lemma FoldedHeaderIsFound(fields: seq<FoldedField>, sep: string, name: string)
    requires IsNewline(sep) && fields != [] && WellFolded(fields)
    ensures MimeHeader(PrintFolded(fields, sep), name) == Lookup(AllUnfolded(fields), Lower(name))
  {
    hide Unfold, FieldName;
    UnfoldPrinted(fields, sep);
    forall i | 0 <= i < |fields| ensures CleanLine(Unfolded(fields[i]).value) {
      SpaceTailIsClean(fields[i].folds);
    }
    FieldsAreHeaderLines(AllUnfolded(fields));
    SplitJoin(FieldLines(AllUnfolded(fields)), sep);
    FindHeaderLookup(AllUnfolded(fields), Lower(name));
  }

  lemma {:induction false} SpaceTailIsClean(folds: seq<Fold>)
    requires GoodFolds(folds)
    ensures CleanLine(SpaceTail(folds))
  {
    if folds != [] {
      SpaceTailIsClean(folds[1..]);
    }
  }

  lemma MediaTypeWithParams(mediaType: string, params: string)
    requires mediaType != "" && ';' !in mediaType
    requires !IsSpace(mediaType[0]) && !IsSpace(mediaType[|mediaType| - 1])
    ensures MediaTypeOf(mediaType + ";" + params) == Lower(mediaType)
  {
    var v := mediaType + ";" + params;
    assert v[|mediaType|..|mediaType| + 1] == ";";
    forall j: nat | j < |mediaType| ensures !MatchesAt(v, ";", j) {
      if MatchesAt(v, ";", j) {
        MatchesAtElement(v, ";", j, 0);
      }
    }
    IndexOfIs(v, ";", 0, |mediaType|);
    assert v[..|mediaType|] == mediaType;
    TrimIdentity(mediaType);
  }

  lemma MediaTypeAlone(mediaType: string)
    requires mediaType != "" && ';' !in mediaType
    requires !IsSpace(mediaType[0]) && !IsSpace(mediaType[|mediaType| - 1])
    ensures MediaTypeOf(mediaType) == Lower(mediaType)
  {
    forall j: nat ensures !MatchesAt(mediaType, ";", j) {
      if MatchesAt(mediaType, ";", j) {
        MatchesAtElement(mediaType, ";", j, 0);
      }
    }
    TrimIdentity(mediaType);
  }
}
