/** What is shown of a decrypted text that the reader finds no text part in: everything, or what follows a first block
  * of header lines. */
module DecryptedText {
  import opened Wrappers
  import opened MimeReader
  import opened MimeTypes
  import opened Text

  /** Lines of a first block: at least one, none of them empty. */
  ghost predicate Block(lines: seq<string>) {
    lines != [] && CleanLines(lines) && forall i :: 0 <= i < |lines| ==> lines[i] != ""
  }

  // ---------------------------------------------------------------- header lines

  ghost predicate AsciiLetter(c: char) {
    'A' <= c <= 'Z' || 'a' <= c <= 'z'
  }

  ghost predicate Named(line: string, name: string, value: string) {
    && line == name + ":" + value && name != "" && AsciiLetter(name[0])
    && forall i :: 0 <= i < |name| ==> AsciiLetter(name[i]) || '0' <= name[i] <= '9' || name[i] == '-'
  }

  /** A header line begins with a blank or with a name of letters, digits and hyphens, the first a letter, and a
    * colon. */
  lemma LooksLikeHeaderIff(line: string)
    ensures LooksLikeHeaderLine(line) <==>
            line != "" && (line[0] == ' ' || line[0] == '\t' || exists name, value :: Named(line, name, value))
  {
    if line != "" && IsLetter(line[0]) {
      var at := IndexOf(line, ":");
      if at.Some? {
        assert line[at.value] == line[at.value..at.value + 1][0];
        assert line == line[..at.value] + ":" + line[at.value + 1..];
        if LooksLikeHeaderLine(line) {
          assert Named(line, line[..at.value], line[at.value + 1..]);
        }
      }
    }
    if name, value :| Named(line, name, value) {
      var colon := ":";
      assert line[|name|..|name| + 1] == colon;
      forall j: nat | j < |name| ensures !MatchesAt(line, colon, j) {
        assert line[j..j + 1][0] == name[j];
      }
      IndexOfIs(line, colon, 0, |name|);
      assert forall i :: 0 <= i < |name| ==> line[i] == name[i];
    }
  }

  // ---------------------------------------------------------------- the first blank line

  lemma NoNewline(s: string)
    requires s == "" || (s[0] != '\r' && s[0] != '\n')
    ensures NewlineLength(s) == 0
  {
    assert |s| >= 2 ==> s[..2][0] == s[0];
  }

  lemma OneNewline(sep: string, rest: string)
    requires IsNewline(sep)
    ensures NewlineLength(sep + rest) == |sep|
  {
    var s := sep + rest;
    assert |sep| == 2 ==> s[..2] == sep;
    assert |s| >= 2 ==> s[..2][0] == s[0];
  }

  lemma OnlyLineFeed(rest: string)
    ensures NewlineLength("\n" + rest) == 1
  {
    OneNewline("\n", rest);
  }

  lemma PairShift(a: string, b: string, k: nat)
    requires k <= |b|
    ensures NewlinePairAt(a + b, |a| + k) == NewlinePairAt(b, k)
  {
    hide NewlineLength;
    var s := a + b;
    assert s[|a| + k..] == b[k..];
    var first := NewlineLength(b[k..]);
    assert s[|a| + k + first..] == b[k + first..];
  }

  /** Within a block no two newlines follow each other. */
  lemma {:induction false} NoPairWithin(lines: seq<string>, sep: string, end: string, j: nat)
    requires Block(lines) && IsNewline(sep) && j < |Join(lines, sep)|
    ensures NewlinePairAt(Join(lines, sep) + end, j) == 0
    decreases |lines|
  {
    hide NewlineLength, NewlinePairAt;
    var line, s := lines[0], Join(lines, sep) + end;
    if j < |line| {
      assert s[j..][0] == line[j];
      NoNewline(s[j..]);
      NoFirst(s, j);
    } else {
      var tail := Join(lines[1..], sep) + end;
      assert s == line + sep + tail;
      assert lines[1] == lines[1..][0] && tail[0] == lines[1][0];
      var k := j - |line|;
      if k < |sep| {
        NoPairAtEnd(line, sep, tail, k);
      } else {
        assert s == (line + sep) + tail;
        PairShift(line + sep, tail, k - |sep|);
        NoPairWithin(lines[1..], sep, end, k - |sep|);
      }
    }
  }

  lemma NoFirst(s: string, j: nat)
    requires j <= |s| && NewlineLength(s[j..]) == 0
    ensures NewlinePairAt(s, j) == 0
  {}

  lemma NoPairAtEnd(line: string, sep: string, tail: string, k: nat)
    requires IsNewline(sep) && k < |sep| && tail != "" && tail[0] != '\r' && tail[0] != '\n'
    ensures NewlinePairAt(line + sep + tail, |line| + k) == 0
  {
    hide NewlineLength;
    var s := line + sep + tail;
    NoNewline(tail);
    if k == 0 {
      assert s[|line|..] == sep + tail;
      OneNewline(sep, tail);
      assert s[|line| + |sep|..] == tail;
    } else {
      assert s[|line| + 1..] == "\n" + tail;
      OnlyLineFeed(tail);
      assert s[|line| + 2..] == tail;
    }
  }

  lemma {:induction false} FirstBlankLine(text: string, i: nat, k: nat)
    requires i <= k <= |text| && forall j: nat :: i <= j < k ==> NewlinePairAt(text, j) == 0
    ensures NewlinePairAt(text, k) > 0 ==> FindBlankLine(text, i) == Some((k, NewlinePairAt(text, k)))
    ensures k == |text| && NewlinePairAt(text, k) == 0 ==> FindBlankLine(text, i).None?
    decreases k - i
  {
    hide NewlinePairAt;
    if i < k {
      FirstBlankLine(text, i + 1, k);
    }
  }

  lemma BlankLineFollows(lines: seq<string>, sep: string, rest: string)
    requires Block(lines) && IsNewline(sep)
    ensures FindBlankLine(Join(lines, sep) + (sep + sep + rest)) == Some((|Join(lines, sep)|, 2 * |sep|))
  {
    hide NewlineLength, FindBlankLine;
    var block, end := Join(lines, sep), sep + sep + rest;
    var s := block + end;
    assert forall j: nat :: j < |block| ==> NewlinePairAt(s, j) == 0 by {
      forall j: nat | j < |block| ensures NewlinePairAt(s, j) == 0 {
        hide NewlinePairAt;
        NoPairWithin(lines, sep, end, j);
      }
    }
    assert s[|block|..] == sep + (sep + rest);
    OneNewline(sep, sep + rest);
    assert s[|block| + |sep|..] == sep + rest;
    OneNewline(sep, rest);
    FirstBlankLine(s, 0, |block|);
  }

  lemma NoBlankLine(lines: seq<string>, sep: string)
    requires Block(lines) && IsNewline(sep)
    ensures FindBlankLine(Join(lines, sep)).None?
  {
    hide NewlineLength, FindBlankLine, NewlinePairAt;
    var s := Join(lines, sep);
    assert s + "" == s;
    forall j: nat | j < |s| ensures NewlinePairAt(s, j) == 0 {
      NoPairWithin(lines, sep, "", j);
    }
    NoNewline(s[|s|..]);
    NoFirst(s, |s|);
    FirstBlankLine(s, 0, |s|);
  }

  // ---------------------------------------------------------------- what is shown

  /** The text has no type, or no text part that could be shown. */
  ghost predicate NoTextPart(browser: Browser, decrypted: string) {
    var e := MimeSplit(decrypted);
    MimeHeader(e.headers, "Content-Type") == "" || ExtractText(browser, e.headers, e.body).None?
  }

  /** Without a text part, a first block of header lines is left out, and everything is shown if one of its lines is
    * none or if there is no blank line. */
  lemma RestIsShown(browser: Browser, lines: seq<string>, sep: string, rest: string)
    requires Block(lines) && IsNewline(sep)
    ensures var all := Join(lines, sep) + (sep + sep + rest);
            NoTextPart(browser, all) ==>
              ExtractDecryptedBody(browser, all) ==
              if forall i :: 0 <= i < |lines| ==> LooksLikeHeaderLine(lines[i]) then rest else all
    ensures NoTextPart(browser, Join(lines, sep)) ==>
              ExtractDecryptedBody(browser, Join(lines, sep)) == Join(lines, sep)
  {
    hide MimeSplit, MimeHeader, ExtractText, FindBlankLine, Join, LooksLikeHeaderLine, SplitLines;
    BlankLineFollows(lines, sep, rest);
    NoBlankLine(lines, sep);
    SplitJoin(lines, sep);
    var block, all := Join(lines, sep), Join(lines, sep) + (sep + sep + rest);
    assert all[..|block|] == block && all[|block| + 2 * |sep|..] == rest;
    assert (forall line <- lines :: LooksLikeHeaderLine(line)) <==>
           forall i :: 0 <= i < |lines| ==> LooksLikeHeaderLine(lines[i]);
  }
}
