/** The string operations the browser scripts rely on, written out on sequences of characters.
  * Case folding is the ASCII one; the white-space set is that of JavaScript's `trim` and `\s`.
  */
module Text {
  import opened Wrappers

  predicate IsSpace(c: char) {
    || '\t' <= c <= '\r'
    || c == ' '
    || c == '\U{00A0}' || c == '\U{1680}' || c == '\U{FEFF}'
    || '\U{2000}' <= c <= '\U{200A}'
    || c == '\U{2028}' || c == '\U{2029}' || c == '\U{202F}'
    || c == '\U{205F}' || c == '\U{3000}'
  }

  function TrimStart(s: string): string {
    if s != "" && IsSpace(s[0]) then TrimStart(s[1..]) else s
  }

  function TrimEnd(s: string): string {
    if s != "" && IsSpace(s[|s| - 1]) then TrimEnd(s[..|s| - 1]) else s
  }

  function Trim(s: string): string {
    TrimEnd(TrimStart(s))
  }

  function LowerChar(c: char): char {
    if 'A' <= c <= 'Z' then (c as int + 32) as char else c
  }

  function Lower(s: string): (r: string)
    ensures |r| == |s|
  {
    seq(|s|, i requires 0 <= i < |s| => LowerChar(s[i]))
  }

  predicate MatchesAt(s: string, p: string, i: nat) {
    i + |p| <= |s| && s[i..i + |p|] == p
  }

  /** `s.indexOf(p, from)`: the leftmost match at or after `from`. */
  function IndexOf(s: string, p: string, from: nat := 0): (r: Option<nat>)
    requires from <= |s|
    ensures r.None? ==> forall j: nat :: from <= j ==> !MatchesAt(s, p, j)
    ensures r.Some? ==> from <= r.value && MatchesAt(s, p, r.value)
    ensures r.Some? ==> forall j: nat :: from <= j < r.value ==> !MatchesAt(s, p, j)
    decreases |s| - from
  {
    if MatchesAt(s, p, from) then Some(from)
    else if from == |s| then None
    else IndexOf(s, p, from + 1)
  }

  lemma IndexOfIs(s: string, p: string, from: nat, at: nat)
    requires from <= at && MatchesAt(s, p, at)
    requires forall j: nat :: from <= j < at ==> !MatchesAt(s, p, j)
    ensures from <= |s| && IndexOf(s, p, from) == Some(at)
  {}

  predicate Contains(s: string, p: string) {
    IndexOf(s, p).Some?
  }

  /** Removes one `\r` from the end, as the optional `\r` of the pattern `\r?\n` does. */
  function DropCR(line: string): string {
    if line != "" && line[|line| - 1] == '\r' then line[..|line| - 1] else line
  }

  /** `s.split(/\r?\n/)`. */
  function SplitLines(s: string): (r: seq<string>)
    ensures r != []
    decreases |s|
  {
    match IndexOf(s, "\n")
    case None => [s]
    case Some(i) => [DropCR(s[..i])] + SplitLines(s[i + 1..])
  }

  function Join(lines: seq<string>, sep: string): string {
    if lines == [] then ""
    else if |lines| == 1 then lines[0]
    else lines[0] + sep + Join(lines[1..], sep)
  }

  /** `s.replace(/\r\n/g, "\n")`. */
  function ToLF(s: string): string {
    if s == "" then ""
    else if MatchesAt(s, "\r\n", 0) then "\n" + ToLF(s[2..])
    else [s[0]] + ToLF(s[1..])
  }

  /** `s.replace(/\n/g, "\r\n")`. */
  function ToCRLF(s: string): string {
    if s == "" then ""
    else if s[0] == '\n' then "\r\n" + ToCRLF(s[1..])
    else [s[0]] + ToCRLF(s[1..])
  }

  /** `s.replace(/\r?\n$/, "")`. */
  function DropFinalNewline(s: string): string {
    if s != "" && s[|s| - 1] == '\n' then DropCR(s[..|s| - 1]) else s
  }

  lemma ConcatAssoc<T>(a: seq<T>, b: seq<T>, c: seq<T>)
    ensures (a + b) + c == a + (b + c)
  {}

  // ---------------------------------------------------------------- lines

  ghost predicate CleanLine(line: string) {
    '\n' !in line && '\r' !in line
  }

  ghost predicate CleanLines(lines: seq<string>) {
    forall i :: 0 <= i < |lines| ==> CleanLine(lines[i])
  }

  ghost predicate IsNewline(sep: string) {
    sep == "\n" || sep == "\r\n"
  }

  lemma {:induction false} JoinConcat(a: seq<string>, b: seq<string>, sep: string)
    requires a != [] && b != []
    ensures Join(a + b, sep) == Join(a, sep) + sep + Join(b, sep)
  {
    if |a| == 1 {
      assert (a + b)[1..] == b;
    } else {
      assert (a + b)[1..] == a[1..] + b;
      JoinConcat(a[1..], b, sep);
    }
  }

  lemma JoinThree(a: string, b: string, c: string, sep: string)
    ensures Join([a, b, c], sep) == a + sep + (b + sep + c)
  {
    assert [b, c][1..] == [c];
    assert Join([b, c], sep) == b + sep + c;
    assert [a, b, c][1..] == [b, c];
  }

  lemma SplitOneLine(line: string, sep: string, rest: string)
    requires CleanLine(line) && IsNewline(sep)
    ensures SplitLines(line + sep + rest) == [line] + SplitLines(rest)
  {
    var s := line + sep + rest;
    var at := |line| + |sep| - 1;
    assert s[at] == '\n' && s[at..at + 1] == "\n";
    assert forall j: nat | j < at :: s[j] != '\n';
    IndexOfIs(s, "\n", 0, at);
    assert s[at + 1..] == rest;
    if sep == "\n" {
      assert s[..at] == line;
    } else {
      assert s[..at] == line + "\r";
      assert (line + "\r")[..|line|] == line;
    }
  }

  lemma SplitLastLine(line: string)
    requires '\n' !in line
    ensures SplitLines(line) == [line]
  {
    assert forall j: nat | MatchesAt(line, "\n", j) :: line[j] == line[j..j + 1][0];
  }

  /** Joining lines and splitting them again, with either newline. */
  lemma {:induction false} SplitJoin(lines: seq<string>, sep: string)
    requires lines != [] && CleanLines(lines) && IsNewline(sep)
    ensures SplitLines(Join(lines, sep)) == lines
  {
    if |lines| == 1 {
      SplitLastLine(lines[0]);
    } else {
      SplitOneLine(lines[0], sep, Join(lines[1..], sep));
      SplitJoin(lines[1..], sep);
    }
  }

  /** Splitting LF-only text gives clean lines that join back to it. */
  lemma {:induction false} JoinSplit(s: string)
    requires '\r' !in s
    ensures CleanLines(SplitLines(s)) && Join(SplitLines(s), "\n") == s
    decreases |s|
  {
    match IndexOf(s, "\n")
    case None =>
      forall j | 0 <= j < |s| ensures s[j] != '\n' {
        assert !MatchesAt(s, "\n", j);
      }
    case Some(i) =>
      forall j | 0 <= j < i ensures s[j] != '\n' {
        assert !MatchesAt(s, "\n", j);
      }
      JoinSplit(s[i + 1..]);
      assert s[i..i + 1] == "\n";
      assert s == s[..i] + "\n" + s[i + 1..];
  }

  lemma {:induction false} ToCRLFConcat(a: string, b: string)
    ensures ToCRLF(a + b) == ToCRLF(a) + ToCRLF(b)
  {
    if a == "" {
      assert a + b == b;
    } else {
      assert (a + b)[1..] == a[1..] + b;
      ToCRLFConcat(a[1..], b);
    }
  }

  lemma {:induction false} ToCRLFLine(line: string)
    requires '\n' !in line
    ensures ToCRLF(line) == line
  {
    if line != "" {
      ToCRLFLine(line[1..]);
    }
  }

  /** Rewriting newlines only changes the separator between lines. */
  lemma {:induction false} ToCRLFJoin(lines: seq<string>)
    requires lines != [] && CleanLines(lines)
    ensures ToCRLF(Join(lines, "\n")) == Join(lines, "\r\n")
  {
    ToCRLFLine(lines[0]);
    if |lines| > 1 {
      var rest := Join(lines[1..], "\n");
      ToCRLFConcat(lines[0] + "\n", rest);
      ToCRLFConcat(lines[0], "\n");
      ToCRLFJoin(lines[1..]);
    }
  }

  lemma {:induction false} JoinLength(lines: seq<string>, sep: string, k: nat)
    requires k < |lines|
    ensures |lines[k]| <= |Join(lines, sep)|
  {
    if k > 0 {
      JoinLength(lines[1..], sep, k - 1);
    }
  }

  // A string without carriage returns is left alone by the first half of the normalisation.
  lemma {:induction false} ToLFIdentity(s: string)
    requires '\r' !in s
    ensures ToLF(s) == s
  {
    if s != "" {
      assert s[0] in s;
      ToLFIdentity(s[1..]);
    }
  }

  /** Every carriage return is followed by a line feed. */
  ghost predicate NoLoneCR(s: string) {
    forall i :: 0 <= i < |s| && s[i] == '\r' ==> i + 1 < |s| && s[i + 1] == '\n'
  }

  /** Then, and only then, the normalisation leaves no carriage return behind. */
  lemma {:induction false} ToLFClean(s: string)
    ensures '\r' !in ToLF(s) <==> NoLoneCR(s)
  {
    if s == "" {
    } else if MatchesAt(s, "\r\n", 0) {
      assert s[0] == s[0..2][0] && s[1] == s[0..2][1];
      ToLFClean(s[2..]);
      var t := s[2..];
      assert forall i :: 2 <= i < |s| ==> s[i] == t[i - 2];
      assert forall i :: 0 <= i < |t| ==> t[i] == s[i + 2];
    } else {
      ToLFClean(s[1..]);
      var t := s[1..];
      assert forall i :: 1 <= i < |s| ==> s[i] == t[i - 1];
      assert forall i :: 0 <= i < |t| ==> t[i] == s[i + 1];
    }
  }
}
