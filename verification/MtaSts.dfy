/** Serving, reading, matching and caching MTA-STS policies (internal/web/handlers_domains.go,
  * internal/domains/domains.go, internal/smtp/mtasts.go, internal/cache/mtasts.go; RFC 8461).
  * Times are in nanoseconds, as Go durations are. */
module MtaSts {
  import opened Wrappers
  import GoText
  import Text
  import TextLaws

  const SECOND := 1_000_000_000
  const MAX_AGE_FLOOR := 300 * SECOND
  const MAX_AGE_CAP := 86_400 * SECOND

  // ---------------------------------------------------------------- serving a policy

  const UPGRADE_AFTER := 48 * 3600 * SECOND

  predicate ValidMode(mode: string) {
    mode == "testing" || mode == "enforce" || mode == "disabled"
  }

  function EffectiveMode(mode: Option<string>, changedAt: Option<int>, now: int): string {
    if mode.Some? then mode.value
    else if changedAt.None? then "testing"
    else if now - changedAt.value >= UPGRADE_AFTER then "enforce"
    else "testing"
  }

  /** The body served, or None for "not found". */
  function Served(mode: string, mx: string): Option<string> {
    if mode == "disabled" then None
    else
      var maxAge := if mode == "enforce" then 604_800 else 86_400;
      Some("version: STSv1" + "\n" + ("mode: " + mode) + "\n" + ("mx: " + mx) + "\n"
           + ("max_age: " + GoText.Decimal(maxAge)) + "\n")
  }

  // ---------------------------------------------------------------- reading a policy

  datatype Policy = Policy(mode: string, mx: seq<string>, id: string)

  /** `strings.Cut`. */
  function Cut(s: string, c: char): Option<(string, string)> {
    match GoText.IndexByte(s, c)
    case None => None
    case Some(i) => Some((s[..i], s[i + 1..]))
  }

  /** The variables of the reading loop. */
  datatype Parse = Parse(version: string, mode: string, mx: seq<string>, maxAge: int)

  /** Signed 64-bit wrap-around. */
  function Wrap64(n: int): int {
    (n + 0x8000_0000_0000_0000) % 0x1_0000_0000_0000_0000 - 0x8000_0000_0000_0000
  }

  function ParseField(s: Parse, k: string, v: string): Parse {
    if k == "version" then s.(version := v)
    else if k == "mode" then s.(mode := v)
    else if k == "mx" then (if v != "" then s.(mx := s.mx + [Text.Lower(v)]) else s)
    else if k == "max_age" then
      var secs := GoText.Atoi(v);
      if secs.Some? && secs.value > 0 then s.(maxAge := Wrap64(secs.value * SECOND)) else s
    else s
  }

  function ParseLine(s: Parse, line: string): Parse {
    match Cut(line, ':')
    case None => s
    case Some((k, v)) => ParseField(s, GoText.TrimSpace(k), GoText.TrimSpace(v))
  }

  function ParseLines(lines: seq<string>): Parse {
    if lines == [] then Parse("", "", [], 0) else ParseLine(ParseLines(lines[..|lines| - 1]), lines[|lines| - 1])
  }

  /** A policy without its id, and its maximal age; None if the body is not a policy. */
  function ParsedPolicy(body: string): Option<(Policy, int)> {
    var s := ParseLines(GoText.Split(body, '\n'));
    if s.version != "STSv1" || s.mode == "" then None else Some((Policy(s.mode, s.mx, ""), s.maxAge))
  }

  method ParsePolicy(body: string) returns (r: Option<(Policy, int)>)
    ensures r == ParsedPolicy(body)
  {
    hide GoText.Split, GoText.TrimSpace, GoText.Atoi, Text.Lower, Wrap64, Cut;
    var p, version, maxAge := Policy("", [], ""), "", 0;
    var lines := GoText.Split(body, '\n');
    for i := 0 to |lines|
      invariant Parse(version, p.mode, p.mx, maxAge) == ParseLines(lines[..i]) && p.id == ""
    {
      assert lines[..i + 1][..i] == lines[..i];
      var cut := Cut(lines[i], ':');
      if cut.None? {
        continue;
      }
      var k, v := GoText.TrimSpace(cut.value.0), GoText.TrimSpace(cut.value.1);
      if k == "version" {
        version := v;
      } else if k == "mode" {
        p := p.(mode := v);
      } else if k == "mx" {
        if v != "" {
          p := p.(mx := p.mx + [Text.Lower(v)]);
        }
      } else if k == "max_age" {
        var secs := GoText.Atoi(v);
        if secs.Some? && secs.value > 0 {
          maxAge := Wrap64(secs.value * SECOND);
        }
      }
    }
    assert lines[..|lines|] == lines;
    if version != "STSv1" || p.mode == "" {
      return None;
    }
    return Some((p, maxAge));
  }

  function ClampMaxAge(d: int): (r: int)
    ensures d <= MAX_AGE_FLOOR ==> r == MAX_AGE_FLOOR
    ensures MAX_AGE_FLOOR <= d <= MAX_AGE_CAP ==> r == d
    ensures MAX_AGE_CAP <= d ==> r == MAX_AGE_CAP
  {
    if d <= 0 then MAX_AGE_FLOOR
    else if d > MAX_AGE_CAP then MAX_AGE_CAP
    else if d < MAX_AGE_FLOOR then MAX_AGE_FLOOR
    else d
  }

  // ---------------------------------------------------------------- the id record

  datatype Record = Record(version: string, id: string)

  function RecordField(r: Record, field: string): Record {
    match Cut(field, '=')
    case None => r
    case Some((k, v)) =>
      var key := GoText.TrimSpace(k);
      if key == "v" then r.(version := GoText.TrimSpace(v))
      else if key == "id" then r.(id := GoText.TrimSpace(v))
      else r
  }

  function RecordFields(fields: seq<string>): Record {
    if fields == [] then Record("", "") else RecordField(RecordFields(fields[..|fields| - 1]), fields[|fields| - 1])
  }

  function RecordId(rec: string): Option<string> {
    var r := RecordFields(GoText.Split(rec, ';'));
    if r.version == "STSv1" && r.id != "" then Some(r.id) else None
  }

  function FirstId(records: seq<string>): Option<string> {
    if records == [] then None
    else if RecordId(records[0]).Some? then RecordId(records[0])
    else FirstId(records[1..])
  }

  /** `records` is the answer of the resolver, None if the lookup failed. */
  method LookupSTSID(records: Option<seq<string>>) returns (id: Option<string>)
    ensures id == if records.None? then None else FirstId(records.value)
  {
    hide GoText.Split, GoText.TrimSpace, Cut;
    if records.None? {
      return None;
    }
    var i := 0;
    while i < |records.value|
      invariant i <= |records.value|
      invariant FirstId(records.value) == FirstId(records.value[i..])
    {
      var version, recID := "", "";
      var fields := GoText.Split(records.value[i], ';');
      for j := 0 to |fields|
        invariant Record(version, recID) == RecordFields(fields[..j])
      {
        assert fields[..j + 1][..j] == fields[..j];
        var cut := Cut(fields[j], '=');
        if cut.None? {
          continue;
        }
        var key := GoText.TrimSpace(cut.value.0);
        if key == "v" {
          version := GoText.TrimSpace(cut.value.1);
        } else if key == "id" {
          recID := GoText.TrimSpace(cut.value.1);
        }
      }
      assert fields[..|fields|] == fields;
      if version == "STSv1" && recID != "" {
        return Some(recID);
      }
      assert records.value[i..][1..] == records.value[i + 1..];
      i := i + 1;
    }
    return None;
  }

  // ---------------------------------------------------------------- matching an MX host

  function TrimDot(s: string): string {
    if s != "" && s[|s| - 1] == '.' then s[..|s| - 1] else s
  }

  predicate MatchMXPattern(pattern: string, host: string) {
    if |pattern| >= 2 && pattern[..2] == "*." then
      var cut := Cut(host, '.');
      cut.Some? && cut.value.1 == pattern[2..]
    else pattern == host
  }

  predicate AllowsMX(p: Policy, mxHost: string) {
    exists i :: 0 <= i < |p.mx| && MatchMXPattern(TrimDot(p.mx[i]), Text.Lower(TrimDot(mxHost)))
  }

  method PolicyAllowsMX(p: Policy, mxHost: string) returns (ok: bool)
    ensures ok == AllowsMX(p, mxHost)
  {
    var host := Text.Lower(TrimDot(mxHost));
    for i := 0 to |p.mx|
      invariant forall j :: 0 <= j < i ==> !MatchMXPattern(TrimDot(p.mx[j]), host)
    {
      if MatchMXPattern(TrimDot(p.mx[i]), host) {
        return true;
      }
    }
    return false;
  }

  function Joined(parts: seq<string>, c: char): string {
    if parts == [] then ""
    else if |parts| == 1 then parts[0]
    else parts[0] + [c] + Joined(parts[1..], c)
  }

  /** Splitting at a character loses nothing. */
  lemma {:induction false} JoinedSplit(s: string, c: char)
    ensures Joined(GoText.Split(s, c), c) == s
    decreases |s|
  {
    match GoText.IndexByte(s, c) {
      case None =>
      case Some(i) =>
        JoinedSplit(s[i + 1..], c);
        var p := GoText.Split(s, c);
        assert p[0] == s[..i] && p[1..] == GoText.Split(s[i + 1..], c);
        assert s == s[..i] + [c] + s[i + 1..];
    }
  }

  lemma SplitIsInjective(a: string, b: string, c: char)
    ensures GoText.Split(a, c) == GoText.Split(b, c) <==> a == b
  {
    hide GoText.Split, Joined;
    JoinedSplit(a, c);
    JoinedSplit(b, c);
  }

  lemma FirstLabel(s: string)
    ensures var p := GoText.Split(s, '.'); match Cut(s, '.')
            case None => p == [s]
            case Some((first, rest)) => p == [first] + GoText.Split(rest, '.')
  {
  }

  lemma StarLabel(s: string)
    ensures var p := GoText.Split(s, '.');
            |p| >= 2 && p[0] == "*" <==> |s| >= 2 && s[..2] == "*."
    ensures |s| >= 2 && s[..2] == "*." ==> Cut(s, '.') == Some(("*", s[2..]))
  {
    if |s| >= 2 && s[..2] == "*." {
      assert s == "*" + ['.'] + s[2..];
      assert s[0] == s[..2][0] && s[1] == s[..2][1];
      GoText.SplitOff("*", '.', s[2..]);
    }
    var at := GoText.IndexByte(s, '.');
    if at.Some? {
      assert GoText.Split(s, '.')[0] == s[..at.value];
      assert s[..at.value] == "*" ==> at.value == 1 && s[..2] == s[..1] + [s[1]];
    }
  }

  /** A pattern stands for the host with the same labels; a leading `*` label stands for exactly one label, whatever
    * it is (section 4.1 of RFC 8461). */
  lemma MatchIsByLabels(pattern: string, host: string)
    ensures var p, h := GoText.Split(pattern, '.'), GoText.Split(host, '.');
            MatchMXPattern(pattern, host) <==>
            p == h || (|p| >= 2 && p[0] == "*" && |h| == |p| && h[1..] == p[1..])
  {
    hide GoText.Split, Cut;
    FirstLabel(pattern);
    FirstLabel(host);
    StarLabel(pattern);
    SplitIsInjective(pattern, host, '.');
    var cut := Cut(host, '.');
    if cut.Some? && |pattern| >= 2 {
      SplitIsInjective(cut.value.1, pattern[2..], '.');
      assert GoText.Split(host, '.')[1..] == GoText.Split(cut.value.1, '.');
    }
  }

  // ---------------------------------------------------------------- what a policy body says

  /** The values given for `key`, in order; lines without a separator say nothing. */
  function Values(lines: seq<string>, separator: char, key: string): seq<string> {
    if lines == [] then []
    else
      var before, cut := Values(lines[..|lines| - 1], separator, key), Cut(lines[|lines| - 1], separator);
      if cut.Some? && GoText.TrimSpace(cut.value.0) == key then before + [GoText.TrimSpace(cut.value.1)] else before
  }

  function LastOr(values: seq<string>, default: string): string {
    if values == [] then default else values[|values| - 1]
  }

  function LowerNonEmpty(values: seq<string>): seq<string> {
    if values == [] then []
    else
      var before, v := LowerNonEmpty(values[..|values| - 1]), values[|values| - 1];
      if v == "" then before else before + [Text.Lower(v)]
  }

  function LastPositive(values: seq<string>): int {
    if values == [] then 0
    else
      var secs := GoText.Atoi(values[|values| - 1]);
      if secs.Some? && secs.value > 0 then Wrap64(secs.value * SECOND) else LastPositive(values[..|values| - 1])
  }

  lemma FieldNamesDiffer()
    ensures "version" != "mode" && "version" != "mx" && "version" != "max_age"
    ensures "mode" != "mx" && "mode" != "max_age" && "mx" != "max_age"
  {
    assert |"version"| == 7 && |"mode"| == 4 && |"mx"| == 2 && |"max_age"| == 7;
    assert "version"[0] == 'v' && "max_age"[0] == 'm';
  }

  /** `values` with `v` behind it if the field is the one meant. */
  function Extended(values: seq<string>, field: string, key: string, v: string): seq<string> {
    if key == field then values + [v] else values
  }

  lemma FieldMeaning(
    versions: seq<string>, modes: seq<string>, hosts: seq<string>, ages: seq<string>, k: string, v: string)
    ensures ParseField(
              Parse(LastOr(versions, ""), LastOr(modes, ""), LowerNonEmpty(hosts), LastPositive(ages)), k, v) ==
            Parse(LastOr(Extended(versions, "version", k, v), ""), LastOr(Extended(modes, "mode", k, v), ""),
                  LowerNonEmpty(Extended(hosts, "mx", k, v)), LastPositive(Extended(ages, "max_age", k, v)))
  {
    hide GoText.Atoi, Text.Lower, Wrap64;
    FieldNamesDiffer();
    DropLast(hosts, v);
    DropLast(ages, v);
  }

  /** The last version, mode and usable age count, every MX host counts, whatever the order of the lines and the
    * line endings; other keys are ignored. */
  lemma {:induction false} ParseMeaning(lines: seq<string>)
    ensures ParseLines(lines) ==
            Parse(LastOr(Values(lines, ':', "version"), ""), LastOr(Values(lines, ':', "mode"), ""),
                  LowerNonEmpty(Values(lines, ':', "mx")), LastPositive(Values(lines, ':', "max_age")))
  {
    hide GoText.TrimSpace, Cut, LastOr, LowerNonEmpty, LastPositive, ParseField;
    if lines == [] {
      NothingMeant();
    } else {
      var init, line := lines[..|lines| - 1], lines[|lines| - 1];
      ParseMeaning(init);
      var cut := Cut(line, ':');
      if cut.Some? {
        FieldMeaning(
          Values(init, ':', "version"), Values(init, ':', "mode"), Values(init, ':', "mx"),
          Values(init, ':', "max_age"), GoText.TrimSpace(cut.value.0), GoText.TrimSpace(cut.value.1));
      }
    }
  }

  lemma NothingMeant()
    ensures LastOr([], "") == "" && LowerNonEmpty([]) == [] && LastPositive([]) == 0
  {
  }

  lemma DropLast(values: seq<string>, v: string)
    ensures (values + [v])[..|values + [v]| - 1] == values
  {
  }

  // ---------------------------------------------------------------- reading what is served

  lemma TrimSpaceOnLeft(v: string)
    ensures GoText.TrimSpace(" " + v) == GoText.TrimSpace(v)
  {
    assert (" " + v)[1..] == v;
  }

  lemma FieldLine(s: Parse, k: string, v: string)
    requires ':' !in k && GoText.TrimSpace(k) == k
    ensures ParseLine(s, k + ": " + v) == ParseField(s, k, GoText.TrimSpace(v))
  {
    hide ParseField, GoText.TrimSpace;
    var line := k + ": " + v;
    assert ": " + v == ":" + (" " + v);
    assert line[|k|] == ':' && line[..|k|] == k && line[|k| + 1..] == " " + v;
    assert forall i :: 0 <= i < |k| ==> line[i] == k[i] && k[i] in k;
    assert ':' in line;
    var at := GoText.IndexByte(line, ':').value;
    assert at == |k|;
    TrimSpaceOnLeft(v);
  }

  lemma NamesArePlain()
    ensures ':' !in "version" && GoText.TrimSpace("version") == "version"
    ensures ':' !in "mode" && GoText.TrimSpace("mode") == "mode"
    ensures ':' !in "mx" && GoText.TrimSpace("mx") == "mx"
    ensures ':' !in "max_age" && GoText.TrimSpace("max_age") == "max_age"
    ensures GoText.TrimSpace("STSv1") == "STSv1"
  {
    hide GoText.TrimSpace;
    GoText.TrimSpaceIdentity("version");
    GoText.TrimSpaceIdentity("mode");
    GoText.TrimSpaceIdentity("mx");
    GoText.TrimSpaceIdentity("max_age");
    GoText.TrimSpaceIdentity("STSv1");
  }

  lemma ModesArePlain(mode: string)
    requires ValidMode(mode)
    ensures mode != "" && '\n' !in mode && GoText.TrimSpace(mode) == mode
  {
    hide GoText.TrimSpace;
    GoText.TrimSpaceIdentity(mode);
  }

  lemma NumberIsReadBack(n: nat)
    requires 0 < n <= GoText.MAX_INT
    ensures GoText.TrimSpace(GoText.Decimal(n)) == GoText.Decimal(n)
    ensures GoText.Atoi(GoText.TrimSpace(GoText.Decimal(n))) == Some(n)
    ensures '\n' !in GoText.Decimal(n)
  {
    hide GoText.TrimSpace, GoText.Decimal, GoText.Atoi;
    var d := GoText.Decimal(n);
    assert d[0] in d && d[|d| - 1] in d;
    GoText.TrimSpaceIdentity(d);
    GoText.AtoiDecimal(n);
  }

  lemma Assoc(a: string, b: string, c: string)
    ensures a + b + c == a + (b + c)
  {
  }

  lemma OneLine(line: string, rest: string)
    requires '\n' !in line
    ensures GoText.Split(line + "\n" + rest, '\n') == [line] + GoText.Split(rest, '\n')
  {
    hide GoText.Split;
    GoText.SplitOff(line, '\n', rest);
    assert line + "\n" + rest == line + ['\n'] + rest;
  }

  lemma LastLine(line: string)
    requires '\n' !in line
    ensures GoText.Split(line + "\n", '\n') == [line] + [""]
  {
    assert GoText.Split("", '\n') == [""];
    hide GoText.Split;
    OneLine(line, "");
    assert line + "\n" + "" == line + "\n";
  }

  lemma Five<T>(a: T, b: T, c: T, d: T, e: T)
    ensures [a] + ([b] + ([c] + ([d] + [e]))) == [a, b, c, d, e]
  {
  }

  lemma FourLines(a: string, b: string, c: string, d: string)
    requires '\n' !in a && '\n' !in b && '\n' !in c && '\n' !in d
    ensures GoText.Split(a + "\n" + b + "\n" + c + "\n" + d + "\n", '\n') == [a, b, c, d, ""]
  {
    hide GoText.Split;
    RightNested(a, b, c, d, "\n");
    var t4 := d + "\n";
    LastLine(d);
    OneLine(c, t4);
    var t3 := c + "\n" + t4;
    OneLine(b, t3);
    var t2 := b + "\n" + t3;
    OneLine(a, t2);
    Five(a, b, c, d, "");
  }

  lemma RightNested(a: string, b: string, c: string, d: string, n: string)
    ensures a + n + b + n + c + n + d + n == a + n + (b + n + (c + n + (d + n)))
  {
    Assoc(a + n + b + n + c + n, d, n);
    Assoc(a + n + b + n, c, n);
    Assoc(a + n + b + n, c + n, d + n);
    Assoc(a + n, b, n);
    Assoc(a + n, b + n, c + n + (d + n));
  }

  lemma FiveFolded(a: string, b: string, c: string, d: string, e: string)
    ensures ParseLines([a, b, c, d, e]) ==
            ParseLine(ParseLine(ParseLine(ParseLine(ParseLine(Parse("", "", [], 0), a), b), c), d), e)
  {
    hide ParseLine;
    assert [a, b, c, d, e][..4] == [a, b, c, d] && [a, b, c, d][..3] == [a, b, c];
    assert [a, b, c][..2] == [a, b] && [a, b][..1] == [a] && [a][..0] == [];
    assert ParseLines([a]) == ParseLine(Parse("", "", [], 0), a);
    assert ParseLines([a, b]) == ParseLine(ParseLines([a]), b);
    assert ParseLines([a, b, c]) == ParseLine(ParseLines([a, b]), c);
    assert ParseLines([a, b, c, d]) == ParseLine(ParseLines([a, b, c]), d);
  }

  /** The MX list read from a served host name. */
  function MxList(mx: string): seq<string> {
    var v := GoText.TrimSpace(mx);
    if v == "" then [] else [Text.Lower(v)]
  }

  /** What is served reads back: the mode, the host in lower case, and the age, which as a lifetime in the cache is
    * a day for either mode. Nothing is served if and only if the mode is "disabled". */
  lemma PolicyIsReadBack(mode: string, mx: string)
    requires ValidMode(mode) && '\n' !in mx
    ensures Served(mode, mx).None? <==> mode == "disabled"
    ensures Served(mode, mx).Some? ==>
              var age := (if mode == "enforce" then 604_800 else 86_400) * SECOND;
              ParsedPolicy(Served(mode, mx).value) == Some((Policy(mode, MxList(mx), ""), age))
              && ClampMaxAge(age) == MAX_AGE_CAP
  {
    if mode != "disabled" {
      var age: nat := if mode == "enforce" then 604_800 else 86_400;
      ModesArePlain(mode);
      LinesAreReadBack(mode, mx, age);
    }
  }

  /** What is served reads back with the mode in force now, which without a stored one is "testing" until 48 hours
    * after the last change and "enforce" from then on. */
  lemma ServedPolicyIsReadBack(stored: Option<string>, changedAt: Option<int>, now: int, mx: string)
    requires (stored.Some? ==> ValidMode(stored.value)) && '\n' !in mx
    ensures var mode := EffectiveMode(stored, changedAt, now);
      && (mode == "enforce" <==> stored == Some("enforce")
                                 || (stored.None? && changedAt.Some? && now >= changedAt.value + 48 * 3600 * SECOND))
      && (match Served(mode, mx)
          case None => stored == Some("disabled")
          case Some(body) => ParsedPolicy(body).Some? && ParsedPolicy(body).value.0 == Policy(mode, MxList(mx), ""))
  {
    hide Served, ParsedPolicy, MxList;
    assert |"testing"| == 7 && |"enforce"| == 7 && |"disabled"| == 8 && "testing"[0] != "enforce"[0];
    PolicyIsReadBack(EffectiveMode(stored, changedAt, now), mx);
  }

  lemma LinesAreReadBack(mode: string, mx: string, age: nat)
    requires mode != "" && '\n' !in mode && GoText.TrimSpace(mode) == mode && '\n' !in mx && 0 < age <= 1_000_000
    ensures ParsedPolicy("version: STSv1" + "\n" + ("mode: " + mode) + "\n" + ("mx: " + mx) + "\n"
                         + ("max_age: " + GoText.Decimal(age)) + "\n") ==
            Some((Policy(mode, MxList(mx), ""), age * SECOND))
  {
    hide GoText.TrimSpace, GoText.Decimal, GoText.Split, GoText.Atoi, ParseLines, ParseLine, Text.Lower;
    NamesArePlain();
    NumberIsReadBack(age);
    FieldNamesDiffer();
    var a, b, c, d := "version: STSv1", "mode: " + mode, "mx: " + mx, "max_age: " + GoText.Decimal(age);
    FourLines(a, b, c, d);
    FiveFolded(a, b, c, d, "");
    var s0 := Parse("", "", [], 0);
    assert a == "version" + ": " + "STSv1" && b == "mode" + ": " + mode && c == "mx" + ": " + mx;
    assert d == "max_age" + ": " + GoText.Decimal(age);
    FieldLine(s0, "version", "STSv1");
    var s1 := s0.(version := "STSv1");
    FieldLine(s1, "mode", mode);
    var s2 := s1.(mode := mode);
    FieldLine(s2, "mx", mx);
    var s3 := s2.(mx := MxList(mx));
    FieldLine(s3, "max_age", GoText.Decimal(age));
    var s4 := s3.(maxAge := age * SECOND);
    assert Wrap64(age * SECOND) == age * SECOND;
    assert ParseLine(s0, a) == s1;
    assert ParseLine(s1, b) == s2;
    assert ParseLine(s2, c) == s3;
    assert ParseLine(s3, d) == s4;
    EmptyLine(s4);
    assert ParseLines([a, b, c, d, ""]) == s4;
  }

  lemma EmptyLine(s: Parse)
    ensures ParseLine(s, "") == s
  {
  }

  /** A sender that reads the policy served accepts our mail host in any case, with or without the final dot, and no
    * other host. */
  lemma OnlyOurHostIsAllowed(mode: string, mx: string, host: string)
    requires ValidMode(mode) && mode != "disabled"
    requires '\n' !in mx && mx != "" && GoText.TrimSpace(mx) == mx && mx[0] != '*'
    ensures var p := ParsedPolicy(Served(mode, mx).value);
            p.Some? && (AllowsMX(p.value.0, host) <==> GoText.EqualFold(TrimDot(host), TrimDot(mx)))
  {
    hide GoText.TrimSpace, ParsedPolicy, Served;
    PolicyIsReadBack(mode, mx);
    var lower := Text.Lower(mx);
    assert MxList(mx) == [lower];
    TextLaws.FoldIsLower(TrimDot(host), TrimDot(mx));
    assert TrimDot(lower) == Text.Lower(TrimDot(mx));
    assert TrimDot(lower) != "" ==> TrimDot(lower)[0] != '*';
    var p := ParsedPolicy(Served(mode, mx).value).value.0;
    assert p.mx == [lower];
    assert AllowsMX(p, host) <==> MatchMXPattern(TrimDot(p.mx[0]), Text.Lower(TrimDot(host)));
  }

  /** The TXT record the domain page asks for. */
  function TxtRecord(id: string): string {
    "v=STSv1; id=" + id
  }

  /** The id is found again, whatever records are around it that are not MTA-STS records. */
  lemma TxtIsReadBack(id: string, others: seq<string>, rest: seq<string>)
    requires id != "" && ';' !in id && GoText.TrimSpace(id) == id
    requires forall o :: o in others ==> RecordId(o).None?
    ensures FirstId(others + [TxtRecord(id)] + rest) == Some(id)
    decreases |others|
  {
    if others == [] {
      assert others + [TxtRecord(id)] + rest == [TxtRecord(id)] + rest;
      RecordIsReadBack(id);
      hide RecordId;
    } else {
      var all := others + [TxtRecord(id)] + rest;
      assert all[0] == others[0] && all[1..] == others[1..] + [TxtRecord(id)] + rest;
      hide RecordId;
      TxtIsReadBack(id, others[1..], rest);
    }
  }

  lemma RecordIsReadBack(id: string)
    requires id != "" && ';' !in id && GoText.TrimSpace(id) == id
    ensures RecordId(TxtRecord(id)) == Some(id)
  {
    hide GoText.TrimSpace, GoText.Split, RecordFields, RecordField;
    var a, b := "v=STSv1", " id=" + id;
    assert TxtRecord(id) == a + [';'] + b;
    GoText.SplitOff(a, ';', b);
    LastPiece(b);
    assert [a] + [b] == [a, b];
    TwoFields(a, b);
    VersionField(a);
    IdField(id);
  }

  lemma TwoFields(a: string, b: string)
    ensures RecordFields([a, b]) == RecordField(RecordField(Record("", ""), a), b)
  {
    hide RecordField;
    assert [a, b][..1] == [a] && [a][..0] == [];
    assert RecordFields([a]) == RecordField(Record("", ""), a);
  }

  lemma VersionField(a: string)
    requires a == "v=STSv1"
    ensures RecordField(Record("", ""), a) == Record("STSv1", "")
  {
    hide GoText.TrimSpace, Cut;
    CutAt("v", "STSv1");
    assert a == "v" + "=" + "STSv1";
    GoText.TrimSpaceIdentity("v");
    GoText.TrimSpaceIdentity("STSv1");
  }

  lemma IdField(id: string)
    requires GoText.TrimSpace(id) == id
    ensures RecordField(Record("STSv1", ""), " id=" + id) == Record("STSv1", id)
  {
    hide GoText.TrimSpace, Cut;
    CutAt(" id", id);
    assert " id=" + id == " id" + "=" + id;
    GoText.TrimSpaceIdentity("id");
    TrimSpaceOnLeft("id");
    assert " " + "id" == " id";
    assert |"v"| == 1 && |"id"| == 2;
  }

  lemma LastPiece(b: string)
    requires ';' !in b
    ensures GoText.Split(b, ';') == [b]
  {
    assert GoText.IndexByte(b, ';').None?;
  }

  lemma CutAt(k: string, v: string)
    requires '=' !in k
    ensures Cut(k + "=" + v, '=') == Some((k, v))
  {
    var s := k + "=" + v;
    assert s[|k|] == '=' && s[..|k|] == k && s[|k| + 1..] == v;
    assert forall i :: 0 <= i < |k| ==> s[i] == k[i] && k[i] in k;
    assert '=' in s;
    assert GoText.IndexByte(s, '=').value == |k|;
  }
}
