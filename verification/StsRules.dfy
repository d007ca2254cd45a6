/** What policy bodies, TXT records and resolutions mean, read off their lines and fields alone. */
module StsRules {
  import opened Wrappers
  import opened MtaSts
  import opened StsCache
  import GoText
  import Text

  // ---------------------------------------------------------------- lines and fields

  /** `text` is `key`, the first separator, `value`, with white space around the two. */
  ghost predicate Says(text: string, separator: char, key: string, value: string) {
    exists k, v ::
      text == k + [separator] + v && separator !in k && GoText.TrimSpace(k) == key && GoText.TrimSpace(v) == value
  }

  /** The last of the texts that says anything about `key` says `value`. */
  ghost predicate LastSays(texts: seq<string>, separator: char, key: string, value: string) {
    exists i ::
      0 <= i < |texts| && Says(texts[i], separator, key, value) && SilentFrom(texts, i + 1, separator, key)
  }

  ghost predicate SilentFrom(texts: seq<string>, from: nat, separator: char, key: string) {
    forall j, value :: from <= j < |texts| ==> !Says(texts[j], separator, key, value)
  }

  lemma CutIsSaying(text: string, separator: char, key: string, value: string)
    ensures Says(text, separator, key, value) <==>
            match Cut(text, separator)
            case None => false
            case Some((k, v)) => GoText.TrimSpace(k) == key && GoText.TrimSpace(v) == value
  {
    hide GoText.TrimSpace;
    var cut := Cut(text, separator);
    if cut.Some? {
      assert text == cut.value.0 + [separator] + cut.value.1;
    }
    if Says(text, separator, key, value) {
      var k, v :| text == k + [separator] + v && separator !in k && GoText.TrimSpace(k) == key
                  && GoText.TrimSpace(v) == value;
      CutOff(k, separator, v);
    }
  }

  lemma CutOff(k: string, separator: char, v: string)
    requires separator !in k
    ensures Cut(k + [separator] + v, separator) == Some((k, v))
  {
    var s := k + [separator] + v;
    assert s[|k|] == separator && s[..|k|] == k && s[|k| + 1..] == v;
    assert forall i :: 0 <= i < |k| ==> s[i] == k[i] && k[i] in k;
  }

  lemma {:induction false} ValuesAreSaid(texts: seq<string>, separator: char, key: string, value: string)
    ensures value in Values(texts, separator, key) <==>
            exists i :: 0 <= i < |texts| && Says(texts[i], separator, key, value)
    decreases |texts|
  {
    if texts != [] {
      hide Says, Cut, GoText.TrimSpace;
      var init, last := texts[..|texts| - 1], texts[|texts| - 1];
      ValuesAreSaid(init, separator, key, value);
      assert init + [last] == texts;
      OneOf(init, last, separator, key, value);
      CutIsSaying(last, separator, key, value);
      assert value in Values(texts, separator, key) <==>
             value in Values(init, separator, key) || Says(last, separator, key, value);
    }
  }

  lemma OneOf(init: seq<string>, last: string, separator: char, key: string, value: string)
    ensures (exists i :: 0 <= i < |init + [last]| && Says((init + [last])[i], separator, key, value)) <==>
            (exists i :: 0 <= i < |init| && Says(init[i], separator, key, value)) || Says(last, separator, key, value)
  {
    hide Says;
    var all := init + [last];
    assert all[|init|] == last && forall i :: 0 <= i < |init| ==> all[i] == init[i];
    if i :| 0 <= i < |init| && Says(init[i], separator, key, value) {
      assert Says(all[i], separator, key, value);
    }
  }

  lemma {:induction false} LastSaid(texts: seq<string>, separator: char, key: string)
    ensures Values(texts, separator, key) == [] <==> SilentFrom(texts, 0, separator, key)
    ensures forall value :: LastSays(texts, separator, key, value) <==>
              Values(texts, separator, key) != [] && LastOr(Values(texts, separator, key), "") == value
    decreases |texts|
  {
    if texts != [] {
      hide Says, Cut, GoText.TrimSpace, SilentFrom, LastSays;
      var init, last := texts[..|texts| - 1], texts[|texts| - 1];
      LastSaid(init, separator, key);
      assert texts == init + [last];
      SilentUntilLast(init, last, separator, key);
      forall value ensures LastSays(texts, separator, key, value) <==>
          Values(texts, separator, key) != [] && LastOr(Values(texts, separator, key), "") == value
      {
        CutIsSaying(last, separator, key, value);
        LastOrBefore(init, last, separator, key, value);
      }
    } else {
      hide Says;
    }
  }

  lemma SilentUntilLast(init: seq<string>, last: string, separator: char, key: string)
    ensures SilentFrom(init + [last], 0, separator, key) <==>
            SilentFrom(init, 0, separator, key)
            && !(Cut(last, separator).Some? && GoText.TrimSpace(Cut(last, separator).value.0) == key)
  {
    hide Says, Cut, GoText.TrimSpace;
    var all, cut := init + [last], Cut(last, separator);
    assert all[|init|] == last && forall i :: 0 <= i < |init| ==> all[i] == init[i];
    forall value {
      CutIsSaying(last, separator, key, value);
    }
    if SilentFrom(all, 0, separator, key) {
      forall j, value | 0 <= j < |init| ensures !Says(init[j], separator, key, value) {
        assert !Says(all[j], separator, key, value);
      }
      if cut.Some? {
        assert !Says(all[|init|], separator, key, GoText.TrimSpace(cut.value.1));
      }
    }
  }

  lemma LastOrBefore(init: seq<string>, last: string, separator: char, key: string, value: string)
    ensures LastSays(init + [last], separator, key, value) <==>
            if Cut(last, separator).Some? && GoText.TrimSpace(Cut(last, separator).value.0) == key
            then GoText.TrimSpace(Cut(last, separator).value.1) == value
            else LastSays(init, separator, key, value)
  {
    hide Says, Cut, GoText.TrimSpace;
    var all, cut := init + [last], Cut(last, separator);
    assert all[|init|] == last && forall i :: 0 <= i < |init| ==> all[i] == init[i];
    forall v {
      CutIsSaying(last, separator, key, v);
    }
    if cut.Some? && GoText.TrimSpace(cut.value.0) == key {
      var said := GoText.TrimSpace(cut.value.1);
      assert Says(all[|init|], separator, key, said);
      if LastSays(all, separator, key, value) {
        var i :| 0 <= i < |all| && Says(all[i], separator, key, value) && SilentFrom(all, i + 1, separator, key);
        assert i == |init|;
      }
      if said == value {
        assert SilentFrom(all, |init| + 1, separator, key);
      }
    } else {
      if LastSays(all, separator, key, value) {
        var i :| 0 <= i < |all| && Says(all[i], separator, key, value) && SilentFrom(all, i + 1, separator, key);
        assert SilentFrom(init, i + 1, separator, key) by {
          assert forall j, v :: i + 1 <= j < |init| && Says(init[j], separator, key, v) ==>
            Says(all[j], separator, key, v);
        }
        assert Says(init[i], separator, key, value);
      }
      if LastSays(init, separator, key, value) {
        var i :| 0 <= i < |init| && Says(init[i], separator, key, value) && SilentFrom(init, i + 1, separator, key);
        assert SilentFrom(all, i + 1, separator, key) by {
          assert forall j, v :: i + 1 <= j < |init| && Says(all[j], separator, key, v) ==>
            Says(init[j], separator, key, v);
        }
        assert Says(all[i], separator, key, value);
      }
    }
  }

  /** Some text says `value` of `key`. */
  ghost predicate Said(texts: seq<string>, separator: char, key: string, value: string) {
    exists i :: 0 <= i < |texts| && Says(texts[i], separator, key, value)
  }

  // ---------------------------------------------------------------- policies

  /** A body is a policy if and only if its last version is `STSv1` and its last mode is not empty; then that is its
    * mode and its hosts are those of all `mx` lines, in lower case. */
  lemma PolicyIsExact(body: string)
    ensures var lines, r := GoText.Split(body, '\n'), ParsedPolicy(body);
      && (r.Some? <==> LastSays(lines, ':', "version", "STSv1")
                       && exists mode :: mode != "" && LastSays(lines, ':', "mode", mode))
      && (r.Some? ==>
            && r.value.0.mode != "" && LastSays(lines, ':', "mode", r.value.0.mode) && r.value.0.id == ""
            && forall h :: h in r.value.0.mx <==>
                 exists v :: v != "" && h == Text.Lower(v) && Said(lines, ':', "mx", v))
  {
    hide LastSays, Says, GoText.Split, Values, LowerNonEmpty, Text.Lower, ParseLines;
    var lines, version, mode, mx := GoText.Split(body, '\n'), "version", "mode", "mx";
    ParseMeaning(lines);
    LastSaid(lines, ':', version);
    LastSaid(lines, ':', mode);
    LowerAre(Values(lines, ':', mx));
    assert |"STSv1"| == 5;
    var s := ParseLines(lines);
    assert s.mode != "" ==> LastSays(lines, ':', mode, s.mode);
    assert s.version == "STSv1" <==> LastSays(lines, ':', version, "STSv1");
    forall v ensures v in Values(lines, ':', mx) <==> Said(lines, ':', mx, v) {
      ValuesAreSaid(lines, ':', mx, v);
    }
  }

  lemma {:induction false} LowerAre(values: seq<string>)
    ensures forall h :: h in LowerNonEmpty(values) <==> exists v :: v != "" && h == Text.Lower(v) && v in values
  {
    hide Text.Lower;
    if values != [] {
      LowerAre(values[..|values| - 1]);
      var last := values[|values| - 1];
      assert forall v :: v in values <==> v in values[..|values| - 1] || v == last;
      assert last != "" ==> Text.Lower(last) in LowerNonEmpty(values);
    }
  }

  /** The host is the one named, up to case and one final dot; a first label `*` stands for any one label. */
  predicate Names(pattern: string, host: string) {
    var p, h := GoText.Split(Text.Lower(TrimDot(pattern)), '.'), GoText.Split(Text.Lower(TrimDot(host)), '.');
    p == h || (|p| >= 2 && p[0] == "*" && |h| == |p| && h[1..] == p[1..])
  }

  /** A policy allows a host if and only if one of its lines names it. */
  lemma HostIsAllowedIff(body: string, host: string)
    requires ParsedPolicy(body).Some?
    ensures AllowsMX(ParsedPolicy(body).value.0, host) <==>
            exists v :: v != "" && Said(GoText.Split(body, '\n'), ':', "mx", v) && Names(v, host)
  {
    hide Said, GoText.Split, Text.Lower, ParsedPolicy, MatchMXPattern, Names, TrimDot;
    PolicyIsExact(body);
    var mx := ParsedPolicy(body).value.0.mx;
    forall v {
      NamesAreMatches(v, host);
    }
    var lines, field := GoText.Split(body, '\n'), "mx";
    if v :| v != "" && Said(lines, ':', field, v) && Names(v, host) {
      assert Text.Lower(v) in mx;
      var i :| 0 <= i < |mx| && mx[i] == Text.Lower(v);
    }
    if i :| 0 <= i < |mx| && MatchMXPattern(TrimDot(mx[i]), Text.Lower(TrimDot(host))) {
      assert mx[i] in mx;
      var v :| v != "" && mx[i] == Text.Lower(v) && Said(lines, ':', field, v);
      assert Names(v, host);
    }
  }

  lemma NamesAreMatches(v: string, host: string)
    ensures MatchMXPattern(TrimDot(Text.Lower(v)), Text.Lower(TrimDot(host))) <==> Names(v, host)
  {
    hide GoText.Split, Text.Lower, MatchMXPattern, TrimDot;
    LowerOfTrimmed(v);
    MatchIsByLabels(TrimDot(Text.Lower(v)), Text.Lower(TrimDot(host)));
  }

  lemma LowerOfTrimmed(v: string)
    ensures TrimDot(Text.Lower(v)) == Text.Lower(TrimDot(v))
  {}

  lemma OneDotIsDropped(s: string)
    ensures TrimDot(s + ".") == s
    ensures (s == "" || s[|s| - 1] != '.') ==> TrimDot(s) == s
  {}

  // ---------------------------------------------------------------- how long a policy is kept

  predicate Usable(value: string, seconds: int) {
    GoText.Atoi(value) == Some(seconds) && seconds > 0
  }

  ghost predicate NoUsableFrom(lines: seq<string>, from: nat) {
    forall j, v, n :: from <= j < |lines| && Says(lines[j], ':', "max_age", v) ==> !Usable(v, n)
  }

  /** The last line that gives a usable age gives this one. */
  ghost predicate LastAge(lines: seq<string>, seconds: int) {
    exists i, v ::
      0 <= i < |lines| && Says(lines[i], ':', "max_age", v) && Usable(v, seconds) && NoUsableFrom(lines, i + 1)
  }

  lemma {:induction false} AgeIsExact(lines: seq<string>)
    ensures var age := ParseLines(lines).maxAge;
      || (age == 0 && NoUsableFrom(lines, 0))
      || exists n :: LastAge(lines, n) && age == Wrap64(n * SECOND)
  {
    hide Wrap64, ParseLines, Values;
    ParseMeaning(lines);
    AgeOfValues(lines);
  }

  lemma {:induction false} AgeOfValues(lines: seq<string>)
    ensures var age := LastPositive(Values(lines, ':', "max_age"));
      || (age == 0 && NoUsableFrom(lines, 0))
      || exists n :: LastAge(lines, n) && age == Wrap64(n * SECOND)
    decreases |lines|
  {
    hide Wrap64, Says, Cut, GoText.TrimSpace, GoText.Atoi, NoUsableFrom, LastAge;
    if lines == [] {
      NoLines();
    } else {
      var init, last, field := lines[..|lines| - 1], lines[|lines| - 1], "max_age";
      assert lines == init + [last];
      AgeOfValues(init);
      var cut := Cut(last, ':');
      if cut.Some? && GoText.TrimSpace(cut.value.0) == field {
        var v := GoText.TrimSpace(cut.value.1);
        CutIsSaying(last, ':', field, v);
        var before := Values(init, ':', field);
        assert (before + [v])[..|before|] == before;
        if n :| Usable(v, n) {
          AgeGiven(init, last, v, n);
        } else {
          assert GoText.Atoi(v).Some? ==> !Usable(v, GoText.Atoi(v).value);
          AgeStays(init, last);
        }
      } else {
        AgeStays(init, last);
      }
    }
  }

  lemma NoLines()
    ensures NoUsableFrom([], 0)
  {}

  lemma AgeGiven(init: seq<string>, last: string, v: string, n: int)
    requires Says(last, ':', "max_age", v) && Usable(v, n)
    ensures LastAge(init + [last], n)
  {
    hide Says, GoText.Atoi;
    assert (init + [last])[|init|] == last;
  }

  lemma AgeStays(init: seq<string>, last: string)
    requires var cut := Cut(last, ':');
             cut.Some? && GoText.TrimSpace(cut.value.0) == "max_age" ==>
               forall n :: !Usable(GoText.TrimSpace(cut.value.1), n)
    ensures NoUsableFrom(init, 0) ==> NoUsableFrom(init + [last], 0)
    ensures forall n :: LastAge(init, n) ==> LastAge(init + [last], n)
  {
    hide Says, GoText.Atoi, Cut, GoText.TrimSpace;
    var all, field := init + [last], "max_age";
    assert all[|init|] == last && forall i :: 0 <= i < |init| ==> all[i] == init[i];
    forall v {
      CutIsSaying(last, ':', field, v);
    }
    forall n | LastAge(init, n) ensures LastAge(all, n) {
      var i, v :| 0 <= i < |init| && Says(init[i], ':', field, v) && Usable(v, n) && NoUsableFrom(init, i + 1);
      assert Says(all[i], ':', field, v);
      assert NoUsableFrom(all, i + 1);
    }
  }

  /** An age of up to 9,223,372,036 seconds counts as given, within five minutes and a day. One second more is negative
    * as a Go duration, and the policy is kept for five minutes. */
  lemma LifetimeIsExact(seconds: nat)
    ensures seconds <= 9_223_372_036 ==>
              ClampMaxAge(Wrap64(seconds * SECOND)) ==
              (if seconds < 300 then 300 else if seconds > 86_400 then 86_400 else seconds) * SECOND
    ensures seconds == 9_223_372_037 ==> ClampMaxAge(Wrap64(seconds * SECOND)) == 300 * SECOND
  {}

  /** The wrap-around is the one of 64-bit two's complement. */
  lemma WrapIsExact(n: int)
    ensures -0x8000_0000_0000_0000 <= Wrap64(n) < 0x8000_0000_0000_0000
    ensures (n - Wrap64(n)) % 0x1_0000_0000_0000_0000 == 0
  {}

  // ---------------------------------------------------------------- the id record

  lemma {:induction false} RecordMeaning(fields: seq<string>)
    ensures RecordFields(fields) == Record(LastOr(Values(fields, '=', "v"), ""), LastOr(Values(fields, '=', "id"), ""))
  {
    hide GoText.TrimSpace, Cut;
    assert |"v"| == 1 && |"id"| == 2;
    if fields != [] {
      RecordMeaning(fields[..|fields| - 1]);
    }
  }

  /** A record gives an id if and only if its last `v` is `STSv1` and its last `id` is not empty. */
  lemma RecordIsExact(rec: string, id: string)
    ensures RecordId(rec) == Some(id) <==>
            var fields := GoText.Split(rec, ';');
            id != "" && LastSays(fields, '=', "v", "STSv1") && LastSays(fields, '=', "id", id)
  {
    hide GoText.Split, LastSays, Says, Values;
    var fields, v, key := GoText.Split(rec, ';'), "v", "id";
    RecordMeaning(fields);
    LastSaid(fields, '=', v);
    LastSaid(fields, '=', key);
    assert |"STSv1"| == 5;
  }

  /** The id is that of the first record that gives one. */
  lemma {:induction false} FirstIdIsExact(records: seq<string>, id: string)
    ensures FirstId(records) == Some(id) <==>
            exists i ::
              && 0 <= i < |records| && RecordId(records[i]) == Some(id)
              && forall j :: 0 <= j < i ==> RecordId(records[j]).None?
    decreases |records|
  {
    hide RecordId;
    if records != [] {
      FirstIdIsExact(records[1..], id);
      var rest := records[1..];
      assert forall i :: 0 < i < |records| ==> records[i] == rest[i - 1];
      if i :| 0 <= i < |rest| && RecordId(rest[i]) == Some(id) && forall j :: 0 <= j < i ==> RecordId(rest[j]).None? {
        if RecordId(records[0]).None? {
          assert RecordId(records[i + 1]) == Some(id);
        }
      }
      if i :| 0 <= i < |records| && RecordId(records[i]) == Some(id)
              && forall j :: 0 <= j < i ==> RecordId(records[j]).None? {
        if i > 0 {
          assert RecordId(rest[i - 1]) == Some(id);
        }
      }
    }
  }

  // ---------------------------------------------------------------- a resolution without a cache

  /** Without an id there is no policy; with one, a failed fetch is an error, a body that is no policy gives none, and
    * any other is returned under the id and kept, if it can be, for its lifetime. */
  lemma LiveIsExact(cache: map<string, Cached>, domain: string, m: Meets)
    requires domain !in cache
    ensures var (after, r) := Resolved(cache, domain, m);
      var current := if m.records.None? then None else FirstId(m.records.value);
      && (current.None? ==> after == cache && r == Ok(None))
      && (current.Some? ==>
            var id := current.value;
            && (m.answer.Err? ==> after == cache && r == Err(m.answer.error))
            && (m.answer.Ok? && ParsedPolicy(m.answer.value).None? ==> after == cache && r == Ok(None))
            && (m.answer.Ok? && ParsedPolicy(m.answer.value).Some? ==>
                  var (p, age) := ParsedPolicy(m.answer.value).value;
                  && r == Ok(Some(Policy(p.mode, p.mx, id)))
                  && after ==
                     if m.putOk then cache[domain := Cached(Policy(p.mode, p.mx, id), m.now + ClampMaxAge(age))]
                     else cache))
  {
    hide ParsedPolicy, FirstId, ClampMaxAge;
  }
}
