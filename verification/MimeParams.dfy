/** Header parameters as other mail programs print them: quoted or not, their names in any case (section 2 of RFC 2183
  * and section 5.1 of RFC 2045). */
module MimeParams {
  import opened Wrappers
  import opened MimeHeaders
  import opened MimeReader
  import opened MimeTypes
  import opened Text
  import MimeNames

  /** A token as the patterns take it: not empty, up to a semicolon or white space. */
  ghost predicate Token(token: string) {
    token != "" && forall i :: 0 <= i < |token| ==> token[i] != ';' && !IsSpace(token[i])
  }

  ghost predicate EndsToken(rest: string) {
    rest != "" ==> rest[0] == ';' || IsSpace(rest[0])
  }

  ghost predicate Letters(key: string) {
    key != "" && forall i :: 0 <= i < |key| ==> IsLetter(key[i])
  }

  // ---------------------------------------------------------------- where a key matches

  lemma AbsentCharacter(s: string, key: string, k: nat, i: nat)
    requires k < |key| && !('a' <= key[k] <= 'z') && key[k] !in s
    ensures !MatchesAt(Lower(s), key, i)
  {
    assert forall j :: 0 <= j < |s| ==> s[j] in s;
    assert forall j :: 0 <= j < |s| ==> Lower(s)[j] != key[k];
    if MatchesAt(Lower(s), key, i) {
      MatchesAtElement(Lower(s), key, i, k);
    }
  }

  /** The key does not match before the place where it stands, as nothing before that has an equals sign. */
  lemma NotEarlier(prefix: string, key: string, tail: string, pattern: string, i: nat)
    requires Letters(key) && '=' !in prefix && i < |prefix|
    requires |pattern| > |key| && pattern[|key|] == '='
    ensures !MatchesAt(Lower(prefix + key + tail), pattern, i)
  {
    var s := prefix + key + tail;
    forall at | 0 <= at < |prefix| + |key| ensures Lower(s)[at] != '=' {
      assert s[at] == if at < |prefix| then prefix[at] else key[at - |prefix|];
      assert at < |prefix| ==> prefix[at] in prefix;
    }
    if MatchesAt(Lower(s), pattern, i) {
      MatchesAtElement(Lower(s), pattern, i, |key|);
    }
  }

  lemma MatchesHere(prefix: string, key: string, tail: string, rest: string, pattern: string)
    requires pattern == Lower(key) + tail && Lower(tail) == tail
    ensures MatchesAt(Lower(prefix + key + tail + rest), pattern, |prefix|)
  {
    var s := prefix + key + tail + rest;
    assert s[|prefix|..|prefix| + |pattern|] == key + tail;
    assert Lower(s)[|prefix|..|prefix| + |pattern|] == Lower(key + tail);
    assert Lower(key + tail) == Lower(key) + Lower(tail);
  }

  lemma {:induction false} TokenEndAt(s: string, i: nat, k: nat)
    requires i <= k <= |s| && forall j :: i <= j < k ==> s[j] != ';' && !IsSpace(s[j])
    requires k == |s| || s[k] == ';' || IsSpace(s[k])
    ensures TokenEnd(s, i) == k
    decreases k - i
  {
    if i < k {
      TokenEndAt(s, i + 1, k);
    }
  }

  lemma TokenHere(prefix: string, key: string, token: string, rest: string)
    requires Token(token) && EndsToken(rest)
    ensures TokenAt(prefix + key + "=" + token + rest, Lower(key) + "=", |prefix|) == Some(token)
  {
    hide MatchesAt, TokenEnd, Lower;
    var s := prefix + key + "=" + token + rest;
    assert Lower("=") == "=" by { LowerOfSign(); }
    assert prefix + key + "=" + (token + rest) == s;
    MatchesHere(prefix, key, "=", token + rest, Lower(key) + "=");
    var from := |prefix| + |key| + 1;
    assert forall j :: 0 <= j < |token| ==> s[from + j] == token[j];
    assert rest != "" ==> s[from + |token|] == rest[0];
    TokenEndAt(s, from, from + |token|);
    assert s[from..from + |token|] == token;
  }

  lemma LowerOfSign()
    ensures Lower("=") == "=" && Lower("=\"") == "=\""
  {}

  lemma QuotedHere(prefix: string, key: string, value: string, rest: string)
    requires '"' !in value
    ensures QuotedAt(prefix + key + "=\"" + value + "\"" + rest, Lower(key) + "=\"", |prefix|) == Some(value)
  {
    hide Lower;
    var s, q := prefix + key + "=\"" + value + "\"" + rest, "\"";
    LowerOfSign();
    assert prefix + key + "=\"" + (value + q + rest) == s;
    MatchesHere(prefix, key, "=\"", value + q + rest, Lower(key) + "=\"");
    var from := |prefix| + |key| + 2;
    var end := from + |value|;
    assert s[end..end + 1] == q;
    forall j: nat | from <= j < end ensures !MatchesAt(s, q, j) {
      assert s[j..j + 1][0] == value[j - from];
      assert value[j - from] in value;
    }
    IndexOfIs(s, q, from, end);
    assert s[from..end] == value;
  }

  // ---------------------------------------------------------------- parameters

  lemma NoExtendedForm(header: string, param: string)
    requires '*' !in header
    ensures Leftmost(|header|, (i: nat) => TokenAt(header, Lower(param) + "*=", i)).None?
  {
    hide MatchesAt, Lower, TokenEnd;
    var key := Lower(param) + "*=";
    var at := (i: nat) => TokenAt(header, key, i);
    forall i: nat ensures at(i).None? {
      AbsentCharacter(header, key, |Lower(param)|, i);
    }
    LeftmostNone(|header|, at, 0);
  }

  lemma NoQuotedForm(header: string, param: string)
    requires '"' !in header
    ensures Leftmost(|header|, (i: nat) => QuotedAt(header, Lower(param) + "=\"", i)).None?
  {
    hide MatchesAt, Lower, IndexOf;
    var key := Lower(param) + "=\"";
    var at := (i: nat) => QuotedAt(header, key, i);
    forall i: nat ensures at(i).None? {
      AbsentCharacter(header, key, |Lower(param)| + 1, i);
    }
    LeftmostNone(|header|, at, 0);
  }

  /** `key=token`, the key in any case, behind anything without an equals sign, in a header without quotes and extended
    * forms: the value is the token. */
  lemma TokenParamIsRead(browser: Browser, prefix: string, key: string, token: string, rest: string, param: string)
    requires Letters(key) && Lower(key) == Lower(param) && '=' !in prefix && Token(token) && EndsToken(rest)
    requires '"' !in prefix + token + rest && '*' !in prefix + token + rest
    ensures MimeParamValue(browser, prefix + key + "=" + token + rest, param) == token
  {
    hide Leftmost, TokenAt, QuotedAt, Lower;
    var header := prefix + key + "=" + token + rest;
    OnlyIn(prefix, key, "=", token + rest, '"');
    OnlyIn(prefix, key, "=", token + rest, '*');
    assert header == prefix + key + "=" + (token + rest);
    NoExtendedForm(header, param);
    NoQuotedForm(header, param);
    TokenHere(prefix, key, token, rest);
    FirstToken(prefix, key, "=" + token + rest, Lower(param) + "=");
    assert header == prefix + key + ("=" + token + rest);
    var at := (i: nat) => TokenAt(header, Lower(param) + "=", i);
    LeftmostIs(|header|, at, 0, |prefix|);
  }

  lemma FirstToken(prefix: string, key: string, tail: string, pattern: string)
    requires Letters(key) && '=' !in prefix && |pattern| > |key| && pattern[|key|] == '='
    ensures forall j: nat :: j < |prefix| ==> TokenAt(prefix + key + tail, pattern, j).None?
  {
    hide MatchesAt, Lower, TokenEnd;
    forall j: nat | j < |prefix| ensures TokenAt(prefix + key + tail, pattern, j).None? {
      NotEarlier(prefix, key, tail, pattern, j);
    }
  }

  lemma OnlyIn(prefix: string, key: string, sign: string, tail: string, c: char)
    requires c !in prefix && c !in sign && c !in tail && Letters(key) && !IsLetter(c)
    ensures c !in prefix + key + sign + tail
  {
    forall i | 0 <= i < |key| ensures key[i] != c {}
  }

  /** `key="value"` likewise, the value being anything without a quote. */
  lemma QuotedParamIsRead(browser: Browser, prefix: string, key: string, value: string, rest: string, param: string)
    requires Letters(key) && Lower(key) == Lower(param) && '=' !in prefix && '"' !in value
    requires '*' !in prefix + value + rest
    ensures MimeParamValue(browser, prefix + key + "=\"" + value + "\"" + rest, param) == value
  {
    hide Leftmost, TokenAt, QuotedAt, Lower;
    var header, q := prefix + key + "=\"" + value + "\"" + rest, "\"";
    OnlyIn(prefix, key, "=\"", value + q + rest, '*');
    assert header == prefix + key + "=\"" + (value + q + rest);
    NoExtendedForm(header, param);
    QuotedHere(prefix, key, value, rest);
    var tail := "=\"" + value + q + rest;
    assert header == prefix + key + tail;
    var at := (i: nat) => QuotedAt(header, Lower(param) + "=\"", i);
    forall j: nat | j < |prefix| ensures at(j).None? {
      hide MatchesAt;
      NotEarlier(prefix, key, tail, Lower(param) + "=\"", j);
      NoQuotedAt(header, Lower(param) + "=\"", j);
    }
    LeftmostIs(|header|, at, 0, |prefix|);
  }

  lemma NoQuotedAt(s: string, key: string, i: nat)
    ensures !MatchesAt(Lower(s), key, i) ==> QuotedAt(s, key, i).None?
  {}

  // ---------------------------------------------------------------- boundaries

  lemma {:induction false} SkipAll(s: string, i: nat, k: nat)
    requires i <= k <= |s| && forall j :: i <= j < k ==> IsSpace(s[j])
    requires k < |s| ==> !IsSpace(s[k])
    ensures SkipSpaces(s, i) == k
    decreases k - i
  {
    if i < k {
      SkipAll(s, i + 1, k);
    }
  }

  /** `media; boundary=token`, with any white space after the semicolon and the word in any case. */
  lemma TokenBoundaryIsFound(media: string, blanks: string, key: string, token: string, rest: string)
    requires ';' !in media && (forall i :: 0 <= i < |blanks| ==> IsSpace(blanks[i]))
    requires Letters(key) && Lower(key) == "boundary" && Token(token) && EndsToken(rest)
    requires '"' !in media && '"' !in token && '"' !in rest
    ensures MimeBoundary(media + ";" + blanks + key + "=" + token + rest) == Some(token)
  {
    hide Leftmost, TokenAt, Lower, IsSpace, QuotedAt;
    var prefix := media + ";" + blanks;
    var ct := prefix + key + "=" + token + rest;
    NoQuoteInPrefix(media, blanks);
    OnlyIn(prefix, key, "=", token + rest, '"');
    assert ct == prefix + key + "=" + (token + rest);
    NoQuotedBoundary(ct);
    TokenHere(prefix, key, token, rest);
    SkipsToKey(media, blanks, key, "=" + token + rest);
    assert ct == prefix + key + ("=" + token + rest);
    assert "boundary" + "=" == "boundary=";
    var at := (i: nat) => BoundaryTokenAt(ct, i);
    NoSemicolonBefore(media, blanks + key + "=" + token + rest);
    assert ct == media + ";" + (blanks + key + "=" + token + rest);
    assert at(|media|) == Some(token);
    LeftmostIs(|ct|, at, 0, |media|);
  }

  lemma NoQuoteInPrefix(media: string, blanks: string)
    requires '"' !in media && forall i :: 0 <= i < |blanks| ==> IsSpace(blanks[i])
    ensures '"' !in media + ";" + blanks
  {
    assert !IsSpace('"');
  }

  lemma NoSemicolonBefore(media: string, rest: string)
    requires ';' !in media
    ensures var ct := media + ";" + rest; ct[|media|] == ';' && forall j :: 0 <= j < |media| ==> ct[j] != ';'
  {
    var ct := media + ";" + rest;
    forall j | 0 <= j < |media| ensures ct[j] != ';' {
      assert ct[j] == media[j] && media[j] in media;
    }
  }

  lemma SkipsToKey(media: string, blanks: string, key: string, tail: string)
    requires Letters(key) && forall i :: 0 <= i < |blanks| ==> IsSpace(blanks[i])
    ensures SkipSpaces(media + ";" + blanks + key + tail, |media| + 1) == |media + ";" + blanks|
  {
    var s := media + ";" + blanks + key + tail;
    var from := |media| + 1;
    assert forall j :: from <= j < from + |blanks| ==> s[j] == blanks[j - from];
    assert s[from + |blanks|] == key[0] && IsLetter(key[0]);
    SkipAll(s, from, from + |blanks|);
  }

  lemma NoQuotedBoundary(ct: string)
    requires '"' !in ct
    ensures Leftmost(|ct|, (i: nat) => BoundaryQuotedAt(ct, i)).None?
  {
    hide MatchesAt, Lower, IndexOf, SkipSpaces;
    var at, key := (i: nat) => BoundaryQuotedAt(ct, i), "boundary=\"";
    assert |key| == 10 && key[9] == '"';
    forall i: nat ensures at(i).None? {
      if i < |ct| {
        AbsentCharacter(ct, key, 9, SkipSpaces(ct, i + 1));
      }
    }
    LeftmostNone(|ct|, at, 0);
  }

  /** `media; boundary="value"` likewise, the value not being empty. */
  lemma QuotedBoundaryIsFound(media: string, blanks: string, key: string, value: string, rest: string)
    requires ';' !in media && (forall i :: 0 <= i < |blanks| ==> IsSpace(blanks[i]))
    requires Letters(key) && Lower(key) == "boundary" && '"' !in value && value != ""
    ensures MimeBoundary(media + ";" + blanks + key + "=\"" + value + "\"" + rest) == Some(value)
  {
    hide Leftmost, QuotedAt, Lower, IsSpace;
    var prefix, q := media + ";" + blanks, "\"";
    var ct := prefix + key + "=\"" + value + q + rest;
    QuotedHere(prefix, key, value, rest);
    SkipsToKey(media, blanks, key, "=\"" + value + q + rest);
    assert ct == prefix + key + ("=\"" + value + q + rest);
    assert "boundary" + "=\"" == "boundary=\"";
    var at := (i: nat) => BoundaryQuotedAt(ct, i);
    NoSemicolonBefore(media, blanks + key + "=\"" + value + q + rest);
    assert ct == media + ";" + (blanks + key + "=\"" + value + q + rest);
    assert at(|media|) == Some(value);
    LeftmostIs(|ct|, at, 0, |media|);
  }

  /** An empty boundary in quotes is not taken for one: the two quotes are, as an unquoted boundary. */
  lemma EmptyBoundaryIsTwoQuotes()
    ensures MimeBoundary("a/b;boundary=\"\"") == Some("\"\"")
  {
    hide Leftmost, QuotedAt, TokenAt, Lower;
    var ct, key := "a/b" + ";" + "" + "boundary" + "=" + "\"\"" + "", "boundary";
    assert ct == "a/b;boundary=\"\"";
    var quoted, token := (i: nat) => BoundaryQuotedAt(ct, i), (i: nat) => BoundaryTokenAt(ct, i);
    assert ct == "a/b;" + key + "=\"" + "" + "\"" + "";
    LowerBoundary();
    QuotedHere("a/b;", key, "", "");
    TokenHere("a/b;", key, "\"\"", "");
    assert ct == "a/b;" + key + "=" + "\"\"" + "";
    assert SkipSpaces(ct, 4) == 4;
    assert "boundary" + "=\"" == "boundary=\"" && "boundary" + "=" == "boundary=";
    assert forall i: nat :: i != 3 ==> quoted(i).None?;
    assert quoted(3).None?;
    LeftmostNone(|ct|, quoted, 0);
    LeftmostIs(|ct|, token, 0, 3);
  }

  lemma LowerBoundary()
    ensures Lower("boundary") == "boundary"
  {}

  /** Nothing is read of a parameter that has no value. */
  lemma MissingValueIsNone(prefix: string, key: string, rest: string)
    requires EndsToken(rest)
    ensures TokenAt(prefix + key + "=" + rest, Lower(key) + "=", |prefix|).None?
  {
    hide MatchesAt, Lower;
    var s := prefix + key + "=" + rest;
    LowerOfSign();
    MatchesHere(prefix, key, "=", rest, Lower(key) + "=");
    var from := |prefix| + |key| + 1;
    assert rest != "" ==> s[from] == rest[0];
    TokenEndAt(s, from, from);
  }
}
