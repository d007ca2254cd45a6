/** The file name of an attachment, printed by the composer and read back by the MIME reader. */
module MimeNames {
  import opened Wrappers
  import opened Text
  import opened Base64
  import opened MimeTypes
  import opened MimeReader
  import opened MimeWriter
  import opened MimeHeaders

  lemma LowerConcat(a: string, b: string)
    ensures Lower(a + b) == Lower(a) + Lower(b)
  {}

  const NAME_KEY := "filename=\""
  const EXT_KEY := "filename*="
  const NAME_PREFIX := "attachment; filename=\""
  const EXT_PREFIX := "attachment; filename*="

  // ---------------------------------------------------------------- the value of the printed parameter

  /** What the reader's pattern for an extended parameter finds inside a name, the closing quote behind it. */
  function ExtendedIn(browser: Browser, name: string): Option<string> {
    match Leftmost(|name| + 1, (i: nat) => TokenAt(name + "\"", EXT_KEY, i))
    case None => None
    case Some(token) => ExtendedValue(browser, token)
  }

  function UpToQuote(s: string): string {
    match IndexOf(s, "\"")
    case None => s
    case Some(k) => s[..k]
  }

  /** The parameter value read for a printable name. */
  function ValueRead(browser: Browser, name: string): string {
    match ExtendedIn(browser, name)
    case Some(v) => v
    case None => UpToQuote(name)
  }

  lemma ClosingQuote(prefix: string, name: string)
    requires '"' !in name
    ensures IndexOf(prefix + name + "\"", "\"", |prefix|) == Some(|prefix| + |name|)
    ensures (prefix + name + "\"")[|prefix|..|prefix| + |name|] == name
  {
    var s := prefix + name + "\"";
    forall j: nat | |prefix| <= j < |prefix| + |name| ensures !MatchesAt(s, "\"", j) {
      if MatchesAt(s, "\"", j) {
        MatchesAtElement(s, "\"", j, 0);
      }
    }
    assert s[|prefix| + |name|..|prefix| + |name| + 1] == "\"";
    IndexOfIs(s, "\"", |prefix|, |prefix| + |name|);
  }

  /** Where the key of the quoted form first matches. */
  lemma NamePrefix(rest: string)
    ensures |NAME_PREFIX| == 22 && |NAME_KEY| == 10
    ensures MatchesAt(Lower(NAME_PREFIX + rest), NAME_KEY, 12)
    ensures forall j: nat :: j < 12 ==> !MatchesAt(Lower(NAME_PREFIX + rest), NAME_KEY, j)
  {
    var low := Lower(NAME_PREFIX + rest);
    assert |NAME_PREFIX| == 22 && |NAME_KEY| == 10;
    assert low[12..22] == NAME_KEY;
    assert forall k :: 8 <= k < 20 ==> low[k] != '=';
    forall j: nat | j < 12 ensures !MatchesAt(low, NAME_KEY, j) {
      if MatchesAt(low, NAME_KEY, j) {
        MatchesAtElement(low, NAME_KEY, j, 8);
      }
    }
  }

  /** The quoted form: the name is what stands between the two quotes. */
  lemma QuotedNameFound(name: string)
    requires '"' !in name
    ensures var header := NAME_PREFIX + name + "\"";
            Leftmost(|header|, (i: nat) => QuotedAt(header, NAME_KEY, i)) == Some(name)
  {
    hide MatchesAt, Lower, IndexOf;
    var header := NAME_PREFIX + name + "\"";
    var at := (i: nat) => QuotedAt(header, NAME_KEY, i);
    NamePrefix(name + "\"");
    ConcatAssoc(NAME_PREFIX, name, "\"");
    ClosingQuote(NAME_PREFIX, name);
    assert at(12) == Some(name);
    LeftmostIs(|header|, at, 0, 12);
  }

  lemma QuotedNameIsCut(name: string, k: nat)
    requires k < |name| && name[k] == '"' && forall j :: 0 <= j < k ==> name[j] != '"'
    ensures var header := NAME_PREFIX + name + "\"";
            Leftmost(|header|, (i: nat) => QuotedAt(header, NAME_KEY, i)) == Some(name[..k])
  {
    hide MatchesAt, Lower, IndexOf;
    var header := NAME_PREFIX + name + "\"";
    var at := (i: nat) => QuotedAt(header, NAME_KEY, i);
    NamePrefix(name + "\"");
    ConcatAssoc(NAME_PREFIX, name, "\"");
    FirstQuote(NAME_PREFIX, name, k);
    assert at(12) == Some(name[..k]);
    LeftmostIs(|header|, at, 0, 12);
  }

  lemma FirstQuote(prefix: string, name: string, k: nat)
    requires k < |name| && name[k] == '"' && forall j :: 0 <= j < k ==> name[j] != '"'
    ensures IndexOf(prefix + name + "\"", "\"", |prefix|) == Some(|prefix| + k)
    ensures (prefix + name + "\"")[|prefix|..|prefix| + k] == name[..k]
  {
    var s := prefix + name + "\"";
    forall j: nat | |prefix| <= j < |prefix| + k ensures !MatchesAt(s, "\"", j) {
      if MatchesAt(s, "\"", j) {
        MatchesAtElement(s, "\"", j, 0);
      }
    }
    assert s[|prefix| + k..|prefix| + k + 1] == "\"";
    IndexOfIs(s, "\"", |prefix|, |prefix| + k);
  }

  lemma NoExtendedKeyBefore(rest: string)
    ensures forall j: nat :: j < 22 ==> !MatchesAt(Lower(NAME_PREFIX + rest), EXT_KEY, j)
  {
    var low := Lower(NAME_PREFIX + rest);
    assert |NAME_PREFIX| == 22 && |EXT_KEY| == 10;
    assert forall k :: 8 <= k < 20 ==> low[k] != '*';
    assert low[21] == '"';
    forall j: nat | j < 22 ensures !MatchesAt(low, EXT_KEY, j) {
      if MatchesAt(low, EXT_KEY, j) {
        MatchesAtElement(low, EXT_KEY, j, if j <= 11 then 8 else 21 - j);
      }
    }
  }

  lemma {:induction false} TokenEndShift(a: string, b: string, i: nat)
    requires i <= |b|
    ensures TokenEnd(a + b, |a| + i) == |a| + TokenEnd(b, i)
    decreases |b| - i
  {
    if i < |b| {
      assert (a + b)[|a| + i] == b[i];
      TokenEndShift(a, b, i + 1);
    }
  }

  lemma TokenAtShift(a: string, b: string, key: string, i: nat)
    ensures TokenAt(a + b, key, |a| + i) == TokenAt(b, key, i)
  {
    hide MatchesAt, Lower, TokenEnd;
    LowerConcat(a, b);
    MatchesAtShift(Lower(a), Lower(b), key, i);
    if MatchesAt(Lower(b), key, i) {
      MatchFits(Lower(b), key, i);
      var from := i + |key|;
      TokenEndShift(a, b, from);
      assert (a + b)[|a| + from..|a| + TokenEnd(b, from)] == b[from..TokenEnd(b, from)];
    }
  }

  lemma MatchFits(s: string, p: string, j: nat)
    requires MatchesAt(s, p, j)
    ensures j + |p| <= |s|
  {
  }

  lemma {:induction false} LeftmostSkips(n: nat, at: nat -> Option<string>, i: nat, k: nat)
    requires i <= k <= n && forall j: nat :: i <= j < k ==> at(j).None?
    ensures Leftmost(n, at, i) == Leftmost(n, at, k)
    decreases k - i
  {
    if i < k {
      LeftmostSkips(n, at, i + 1, k);
    }
  }

  lemma {:induction false} LeftmostShift(
    n: nat, at: nat -> Option<string>, k: nat, m: nat, at': nat -> Option<string>, i: nat)
    requires n == k + m && i <= m && forall j: nat :: j <= m ==> at(k + j) == at'(j)
    ensures Leftmost(n, at, k + i) == Leftmost(m, at', i)
    decreases m - i
  {
    assert at(k + i) == at'(i);
    if i < m {
      LeftmostShift(n, at, k, m, at', i + 1);
    }
  }

  lemma ExtendedMatchIsInName(name: string)
    ensures var header := NAME_PREFIX + name + "\"";
            Leftmost(|header|, (i: nat) => TokenAt(header, EXT_KEY, i))
            == Leftmost(|name| + 1, (i: nat) => TokenAt(name + "\"", EXT_KEY, i))
  {
    hide TokenEnd, MatchesAt, Lower;
    var rest := name + "\"";
    var header := NAME_PREFIX + name + "\"";
    assert |NAME_PREFIX| == 22;
    assert header == NAME_PREFIX + rest;
    NoExtendedKeyBefore(rest);
    var at, at' := (i: nat) => TokenAt(header, EXT_KEY, i), (i: nat) => TokenAt(rest, EXT_KEY, i);
    forall j: nat ensures at(22 + j) == at'(j) {
      TokenAtShift(NAME_PREFIX, rest, EXT_KEY, j);
    }
    hide TokenAt;
    LeftmostSkips(|header|, at, 0, 22);
    LeftmostShift(|header|, at, 22, |name| + 1, at', 0);
  }

  lemma QuotedValue(name: string)
    ensures var header := NAME_PREFIX + name + "\"";
            Leftmost(|header|, (i: nat) => QuotedAt(header, NAME_KEY, i)) == Some(UpToQuote(name))
  {
    hide Leftmost, QuotedAt;
    match IndexOf(name, "\"") {
      case None =>
        NoQuoteFound(name);
        QuotedNameFound(name);
      case Some(k) =>
        QuoteFound(name, k);
        QuotedNameIsCut(name, k);
    }
  }

  lemma NoQuoteFound(name: string)
    requires IndexOf(name, "\"").None?
    ensures '"' !in name
  {
    hide IndexOf;
    forall i | 0 <= i < |name| ensures name[i] != '"' {
      assert !MatchesAt(name, "\"", i);
      assert name[i..i + 1] == [name[i]];
    }
  }

  lemma QuoteFound(name: string, k: nat)
    requires IndexOf(name, "\"") == Some(k)
    ensures k < |name| && name[k] == '"' && forall j :: 0 <= j < k ==> name[j] != '"'
  {
    hide IndexOf;
    assert name[k..k + 1][0] == name[k];
    forall j | 0 <= j < k ensures name[j] != '"' {
      assert !MatchesAt(name, "\"", j);
      assert name[j..j + 1] == [name[j]];
    }
  }

  /** For every printable name: the value of an extended parameter hidden in the name, if one decodes, else the name up
    * to its first quote. */
  lemma PrintableNameIsRead(browser: Browser, name: string)
    requires AsciiPrintable(name)
    ensures MimeParamValue(browser, "attachment; " + FilenameParam(browser, name), "filename") ==
      ValueRead(browser, name)
  {
    hide Leftmost, QuotedAt, TokenAt, UpToQuote, ExtendedValue;
    var header := "attachment; " + FilenameParam(browser, name);
    assert Lower("filename") == "filename";
    assert "filename" + "*=" == EXT_KEY && "filename" + "=\"" == NAME_KEY;
    assert header == NAME_PREFIX + name + "\"";
    ExtendedMatchIsInName(name);
    QuotedValue(name);
  }

  // ---------------------------------------------------------------- the extended form

  lemma {:induction false} TokenToEnd(s: string, i: nat)
    requires i <= |s| && forall k :: i <= k < |s| ==> s[k] != ';' && !IsSpace(s[k])
    ensures TokenEnd(s, i) == |s|
    decreases |s| - i
  {
    if i < |s| {
      TokenToEnd(s, i + 1);
    }
  }

  /** Where the key of the extended form first matches. */
  lemma ExtPrefix(rest: string)
    ensures |EXT_PREFIX| == 22 && |EXT_KEY| == 10
    ensures MatchesAt(Lower(EXT_PREFIX + rest), EXT_KEY, 12)
    ensures forall j: nat :: j < 12 ==> !MatchesAt(Lower(EXT_PREFIX + rest), EXT_KEY, j)
  {
    var low := Lower(EXT_PREFIX + rest);
    assert |EXT_PREFIX| == 22 && |EXT_KEY| == 10;
    assert low[12..22] == EXT_KEY;
    assert forall k :: 8 <= k < 20 ==> low[k] != '*';
    forall j: nat | j < 12 ensures !MatchesAt(low, EXT_KEY, j) {
      if MatchesAt(low, EXT_KEY, j) {
        MatchesAtElement(low, EXT_KEY, j, 8);
      }
    }
  }

  const CHARSET := "utf-8''"

  lemma CharsetMark(enc: string)
    ensures |CHARSET| == 7
    ensures IndexOf(CHARSET + enc, "''") == Some(5)
    ensures forall k :: 0 <= k < 7 ==> CHARSET[k] != ';' && !IsSpace(CHARSET[k])
  {
    var token := CHARSET + enc;
    assert token[5..7] == "''";
    assert forall k :: 0 <= k < 5 ==> token[k] != '\'';
    forall j: nat | j < 5 ensures !MatchesAt(token, "''", j) {
      if MatchesAt(token, "''", j) {
        MatchesAtElement(token, "''", j, 0);
      }
    }
    IndexOfIs(token, "''", 0, 5);
  }

  /** The extended form: the token after `filename*=` runs to the end of the header. */
  lemma ExtendedNameFound(enc: string)
    requires forall i :: 0 <= i < |enc| ==> enc[i] != ';' && !IsSpace(enc[i])
    ensures var header := EXT_PREFIX + (CHARSET + enc);
            Leftmost(|header|, (i: nat) => TokenAt(header, EXT_KEY, i)) == Some(CHARSET + enc)
  {
    hide MatchesAt, Lower, IsSpace;
    var token := CHARSET + enc;
    var header := EXT_PREFIX + token;
    var at := (i: nat) => TokenAt(header, EXT_KEY, i);
    ExtPrefix(token);
    CharsetMark(enc);
    TokenToEnd(header, 22);
    assert header[22..|header|] == token;
    assert at(12) == Some(token);
    LeftmostIs(|header|, at, 0, 12);
  }

  // ---------------------------------------------------------------- encoded words in a name

  predicate NoEncodedWord(name: string) {
    forall i :: 0 <= i <= |name| ==> EncodedWordAtStart(name[i..]).None?
  }

  lemma {:induction false} DecodeWordsIdentity(browser: Browser, whole: string, s: string)
    requires NoEncodedWord(s)
    ensures DecodeWords(browser, whole, s) == s
  {
    assert s[0..] == s;
    if s != "" {
      assert forall i :: 0 <= i <= |s| - 1 ==> s[1..][i..] == s[i + 1..];
      DecodeWordsIdentity(browser, whole, s[1..]);
    }
  }

  /** Whether the word decodes; if not, the reader puts the whole value in its place. */
  function WordText(browser: Browser, w: EncodedWord): Option<string> {
    DecodeWordText(browser, w.charset, w.encoding, w.text)
  }

  /** How many encoded words of `s` cannot be decoded. */
  function Undecodable(browser: Browser, s: string): nat
    decreases |s|
  {
    if s == "" then 0
    else
      match EncodedWordAtStart(s)
      case None => Undecodable(browser, s[1..])
      case Some(w) => (if WordText(browser, w).None? then 1 else 0) + Undecodable(browser, s[w.length..])
  }

  /** What `s` decodes to with its undecodable words left out. */
  function Decodable(browser: Browser, s: string): string
    decreases |s|
  {
    if s == "" then ""
    else
      match EncodedWordAtStart(s)
      case None => [s[0]] + Decodable(browser, s[1..])
      case Some(w) =>
        var text := WordText(browser, w);
        (if text.Some? then text.value else "") + Decodable(browser, s[w.length..])
  }

  /** If `s` starts, up to words that decode to nothing, with an undecodable word: what follows that word. */
  function AfterLeadingFailure(browser: Browser, s: string): Option<string>
    decreases |s|
  {
    if s == "" then None
    else
      match EncodedWordAtStart(s)
      case None => None
      case Some(w) =>
        match WordText(browser, w)
        case None => Some(s[w.length..])
        case Some(t) => if t == "" then AfterLeadingFailure(browser, s[w.length..]) else None
  }

  /** The decoding built-ins never return more characters than they are given bytes or characters. */
  ghost predicate NeverLengthens(browser: Browser) {
    && (forall charset, bytes :: browser.decode(charset, bytes).Some? ==>
      |browser.decode(charset, bytes).value| <= |bytes|)
    && (forall s :: browser.decodeURIComponent(s).Some? ==> |browser.decodeURIComponent(s).value| <= |s|)
  }

  lemma {:induction false} HexUnescapeShorter(s: string)
    ensures |HexUnescape(s)| <= |s|
    decreases |s|
  {
    if s != "" {
      HexUnescapeShorter(if HexEscapeAt(s, 0) then s[3..] else s[1..]);
    }
  }

  lemma {:induction false} DecodeLettersShorter(s: string)
    ensures DecodeLetters(s).Some? ==> |DecodeLetters(s).value| <= |s|
    decreases |s|
  {
    hide Value;
    if |s| >= 4 {
      DecodeLettersShorter(s[4..]);
    }
  }

  lemma {:induction false} StripAsciiSpaceShorter(s: string)
    ensures |StripAsciiSpace(s)| <= |s|
  {
    if s != "" {
      StripAsciiSpaceShorter(s[1..]);
    }
  }

  /** A decoded word is shorter than the word. */
  lemma WordShrinks(browser: Browser, s: string)
    requires NeverLengthens(browser) && EncodedWordAtStart(s).Some?
    ensures var w := EncodedWordAtStart(s).value;
            WordText(browser, w).Some? ==> |WordText(browser, w).value| < w.length
  {
    hide DecodeLetters, StripAsciiSpace, HexUnescape;
    var w := EncodedWordAtStart(s).value;
    StripAsciiSpaceShorter(w.text);
    DecodeLettersShorter(StripPadding(StripAsciiSpace(w.text)));
    HexUnescapeShorter(UnderscoresToSpaces(w.text));
    WordTextFits(s);
  }

  lemma WordTextFits(s: string)
    requires EncodedWordAtStart(s).Some?
    ensures |EncodedWordAtStart(s).value.text| < EncodedWordAtStart(s).value.length
  {
    hide MatchesAt;
  }

  function Times(k: nat, n: nat): nat {
    k * n
  }

  lemma TimesOneMore(k: nat, n: nat)
    ensures Times(1 + k, n) == n + Times(k, n) && Times(0, n) == 0
  {}

  /** Each undecodable word stands for the whole value. */
  lemma {:induction false} DecodedLength(browser: Browser, whole: string, s: string)
    ensures |DecodeWords(browser, whole, s)| == Times(Undecodable(browser, s), |whole|) + |Decodable(browser, s)|
    decreases |s|
  {
    hide EncodedWordAtStart, DecodeWordText, Times;
    TimesOneMore(0, |whole|);
    if s != "" {
      match EncodedWordAtStart(s) {
        case None => DecodedLength(browser, whole, s[1..]);
        case Some(w) =>
          DecodedLength(browser, whole, s[w.length..]);
          TimesOneMore(Undecodable(browser, s[w.length..]), |whole|);
      }
    }
  }

  lemma {:induction false} NothingUndecodable(browser: Browser, whole: string, s: string)
    requires Undecodable(browser, s) == 0
    ensures DecodeWords(browser, whole, s) == Decodable(browser, s)
    decreases |s|
  {
    hide EncodedWordAtStart, DecodeWordText;
    if s != "" {
      match EncodedWordAtStart(s) {
        case None => NothingUndecodable(browser, whole, s[1..]);
        case Some(w) => NothingUndecodable(browser, whole, s[w.length..]);
      }
    }
  }

  lemma {:induction false} OneUndecodable(browser: Browser, whole: string, s: string)
    requires Undecodable(browser, s) == 1 && Decodable(browser, s) == ""
    ensures DecodeWords(browser, whole, s) == whole
    decreases |s|
  {
    hide EncodedWordAtStart, DecodeWordText;
    match EncodedWordAtStart(s) {
      case None =>
      case Some(w) =>
        var rest := s[w.length..];
        if WordText(browser, w).None? {
          NothingUndecodable(browser, whole, rest);
        } else {
          OneUndecodable(browser, whole, rest);
        }
    }
  }

  lemma {:induction false} DecodableIsShorter(browser: Browser, s: string)
    requires NeverLengthens(browser)
    ensures |Decodable(browser, s)| <= |s|
    ensures !NoEncodedWord(s) ==> |Decodable(browser, s)| < |s|
    ensures NoEncodedWord(s) ==> Decodable(browser, s) == s && Undecodable(browser, s) == 0
    decreases |s|
  {
    hide EncodedWordAtStart, WordText, NeverLengthens;
    assert s[0..] == s;
    if s == "" {
      NoWordInNothing();
    } else {
      match EncodedWordAtStart(s) {
        case None =>
          var t := s[1..];
          assert forall i :: 0 <= i <= |t| ==> t[i..] == s[i + 1..];
          assert NoEncodedWord(s) <==> NoEncodedWord(t) by {
            assert forall i :: 0 < i <= |s| ==> s[i..] == t[i - 1..];
          }
          DecodableIsShorter(browser, t);
        case Some(w) =>
          WordShrinks(browser, s);
          DecodableIsShorter(browser, s[w.length..]);
          assert !NoEncodedWord(s);
      }
    }
  }

  lemma NoWordInNothing()
    ensures NoEncodedWord("")
  {
  }

  lemma {:induction false} LeadingFailure(browser: Browser, whole: string, s: string)
    requires AfterLeadingFailure(browser, s).Some?
    ensures DecodeWords(browser, whole, s) == whole + DecodeWords(browser, whole, AfterLeadingFailure(browser, s).value)
    ensures Undecodable(browser, s) > 0
    decreases |s|
  {
    hide EncodedWordAtStart, DecodeWordText;
    var w := EncodedWordAtStart(s).value;
    if WordText(browser, w).Some? {
      LeadingFailure(browser, whole, s[w.length..]);
    }
  }

  /** Otherwise something, but no more than `s`, comes before the first copy of the whole value. */
  lemma {:induction false} LaterFailure(browser: Browser, whole: string, s: string) returns (lead: string, more: string)
    requires NeverLengthens(browser)
    requires Undecodable(browser, s) > 0 && AfterLeadingFailure(browser, s).None?
    ensures 0 < |lead| <= |s| && DecodeWords(browser, whole, s) == lead + whole + more
    decreases |s|
  {
    hide EncodedWordAtStart, DecodeWordText, NeverLengthens;
    var first, rest;
    match EncodedWordAtStart(s) {
      case None =>
        first, rest := [s[0]], s[1..];
      case Some(w) =>
        WordShrinks(browser, s);
        first, rest := WordText(browser, w).value, s[w.length..];
    }
    assert DecodeWords(browser, whole, s) == first + DecodeWords(browser, whole, rest);
    assert |first| + |rest| <= |s| && Undecodable(browser, rest) > 0;
    if AfterLeadingFailure(browser, rest).Some? {
      LeadingFailure(browser, whole, rest);
      lead, more := first, DecodeWords(browser, whole, AfterLeadingFailure(browser, rest).value);
      ConcatAssoc(first, whole, more);
    } else {
      var lead';
      lead', more := LaterFailure(browser, whole, rest);
      lead := first + lead';
      Regroup(first, lead', whole, more);
    }
  }

  lemma Regroup(a: string, b: string, c: string, d: string)
    ensures a + (b + c + d) == a + b + c + d
  {
  }

  // ---------------------------------------------------------------- which printable names come back

  /** The name the recipient is shown for a name printed by the composer. */
  function NameShown(browser: Browser, name: string): string {
    MimeDecodeWord(browser, MimeParamValue(browser, "attachment; " + FilenameParam(browser, name), "filename"))
  }

  /** What a printable name meets in the reader, case by case. A name without quote, extended parameter and encoded word
    * comes back; any other comes back only by way of a word that cannot be decoded, for which the reader puts in the
    * whole value again. */
  predicate ComesBack(browser: Browser, name: string) {
    match ExtendedIn(browser, name)
    case Some(v) => Undecodable(browser, v) > 0 && MimeDecodeWord(browser, v) == name
    case None =>
      match IndexOf(name, "\"")
      case None => DecodesToItself(browser, name)
      case Some(k) =>
        match AfterLeadingFailure(browser, name[..k])
        case None => false
        case Some(rest) => DecodeWords(browser, name[..k], rest) == name[k..]
  }

  /** A name without a quote that is read as it stands. */
  lemma WholeNameComesBack(browser: Browser, name: string)
    requires NeverLengthens(browser)
    ensures MimeDecodeWord(browser, name) == name <==> DecodesToItself(browser, name)
  {
    hide DecodeWords, Undecodable, Decodable, NoEncodedWord;
    DecodedLength(browser, name, name);
    DecodableIsShorter(browser, name);
    var n := Undecodable(browser, name);
    if n == 0 {
      NothingUndecodable(browser, name, name);
    } else if n == 1 {
      if Decodable(browser, name) == "" {
        OneUndecodable(browser, name, name);
      }
    } else {
      NoWordInNothing();
      assert name != "";
      assert n * |name| >= 2 * |name|;
    }
  }

  /** A name cut at its first quote. */
  lemma CutNameComesBack(browser: Browser, name: string, k: nat)
    requires NeverLengthens(browser) && IndexOf(name, "\"") == Some(k)
    ensures MimeDecodeWord(browser, name[..k]) == name <==>
            AfterLeadingFailure(browser, name[..k]).Some?
            && DecodeWords(browser, name[..k], AfterLeadingFailure(browser, name[..k]).value) == name[k..]
  {
    hide DecodeWords, Undecodable, Decodable, NoEncodedWord, AfterLeadingFailure, IndexOf;
    QuoteFound(name, k);
    var cut := name[..k];
    if AfterLeadingFailure(browser, cut).Some? {
      LeadingFailure(browser, cut, cut);
      assert name == cut + name[k..];
    } else if Undecodable(browser, cut) == 0 {
      DecodedLength(browser, cut, cut);
      DecodableIsShorter(browser, cut);
    } else {
      var lead, more := LaterFailure(browser, cut, cut);
      var shown := lead + cut + more;
      assert shown[k] == cut[k - |lead|];
    }
  }

  lemma {:induction false} SomeMatch(n: nat, at: nat -> Option<string>, i: nat) returns (k: nat)
    requires i <= n && Leftmost(n, at, i).Some?
    ensures i <= k <= n && at(k) == Leftmost(n, at, i)
    decreases n - i
  {
    if at(i).Some? {
      k := i;
    } else {
      k := SomeMatch(n, at, i + 1);
    }
  }

  lemma TokenFits(s: string, key: string, i: nat)
    ensures TokenAt(s, key, i).Some? ==> |TokenAt(s, key, i).value| + |key| <= |s|
  {
    hide MatchesAt;
  }

  /** A value decoded from inside a name is shorter than the name. */
  lemma ExtendedIsShorter(browser: Browser, name: string)
    requires NeverLengthens(browser) && ExtendedIn(browser, name).Some?
    ensures |ExtendedIn(browser, name).value| < |name|
  {
    hide Leftmost, TokenAt, IndexOf;
    var at := (i: nat) => TokenAt(name + "\"", EXT_KEY, i);
    var k := SomeMatch(|name| + 1, at, 0);
    TokenFits(name + "\"", EXT_KEY, k);
    assert |EXT_KEY| == 10;
  }

  /** The exact condition under which a printable name comes back, for every such name. */
  lemma PrintableNameSurvivesIff(browser: Browser, name: string)
    requires AsciiPrintable(name) && NeverLengthens(browser)
    ensures NameShown(browser, name) == name <==> ComesBack(browser, name)
  {
    hide ExtendedIn, NeverLengthens, MimeDecodeWord, Undecodable, Decodable, AfterLeadingFailure, NoEncodedWord,
      IndexOf;
    PrintableNameIsRead(browser, name);
    match ExtendedIn(browser, name) {
      case Some(v) =>
        ExtendedIsShorter(browser, name);
        if Undecodable(browser, v) == 0 {
          DecodableIsShorter(browser, v);
          ShownIsDecodable(browser, v);
        }
      case None =>
        match IndexOf(name, "\"") {
          case None => WholeNameComesBack(browser, name);
          case Some(k) => CutNameComesBack(browser, name, k);
        }
    }
  }

  lemma ShownIsDecodable(browser: Browser, v: string)
    requires Undecodable(browser, v) == 0
    ensures MimeDecodeWord(browser, v) == Decodable(browser, v)
  {
    NothingUndecodable(browser, v, v);
  }

  /** Where every encoded word that is read can be decoded, only the plain names come back. */
  lemma PlainNamesAloneSurvive(browser: Browser, name: string)
    requires AsciiPrintable(name) && NeverLengthens(browser) && Undecodable(browser, ValueRead(browser, name)) == 0
    ensures NameShown(browser, name) == name <==>
            ExtendedIn(browser, name).None? && '"' !in name && NoEncodedWord(name)
  {
    hide ExtendedIn, NeverLengthens, MimeDecodeWord, Undecodable, Decodable, NoEncodedWord, IndexOf, NameShown;
    PrintableNameSurvivesIff(browser, name);
    if ExtendedIn(browser, name).None? {
      match IndexOf(name, "\"") {
        case None => NoQuoteFound(name);
        case Some(k) =>
          QuoteFound(name, k);
          FailureIsUndecodable(browser, name[..k]);
      }
    }
  }

  lemma FailureIsUndecodable(browser: Browser, s: string)
    ensures AfterLeadingFailure(browser, s).Some? ==> Undecodable(browser, s) > 0
  {
    if AfterLeadingFailure(browser, s).Some? {
      LeadingFailure(browser, "", s);
    }
  }

  /** The percent-encoding built-ins undo each other on `name` and emit no separator. */
  ghost predicate UriCodecWorks(browser: Browser, name: string) {
    var enc := browser.encodeURIComponent(name);
    && browser.decodeURIComponent(enc) == Some(name)
    && forall i :: 0 <= i < |enc| ==> enc[i] != ';' && !IsSpace(enc[i])
  }

  /** What a name decodes to is the name itself: it has no encoded word, or nothing but one that cannot be decoded and
    * words that decode to nothing. */
  predicate DecodesToItself(browser: Browser, name: string) {
    NoEncodedWord(name) || (Undecodable(browser, name) == 1 && Decodable(browser, name) == "")
  }

  /** A printable name is read in quotes, any other one from its percent-encoding. */
  ghost predicate ReadableName(browser: Browser, name: string) {
    if AsciiPrintable(name) then ComesBack(browser, name)
    else DecodesToItself(browser, name) && UriCodecWorks(browser, name)
  }

  /** A name the composer can print: percent-encoding works, if it is needed. */
  ghost predicate Sendable(browser: Browser, name: string) {
    AsciiPrintable(name) || UriCodecWorks(browser, name)
  }

  lemma FilenameHeaderEnds(browser: Browser, name: string)
    requires Sendable(browser, name)
    ensures CleanLine(FilenameParam(browser, name))
    ensures Trim("attachment; " + FilenameParam(browser, name)) == "attachment; " + FilenameParam(browser, name)
  {
    var param := FilenameParam(browser, name);
    if AsciiPrintable(name) {
      assert param[|param| - 1] == '"';
    } else {
      var enc := browser.encodeURIComponent(name);
      assert param == "filename*=utf-8''" + enc;
      assert enc == "" ==> param[|param| - 1] == '\'';
      assert enc != "" ==> param[|param| - 1] == enc[|enc| - 1];
    }
    TrimIdentity("attachment; " + param);
  }

  lemma AttachmentMediaType(params: string)
    ensures MediaTypeOf("attachment; " + params) == "attachment"
  {
    hide MediaTypeOf;
    assert "attachment; " + params == "attachment" + ";" + (" " + params);
    MediaTypeWithParams("attachment", " " + params);
    assert Lower("attachment") == "attachment";
  }

  /** Either printed form of a readable name is shown as that name. */
  lemma FilenameIsReadBack(browser: Browser, name: string)
    requires ReadableName(browser, name)
    ensures NameShown(browser, name) == name
    ensures name != "" ==> MimeParamValue(browser, "attachment; " + FilenameParam(browser, name), "filename") != ""
  {
    hide ExtendedIn, NoEncodedWord, Undecodable, Decodable, AfterLeadingFailure, IndexOf, UriCodecWorks;
    if AsciiPrintable(name) {
      PrintableNameIsRead(browser, name);
      ComingBackIsShown(browser, name);
    } else {
      ExtendedNameIsRead(browser, name);
      ItselfIsShown(browser, name);
    }
  }

  lemma ItselfIsShown(browser: Browser, name: string)
    requires DecodesToItself(browser, name)
    ensures MimeDecodeWord(browser, name) == name
  {
    hide NoEncodedWord, Undecodable, Decodable, DecodeWords;
    if NoEncodedWord(name) {
      DecodeWordsIdentity(browser, name, name);
    } else {
      OneUndecodable(browser, name, name);
    }
  }

  /** The exact condition under which a name comes back, for every name that can be printed in either form. */
  lemma NameSurvivesIff(browser: Browser, name: string)
    requires Sendable(browser, name) && NeverLengthens(browser)
    ensures NameShown(browser, name) == name <==> ReadableName(browser, name)
  {
    hide ComesBack, DecodesToItself, UriCodecWorks, NeverLengthens, MimeDecodeWord;
    if AsciiPrintable(name) {
      PrintableNameSurvivesIff(browser, name);
    } else {
      ExtendedNameIsRead(browser, name);
      WholeNameComesBack(browser, name);
    }
  }

  lemma ExtendedNameIsRead(browser: Browser, name: string)
    requires !AsciiPrintable(name) && UriCodecWorks(browser, name)
    ensures MimeParamValue(browser, "attachment; " + FilenameParam(browser, name), "filename") == name
  {
    hide Leftmost, QuotedAt, TokenAt;
    var header := "attachment; " + FilenameParam(browser, name);
    assert Lower("filename") == "filename";
    assert "filename" + "*=" == EXT_KEY;
    var enc := browser.encodeURIComponent(name);
    var token := CHARSET + enc;
    assert header == EXT_PREFIX + token;
    ExtendedNameFound(enc);
    CharsetMark(enc);
    assert token[7..] == enc;
  }

  /** The condition suffices for any decoders. */
  lemma ComingBackIsShown(browser: Browser, name: string)
    requires ComesBack(browser, name)
    ensures MimeDecodeWord(browser, ValueRead(browser, name)) == name
  {
    hide ExtendedIn, Undecodable, Decodable, AfterLeadingFailure, NoEncodedWord, IndexOf, DecodeWords;
    match ExtendedIn(browser, name) {
      case Some(v) =>
      case None =>
        match IndexOf(name, "\"") {
          case None =>
            if NoEncodedWord(name) {
              DecodeWordsIdentity(browser, name, name);
            } else {
              OneUndecodable(browser, name, name);
            }
          case Some(k) =>
            LeadingFailure(browser, name[..k], name[..k]);
            assert name == name[..k] + name[k..];
        }
    }
  }

  // ---------------------------------------------------------------- names that do not come back

  lemma WordLayout(charset: string, encoding: char, text: string, rest: string)
    ensures var s := "=?" + charset + "?" + [encoding] + "?" + text + "?=" + rest;
            var i, j := 2 + |charset|, 5 + |charset| + |text|;
            && s[0..2] == "=?" && s[2..i] == charset && s[i + 3..j] == text
            && s[i..i + 1] == "?" && s[i + 1] == encoding && s[i + 2] == '?' && s[j..j + 1] == "?" && s[j + 1] == '='
            && |s| == j + 2 + |rest|
  {}

  lemma NoMarkIn(s: string, from: nat, to: nat)
    requires from <= to <= |s| && '?' !in s[from..to]
    ensures forall k: nat :: from <= k < to ==> !MatchesAt(s, "?", k)
  {
    forall k: nat | from <= k < to ensures !MatchesAt(s, "?", k) {
      assert s[k] == s[from..to][k - from];
      MatchStart(s, "?", k);
    }
  }

  lemma WordAt(s: string, i: nat, j: nat)
    requires 2 < i && i + 3 <= j && j + 1 < |s| && s[0..2] == "=?" && '?' !in s[2..i]
    requires s[i..i + 1] == "?" && s[i + 1] in "BbQq" && s[i + 2] == '?'
    requires '?' !in s[i + 3..j] && s[j..j + 1] == "?" && s[j + 1] == '='
    ensures EncodedWordAtStart(s) == Some(EncodedWord(s[2..i], s[i + 1], s[i + 3..j], j + 2))
  {
    hide IndexOf;
    NoMarkIn(s, 2, i);
    NoMarkIn(s, i + 3, j);
    IndexOfIs(s, "?", 2, i);
    IndexOfIs(s, "?", i + 3, j);
  }

  lemma WordIsFound(charset: string, encoding: char, text: string, rest: string)
    requires charset != "" && '?' !in charset && '?' !in text && encoding in "BbQq"
    ensures EncodedWordAtStart("=?" + charset + "?" + [encoding] + "?" + text + "?=" + rest) ==
            Some(EncodedWord(charset, encoding, text, |charset| + |text| + 7))
  {
    hide EncodedWordAtStart;
    WordLayout(charset, encoding, text, rest);
    WordAt("=?" + charset + "?" + [encoding] + "?" + text + "?=" + rest, 2 + |charset|, 5 + |charset| + |text|);
  }

  lemma ExtendedKeyHasStar(t: string, i: nat)
    requires MatchesAt(Lower(t), EXT_KEY, i)
    ensures '*' in t
  {
    MatchFits(Lower(t), EXT_KEY, i);
    MatchesAtElement(Lower(t), EXT_KEY, i, 8);
    assert t[i + 8] == '*';
  }

  lemma NoStarNoExtended(browser: Browser, name: string)
    requires '*' !in name
    ensures ExtendedIn(browser, name).None?
  {
    hide Leftmost, MatchesAt, TokenEnd, Lower;
    var t := name + "\"";
    var at := (i: nat) => TokenAt(t, EXT_KEY, i);
    forall i: nat ensures at(i).None? {
      if MatchesAt(Lower(t), EXT_KEY, i) {
        ExtendedKeyHasStar(t, i);
      }
    }
    LeftmostNone(|name| + 1, at, 0);
  }

  lemma NoQuoteKeepsAll(name: string)
    requires '"' !in name
    ensures UpToQuote(name) == name
  {
    hide IndexOf;
    if k :| IndexOf(name, "\"") == Some(k) {
      QuoteFound(name, k);
    }
  }

  lemma OneWordIsShown(browser: Browser, name: string, w: EncodedWord, t: string)
    requires EncodedWordAtStart(name) == Some(w) && w.length == |name| && WordText(browser, w) == Some(t)
    ensures MimeDecodeWord(browser, name) == t
  {
    hide EncodedWordAtStart, DecodeWordText;
    assert name[w.length..] == "";
    assert DecodeWords(browser, name, name) == t + DecodeWords(browser, name, "");
  }

  /** The name read is the name, if it has neither star nor quote. */
  lemma PlainNameIsRead(browser: Browser, name: string)
    requires AsciiPrintable(name) && '*' !in name && '"' !in name
    ensures NameShown(browser, name) == MimeDecodeWord(browser, name)
  {
    hide MimeDecodeWord, ExtendedIn, UpToQuote;
    NoStarNoExtended(browser, name);
    NoQuoteKeepsAll(name);
    PrintableNameIsRead(browser, name);
  }

  lemma OneByteWord(browser: Browser, charset: string, text: string, byte: Byte, length: nat)
    requires HexUnescape(UnderscoresToSpaces(text)) == [byte]
    ensures WordText(browser, EncodedWord(charset, 'Q', text, length)) == browser.decode(charset, [byte])
  {
  }

  lemma LetterH()
    ensures HexUnescape(UnderscoresToSpaces("h")) == [104]
  {
    assert UnderscoresToSpaces("h") == "h";
  }

  /** A printable name that happens to be an encoded word is shown decoded. */
  lemma EncodedWordNameIsLost(browser: Browser)
    requires browser.decode("u", [104]) == Some("h")
    ensures AsciiPrintable("=?u?Q?h?=") && NameShown(browser, "=?u?Q?h?=") == "h"
  {
    hide EncodedWordAtStart, HexUnescape, UnderscoresToSpaces, DecodeWords, WordText, NameShown;
    var name := "=?u?Q?h?=";
    assert name == "=?" + "u" + "?" + ['Q'] + "?" + "h" + "?=" + "";
    WordIsFound("u", 'Q', "h", "");
    LetterH();
    OneByteWord(browser, "u", "h", 104, 9);
    OneWordIsShown(browser, name, EncodedWord("u", 'Q', "h", 9), "h");
    PlainNameIsRead(browser, name);
  }

  lemma KeyIsLower()
    ensures |EXT_KEY| == 10 && forall k :: 0 <= k < 10 ==> LowerChar(EXT_KEY[k]) == EXT_KEY[k]
  {}

  /** A value that starts with the key of an extended parameter and goes on to its end. */
  lemma ExtendedToken(token: string)
    requires token != "" && forall k :: 0 <= k < |token| ==> token[k] != ';' && !IsSpace(token[k])
    ensures TokenAt(EXT_KEY + token, EXT_KEY, 0) == Some(token)
  {
    var t := EXT_KEY + token;
    KeyIsLower();
    assert t[10..] == token;
    assert forall k :: 10 <= k < |t| ==> t[k] == token[k - 10];
    assert Lower(t)[0..10] == EXT_KEY;
    TokenToEnd(t, 10);
    assert t[10..|t|] == token;
  }

  lemma ExtendedNameIsPrintable()
    ensures AsciiPrintable("filename*=utf-8''x")
  {}

  /** A printable name that contains the key of an extended parameter is cut to what follows it. */
  lemma ExtendedKeyNameIsLost(browser: Browser)
    requires browser.decodeURIComponent("x\"") == Some("x\"")
    ensures AsciiPrintable("filename*=utf-8''x") && NameShown(browser, "filename*=utf-8''x") == "x\""
  {
    var name, token := "filename*=utf-8''x", CHARSET + "x\"";
    ExtendedToken(token);
    assert name + "\"" == EXT_KEY + token;
    CharsetMark("x\"");
    assert token[7..] == "x\"";
    ExtendedNameIsPrintable();
    hide AsciiPrintable;
    PrintableNameIsRead(browser, name);
    hide TokenAt;
    assert ExtendedIn(browser, name) == Some("x\"");
    NoWordInTwo("x\"");
    DecodeWordsIdentity(browser, "x\"", "x\"");
  }

  lemma NoWordInTwo(s: string)
    requires |s| == 2 && s[0] != '='
    ensures NoEncodedWord(s)
  {
    forall i | 0 <= i <= 2 ensures EncodedWordAtStart(s[i..]).None? {
      if i == 0 {
        assert s[0..] == s;
        MatchStart(s, "=?", 0);
      }
    }
  }

  /** A quote ends the name. */
  lemma QuotedNameIsLost(browser: Browser)
    ensures AsciiPrintable("a\"b") && NameShown(browser, "a\"b") == "a"
  {
    var name := "a\"b";
    NoStarNoExtended(browser, name);
    assert name[1..2] == "\"" && name[0..1] == "a";
    IndexOfIs(name, "\"", 0, 1);
    PrintableNameIsRead(browser, name);
    assert name[..1] == "a" && EncodedWordAtStart("a").None?;
    assert "a"[1..] == "";
  }

  /** Yet a name with a quote can come back: the first word cannot be decoded and stands for the whole value, the second
    * gives the quote. */
  lemma NameWithQuoteComesBack(browser: Browser)
    requires browser.decode("b", [120]).None? && browser.decode("u", [34]) == Some("\"")
    ensures var name := "=?b?Q?x?=" + "=?u?Q?=22?=" + "\"";
            AsciiPrintable(name) && '"' in name && NameShown(browser, name) == name
  {
    hide EncodedWordAtStart, HexUnescape, UnderscoresToSpaces, NameShown;
    var first, second := "=?b?Q?x?=", "=?u?Q?=22?=";
    assert |first| == 9 && |second| == 11;
    assert first + second == "=?" + "b" + "?" + ['Q'] + "?" + "x" + "?=" + second;
    assert second == "=?" + "u" + "?" + ['Q'] + "?" + "=22" + "?=" + "";
    WordIsFound("b", 'Q', "x", second);
    WordIsFound("u", 'Q', "=22", "");
    LetterX();
    EscapedQuote();
    OneByteWord(browser, "b", "x", 120, 9);
    OneByteWord(browser, "u", "=22", 34, 11);
    PrintableWords();
    TwoWords(browser, first, second, EncodedWord("b", 'Q', "x", 9), EncodedWord("u", 'Q', "=22", 11));
  }

  lemma LetterX()
    ensures HexUnescape(UnderscoresToSpaces("x")) == [120]
  {
    assert UnderscoresToSpaces("x") == "x";
  }

  lemma EscapedQuote()
    ensures HexUnescape(UnderscoresToSpaces("=22")) == [34]
  {
    assert UnderscoresToSpaces("=22") == "=22";
    assert "=22"[3..] == "";
  }

  lemma PrintableWords()
    ensures AsciiPrintable("=?b?Q?x?=" + "=?u?Q?=22?=")
    ensures '*' !in "=?b?Q?x?=" + "=?u?Q?=22?=" && '"' !in "=?b?Q?x?=" + "=?u?Q?=22?="
  {
  }

  /** A word that cannot be decoded, a word that decodes to a quote, and a quote. */
  lemma TwoWords(browser: Browser, first: string, second: string, w1: EncodedWord, w2: EncodedWord)
    requires AsciiPrintable(first + second) && '*' !in first + second && '"' !in first + second
    requires first + second != "" && second != ""
    requires EncodedWordAtStart(first + second) == Some(w1) && w1.length == |first| && WordText(browser, w1).None?
    requires EncodedWordAtStart(second) == Some(w2) && w2.length == |second| && WordText(browser, w2) == Some("\"")
    ensures AsciiPrintable(first + second + "\"") && NameShown(browser, first + second + "\"") == first + second + "\""
  {
    hide EncodedWordAtStart, DecodeWordText, ExtendedIn, IndexOf, MimeDecodeWord, WordText;
    var cut := first + second;
    var name := cut + "\"";
    assert cut[w1.length..] == second && second[w2.length..] == "";
    assert AfterLeadingFailure(browser, cut) == Some(second);
    SecondWord(browser, cut, second, w2);
    assert name[..|cut|] == cut && name[|cut|..] == "\"";
    QuoteIsAt(name, |cut|);
    NoStarNoExtended(browser, name);
    PrintableNameIsRead(browser, name);
    ComingBackIsShown(browser, name);
  }

  lemma SecondWord(browser: Browser, whole: string, s: string, w: EncodedWord)
    requires s != "" && EncodedWordAtStart(s) == Some(w) && w.length == |s| && WordText(browser, w) == Some("\"")
    ensures DecodeWords(browser, whole, s) == "\""
  {
    hide EncodedWordAtStart, DecodeWordText;
    assert s[w.length..] == "";
    assert DecodeWords(browser, whole, s) == "\"" + DecodeWords(browser, whole, "");
  }

  lemma QuoteIsAt(name: string, k: nat)
    requires k < |name| && name[k] == '"' && '"' !in name[..k]
    ensures IndexOf(name, "\"") == Some(k)
  {
    assert name[k..k + 1] == "\"";
    forall j: nat | j < k ensures !MatchesAt(name, "\"", j) {
      assert name[j] == name[..k][j];
      MatchStart(name, "\"", j);
    }
    hide IndexOf;
    IndexOfIs(name, "\"", 0, k);
  }

  /** A name of characters from space to tilde is printed in quotes, any other percent-encoded. */
  lemma FormOfName(browser: Browser, name: string)
    ensures (forall c :: c in name ==> 0x20 <= c as int <= 0x7E) ==>
              FilenameParam(browser, name) == "filename=\"" + name + "\""
    ensures (exists c :: c in name && !(0x20 <= c as int <= 0x7E)) ==>
              FilenameParam(browser, name) == "filename*=" + ("utf-8''" + browser.encodeURIComponent(name))
  {
    assert forall i :: 0 <= i < |name| ==> name[i] in name;
  }
}
