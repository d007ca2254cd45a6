/** What trimming, lower case and folded comparison come to, on plain strings. */
module TextLaws {
  import opened Wrappers
  import GoText
  import Text

  ghost predicate Blank(s: string) {
    forall i :: 0 <= i < |s| ==> GoText.IsSpace(s[i])
  }

  /** Neither end is white space. */
  ghost predicate Trimmed(s: string) {
    s != "" ==> !GoText.IsSpace(s[0]) && !GoText.IsSpace(s[|s| - 1])
  }

  lemma {:induction false} TrimLeftOf(a: string, s: string)
    requires Blank(a) && (s != "" ==> !GoText.IsSpace(s[0]))
    ensures GoText.TrimLeft(a + s) == s
    decreases |a|
  {
    if a == "" {
      assert a + s == s;
    } else {
      assert (a + s)[1..] == a[1..] + s;
      TrimLeftOf(a[1..], s);
    }
  }

  lemma {:induction false} TrimRightOf(s: string, b: string)
    requires Blank(b) && (s != "" ==> !GoText.IsSpace(s[|s| - 1]))
    ensures GoText.TrimRight(s + b) == s
    decreases |b|
  {
    if b == "" {
      assert s + b == s;
    } else {
      assert (s + b)[..|s + b| - 1] == s + b[..|b| - 1];
      TrimRightOf(s, b[..|b| - 1]);
    }
  }

  /** Trimming takes off white space at both ends, all of it and nothing else. */
  lemma TrimSpaceOf(a: string, s: string, b: string)
    requires Blank(a) && Trimmed(s) && Blank(b)
    ensures GoText.TrimSpace(a + s + b) == s
  {
    if s == "" {
      assert a + s + b == (a + b) + "";
      TrimLeftOf(a + b, "");
    } else {
      assert a + s + b == a + (s + b);
      TrimLeftOf(a, s + b);
      TrimRightOf(s, b);
    }
  }

  lemma {:induction false} TrimRightIsTrimmed(s: string)
    ensures var t := GoText.TrimRight(s);
            t <= s && (t != "" ==> !GoText.IsSpace(t[|t| - 1]))
  {
    if s != "" && GoText.IsSpace(s[|s| - 1]) {
      TrimRightIsTrimmed(s[..|s| - 1]);
    }
  }

  lemma {:induction false} TrimLeftIsTrimmed(s: string)
    ensures var t := GoText.TrimLeft(s); t != "" ==> !GoText.IsSpace(t[0])
  {
    if s != "" && GoText.IsSpace(s[0]) {
      TrimLeftIsTrimmed(s[1..]);
    }
  }

  lemma TrimSpaceIsTrimmed(s: string)
    ensures Trimmed(GoText.TrimSpace(s))
  {
    TrimLeftIsTrimmed(s);
    TrimRightIsTrimmed(GoText.TrimLeft(s));
  }

  /** Lower case changes the capital letters A to Z, each to its small letter, and nothing else. */
  lemma LowerIsExact(s: string)
    ensures |Text.Lower(s)| == |s|
    ensures forall i :: 0 <= i < |s| ==>
              if 'A' <= s[i] <= 'Z' then Text.Lower(s)[i] as int - 'a' as int == s[i] as int - 'A' as int
              else Text.Lower(s)[i] == s[i]
  {}

  lemma LowerIsIdempotent(s: string)
    ensures Text.Lower(Text.Lower(s)) == Text.Lower(s)
  {}

  lemma LowerIsTrimmed(s: string)
    requires Trimmed(s)
    ensures Trimmed(Text.Lower(s))
  {}

  lemma CaseOfChar(a: char, b: char)
    ensures GoText.UpperChar(a) == GoText.UpperChar(b) <==> Text.LowerChar(a) == Text.LowerChar(b)
  {}

  /** Two strings are equal under folding exactly if their lower-case forms are equal. */
  lemma FoldIsLower(a: string, b: string)
    ensures GoText.EqualFold(a, b) <==> Text.Lower(a) == Text.Lower(b)
  {
    hide GoText.UpperChar, Text.LowerChar;
    if |a| == |b| {
      forall i | 0 <= i < |a|
        ensures GoText.ToUpper(a)[i] == GoText.ToUpper(b)[i] <==> Text.Lower(a)[i] == Text.Lower(b)[i]
      {
        CaseOfChar(a[i], b[i]);
      }
    }
  }

  /** An address or type as it is stored: trimmed and in lower case. */
  function Normal(s: string): string {
    Text.Lower(GoText.TrimSpace(s))
  }

  lemma NormalOf(a: string, s: string, b: string)
    requires Blank(a) && Trimmed(s) && Blank(b)
    ensures Normal(a + s + b) == Text.Lower(s)
  {
    TrimSpaceOf(a, s, b);
  }

  lemma NormalIsIdempotent(s: string)
    ensures Normal(Normal(s)) == Normal(s)
  {
    hide GoText.TrimSpace, Text.Lower;
    var t := GoText.TrimSpace(s);
    TrimSpaceIsTrimmed(s);
    LowerIsTrimmed(t);
    GoText.TrimSpaceIdentity(Text.Lower(t));
    LowerIsIdempotent(t);
  }

  // ---------------------------------------------------------------- numbers

  lemma {:induction false} LeadingZeros(zeros: string, digits: string)
    requires forall c :: c in zeros ==> c == '0'
    requires forall c :: c in digits ==> GoText.IsDigit(c)
    ensures forall c :: c in zeros + digits ==> GoText.IsDigit(c)
    ensures GoText.DigitsValue(zeros + digits) == GoText.DigitsValue(digits)
    decreases |zeros| + |digits|
  {
    var all := zeros + digits;
    if digits != "" {
      assert all[..|all| - 1] == zeros + digits[..|digits| - 1];
      LeadingZeros(zeros, digits[..|digits| - 1]);
    } else if zeros != "" {
      var fewer := zeros[..|zeros| - 1];
      assert all[..|all| - 1] == fewer + "";
      assert zeros[|zeros| - 1] in zeros && forall c :: c in fewer ==> c in zeros;
      LeadingZeros(fewer, "");
    }
  }

  /** A decimal number is read with an optional sign and any leading zeros, if it is in the range of 64 bits. */
  lemma AtoiOf(sign: string, zeros: string, n: nat)
    requires sign in {"", "+", "-"} && forall c :: c in zeros ==> c == '0'
    ensures var value: int := n;
            GoText.Atoi(sign + zeros + GoText.Decimal(n)) ==
            if sign == "-" then (if n <= 9_223_372_036_854_775_808 then Some(-value) else None)
            else if n <= 9_223_372_036_854_775_807 then Some(value) else None
  {
    hide GoText.DigitsValue, GoText.Decimal;
    var digits := zeros + GoText.Decimal(n);
    var all := sign + zeros + GoText.Decimal(n);
    assert all == sign + digits;
    LeadingZeros(zeros, GoText.Decimal(n));
    GoText.DecimalValue(n);
    assert digits[0] in digits;
    if sign != "" {
      assert all[0] == sign[0] && all[1..] == digits;
    } else {
      assert all == digits;
    }
  }

  /** Nothing else is a number: no digit at all, or a character that is neither a digit nor a sign in front. */
  lemma AtoiRefuses(s: string, k: nat)
    requires s in {"", "+", "-"} || (k < |s| && !GoText.IsDigit(s[k]) && (k > 0 || s[0] !in {'+', '-'}))
    ensures GoText.Atoi(s).None?
  {
    hide GoText.DigitsValue;
    if s !in {"", "+", "-"} {
      var digits := if s[0] == '+' || s[0] == '-' then s[1..] else s;
      assert s[k] in digits by {
        assert s[0] == '+' || s[0] == '-' ==> digits[k - 1] == s[k];
      }
    }
  }
}
