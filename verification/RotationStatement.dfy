/** The canonical text both keys sign during a rotation, and the substring tests made on it later. */
module RotationStatement {
  import opened Wrappers
  import opened Text

  predicate IsUpperHex(c: char) {
    '0' <= c <= '9' || 'A' <= c <= 'F'
  }

  predicate IsLowerHex(c: char) {
    '0' <= c <= '9' || 'a' <= c <= 'f'
  }

  /** A fingerprint as the server prints it: upper-case hexadecimal. */
  predicate IsFingerprint(s: string) {
    forall i :: 0 <= i < |s| ==> IsUpperHex(s[i])
  }

  /** A nonce as the server generates it: lower-case hexadecimal. */
  predicate IsNonce(s: string) {
    forall i :: 0 <= i < |s| ==> IsLowerHex(s[i])
  }

  const START := "rookery-key-rotation:v1\nold:"
  const NEW := "\nnew:"
  const NONCE := "\nnonce:"

  function Statement(oldFp: string, newFp: string, nonce: string): string {
    START + oldFp + NEW + newFp + NONCE + nonce
  }

  lemma SixPieces(p: string, q: string, r: string, t: string, u: string, v: string)
    ensures var s, b, c := p + q + r + t + u + v, |p| + |q|, |p| + |q| + |r| + |t|;
            && |s| == c + |u| + |v|
            && s[..|p|] == p && s[|p|..b] == q && s[b..b + |r|] == r && s[b + |r|..c] == t
            && s[c..c + |u|] == u && s[c + |u|..] == v
  {}

  lemma Pieces()
    ensures |START| == 28 && |NEW| == 5 && |NONCE| == 7
    ensures START[24..28] == "old:" && START[19] == 'n'
    ensures NEW[0] == '\n' && NEW[1..5] == "new:" && NEW[3] == 'w' && NEW[4] == ':'
    ensures NONCE[0] == '\n' && NONCE[5] == 'e' && NONCE[6] == ':'
  {}

  /** Where each piece of a statement stands, and the only places a colon can. */
  lemma Layout(oldFp: string, newFp: string, nonce: string)
    requires IsFingerprint(oldFp) && IsFingerprint(newFp) && IsNonce(nonce)
    ensures var s, b := Statement(oldFp, newFp, nonce), 28 + |oldFp|;
            var c := b + 5 + |newFp|;
            && |s| == c + 7 + |nonce|
            && s[28..b] == oldFp && s[b + 5..c] == newFp && s[c + 7..] == nonce
            && s[24..28] == "old:" && s[b + 1..b + 5] == "new:"
            && s[19] == 'n' && s[b] == '\n' && s[b + 3] == 'w' && s[b + 4] == ':'
            && s[c] == '\n' && s[c + 5] == 'e' && s[c + 6] == ':'
            && (forall k :: 0 <= k < |s| && s[k] == ':' ==> k == 20 || k == 27 || k == b + 4 || k == c + 6)
  {
    var s, b := Statement(oldFp, newFp, nonce), 28 + |oldFp|;
    var c := b + 5 + |newFp|;
    Pieces();
    SixPieces(START, oldFp, NEW, newFp, NONCE, nonce);
    Slices(s, b, c);
    forall k | 0 <= k < |s| && s[k] == ':' ensures k == 20 || k == 27 || k == b + 4 || k == c + 6 {
      ColonPosition(s, oldFp, newFp, nonce, k);
    }
  }

  lemma Slices(s: string, b: nat, c: nat)
    requires 28 <= b && b + 5 <= c && c + 7 <= |s|
    ensures s[..28][24..28] == s[24..28] && s[..28][19] == s[19]
    ensures s[b..b + 5][0] == s[b] && s[c..c + 7][0] == s[c]
    ensures s[b..b + 5][1..5] == s[b + 1..b + 5] && s[b..b + 5][3] == s[b + 3] && s[b..b + 5][4] == s[b + 4]
    ensures s[c..c + 7][5] == s[c + 5] && s[c..c + 7][6] == s[c + 6]
  {}

  lemma ColonPosition(s: string, oldFp: string, newFp: string, nonce: string, k: nat)
    requires IsFingerprint(oldFp) && IsFingerprint(newFp) && IsNonce(nonce)
    requires var b := 28 + |oldFp|;
             var c := b + 5 + |newFp|;
             && |s| == c + 7 + |nonce|
             && s[..28] == START && s[28..b] == oldFp && s[b..b + 5] == NEW && s[b + 5..c] == newFp
             && s[c..c + 7] == NONCE && s[c + 7..] == nonce
    requires k < |s| && s[k] == ':'
    ensures k == 20 || k == 27 || k == 28 + |oldFp| + 4 || k == 28 + |oldFp| + 5 + |newFp| + 6
  {
    var b := 28 + |oldFp|;
    var c := b + 5 + |newFp|;
    ColonsOfPieces();
    assert k < 28 ==> s[..28][k] == ':';
    assert b <= k < b + 5 ==> s[b..b + 5][k - b] == ':';
    assert c <= k < c + 7 ==> s[c..c + 7][k - c] == ':';
  }

  lemma ColonsOfPieces()
    ensures |START| == 28 && |NEW| == 5 && |NONCE| == 7
    ensures forall k :: 0 <= k < 28 && START[k] == ':' ==> k == 20 || k == 27
    ensures forall k :: 0 <= k < 5 && NEW[k] == ':' ==> k == 4
    ensures forall k :: 0 <= k < 7 && NONCE[k] == ':' ==> k == 6
  {}

  /** A tag ending in a colon matches only where the statement has that colon. */
  lemma LabelMatches(s: string, tag: string, x: string, j: nat)
    requires |tag| == 4 && tag[3] == ':' && MatchesAt(s, tag + x, j)
    ensures s[j + 3] == ':' && s[j + 2] == tag[2] && s[j + 4..j + 4 + |x|] == x
  {
    var p := tag + x;
    assert s[j..j + |p|] == p;
    assert s[j + 3] == p[3] && s[j + 2] == p[2];
    assert p[4..] == x;
  }

  /** A fingerprint found where `fp` stands does not run over the end of its line. */
  lemma LineEndsIt(s: string, at: nat, fp: string, x: string)
    requires at + |fp| < |s| && s[at..at + |fp|] == fp && s[at + |fp|] == '\n'
    requires at + |x| <= |s| && s[at..at + |x|] == x
    requires |x| <= |fp| || IsFingerprint(x)
    ensures x <= fp
  {
    assert |x| > |fp| ==> s[at..at + |x|][|fp|] == '\n' && !IsUpperHex('\n');
    assert |x| <= |fp|;
    assert x == s[at..at + |fp|][..|x|];
  }

  /** Where only one colon can end the tag, searching for the tag with `x` behind it looks at the line of `fp` alone. */
  lemma TagFinds(s: string, tag: string, at: nat, fp: string, x: string)
    requires |tag| == 4 && tag[3] == ':' && 4 <= at && at + |fp| < |s|
    requires s[at - 4..at] == tag && s[at..at + |fp|] == fp && s[at + |fp|] == '\n'
    requires forall k :: 1 <= k < |s| && s[k] == ':' && s[k - 1] == tag[2] ==> k == at - 1
    requires |x| <= |fp| || IsFingerprint(x)
    ensures Contains(s, tag + x) <==> x <= fp
  {
    hide IsFingerprint;
    if Contains(s, tag + x) {
      LabelMatches(s, tag, x, IndexOf(s, tag + x).value);
      LineEndsIt(s, at, fp, x);
    }
    if x <= fp {
      assert s[at..at + |x|] == fp[..|x|];
      assert s[at - 4..at + |x|] == s[at - 4..at] + s[at..at + |x|];
      assert MatchesAt(s, tag + x, at - 4);
    }
  }

  /** The `old:` test finds exactly the beginnings of the fingerprint that was signed as the old one, whatever the
    * lengths; among those of the same length, that one alone. */
  lemma OldIsNamed(oldFp: string, newFp: string, nonce: string, x: string)
    requires IsFingerprint(oldFp) && IsFingerprint(newFp) && IsNonce(nonce)
    requires |x| <= |oldFp| || IsFingerprint(x)
    ensures Contains(Statement(oldFp, newFp, nonce), "old:" + x) <==> x <= oldFp
    ensures |x| == |oldFp| ==> (x <= oldFp <==> x == oldFp)
  {
    hide Statement, Contains, IsFingerprint, IsNonce;
    var s := Statement(oldFp, newFp, nonce);
    Layout(oldFp, newFp, nonce);
    assert s[24..28][2] == s[26];
    TagFinds(s, "old:", 28, oldFp, x);
  }

  /** The `new:` test finds exactly the beginnings of the fingerprint that was signed as the new one. */
  lemma NewIsNamed(oldFp: string, newFp: string, nonce: string, x: string)
    requires IsFingerprint(oldFp) && IsFingerprint(newFp) && IsNonce(nonce)
    requires |x| <= |newFp| || IsFingerprint(x)
    ensures Contains(Statement(oldFp, newFp, nonce), "new:" + x) <==> x <= newFp
    ensures |x| == |newFp| ==> (x <= newFp <==> x == newFp)
  {
    hide Statement, Contains, IsFingerprint, IsNonce;
    var s := Statement(oldFp, newFp, nonce);
    Layout(oldFp, newFp, nonce);
    assert s[24..28][2] == s[26];
    TagFinds(s, "new:", 33 + |oldFp|, newFp, x);
  }

  /** Two statements are the same text only if they name the same keys and nonce. */
  lemma StatementIsInjective(
    oldFp: string, newFp: string, nonce: string, oldFp': string, newFp': string, nonce': string)
    requires IsFingerprint(oldFp) && IsFingerprint(newFp) && IsNonce(nonce)
    requires IsFingerprint(oldFp') && IsFingerprint(newFp') && IsNonce(nonce')
    requires Statement(oldFp, newFp, nonce) == Statement(oldFp', newFp', nonce')
    ensures oldFp == oldFp' && newFp == newFp' && nonce == nonce'
  {
    hide Statement;
    Layout(oldFp, newFp, nonce);
    Layout(oldFp', newFp', nonce');
  }
}
