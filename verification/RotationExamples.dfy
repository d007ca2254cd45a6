/** Two runs of the key handlers from empty tables: one user going through seventeen keys, and two users with one
  * key. */
module RotationExamples {
  import opened Wrappers
  import opened RotationStatement
  import opened KeyRotation
  import opened Continuity
  import opened RotationHistory

  /** A key that is its own fingerprint: two upper-case hexadecimal digits. Every signature verifies. */
  predicate IsKey(armored: string) {
    |armored| == 2 && IsFingerprint(armored)
  }

  const PLAIN := Crypto(armored => if IsKey(armored) then Some(armored) else None, _ => true, (_, _, _) => true)

  function Digit(i: nat): (c: char)
    requires i < 16
    ensures IsUpperHex(c)
  {
    if i < 10 then '0' + i as char else 'A' + (i - 10) as char
  }

  function Key(i: nat): (k: string)
    ensures IsKey(k)
  {
    [Digit(i / 16 % 16), Digit(i % 16)]
  }

  lemma DigitsDiffer(i: nat, j: nat)
    requires i < 16 && j < 16 && Digit(i) == Digit(j)
    ensures i == j
  {}

  lemma KeysDiffer(i: nat, j: nat)
    requires i < 256 && j < 256 && Key(i) == Key(j)
    ensures i == j
  {
    assert Key(i)[0] == Key(j)[0] && Key(i)[1] == Key(j)[1];
    DigitsDiffer(i / 16 % 16, j / 16 % 16);
    DigitsDiffer(i % 16, j % 16);
  }

  lemma PlainIsHex()
    ensures HexFingerprints(PLAIN)
  {}

  // ---------------------------------------------------------------- one key after the other

  function Request(i: nat): RotateRequest {
    RotateRequest(Key(i), Key(i), "s", "s")
  }

  /** Fetch a challenge, then rotate to key `i`; so for each `i` up to `last`. */
  function Rotations(u: string, i: nat, last: nat): seq<Event>
    decreases last + 1 - i
  {
    if i > last then []
    else [Issue(2 * i, Key(i), u, "", Rotating), Rotate(2 * i + 1, u, u, Request(i))] + Rotations(u, i + 1, last)
  }

  function Path(i: nat): seq<Visit> {
    seq(i + 1, k requires 0 <= k => Visit(Key(k), 2 * k + 1))
  }

  /** `u` is alone and has just arrived at key `i`, one key after the other. */
  ghost predicate At(w: World, u: string, i: nat) {
    && Inv(PLAIN, w) && w.clock == 2 * i + 1 && Hist(w, u) == Path(i)
    && (forall k :: 0 <= k < |w.tables.keys| ==> w.tables.keys[k].userId == u)
    && (forall k :: i < k < 256 ==> Key(k) !in w.tables.challenges)
  }

  lemma KeyInUse(w: World, u: string, i: nat)
    requires At(w, u, i)
    ensures var active := FindActive(w.tables.keys, u);
            active.Some? && w.tables.keys[active.value].fingerprint == w.tables.keys[active.value].armored == Key(i)
  {
    hide FindActive, HistInv, RowsInv, Key;
    HistoryMeansActive(PLAIN, w, u);
    ActiveIsLatest(PLAIN, w, u);
  }

  /** The rotation goes through, and the rows it leaves belong to `u`. */
  lemma RotationSucceeds(t: Tables, now: int, u: string, i: nat, from: string)
    requires FindActive(t.keys, u).Some?
    requires var row := t.keys[FindActive(t.keys, u).value]; row.fingerprint == row.armored == from
    requires IsKey(from) && from != Key(i)
    requires Key(i) in t.challenges && t.challenges[Key(i)] == Challenge(u, "", Rotating, false, now - 1)
    requires forall k :: 0 <= k < |t.keys| ==> t.keys[k].userId == u
    ensures var (t', reply) := RotateKey(PLAIN, t, now, u, u, Request(i));
            && reply == Created && t'.challenges.Keys == t.challenges.Keys
            && forall k :: 0 <= k < |t'.keys| ==> t'.keys[k].userId == u
  {
    hide Key, FindActive, Recorded, Statement, IsFingerprint;
    assert ParsePublicKey(PLAIN, Key(i)) == Some(Key(i));
    assert Complete(Request(i));
  }

  lemma NextKey(w: World, u: string, i: nat)
    requires At(w, u, i) && i < 255
    ensures var issue, rotate := Issue(2 * i + 2, Key(i + 1), u, "", Rotating), Rotate(2 * i + 3, u, u, Request(i + 1));
            var w1 := Step(PLAIN, w, issue);
            && Allowed(PLAIN, w, issue) && Allowed(PLAIN, w1, rotate)
            && At(Step(PLAIN, w1, rotate), u, i + 1)
  {
    hide Inv, HexFingerprints, Key, RotateKey, FindActive, IsFingerprint;
    var issue, rotate := Issue(2 * i + 2, Key(i + 1), u, "", Rotating), Rotate(2 * i + 3, u, u, Request(i + 1));
    var w1 := Step(PLAIN, w, issue);
    PlainIsHex();
    StepKeeps(PLAIN, w, issue);
    KeyInUse(w, u, i);
    if Key(i) == Key(i + 1) {
      KeysDiffer(i, i + 1);
    }
    RotationSucceeds(w1.tables, rotate.at, u, i + 1, Key(i));
    StepKeeps(PLAIN, w1, rotate);
    var w2 := Step(PLAIN, w1, rotate);
    assert ParsedFp(PLAIN, Key(i + 1)) == Key(i + 1);
    assert Hist(w2, u) == Path(i + 1);
    forall k | i + 1 < k < 256 ensures Key(k) !in w2.tables.challenges {
      if Key(k) == Key(i + 1) {
        KeysDiffer(k, i + 1);
      }
    }
  }

  lemma {:induction false} GoThrough(w: World, u: string, i: nat, last: nat)
    requires At(w, u, i) && i <= last < 256
    ensures AllowedRun(PLAIN, w, Rotations(u, i + 1, last)) && At(Run(PLAIN, w, Rotations(u, i + 1, last)), u, last)
    decreases last - i
  {
    hide At, Allowed, Step, Key, Request;
    if i < last {
      var events := Rotations(u, i + 1, last);
      NextKey(w, u, i);
      var w1 := Step(PLAIN, w, events[0]);
      var w2 := Step(PLAIN, w1, events[1]);
      assert events[1..][0] == events[1] && events[1..][1..] == Rotations(u, i + 2, last);
      GoThrough(w2, u, i + 1, last);
    }
  }

  lemma FirstKey(u: string)
    ensures Allowed(PLAIN, START_OF_TIME, Put(1, u, Key(0))) && At(Step(PLAIN, START_OF_TIME, Put(1, u, Key(0))), u, 0)
  {
    hide Inv, HexFingerprints, Key, IsFingerprint;
    PlainIsHex();
    InitiallyHolds(PLAIN);
    StepKeeps(PLAIN, START_OF_TIME, Put(1, u, Key(0)));
    var w := Step(PLAIN, START_OF_TIME, Put(1, u, Key(0)));
    assert Hist(w, u) == Path(0);
  }

  /** An upload followed by rotations to `last` further keys. */
  function Life(u: string, last: nat): seq<Event> {
    [Put(1, u, Key(0))] + Rotations(u, 1, last)
  }

  /** Any number of keys up to 256 can be gone through, each row of the history holding the next one. */
  lemma LifeIsAllowed(u: string, last: nat)
    requires last < 256
    ensures HexFingerprints(PLAIN) && AllowedRun(PLAIN, START_OF_TIME, Life(u, last))
    ensures Hist(Run(PLAIN, START_OF_TIME, Life(u, last)), u) == Path(last)
  {
    hide Inv, Key, Allowed, Step, HexFingerprints;
    PlainIsHex();
    FirstKey(u);
    GoThrough(Step(PLAIN, START_OF_TIME, Life(u, last)[0]), u, 0, last);
    assert Life(u, last)[1..] == Rotations(u, 1, last);
  }

  /** Every length is reached by a run in which all rotations go through; continuity from the first key to the last is
    * verified for up to sixteen keys and not from seventeen on. */
  lemma SeventeenKeysAreReached(u: string, last: nat)
    requires last < 256
    ensures HexFingerprints(PLAIN) && AllowedRun(PLAIN, START_OF_TIME, Life(u, last))
    ensures var w := Run(PLAIN, START_OF_TIME, Life(u, last));
            && |KeysFrom(Hist(w, u), 0)| == last + 1
            && (Chain(PLAIN, w.tables.rotations, Key(0), Key(last), MAX_ROTATION_HOPS) <==> last < 16)
  {
    hide Key, Run, AllowedRun, Life, HexFingerprints, Chain;
    LifeIsAllowed(u, last);
    forall i, j | 0 <= i < j <= last ensures Key(i) != Key(j) {
      if Key(i) == Key(j) {
        KeysDiffer(i, j);
      }
    }
    SeventeenKeysAreTooMany(PLAIN, Life(u, last), u);
    KeysOfPath(last);
  }

  lemma {:induction false} KeysOfPath(last: nat)
    requires last < 256
    ensures |KeysFrom(Path(last), 0)| == last + 1
  {
    hide Key;
    if last > 0 {
      KeysOfPath(last - 1);
      var fewer := KeysFrom(Path(last - 1), 0);
      assert Path(last)[last].fp == Key(last);
      forall i | 0 <= i < last ensures Path(last)[i] == Path(last - 1)[i] && Key(i) != Key(last) {
        if Key(i) == Key(last) {
          KeysDiffer(i, last);
        }
      }
      assert Key(last) !in fewer;
      assert KeysFrom(Path(last), 0) == fewer + {Key(last)};
    } else {
      assert KeysFrom(Path(0), 0) == {Path(0)[0].fp};
    }
  }

  // ---------------------------------------------------------------- two users with one key

  /** `a` holds key 0; `b` uploads key 1 and fetches a challenge. */
  function TwoUsers(a: string, b: string): seq<Event> {
    [Put(1, a, Key(0)), Put(2, b, Key(1)), Issue(3, Key(0), b, "", Rotating)]
  }

  lemma FirstUpload(t: Tables, u: string, i: nat)
    requires forall k :: 0 <= k < |t.keys| ==> t.keys[k].userId != u && t.keys[k].fingerprint != Key(i)
    ensures PutKey(PLAIN, t, u, Key(i)) == (t.(keys := t.keys + [KeyRow(u, Key(i), Key(i), true)]), Created)
  {
    hide Key, IsFingerprint;
    assert ParsePublicKey(PLAIN, Key(i)) == Some(Key(i));
    assert FindActive(t.keys, u).None? && FindKey(t.keys, Key(i)).None?;
  }

  lemma AfterTwoUsers(a: string, b: string)
    requires a != b
    ensures AllowedRun(PLAIN, START_OF_TIME, TwoUsers(a, b))
    ensures Run(PLAIN, START_OF_TIME, TwoUsers(a, b)).tables ==
            Tables([KeyRow(a, Key(0), Key(0), true), KeyRow(b, Key(1), Key(1), true)], [],
                   map[Key(0) := Challenge(b, "", Rotating, false, 3)])
  {
    hide Key, PutKey;
    var events := TwoUsers(a, b);
    if Key(0) == Key(1) {
      KeysDiffer(0, 1);
    }
    FirstUpload(START_OF_TIME.tables, a, 0);
    var w1 := Step(PLAIN, START_OF_TIME, events[0]);
    FirstUpload(w1.tables, b, 1);
    var w2 := Step(PLAIN, w1, events[1]);
    assert events == [events[0]] + ([events[1]] + ([events[2]] + []));
    RunCons(w2, events[2], []);
    RunCons(w1, events[1], [events[2]] + []);
    RunCons(START_OF_TIME, events[0], [events[1]] + ([events[2]] + []));
  }

  lemma RunCons(w: World, e: Event, rest: seq<Event>)
    ensures Run(PLAIN, w, [e] + rest) == Run(PLAIN, Step(PLAIN, w, e), rest)
    ensures AllowedRun(PLAIN, w, [e] + rest) <==> Allowed(PLAIN, w, e) && AllowedRun(PLAIN, Step(PLAIN, w, e), rest)
  {
    hide Step, Allowed;
    assert ([e] + rest)[1..] == rest;
  }

  /** Now `b` rotates to the key of `a`: the reply is "created", and `b` is left without an active key. */
  lemma SharedKeyLocksOut(a: string, b: string)
    requires a != b
    ensures AllowedRun(PLAIN, START_OF_TIME, TwoUsers(a, b))
    ensures var t := Run(PLAIN, START_OF_TIME, TwoUsers(a, b)).tables;
            var (t', reply) := RotateKey(PLAIN, t, 4, b, b, Request(0));
            && FindActive(t.keys, b).Some? && reply == Created && FindActive(t'.keys, b).None?
  {
    hide Key, IsFingerprint, Run, AllowedRun, Recorded, Statement;
    AfterTwoUsers(a, b);
    if Key(0) == Key(1) {
      KeysDiffer(0, 1);
    }
    var t := Run(PLAIN, START_OF_TIME, TwoUsers(a, b)).tables;
    assert t.keys[1].userId == b && t.keys[0].fingerprint == Key(0);
    assert FindActive(t.keys, b) == Some(1);
    assert ParsePublicKey(PLAIN, Key(0)) == Some(Key(0)) && ParsedFp(PLAIN, Key(0)) == Key(0);
    assert Complete(Request(0));
    RotationNeedsAnUnsharedKey(PLAIN, t, 4, b, b, Request(0));
  }
}
