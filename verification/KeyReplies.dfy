/** Which uploads and rotations are accepted, and what one accepted request leaves in the tables, row by row. */
module KeyReplies {
  import opened Wrappers
  import opened RotationStatement
  import opened KeyRotation
  import opened Continuity
  import opened RotationHistory

  ghost predicate IsActive(keys: seq<KeyRow>, user: string, i: nat) {
    i < |keys| && keys[i].userId == user && keys[i].active
  }

  ghost predicate AtMostOneActive(keys: seq<KeyRow>, user: string) {
    forall i, j :: IsActive(keys, user, i) && IsActive(keys, user, j) ==> i == j
  }

  /** The key text can be read, passes the further checks and has this fingerprint. */
  ghost predicate ReadsAs(crypto: Crypto, armored: string, fp: string) {
    armored != "" && crypto.acceptable(armored) && crypto.fingerprint(armored) == Some(fp)
  }

  /** An upload by a user without an active key is accepted if and only if nobody has that key; by one with an active
    * key, if and only if it is the same key. What changes is one new row, or the text of the active row. */
  lemma UploadIsExact(crypto: Crypto, t: Tables, user: string, armored: string)
    requires AtMostOneActive(t.keys, user)
    ensures var (t', reply) := PutKey(crypto, t, user, armored);
      && t'.rotations == t.rotations && t'.challenges == t.challenges
      && (reply.Created? <==>
            && (forall i: nat :: !IsActive(t.keys, user, i))
            && exists fp :: ReadsAs(crypto, armored, fp)
                 && forall i :: 0 <= i < |t.keys| ==> t.keys[i].fingerprint != fp)
      && (reply.Refreshed? <==> exists fp, i: nat ::
            ReadsAs(crypto, armored, fp) && IsActive(t.keys, user, i) && t.keys[i].fingerprint == fp)
      && (reply.RotationRequired? <==> exists fp, i: nat ::
            ReadsAs(crypto, armored, fp) && IsActive(t.keys, user, i) && t.keys[i].fingerprint != fp)
      && (reply.Created? ==>
            t'.keys == t.keys + [KeyRow(user, crypto.fingerprint(armored).value, armored, true)])
      && (reply.Refreshed? ==> |t'.keys| == |t.keys| && forall i: nat :: i < |t.keys| ==>
            t'.keys[i] == if IsActive(t.keys, user, i)
                          then KeyRow(user, t.keys[i].fingerprint, armored, true) else t.keys[i])
      && (!reply.Created? && !reply.Refreshed? ==> t' == t)
  {
    var active := FindActive(t.keys, user);
    if active.Some? {
      assert IsActive(t.keys, user, active.value);
    }
    if armored != "" && ParsePublicKey(crypto, armored).Some? {
      assert ReadsAs(crypto, armored, ParsePublicKey(crypto, armored).value);
    }
  }

  /** A challenge of this address, meant for rotations, not used before and less than five minutes old. */
  ghost predicate Fit(t: Tables, id: string, address: string, now: int) {
    && id in t.challenges && t.challenges[id].address == address && t.challenges[id].purpose == Rotating
    && !t.challenges[id].used && now - t.challenges[id].createdAt < 5 * 60
  }

  /** The request is complete, the new key can be read, and it is not the active one, which is row `i`. */
  ghost predicate Proposes(crypto: Crypto, t: Tables, user: string, req: RotateRequest, i: nat, fp: string) {
    && req.challengeId != "" && req.oldSignature != "" && req.newSignature != ""
    && ReadsAs(crypto, req.newArmored, fp) && IsActive(t.keys, user, i) && t.keys[i].armored != ""
    && t.keys[i].fingerprint != fp
  }

  /** Both keys signed the statement that names them and the challenge. */
  ghost predicate BothSigned(crypto: Crypto, t: Tables, req: RotateRequest, i: nat, fp: string)
    requires i < |t.keys| && req.challengeId in t.challenges
  {
    var statement := Statement(t.keys[i].fingerprint, fp, t.challenges[req.challengeId].nonce);
    && crypto.verify(t.keys[i].armored, statement, req.oldSignature)
    && crypto.verify(req.newArmored, statement, req.newSignature)
  }

  /** A rotation is accepted if and only if the request proposes another key, the challenge is fit and both keys signed;
    * a bad signature is the answer exactly when that alone fails. In these two cases, and in no other, the challenge is
    * used up; keys and rotations change in the first alone. */
  lemma RotationIsExact(
    crypto: Crypto, t: Tables, now: int, user: string, address: string, req: RotateRequest, i: nat, fp: string)
    requires AtMostOneActive(t.keys, user) && Proposes(crypto, t, user, req, i, fp)
    ensures var (t', reply) := RotateKey(crypto, t, now, user, address, req);
      && (reply.Created? <==> Fit(t, req.challengeId, address, now) && BothSigned(crypto, t, req, i, fp))
      && (reply.InvalidSignature? <==> Fit(t, req.challengeId, address, now) && !BothSigned(crypto, t, req, i, fp))
      && (reply.InvalidChallenge? <==> !Fit(t, req.challengeId, address, now))
      && t'.challenges == (if reply.InvalidChallenge? then t.challenges
                           else t.challenges[req.challengeId := t.challenges[req.challengeId].(used := true)])
      && (!reply.Created? ==> t'.keys == t.keys && t'.rotations == t.rotations)
  {
    hide Statement, Activated, Deactivated, Recorded;
    assert FindActive(t.keys, user).Some? && IsActive(t.keys, user, FindActive(t.keys, user).value);
  }

  /** Anything else is refused and changes nothing. */
  lemma OtherRotationsAreRefused(
    crypto: Crypto, t: Tables, now: int, user: string, address: string, req: RotateRequest)
    requires forall i: nat, fp :: !Proposes(crypto, t, user, req, i, fp)
    ensures var (t', reply) := RotateKey(crypto, t, now, user, address, req);
      && t' == t && reply in {BadRequest, InvalidPublicKey, NoActiveKey, SameKey}
  {
    hide Statement;
    var active, parsed := FindActive(t.keys, user), ParsePublicKey(crypto, req.newArmored);
    if Complete(req) && active.Some? && parsed.Some? {
      assert IsActive(t.keys, user, active.value) && ReadsAs(crypto, req.newArmored, parsed.value);
      assert !Proposes(crypto, t, user, req, active.value, parsed.value);
    }
  }

  /** An accepted rotation, row by row: the user's other keys are switched off, the new key is on with the text sent, in
    * the row that has its fingerprint or in a new one, and the rotation is on record once, with what was signed. */
  lemma RotationLeaves(
    crypto: Crypto, t: Tables, now: int, user: string, address: string, req: RotateRequest, i: nat, fp: string)
    requires AtMostOneActive(t.keys, user) && Proposes(crypto, t, user, req, i, fp) && UniqueKeys(t.keys)
    requires RotateKey(crypto, t, now, user, address, req).1 == Created
    ensures var t' := RotateKey(crypto, t, now, user, address, req).0;
      var row := Rotation(user, t.keys[i].fingerprint, fp, t.keys[i].armored, req.newArmored, req.oldSignature,
                          Statement(t.keys[i].fingerprint, fp, t.challenges[req.challengeId].nonce), now);
      && |t.keys| <= |t'.keys|
      && (forall k :: 0 <= k < |t.keys| ==>
            t'.keys[k] == if t.keys[k].fingerprint == fp
                          then KeyRow(t.keys[k].userId, fp, req.newArmored, true)
                          else if t.keys[k].userId == user
                          then KeyRow(user, t.keys[k].fingerprint, t.keys[k].armored, false) else t.keys[k])
      && t'.keys[|t.keys|..] == (if exists k :: 0 <= k < |t.keys| && t.keys[k].fingerprint == fp then []
                                 else [KeyRow(user, fp, req.newArmored, true)])
      && row in t'.rotations
      && (forall r :: r in t'.rotations && r != row ==> r in t.rotations)
      && (forall r :: r in t.rotations && !(r.userId == user && r.oldFp == row.oldFp && r.newFp == fp) ==>
            r in t'.rotations)
  {
    hide Statement, IsActive;
    assert FindActive(t.keys, user) == Some(i) by { OnlyActive(t.keys, user, i); }
    var off := Deactivated(t.keys, user);
    var row := Rotation(user, t.keys[i].fingerprint, fp, t.keys[i].armored, req.newArmored, req.oldSignature,
                        Statement(t.keys[i].fingerprint, fp, t.challenges[req.challengeId].nonce), now);
    RecordedRows(t.rotations, row);
    forall r | r in t.rotations && !(r.userId == user && r.oldFp == row.oldFp && r.newFp == fp)
      ensures r in Recorded(t.rotations, row)
    {
      var k :| 0 <= k < |t.rotations| && t.rotations[k] == r;
    }
    hide Recorded;
    RowsSwitched(t.keys, user, fp, req.newArmored);
  }

  lemma OnlyActive(keys: seq<KeyRow>, user: string, i: nat)
    requires AtMostOneActive(keys, user) && IsActive(keys, user, i)
    ensures FindActive(keys, user) == Some(i)
  {
    assert IsActive(keys, user, FindActive(keys, user).value);
  }

  lemma RowsSwitched(keys: seq<KeyRow>, user: string, fp: string, armored: string)
    requires UniqueKeys(keys)
    ensures var keys' := Activated(Deactivated(keys, user), user, fp, armored);
      && |keys| <= |keys'|
      && (forall k :: 0 <= k < |keys| ==>
            keys'[k] == if keys[k].fingerprint == fp then KeyRow(keys[k].userId, fp, armored, true)
                        else if keys[k].userId == user
                        then KeyRow(user, keys[k].fingerprint, keys[k].armored, false) else keys[k])
      && keys'[|keys|..] == (if exists k :: 0 <= k < |keys| && keys[k].fingerprint == fp then []
                             else [KeyRow(user, fp, armored, true)])
  {
    var off := Deactivated(keys, user);
    var keys' := Activated(off, user, fp, armored);
    if FindKey(off, fp).Some? {
      var k := FindKey(off, fp).value;
      assert keys[k].fingerprint == fp;
      assert keys'[|keys|..] == [];
    } else {
      assert forall k :: 0 <= k < |keys| ==> off[k].fingerprint == keys[k].fingerprint;
      assert keys'[|keys|..] == [KeyRow(user, fp, armored, true)];
    }
  }
}
