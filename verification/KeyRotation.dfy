/** The key, rotation and challenge tables, and the handlers that update them (internal/web/handlers_keys.go). */
module KeyRotation {
  import opened Wrappers
  import opened Text
  import opened RotationStatement

  /** OpenPGP as the server uses it; every result holds for any choice of these functions. */
  datatype Crypto = Crypto(
    fingerprint: string -> Option<string>,          // of an armored public key
    acceptable: string -> bool,                     // the further checks on an uploaded key
    verify: (string, string, string) -> bool)       // armored key, text, detached signature

  datatype KeyRow = KeyRow(userId: string, fingerprint: string, armored: string, active: bool)

  datatype Rotation = Rotation(
    userId: string, oldFp: string, newFp: string,
    oldArmored: string, newArmored: string, attestation: string, statement: string, createdAt: int)

  datatype Purpose = Login | Deletion | Rotating

  datatype Challenge = Challenge(address: string, nonce: string, purpose: Purpose, used: bool, createdAt: int)

  datatype Tables = Tables(keys: seq<KeyRow>, rotations: seq<Rotation>, challenges: map<string, Challenge>)

  const CHALLENGE_TTL := 300

  function ParsePublicKey(crypto: Crypto, armored: string): Option<string> {
    if crypto.acceptable(armored) then crypto.fingerprint(armored) else None
  }

  // ---------------------------------------------------------------- queries and updates

  function FindKey(keys: seq<KeyRow>, fp: string): (r: Option<nat>)
    ensures r.Some? ==> r.value < |keys| && keys[r.value].fingerprint == fp
    ensures r.None? ==> forall i :: 0 <= i < |keys| ==> keys[i].fingerprint != fp
    decreases |keys|
  {
    if keys == [] then None
    else if keys[|keys| - 1].fingerprint == fp then Some(|keys| - 1)
    else FindKey(keys[..|keys| - 1], fp)
  }

  function FindActive(keys: seq<KeyRow>, user: string): (r: Option<nat>)
    ensures r.Some? ==> r.value < |keys| && keys[r.value].userId == user && keys[r.value].active
    ensures r.None? ==> forall i :: 0 <= i < |keys| ==> !(keys[i].userId == user && keys[i].active)
    decreases |keys|
  {
    if keys == [] then None
    else if keys[|keys| - 1].userId == user && keys[|keys| - 1].active then Some(|keys| - 1)
    else FindActive(keys[..|keys| - 1], user)
  }

  function Deactivated(keys: seq<KeyRow>, user: string): (r: seq<KeyRow>)
    ensures |r| == |keys|
  {
    seq(|keys|, i requires 0 <= i < |keys| =>
      if keys[i].userId == user && keys[i].active then keys[i].(active := false) else keys[i])
  }

  /** Replaces the armored text of the user's active key. */
  function Rearmored(keys: seq<KeyRow>, user: string, armored: string): (r: seq<KeyRow>)
    ensures |r| == |keys|
  {
    seq(|keys|, i requires 0 <= i < |keys| =>
      if keys[i].userId == user && keys[i].active then keys[i].(armored := armored) else keys[i])
  }

  /** Insert, or on a fingerprint conflict reactivate the existing row; its owner is not changed. */
  function Activated(keys: seq<KeyRow>, user: string, fp: string, armored: string): seq<KeyRow> {
    match FindKey(keys, fp)
    case Some(i) => keys[i := keys[i].(active := true, armored := armored)]
    case None => keys + [KeyRow(user, fp, armored, true)]
  }

  function FindRotation(rows: seq<Rotation>, user: string, oldFp: string, newFp: string): (r: Option<nat>)
    ensures r.Some? ==> r.value < |rows| && rows[r.value].userId == user
                        && rows[r.value].oldFp == oldFp && rows[r.value].newFp == newFp
    ensures r.None? ==> forall i :: 0 <= i < |rows| ==>
                          !(rows[i].userId == user && rows[i].oldFp == oldFp && rows[i].newFp == newFp)
    decreases |rows|
  {
    if rows == [] then None
    else
      var last := rows[|rows| - 1];
      if last.userId == user && last.oldFp == oldFp && last.newFp == newFp then Some(|rows| - 1)
      else FindRotation(rows[..|rows| - 1], user, oldFp, newFp)
  }

  /** Insert, or refresh the row of the same user and the same two keys. */
  function Recorded(rows: seq<Rotation>, r: Rotation): seq<Rotation> {
    match FindRotation(rows, r.userId, r.oldFp, r.newFp)
    case Some(i) => rows[i := r]
    case None => rows + [r]
  }

  function KeysWithout(keys: seq<KeyRow>, user: string): (r: seq<KeyRow>)
    ensures forall k :: k in r <==> k in keys && k.userId != user
    decreases |keys|
  {
    if keys == [] then []
    else KeysWithout(keys[..|keys| - 1], user) + if keys[|keys| - 1].userId == user then [] else [keys[|keys| - 1]]
  }

  function RotationsWithout(rows: seq<Rotation>, user: string): (r: seq<Rotation>)
    ensures forall k :: k in r <==> k in rows && k.userId != user
    decreases |rows|
  {
    if rows == [] then []
    else RotationsWithout(rows[..|rows| - 1], user) + if rows[|rows| - 1].userId == user then [] else [rows[|rows| - 1]]
  }

  /** What is left when the row of `user` goes and takes the rows referring to it along; challenges refer to nobody. */
  function UserDeleted(t: Tables, user: string): Tables {
    t.(keys := KeysWithout(t.keys, user), rotations := RotationsWithout(t.rotations, user))
  }

  predicate Claimable(c: Challenge, address: string, now: int) {
    c.address == address && c.purpose == Rotating && !c.used && c.createdAt > now - CHALLENGE_TTL
  }

  // ---------------------------------------------------------------- the handlers as functions

  datatype Reply =
    | Created | Refreshed
    | BadRequest | InvalidPublicKey | RotationRequired | NoActiveKey | SameKey
    | InvalidChallenge | InvalidSignature | Internal

  datatype RotateRequest = RotateRequest(
    challengeId: string, newArmored: string, oldSignature: string, newSignature: string)

  predicate Complete(req: RotateRequest) {
    req.challengeId != "" && req.newArmored != "" && req.oldSignature != "" && req.newSignature != ""
  }

  function PutKey(crypto: Crypto, t: Tables, user: string, armored: string): (Tables, Reply) {
    if armored == "" then (t, BadRequest)
    else
      match ParsePublicKey(crypto, armored)
      case None => (t, InvalidPublicKey)
      case Some(fp) =>
        match FindActive(t.keys, user)
        case Some(i) =>
          if t.keys[i].fingerprint != fp then (t, RotationRequired)
          else (t.(keys := Rearmored(t.keys, user, armored)), Refreshed)
        case None =>
          // The fingerprint column is unique, so inserting a known key fails.
          if FindKey(t.keys, fp).Some? then (t, Internal)
          else (t.(keys := t.keys + [KeyRow(user, fp, armored, true)]), Created)
  }

  function Claimed(t: Tables, id: string): Tables
    requires id in t.challenges
  {
    t.(challenges := t.challenges[id := t.challenges[id].(used := true)])
  }

  function Rotated(
    t: Tables, user: string, from: KeyRow, newFp: string, req: RotateRequest, statement: string, now: int): Tables
  {
    var row := Rotation(user, from.fingerprint, newFp, from.armored, req.newArmored, req.oldSignature, statement, now);
    t.(keys := Activated(Deactivated(t.keys, user), user, newFp, req.newArmored),
       rotations := Recorded(t.rotations, row))
  }

  function RotateKey(crypto: Crypto, t: Tables, now: int, user: string, address: string, req: RotateRequest)
    : (Tables, Reply)
  {
    if !Complete(req) then (t, BadRequest)
    else
      match ParsePublicKey(crypto, req.newArmored)
      case None => (t, InvalidPublicKey)
      case Some(newFp) =>
        match FindActive(t.keys, user)
        case None => (t, NoActiveKey)
        case Some(i) =>
          var from := t.keys[i];
          if from.armored == "" then (t, NoActiveKey)
          else if newFp == from.fingerprint then (t, SameKey)
          else if !(req.challengeId in t.challenges && Claimable(t.challenges[req.challengeId], address, now)) then
            (t, InvalidChallenge)
          else
            var statement := Statement(from.fingerprint, newFp, t.challenges[req.challengeId].nonce);
            var claimed := Claimed(t, req.challengeId);
            if !crypto.verify(from.armored, statement, req.oldSignature)
               || !crypto.verify(req.newArmored, statement, req.newSignature) then (claimed, InvalidSignature)
            else (Rotated(claimed, user, from, newFp, req, statement, now), Created)
  }

  // ---------------------------------------------------------------- the handlers on the database

  class KeyServer {
    const crypto: Crypto
    var keys: seq<KeyRow>
    var rotations: seq<Rotation>
    var challenges: map<string, Challenge>

    function State(): Tables
      reads this
    {
      Tables(keys, rotations, challenges)
    }

    constructor (crypto: Crypto)
      ensures this.crypto == crypto && State() == Tables([], [], map[])
    {
      this.crypto := crypto;
      keys, rotations, challenges := [], [], map[];
    }

    method HandlePutMyKey(user: string, armored: string) returns (reply: Reply)
      modifies this`keys
      ensures (State(), reply) == PutKey(crypto, old(State()), user, armored)
    {
      if armored == "" {
        return BadRequest;
      }
      var parsed := ParsePublicKey(crypto, armored);
      if parsed.None? {
        return InvalidPublicKey;
      }
      var existing := FindActive(keys, user);
      if existing.Some? {
        if keys[existing.value].fingerprint != parsed.value {
          return RotationRequired;
        }
        keys := Rearmored(keys, user, armored);
        return Refreshed;
      }
      if FindKey(keys, parsed.value).Some? {
        return Internal;
      }
      keys := keys + [KeyRow(user, parsed.value, armored, true)];
      return Created;
    }

    method HandleRotateKey(now: int, user: string, address: string, req: RotateRequest) returns (reply: Reply)
      modifies this
      ensures (State(), reply) == RotateKey(crypto, old(State()), now, user, address, req)
    {
      if !Complete(req) {
        return BadRequest;
      }
      var parsed := ParsePublicKey(crypto, req.newArmored);
      if parsed.None? {
        return InvalidPublicKey;
      }
      var newFp := parsed.value;
      var active := FindActive(keys, user);
      if active.None? || keys[active.value].armored == "" {
        return NoActiveKey;
      }
      var from := keys[active.value];
      if newFp == from.fingerprint {
        return SameKey;
      }
      // Claiming comes before any signature is looked at, and is not undone.
      if req.challengeId !in challenges || !Claimable(challenges[req.challengeId], address, now) {
        return InvalidChallenge;
      }
      var nonce := challenges[req.challengeId].nonce;
      challenges := challenges[req.challengeId := challenges[req.challengeId].(used := true)];

      var statement := Statement(from.fingerprint, newFp, nonce);
      if !crypto.verify(from.armored, statement, req.oldSignature) {
        return InvalidSignature;
      }
      if !crypto.verify(req.newArmored, statement, req.newSignature) {
        return InvalidSignature;
      }
      keys := Deactivated(keys, user);
      keys := Activated(keys, user, newFp, req.newArmored);
      rotations := Recorded(
        rotations,
        Rotation(user, from.fingerprint, newFp, from.armored, req.newArmored, req.oldSignature, statement, now));
      return Created;
    }
  }
}
