/** Following attested rotations from a trusted key: `VerifyRotationChain` in internal/discovery/discovery.go. */
module Continuity {
  import opened Wrappers
  import opened Text
  import opened GoText
  import opened RotationStatement
  import opened KeyRotation

  const MAX_ROTATION_HOPS := 16

  /** The first row with the latest time among those leaving `cur`; the table's order settles ties. */
  function Newest(rows: seq<Rotation>, cur: string): (r: Option<Rotation>)
    ensures r.Some? ==> r.value in rows && r.value.oldFp == cur
    ensures r.Some? ==> forall k :: 0 <= k < |rows| && rows[k].oldFp == cur ==> rows[k].createdAt <= r.value.createdAt
    ensures r.None? ==> forall k :: 0 <= k < |rows| ==> rows[k].oldFp != cur
  {
    if rows == [] then None
    else
      var later := Newest(rows[1..], cur);
      if rows[0].oldFp != cur then later
      else if later.Some? && later.value.createdAt > rows[0].createdAt then later
      else Some(rows[0])
  }

  /** The stored attestation is a signature by the current key over a statement naming both ends. */
  predicate Attested(crypto: Crypto, row: Rotation, cur: string, next: string) {
    && crypto.fingerprint(row.oldArmored).Some?
    && EqualFold(crypto.fingerprint(row.oldArmored).value, cur)
    && Contains(row.statement, "old:" + cur)
    && Contains(row.statement, "new:" + next)
    && crypto.verify(row.oldArmored, row.statement, row.attestation)
  }

  /** Whether the walk from `cur` meets `target`, looking at no more than `looks` keys. */
  function Chain(crypto: Crypto, rows: seq<Rotation>, cur: string, target: string, looks: nat): bool
    decreases looks
  {
    if looks == 0 then false
    else if cur == target then true
    else
      match Newest(rows, cur)
      case None => false
      case Some(row) =>
        Attested(crypto, row, cur, ToUpper(row.newFp)) && Chain(crypto, rows, ToUpper(row.newFp), target, looks - 1)
  }

  method VerifyRotationChain(crypto: Crypto, rows: seq<Rotation>, fromFp: string, toFp: string) returns (verified: bool)
    ensures verified == Chain(crypto, rows, ToUpper(TrimSpace(fromFp)), ToUpper(TrimSpace(toFp)), MAX_ROTATION_HOPS)
  {
    var cur := ToUpper(TrimSpace(fromFp));
    var target := ToUpper(TrimSpace(toFp));
    for hop := 0 to MAX_ROTATION_HOPS
      invariant Chain(crypto, rows, ToUpper(TrimSpace(fromFp)), target, MAX_ROTATION_HOPS)
             == Chain(crypto, rows, cur, target, MAX_ROTATION_HOPS - hop)
    {
      if cur == target {
        return true;
      }
      var row := Newest(rows, cur);
      if row.None? {
        return false;
      }
      var newFp := ToUpper(row.value.newFp);
      var signer := crypto.fingerprint(row.value.oldArmored);
      if signer.None? || !EqualFold(signer.value, cur) {
        return false;
      }
      if !Contains(row.value.statement, "old:" + cur) || !Contains(row.value.statement, "new:" + newFp) {
        return false;
      }
      if !crypto.verify(row.value.oldArmored, row.value.statement, row.value.attestation) {
        return false;
      }
      cur := newFp;
    }
    return false;
  }

  // ---------------------------------------------------------------- exactness

  /** One attested step along the newest edge. */
  ghost predicate Link(crypto: Crypto, rows: seq<Rotation>, cur: string, next: string) {
    var row := Newest(rows, cur);
    row.Some? && next == ToUpper(row.value.newFp) && Attested(crypto, row.value, cur, next)
  }

  ghost predicate TrustPath(crypto: Crypto, rows: seq<Rotation>, path: seq<string>) {
    path != [] && forall i :: 0 <= i < |path| - 1 ==> Link(crypto, rows, path[i], path[i + 1])
  }

  ghost predicate Leads(crypto: Crypto, rows: seq<Rotation>, path: seq<string>, cur: string, target: string) {
    TrustPath(crypto, rows, path) && path[0] == cur && path[|path| - 1] == target
  }

  lemma {:induction false} ChainHasPath(crypto: Crypto, rows: seq<Rotation>, cur: string, target: string, looks: nat)
    returns (path: seq<string>)
    requires Chain(crypto, rows, cur, target, looks)
    ensures Leads(crypto, rows, path, cur, target) && |path| <= looks
    decreases looks
  {
    hide Attested, ToUpper;
    if cur == target {
      path := [cur];
    } else {
      var next := ToUpper(Newest(rows, cur).value.newFp);
      var rest := ChainHasPath(crypto, rows, next, target, looks - 1);
      path := [cur] + rest;
      assert forall i :: 1 <= i < |path| - 1 ==> Link(crypto, rows, rest[i - 1], rest[i]);
    }
  }

  lemma {:induction false} PathMakesChain(
    crypto: Crypto, rows: seq<Rotation>, path: seq<string>, cur: string, target: string, looks: nat)
    requires Leads(crypto, rows, path, cur, target) && |path| <= looks
    ensures Chain(crypto, rows, cur, target, looks)
    decreases |path|
  {
    if cur != target {
      assert Link(crypto, rows, path[0], path[1]);
      var rest := path[1..];
      forall i | 0 <= i < |rest| - 1 ensures Link(crypto, rows, rest[i], rest[i + 1]) {
        assert Link(crypto, rows, path[i + 1], path[i + 1 + 1]);
      }
      PathMakesChain(crypto, rows, rest, path[1], target, looks - 1);
    }
  }

  /** For any table at all: the answer is yes exactly when the newest edges, each attested, lead from one key to the
    * other in at most fifteen hops.
    */
  lemma ChainIsExact(crypto: Crypto, rows: seq<Rotation>, cur: string, target: string)
    ensures Chain(crypto, rows, cur, target, MAX_ROTATION_HOPS)
        <==> exists path :: Leads(crypto, rows, path, cur, target) && |path| - 1 <= 15
  {
    if Chain(crypto, rows, cur, target, MAX_ROTATION_HOPS) {
      var path := ChainHasPath(crypto, rows, cur, target, MAX_ROTATION_HOPS);
    }
    if path :| Leads(crypto, rows, path, cur, target) && |path| - 1 <= 15 {
      PathMakesChain(crypto, rows, path, cur, target, MAX_ROTATION_HOPS);
    }
  }

  // ---------------------------------------------------------------- soundness

  /** The ends of a link whose statement is a canonical one are beginnings of the fingerprints signed there, and those
    * fingerprints themselves if they are as long. */
  lemma LinkNamesItsEnds(crypto: Crypto, rows: seq<Rotation>, cur: string, next: string,
    oldFp: string, newFp: string, nonce: string)
    requires Link(crypto, rows, cur, next)
    requires Newest(rows, cur).value.statement == Statement(oldFp, newFp, nonce)
    requires IsFingerprint(oldFp) && IsFingerprint(newFp) && IsNonce(nonce)
    requires (|cur| <= |oldFp| || IsFingerprint(cur)) && (|next| <= |newFp| || IsFingerprint(next))
    ensures cur <= oldFp && next <= newFp
    ensures (|cur| == |oldFp| ==> cur == oldFp) && (|next| == |newFp| ==> next == newFp)
  {
    OldIsNamed(oldFp, newFp, nonce, cur);
    NewIsNamed(oldFp, newFp, nonce, next);
  }

  /** The owner of key `cur` signed a text naming `cur` as the old key and `next` as the new one. */
  ghost predicate SignedOver(signed: (string, string) -> bool, cur: string, next: string) {
    exists text :: signed(ToUpper(cur), text) && Contains(text, "old:" + cur) && Contains(text, "new:" + next)
  }

  /** If a signature verifies only when the key's owner made it. */
  ghost predicate Unforgeable(crypto: Crypto, signed: (string, string) -> bool) {
    forall armored, text, sig :: crypto.verify(armored, text, sig) && crypto.fingerprint(armored).Some?
      ==> signed(ToUpper(crypto.fingerprint(armored).value), text)
  }

  lemma LinkIsSigned(crypto: Crypto, rows: seq<Rotation>, cur: string, next: string, signed: (string, string) -> bool)
    requires Link(crypto, rows, cur, next) && Unforgeable(crypto, signed)
    ensures SignedOver(signed, cur, next)
  {
    hide ToUpper, Contains;
    var row := Newest(rows, cur).value;
    assert crypto.verify(row.oldArmored, row.statement, row.attestation);
    assert signed(ToUpper(cur), row.statement);
  }

  /** What a positive answer rests on: every key on the way to the target signed for the next one. */
  lemma ChainIsSound(crypto: Crypto, rows: seq<Rotation>, cur: string, target: string, signed: (string, string) -> bool)
    requires Chain(crypto, rows, cur, target, MAX_ROTATION_HOPS) && Unforgeable(crypto, signed)
    ensures exists path :: Leads(crypto, rows, path, cur, target) && |path| - 1 <= 15
              && forall i :: 0 <= i < |path| - 1 ==> SignedOver(signed, path[i], path[i + 1])
  {
    hide SignedOver, Link, Chain, Unforgeable;
    var path := ChainHasPath(crypto, rows, cur, target, MAX_ROTATION_HOPS);
    forall i | 0 <= i < |path| - 1 ensures SignedOver(signed, path[i], path[i + 1]) {
      LinkIsSigned(crypto, rows, path[i], path[i + 1], signed);
    }
  }
}
