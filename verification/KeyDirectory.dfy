/** Finding a key by the hash of a local part: the name a client asks for (internal/discovery/discovery.go:326-330),
  * and the scan that answers (internal/web/handlers_keys.go:401-429). */
module KeyDirectory {
  import opened Wrappers
  import opened Text
  import opened ZBase32

  datatype DirectoryRow = DirectoryRow(localPart: string, armored: string)

  function WkdHash(sha1: string -> seq<bv8>, localPart: string): string {
    Encoded(sha1(Lower(localPart)))
  }

  method HashLocalPart(sha1: string -> seq<bv8>, localPart: string) returns (hash: string)
    ensures hash == WkdHash(sha1, localPart)
  {
    hash := ZBase32Encode(sha1(Lower(localPart)));
  }

  /** The scan over the active keys of a domain: the first row whose hash is asked for. */
  method ServeKey(sha1: string -> seq<bv8>, rows: seq<DirectoryRow>, hash: string) returns (found: Option<nat>)
    ensures found == FirstWith(sha1, rows, hash)
  {
    hide WkdHash;
    var i := 0;
    while i < |rows|
      invariant i <= |rows|
      invariant FirstWith(sha1, rows, hash) ==
                match FirstWith(sha1, rows[i..], hash) { case None => None case Some(k) => Some(i + k) }
    {
      var h := HashLocalPart(sha1, rows[i].localPart);
      if h == hash {
        return Some(i);
      }
      assert rows[i..][1..] == rows[i + 1..];
      i := i + 1;
    }
    return None;
  }

  function FirstWith(sha1: string -> seq<bv8>, rows: seq<DirectoryRow>, hash: string): (r: Option<nat>)
    ensures r.Some? ==> r.value < |rows| && WkdHash(sha1, rows[r.value].localPart) == hash
    ensures r.Some? ==> forall i :: 0 <= i < r.value ==> WkdHash(sha1, rows[i].localPart) != hash
    ensures r.None? ==> forall i :: 0 <= i < |rows| ==> WkdHash(sha1, rows[i].localPart) != hash
  {
    if rows == [] then None
    else if WkdHash(sha1, rows[0].localPart) == hash then Some(0)
    else
      match FirstWith(sha1, rows[1..], hash)
      case None => None
      case Some(k) => Some(k + 1)
  }

  /** Two local parts have the same directory name if and only if the digests of their lower-case forms agree; the name
    * has 32 letters. */
  lemma WkdHashesAgree(sha1: string -> seq<bv8>, a: string, b: string)
    requires |sha1(Lower(a))| == 20
    ensures |WkdHash(sha1, a)| == 32
    ensures WkdHash(sha1, a) == WkdHash(sha1, b) <==> sha1(Lower(a)) == sha1(Lower(b))
  {
    DecodeEncode(sha1(Lower(a)));
    if WkdHash(sha1, a) == WkdHash(sha1, b) {
      EncodingIsInjective(sha1(Lower(a)), sha1(Lower(b)));
    }
  }

  /** No local part of the domain collides with the one asked for. */
  ghost predicate NoCollision(sha1: string -> seq<bv8>, rows: seq<DirectoryRow>, localPart: string) {
    forall i :: 0 <= i < |rows| && sha1(Lower(rows[i].localPart)) == sha1(Lower(localPart)) ==>
      Lower(rows[i].localPart) == Lower(localPart)
  }

  /** Local parts are stored in lower case, once per domain. */
  ghost predicate StoredNames(rows: seq<DirectoryRow>) {
    && (forall i :: 0 <= i < |rows| ==> Lower(rows[i].localPart) == rows[i].localPart)
    && (forall i, j :: 0 <= i < j < |rows| ==> rows[i].localPart != rows[j].localPart)
  }

  /** Barring a collision, a client asking for an address in any case is given the key of the row with that local part,
    * so nothing is given if there is none. */
  lemma LookupFindsTheOwner(sha1: string -> seq<bv8>, rows: seq<DirectoryRow>, localPart: string, i: nat)
    requires i < |rows| && StoredNames(rows) && NoCollision(sha1, rows, localPart)
    ensures FirstWith(sha1, rows, WkdHash(sha1, localPart)) == Some(i) <==> rows[i].localPart == Lower(localPart)
  {
    hide Lower, WkdHash;
    var hash := WkdHash(sha1, localPart);
    forall k | 0 <= k < |rows|
      ensures WkdHash(sha1, rows[k].localPart) == hash <==> rows[k].localPart == Lower(localPart)
    {
      SameName(sha1, rows, localPart, k);
    }
  }

  lemma SameName(sha1: string -> seq<bv8>, rows: seq<DirectoryRow>, localPart: string, k: nat)
    requires k < |rows| && StoredNames(rows) && NoCollision(sha1, rows, localPart)
    ensures WkdHash(sha1, rows[k].localPart) == WkdHash(sha1, localPart) <==> rows[k].localPart == Lower(localPart)
  {
    hide Lower, Encoded;
    if WkdHash(sha1, rows[k].localPart) == WkdHash(sha1, localPart) {
      EncodingIsInjective(sha1(Lower(rows[k].localPart)), sha1(Lower(localPart)));
    }
  }
}
