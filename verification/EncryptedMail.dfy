/** A message from composer to recipient: printed, encrypted, wrapped, extracted, decrypted and read. */
module EncryptedMail {
  import opened Wrappers
  import opened Text
  import opened MimeTypes
  import opened MimeReader
  import opened MimeWriter
  import opened MimeRoundTrip
  import opened PgpEnvelope

  /** `end` is where the end marker of the wrapped ciphertext is. */
  function Wrapped(armored: string, end: nat): string
    requires end + |END_PGP| <= |NormalizeCRLF(armored)|
  {
    NormalizeCRLF(armored)[..end + |END_PGP|]
  }

  /** What `encrypt` makes of `text` is armored, and `key` opens it, newlines normalised, to the text, with its own line
    * ends or with line feeds alone; `end` is where its end marker is. */
  ghost predicate OpensAt(pgp: OpenPgp, encrypt: string -> string, key: string, text: string, end: nat) {
    && Armored(NormalizeCRLF(encrypt(text)), end) && end + |END_PGP| <= |NormalizeCRLF(encrypt(text))|
    && pgp.open(Wrapped(encrypt(text), end), key).Some?
    && pgp.open(Wrapped(encrypt(text), end), key).value.0 in {text, ToLF(text)}
  }

  ghost predicate CanOpen(pgp: OpenPgp, encrypt: string -> string, key: string, text: string) {
    exists end: nat :: OpensAt(pgp, encrypt, key, text, end)
  }

  /** The recipient is shown `body`, less one final newline and newlines aside, and exactly the attachments `atts`,
    * less the dropped ones. */
  ghost predicate Shown(browser: Browser, read: Result<Decrypted, DecryptError>, body: string, atts: seq<Attachment>) {
    read.Ok? && ToLF(read.value.body) == DropFinalNewline(ToLF(body))
      && read.value.attachments == ReceivedAll(browser, atts)
  }

  ghost predicate NoMarkerIn(headers: seq<string>) {
    forall i :: 0 <= i < |headers| ==> !Contains(headers[i], BEGIN_PGP)
  }

  lemma BlockOfSent(headers: seq<string>, armored: string, outer: string, end: nat)
    requires PlainLines(headers) && OwnBoundary(outer) && NoMarkerIn(headers)
    requires Armored(NormalizeCRLF(armored), end) && end + |END_PGP| <= |NormalizeCRLF(armored)|
    ensures ExtractPGPBlock(BuildPGPMIME(headers, armored, outer)) == Some(Wrapped(armored, end))
  {
    hide NormalizeCRLF, ExtractPGPBlock, BuildPGPMIME, Contains, PlainLines, OwnBoundary, Armored;
    PgpBlockIsExtracted(headers, armored, outer, end);
  }

  lemma OpenedText(
    browser: Browser, pgp: OpenPgp, raw: string, pgpBlock: string, key: string, sender: Option<string>, body: string,
    atts: seq<Attachment>)
    requires ExtractPGPBlock(raw) == Some(pgpBlock) && pgp.open(pgpBlock, key).Some?
    requires ToLF(ExtractDecryptedBody(browser, pgp.open(pgpBlock, key).value.0)) == DropFinalNewline(ToLF(body))
    requires ParseMIMEAttachments(browser, pgp.open(pgpBlock, key).value.0) == ReceivedAll(browser, atts)
    ensures Shown(browser, DecryptMessage(browser, pgp, raw, Some(key), sender), body, atts)
  {
    hide ExtractPGPBlock, ExtractDecryptedBody, ParseMIMEAttachments, ToLF, DropFinalNewline, ReceivedAll,
      ExtractTextBody;
  }

  /** The recipient of an encrypted message reads the sender's text and the attachments sent, in order, whenever
    * the recipient's key opens what was encrypted. */
  lemma EncryptedMessageRoundTrip(
    browser: Browser, pgp: OpenPgp, encrypt: string -> string, key: string, sender: Option<string>,
    headers: seq<string>, outer: string, body: string, senderKey: string, atts: seq<Attachment>, inner: string)
    requires PlainLines(headers) && OwnBoundary(outer) && NoMarkerIn(headers)
    requires Composable(browser, body, senderKey, atts, inner)
    requires CanOpen(pgp, encrypt, key, InnerMIME(browser, body, senderKey, atts, inner))
    ensures Shown(
      browser,
      DecryptMessage(
        browser, pgp, BuildPGPMIME(headers, encrypt(InnerMIME(browser, body, senderKey, atts, inner)), outer),
        Some(key), sender),
      body, atts)
  {
    hide InnerMIME, BuildPGPMIME, NormalizeCRLF, ExtractPGPBlock, ExtractDecryptedBody, ParseMIMEAttachments, ToLF,
      DropFinalNewline, Composable, Armored, NoMarkerIn, PlainLines, OwnBoundary, DecryptMessage, Shown, ReceivedAll,
      Wrapped;
    var printed := InnerMIME(browser, body, senderKey, atts, inner);
    var end: nat :| OpensAt(pgp, encrypt, key, printed, end);
    BlockOfSent(headers, encrypt(printed), outer, end);
    var pgpBlock := Wrapped(encrypt(printed), end);
    InnerMimeRoundTrip(browser, pgp.open(pgpBlock, key).value.0, body, senderKey, atts, inner);
    OpenedText(browser, pgp, BuildPGPMIME(headers, encrypt(printed), outer), pgpBlock, key, sender, body, atts);
  }

  // ---------------------------------------------------------------- who signed it

  /** `signed(key, armored)`: the owner of the public key `key` made the first signature inside the block `armored`. A
    * signature verifies under a key exactly if the owner made it, and what somebody signed has a signature. */
  ghost predicate IdealSignatures(pgp: OpenPgp, signed: (string, string) -> bool) {
    && (forall armored, key, sender :: pgp.verifies(armored, key, sender) <==> signed(sender, armored))
    && (forall armored, key, sender :: signed(sender, armored) && pgp.open(armored, key).Some? ==>
          pgp.open(armored, key).value.1 > 0)
  }

  /** A sender's key the page can check against; the empty text counts as none. */
  predicate Known(sender: Option<string>) {
    sender.Some? && sender.value != ""
  }

  /** What the recipient is told about the signature, for any message with a block and any key that may open it. */
  lemma VerdictIsHonest(
    browser: Browser, pgp: OpenPgp, signed: (string, string) -> bool, raw: string, key: string, sender: Option<string>)
    requires IdealSignatures(pgp, signed) && ExtractPGPBlock(raw).Some?
    ensures var armored := ExtractPGPBlock(raw).value;
            var read := DecryptMessage(browser, pgp, raw, Some(key), sender);
            && (read.Ok? <==> pgp.open(armored, key).Some?)
            && (read.Ok? ==>
                  var count := pgp.open(armored, key).value.1;
                  && (read.value.status == NoSignature <==> count == 0)
                  && (read.value.status == UnknownKey <==> count > 0 && !Known(sender))
                  && (read.value.status == Verified <==> Known(sender) && signed(sender.value, armored))
                  && (read.value.status == Invalid <==> count > 0 && Known(sender) && !signed(sender.value, armored)))
  {
    hide ExtractPGPBlock, ExtractDecryptedBody, ParseMIMEAttachments, ExtractTextBody;
    var armored := ExtractPGPBlock(raw).value;
    assert Known(sender) ==> (pgp.verifies(armored, key, sender.value) <==> signed(sender.value, armored));
  }

  /** Without a key, or without a block, nothing is claimed about a signature. */
  lemma NothingToVerify(
    browser: Browser, pgp: OpenPgp, raw: string, privateKey: Option<string>, sender: Option<string>)
    requires privateKey.None? || ExtractPGPBlock(raw).None?
    ensures DecryptMessage(browser, pgp, raw, privateKey, sender)
         == Ok(Decrypted(ExtractTextBody(browser, raw), NoSignature, []))
  {
    hide ExtractPGPBlock, ExtractTextBody;
  }

  /** The owner of `signer`, and nobody else, signs what `encrypt` makes of `text`. */
  ghost predicate SignedBy(
    pgp: OpenPgp, encrypt: string -> string, signed: (string, string) -> bool, signer: string, key: string,
    text: string)
  {
    forall end: nat, who ::
      OpensAt(pgp, encrypt, key, text, end) ==> (signed(who, Wrapped(encrypt(text), end)) <==> who == signer)
  }

  /** A composed message its sender signed, opened by a recipient: verified against the sender's key, invalid against
    * any other one, and of unknown origin without a key to check against. */
  lemma SignedMessageRoundTrip(
    browser: Browser, pgp: OpenPgp, encrypt: string -> string, key: string, sender: Option<string>,
    headers: seq<string>, outer: string, body: string, senderKey: string, atts: seq<Attachment>, inner: string,
    signed: (string, string) -> bool, signer: string)
    requires PlainLines(headers) && OwnBoundary(outer) && NoMarkerIn(headers)
    requires Composable(browser, body, senderKey, atts, inner)
    requires CanOpen(pgp, encrypt, key, InnerMIME(browser, body, senderKey, atts, inner))
    requires IdealSignatures(pgp, signed) && signer != ""
    requires SignedBy(pgp, encrypt, signed, signer, key, InnerMIME(browser, body, senderKey, atts, inner))
    ensures var raw := BuildPGPMIME(headers, encrypt(InnerMIME(browser, body, senderKey, atts, inner)), outer);
            var read := DecryptMessage(browser, pgp, raw, Some(key), sender);
            && Shown(browser, read, body, atts)
            && read.value.status == if !Known(sender) then UnknownKey
                                    else if sender.value == signer then Verified
                                    else Invalid
  {
    hide InnerMIME, BuildPGPMIME, NormalizeCRLF, ExtractPGPBlock, ToLF, DropFinalNewline, Composable, Armored;
    hide NoMarkerIn, PlainLines, OwnBoundary, DecryptMessage, ReceivedAll, Wrapped, IdealSignatures;
    EncryptedMessageRoundTrip(browser, pgp, encrypt, key, sender, headers, outer, body, senderKey, atts, inner);
    var printed := InnerMIME(browser, body, senderKey, atts, inner);
    var end: nat :| OpensAt(pgp, encrypt, key, printed, end);
    BlockOfSent(headers, encrypt(printed), outer, end);
    var raw := BuildPGPMIME(headers, encrypt(printed), outer);
    VerdictIsHonest(browser, pgp, signed, raw, key, sender);
    WasSigned(pgp, signed, signer, Wrapped(encrypt(printed), end), key);
  }

  lemma WasSigned(pgp: OpenPgp, signed: (string, string) -> bool, signer: string, armored: string, key: string)
    requires IdealSignatures(pgp, signed) && signed(signer, armored) && pgp.open(armored, key).Some?
    ensures pgp.open(armored, key).value.1 > 0
  {}
}
