# Rookery, modelled and proved in Dafny

Rookery is a mail server with end-to-end encryption in the browser. This project models the parts of it whose
correctness spans several functions or a whole run, and proves what those parts promise:

- **MIME in the browser.** `compose.js` prints a message, `crypto.js` reads it back. `MimeWriter` and `MimeReader` follow
  the two files, loops included; `MimeFraming`, `MimeHeaders`, `MimeNames`, `MimeRoundTrip`, `PgpEnvelope` and `Base64`
  prove that reading undoes printing, and `EncryptedMail` joins them into one path from composer to recipient, with an
  ideal cipher and ideal signatures, up to the verdict the reader is shown. `MimeTrees`, `MimeEncodings`, `MimeParams` and
  `DecryptedText` are about mail other programs wrote: nested parts, quoted-printable, encoded words, unquoted parameters,
  and text without a header. Strings are Unicode character sequences, base64 is written out, and the browser's own
  functions (`TextDecoder`, `encodeURIComponent`, …) are the fields of a `Browser` value.
- **Key rotation and continuity.** `KeyRotation` has the key, rotation and challenge tables with the handlers that
  update them, `RotationStatement` the signed text, `Continuity` the walk over "newest edge out of this key",
  `RotationHistory` every run of uploads, challenges, rotations and account deletions, `KeyTexts` whose armored text is
  served after it, `KeyReplies` what is accepted and what refused, and `RotationExamples` two runs that reach the failing
  cases. OpenPGP is a `Crypto` value: a fingerprint function
  and a signature check.
- **Outbound queue and relay submission.** `DeliveryQueue` has the worker with its loop, the branches of one delivery and
  its marks, `QueueRuns` the same worker as a state machine with enqueueing, time, crashes between any two steps and message
  deletion, `RelayAdmission` the submission session with its hourly limit. `QueueTable` shows that these and the mail
  store look at one table.
- **Key directory.** `ZBase32` has the shift-and-mask loop over five-byte groups (section 5.1.6 of RFC 6189) and a decoder,
  `KeyDirectory` the lookup by the hash of a local part, with an ideal SHA-1.
- **Mail store.** `MailStore` has the content-addressed blob directory, the message, queue, address and domain tables, the
  handlers that delete and patch, and account deletion with the cascades of the schema. `MailStoreRuns` proves what every
  run of those operations keeps, `MailRows` row by row what each of them adds, changes and removes.
- **Archive.** `Archive` has the export filter and the import loops, `ArchiveLaws` idempotence and the round trip, `ImportRules` what an import accepts and which rows it adds.
- **Attachments on the server.** `AttachmentWalk` has the two walks over a MIME tree, `AttachmentDownload` the rows written
  from the first one and the download handler that relies on the second, `ImportedAttachments` both after an import.
- **MTA-STS.** `MtaSts` has the printer, parser, TXT lookup and wildcard matcher of RFC 8461, `StsCache` the cached resolution,
  `StsRules` what policies and records mean, read off their lines.

`Text` models the JavaScript string operations used, `GoText` the Go ones, and `TextLaws` says what these come to. Where the source loops or updates fields, a
method or a class does so here and is proved equal to a specification function; the lemmas are about those functions.
Clocks, randomness, network answers and database failures are parameters of the steps.

## Results worth knowing

- `MimeRoundTrip.OneNewlineIsLost`, `ComposedTextSurvives`: the reader drops one final newline, so a body comes back whole
  exactly when it does not end in a newline. The composer trims the body before printing it.
- `MimeNames.PrintableNameSurvivesIff`, `PlainNamesAloneSurvive`: a printable file name is printed in quotes as it stands,
  so one with a double quote, an encoded word or an extended parameter of its own is shown changed (`QuotedNameIsLost`,
  `EncodedWordNameIsLost`, `ExtendedKeyNameIsLost`). As long as every encoded word in it can be decoded, the other names are
  exactly those that come back. For an undecodable word the reader puts in the whole value again, so a few odd names
  come back too (`NameWithQuoteComesBack`). The first lemma is exact for all printable names, but its condition decodes
  what an extended parameter holds; `PlainNamesAloneSurvive` is the half with a condition one can read off the name.
- `PgpEnvelope.PgpBlockIsExtracted`, `TypedMarkerHidesBlock`: the armored block is found if and only if no header line contains
  its begin marker; a subject that does hides it.
- `RotationHistory.RotationCompleteness`, `SeventeenKeysAreTooMany`: the loop looks at the target after at most 15 hops,
  although its bound is 16; a user with up to 16 distinct keys is always verified, 17 in a row are too many.
  `RotationExamples.SeventeenKeysAreReached` gives the runs.
- `RotationHistory.RotationNeedsAnUnsharedKey`: after a rotation the user has an active key exactly when no other user has a
  row with the new fingerprint, because the upsert does not change `user_id`. `RotationExamples.SharedKeyLocksOut` is a run in
  which a user is left without one.
- `QueueRuns.AgeLimitDecidesIff`, `AgeLimitNeverDecides`: the five-day limit decides nothing until 85 hours 25 minutes of
  pickup time have been lost in total.
- `StsRules.LifetimeIsExact`: an age from 9,223,372,037 seconds on overflows a Go duration; that one comes out negative, and
  the policy is kept for five minutes instead of a day.
- `MailStoreRuns.RelayedSurvivesIff`, `RelayedBlobCanVanish`: relayed queue rows are not counted when a blob is dropped; they stay
  readable exactly when none of their digests is dropped, and a run is given in which one is.
- `ArchiveLaws.ImportKeepsBlobsIff`, `ImportCanBreakTheMailbox`: an import does not check that the blobs its messages name
  came along; the mailbox stays readable exactly when each one is on disk before or among the blob entries, and an accepted
  archive is given for which it does not.
- `ArchiveLaws.RoundTrip`, `AllKeptIff`: importing an export loses a message exactly when an earlier exported message matches it.
- `AttachmentDownload.DownloadIffListed`, `LinksWork`: a download succeeds exactly for the attachments a stored message lists;
  `ImportedAttachments.ImportedLinksWork`: the links still work after an export and an import.
  The fetching walk alone would also serve parts of an encrypted message (`AttachmentWalk.FetchableIsListedIff`); the
  handler's checks are what makes the two lists agree.
- `MimeRoundTrip.NothingDroppedIff`, `KeyFileIsDropped`, `ContainerFileIsDropped`: nothing arrives of an attached file whose type is
  one of the three PGP types or any multipart type; every other attachment arrives, under its name as shown.
- `MailStoreRuns.RemoveDomainIsExact`: removing a custom domain counts direct addresses, while the schema refuses it for any
  address; with aliases or reserved addresses left the reply is an internal error.
- `StsCache.StaleIff`: a host that changes its policy under the same id is answered with the stored policy exactly as long as
  the last fetch stored under that id has not expired.
- `ArchiveLaws.ExportIsAccepted`: an export with more than 999,993 distinct blobs is not accepted by an import.

## Model

| member | source | states |
|---|---|---|
| MimeRoundTrip.InnerMimeRoundTrip | client/pages/compose.js:247-295 | For every body and sender key that can be framed and every attachment that can be printed, whatever its type and name, the reader gets from the encrypted payload, as printed or with LF line ends, the body (up to line endings and one final newline) and exactly the attachments that are not dropped, in order, with lower-case media type, bytes and the name as it is shown, and never the sender key |
| MimeRoundTrip.NothingDroppedIff | client/crypto.js:535-582 | The attachment parser gives as many attachments as were printed into the payload if and only if none has a PGP type or a multipart type, and never more |
| MimeRoundTrip.KeyFileIsDropped | client/crypto.js:541-547 | A file attached as `application/pgp-keys` does not arrive |
| MimeRoundTrip.ContainerFileIsDropped | client/crypto.js:554-568 | Nor does one whose multipart type brings a boundary |
| MimeRoundTrip.ReceivedAsSentIff | client/crypto.js:571-581 | An attachment that arrives has its bytes, and its name if and only if the name is readable or, where nothing is read of it, the type offers the same one |
| MimeRoundTrip.ReceivedAsSent | client/crypto.js:571-581 | In particular under a readable name, unless it is empty and the type offers another |
| EncryptedMail.EncryptedMessageRoundTrip | client/crypto.js:45-105 | The same end to end: wrapped for sending, extracted, opened by the recipient's key (a cipher with the one property that it opens what was encrypted) and read |
| EncryptedMail.SignedMessageRoundTrip | client/crypto.js:70-99 | With ideal signatures, a message its sender signed is shown as verified to a recipient who holds the sender's key, as invalid under another key and as signed by an unknown key without one |
| EncryptedMail.VerdictIsHonest | client/crypto.js:70-99 | Whatever is opened: verified means the owner of the sender's key signed that block, invalid that they did not, unknown key that there are signatures and no key, none that there are no signatures |
| EncryptedMail.NothingToVerify | client/crypto.js:45-69 | Without a private key or an encrypted block the text is shown without any verdict |
| MimeRoundTrip.PlaintextRoundTrip | client/crypto.js:45-56 | Reading the unencrypted message the composer prints, whatever other header fields it has, gives the body, no signature and no attachments (the page shows the server's list) |
| MimeRoundTrip.PlaintextIsParsed | client/pages/compose.js:203-245 | The text reader and the attachment parser find the body and exactly the attachments that are not dropped in that message |
| MimeRoundTrip.ComposedTextSurvives | client/crypto.js:476-516 | The body comes back whole if and only if it is empty or does not end in a newline |
| MimeRoundTrip.OneNewlineIsLost | client/pages/compose.js:85-87 | Normalising to CRLF and dropping the final newline loses exactly one newline, if there is one |
| MimeRoundTrip.AttachmentPartIsReadBack | client/crypto.js:535-582 | Collecting attachments from one printed attachment part gives that attachment and nothing else, or nothing at all if its type is PGP or multipart |
| MimeNames.FilenameIsReadBack | client/crypto.js:571-621 | The file name parameter, plain or percent-encoded, is shown as the name, for every readable name |
| MimeNames.NameSurvivesIff | client/crypto.js:571-621 | For every name that can be printed in either form: it is shown as it was if and only if it is readable; for a percent-encoded one that means no encoded word, or none but one that cannot be decoded and some that decode to nothing |
| MimeNames.PrintableNameSurvivesIff | client/crypto.js:571-573 | For every printable name: it is shown as it was if and only if it has no extended parameter, no quote and no encoded word, or an undecodable word of the value read, for which the reader puts in that whole value, makes up for exactly what is missing |
| MimeNames.PlainNamesAloneSurvive | client/pages/compose.js:160-165 | If every encoded word of the value read can be decoded, the printable names that come back are those without extended parameter, quote and encoded word |
| MimeNames.PrintableNameIsRead | client/crypto.js:584-621 | The value read from a printed name: the extended parameter hidden in it, if one decodes, else the name up to its first quote |
| MimeNames.EncodedWordNameIsLost | client/crypto.js:649-664 | `=?u?Q?h?=` is shown as `h` |
| MimeNames.ExtendedKeyNameIsLost | client/crypto.js:584-605 | `filename*=utf-8''x` is shown as `x"` |
| MimeNames.QuotedNameIsLost | client/crypto.js:606-614 | `a"b` is shown as `a` |
| MimeNames.NameWithQuoteComesBack | client/crypto.js:649-664 | A printable name with a quote that does come back, by way of an undecodable word |
| MimeRoundTrip.BoundaryFound | client/crypto.js:431-437 | The boundary printed in the multipart header is the one the reader splits at |
| MimeRoundTrip.FoldShape | client/pages/compose.js:114-122 | Folded base64 lines are non-empty, at most 76 characters and never look like a delimiter (section 6.8 of RFC 2045) |
| MimeRoundTrip.FoldStrips | client/crypto.js:666-682 | Stripping white space from folded base64 gives back the unfolded text |
| MimeFraming.FramedPartsAreReadBack | client/crypto.js:439-474 | Any number of parts without delimiter lines, framed with either newline, are read back exactly and in order (section 5.1.1 of RFC 2046) |
| MimeFraming.SpaceAfterDelimiterIsIgnored | client/crypto.js:439-474 | One space behind a delimiter line, closing or not, makes no difference, for any lines |
| MimeTrees.NestedMessageIsRead | client/crypto.js:476-582 | For a message whose parts are nested in any way, with either newline: the text shown is that of the first plain-text leaf, the attachments those of all attached leaves from left to right |
| MimeEncodings.QuotedPrintableIsReadBack | client/crypto.js:684-708 | A quoted-printable body is read as the text its bytes stand for, whichever of them are escaped, in digits of either case, and wherever it is broken (section 6.7 of RFC 2045) |
| MimeEncodings.LoneEqualsIsKept | client/crypto.js:684-694 | An equals sign not followed by two hexadecimal digits stands for itself |
| MimeEncodings.Base64IsReadBack | client/crypto.js:666-708 | A base64 body gives its bytes, and as text what they stand for, wherever white space was put in |
| MimeEncodings.EncodedWordsAreReadBack | client/crypto.js:638-664 | Any number of encoded words of either encoding and any known charset, among text without equals signs, are replaced by what they stand for, and the text is left alone (section 2 of RFC 2047) |
| MimeParams.TokenParamIsRead | client/crypto.js:606-620 | An unquoted parameter, its name in any case, has the value up to a semicolon or white space |
| MimeParams.QuotedParamIsRead | client/crypto.js:606-614 | A quoted one, anywhere in the header, has the value between the quotes |
| MimeParams.TokenBoundaryIsFound | client/crypto.js:431-437 | An unquoted boundary is found behind any white space |
| MimeParams.QuotedBoundaryIsFound | client/crypto.js:431-437 | So is a quoted one, if it is not empty |
| MimeParams.EmptyBoundaryIsTwoQuotes | client/crypto.js:431-437 | For an empty one the reader takes the two quotes for an unquoted boundary |
| DecryptedText.LooksLikeHeaderIff | client/crypto.js:353-357 | Which lines are taken for header lines |
| DecryptedText.RestIsShown | client/crypto.js:328-364 | Of a decrypted text without a text part everything is shown, but for a first block that has header lines alone |
| MimeReader.MimeMultipartParts | client/crypto.js:439-474 | The loop over lines with its `current` part finds the parts the recursive definition of the frame has |
| MimeReader.AttachmentCollector.Collect | client/crypto.js:535-582 | The recursive walk appends to the shared result exactly the attachments of the entity, in document order |
| MimeReader.ParseAttachments | client/crypto.js:518-533 | A fresh collector run over the whole message returns its attachments |
| MimeHeaders.SplitEntity | client/crypto.js:389-403 | Header lines and body printed with either newline are split at the first blank line, not inside the header |
| MimeHeaders.MimeHeaderOfFields | client/crypto.js:405-425 | Looking a header up by name gives the trimmed value of the first field of that name |
| MimeHeaders.FoldedHeaderIsFound | client/crypto.js:405-425 | If that field is folded over several lines, with either newline, the value has one space for each fold |
| MimeWriter.Uint8ToBase64 | client/pages/compose.js:103-112 | Chunked conversion gives the base64 of all the bytes |
| MimeWriter.FoldBase64 | client/pages/compose.js:114-122 | The loop joins exactly the 76-column pieces |
| MimeWriter.BuildInnerMIME | client/pages/compose.js:247-295 | The message grown piece by piece is the payload the round trip is about |
| MimeWriter.BuildPlaintextMessage | client/pages/compose.js:203-245 | The same for the unencrypted message |
| Base64.AtobBtoa | client/crypto.js:633-636 | Decoding undoes encoding for every byte string (section 4 of RFC 4648) |
| PgpEnvelope.PgpBlockIsExtracted | client/crypto.js:366-380 | From the printed outer message (section 4 of RFC 3156) the reader extracts exactly the armored block that was wrapped, if and only if no header line contains the begin marker |
| PgpEnvelope.TypedMarkerHidesBlock | client/crypto.js:366-380 | With the marker in the subject it extracts something else |
| PgpEnvelope.DashesInSubjectAreHarmless | client/crypto.js:366-380 | With `-----Original Message-----` in the subject it extracts the block |
| PgpEnvelope.OuterTypeIsRead | client/pages/compose.js:180-185 | The folded Content-Type printed around the block is looked up as one value, and the boundary in it is found |
| KeyRotation.KeyServer.HandlePutMyKey | internal/web/handlers_keys.go:53-126 | The upload handler's new tables and reply, every refusal included |
| KeyRotation.KeyServer.HandleRotateKey | internal/web/handlers_keys.go:190-335 | The rotation handler's new key, challenge and rotation tables and reply, in the source's order of checks |
| KeyTexts.TextsAreTheLastUploaded | internal/web/handlers_keys.go:85-126 | After every run the active row of a user serves the armored text of their last accepted upload or rotation, and an inactive row the text it last had while active, stated over the events alone |
| KeyReplies.UploadIsExact | internal/web/handlers_keys.go:53-126 | When an upload is accepted, as a new key or a new text of the same one, and the one row it adds or changes |
| KeyReplies.RotationIsExact | internal/web/handlers_keys.go:190-335 | A request for another readable key is accepted if and only if its challenge is one of this address for rotations, unused and less than five minutes old, and both keys signed the statement with its nonce; a bad signature uses the challenge up, and nothing but an accepted rotation touches keys or history |
| KeyReplies.OtherRotationsAreRefused | internal/web/handlers_keys.go:190-237 | Every other request is refused and changes nothing, the challenge included |
| KeyReplies.RotationLeaves | internal/web/handlers_keys.go:261-320 | The key rows and the rotation row an accepted rotation leaves, one by one |
| RotationStatement.StatementIsInjective | internal/web/handlers_keys.go:132-134 | Two equal statements name the same old key, new key and nonce |
| RotationStatement.OldIsNamed | internal/discovery/discovery.go:141-143 | The substring test for the old fingerprint holds exactly for the beginnings of the one signed, so among fingerprints of its length for that one alone |
| RotationStatement.NewIsNamed | internal/discovery/discovery.go:141-143 | The same for the new fingerprint |
| Continuity.VerifyRotationChain | internal/discovery/discovery.go:110-151 | The loop answers whether the chain of newest edges reaches the target, for any table |
| Continuity.ChainIsExact | internal/discovery/discovery.go:102-151 | It answers yes if and only if there is a path of at most 15 newest, attested edges from start to target |
| Continuity.ChainIsSound | internal/discovery/discovery.go:110-151 | With unforgeable signatures, every link of that path was signed by the key it leaves, over a text naming both ends |
| Continuity.LinkNamesItsEnds | internal/discovery/discovery.go:136-146 | The two fingerprints of an accepted link are beginnings of the two signed, and equal to them if they are as long |
| RotationHistory.RunKeeps | internal/web/handlers_keys.go:190-335 | Over every run of uploads, challenges, rotations and account deletions the key table, the rotation rows and the key histories of the existing users fit together |
| RotationHistory.NewestIsLastDeparture | internal/discovery/discovery.go:116-128 | The newest edge out of a key is the one its owner took when last leaving it |
| RotationHistory.WalkTakesHops | internal/discovery/discovery.go:110-151 | The walk from any key ever held reaches the current key after exactly as many hops as the history has with every detour cut out |
| RotationHistory.HopsBelowKeys | internal/discovery/discovery.go:104-114 | Those hops are fewer than the distinct keys, because last departures get later along the walk |
| RotationHistory.RotationCompleteness | internal/discovery/discovery.go:102-151 | After any run, with returns to earlier keys, every key ever held is verified against the current one if and only if at most 15 hops separate them, which 16 distinct keys guarantee |
| RotationHistory.SeventeenKeysAreTooMany | internal/discovery/discovery.go:104-114 | After any run, a user who never returned to a key is verified from first to last key if and only if there were at most sixteen |
| RotationExamples.SeventeenKeysAreReached | internal/web/handlers_keys.go:190-335 | From empty tables, a run of successful rotations through any number of distinct keys up to 256, verified end to end if and only if there are at most sixteen |
| RotationHistory.OneActiveKey | internal/web/handlers_keys.go:283-301 | After any run each existing user has exactly one active key, the latest, once one was uploaded |
| RotationHistory.RotationNeedsAnUnsharedKey | internal/web/handlers_keys.go:295-301 | A successful rotation leaves the user with an active key if and only if no other user holds the new fingerprint |
| RotationExamples.SharedKeyLocksOut | internal/web/handlers_keys.go:283-301 | A run from empty tables after which a rotation is answered "created" and leaves its user without an active key |
| RotationHistory.ReplayIsRefused | internal/web/handlers_keys.go:238-259 | A challenge used once is never accepted again, whatever happens in between |
| DeliveryQueue.Worker.ProcessOne | internal/queue/queue.go:96-222 | One call claims the earliest due row, and only that row changes, as the outcome of the delivery prescribes |
| DeliveryQueue.Worker.DrainQueue | internal/queue/queue.go:83-94 | With a fixed clock and no database error, no live row is due afterwards; every row attempted was due, attempted once, in order of next retry, and marked as its outcome prescribes; the others are untouched |
| DeliveryQueue.DrainIsComplete | internal/queue/queue.go:83-115 | The rows attempted are exactly those due at the start |
| DeliveryQueue.Worker.AttemptRow | internal/queue/queue.go:132-191 | The delivery's outcome and what was handed on, branch by branch |
| DeliveryQueue.SignedIff | internal/queue/queue.go:225-250 | The step from the branches of the delivery to QueueRuns.RelayedIsOpaque: what leaves for another server is signed if and only if it is our own mail and signing worked, by smarthost or not; nothing leaves on an internal failure |
| DeliveryQueue.PossibleOutcomes | internal/queue/queue.go:132-191 | Which outcomes an attempt on a row can have |
| DeliveryQueue.ScheduleTotals | internal/queue/queue.go:23-33 | The totals QueueRuns.AgeLimitNeverDecides rests on: the delays add up to 82 hours 35 minutes (the comment there says about 80 hours), 34 hours 35 minutes up to the last attempt but one |
| QueueRuns.AttemptsRunOut | internal/queue/queue.go:204-222 | The attempts left over all live rows fall at every mark and rise only by enqueueing; no delivery, retry or bounce adds a row |
| QueueRuns.SevenAttemptsAtMost | internal/queue/queue.go:204-222 | In every reachable state a row has been marked at most seven times and the retry delay index is in range |
| QueueRuns.TerminalIsForever | internal/queue/queue.go:252-306 | A delivered, failed or bounced row never changes again |
| QueueRuns.RetryWindow | internal/queue/queue.go:260-268 | A live row's next retry lies between its schedule and five days plus its current delay |
| QueueRuns.AgeLimitDecidesIff | internal/queue/queue.go:204-222 | The age limit changes the outcome of a mark if and only if schedule and lost time reach five days on a soft failure with attempts left |
| QueueRuns.AgeLimitNeverDecides | internal/queue/queue.go:23-33 | It never does while less than 85 hours 25 minutes have been lost |
| QueueRuns.DeliveryHistory | internal/queue/queue.go:123-222 | A delivered row was really delivered; deliveries exceed crashes by at most one; there is at most one bounce message per row |
| QueueRuns.RelayedIsOpaque | internal/queue/queue.go:123-222 | In every reachable state a relayed row was never bounced, and no delivery of it was signed |
| QueueRuns.ClaimIsExact | internal/queue/queue.go:96-130 | An idle worker takes a row that is waiting and whose time came no later than that of any other, and there is one to take while rows wait |
| QueueRuns.AttemptIsRecorded | internal/queue/queue.go:96-191 | What a claim changes, and what an attempt leaves in the log: really sent or not, and signed or not |
| QueueRuns.MarkIsExact | internal/queue/queue.go:203-222 | In every reachable state, an attempt that is marked leaves its row live exactly after a soft failure with fewer than six earlier marks and an age below five days, due after the delay of that attempt; otherwise the status says how it ended, and nothing else changes |
| QueueRuns.RefusalIsFinal | internal/queue/queue.go:203-222 | A row refused for good is bounced if sent and failed if relayed, and in no continuation claimed, tried or marked again |
| QueueRuns.CrashIsRecovered | internal/queue/queue.go:96-130 | After a crash in any reachable state, a row claimed or attempted and not yet marked waits to be claimed again |
| QueueRuns.BounceFollows | internal/queue/queue.go:203-222 | A sent row given up is followed by its one bounce message, unless storing it fails |
| DeliveryQueue.DomainOf | internal/queue/queue.go:164-167 | The domain of `local@domain` is `domain`, whatever is in `local`; without an `@` there is none |
| QueueTable.WorkerLeavesTheLimitAlone | internal/queue/queue.go:252-274 | Over any run without a submission, the rows the hourly limit counts stay the same |
| QueueTable.SubmissionIsEnqueueing | internal/smtp/submission.go:279-295 | The batch of a submission is one enqueueing step per recipient |
| QueueTable.SendingIsEnqueueing | internal/web/handlers_compose.go:265-275 | A sent message is one enqueueing step per recipient, each a new row due at once, and the mail store queues exactly these |
| QueueTable.StepStores | internal/store/migrations/0003_phase2.up.sql:18-35 | No step of the worker changes what a row refers to; deleting a message removes exactly its rows, as in the mail store |
| RelayAdmission.SubmissionSession.Authenticated | internal/smtp/submission.go:149-172 | A login sets the client and nothing else |
| RelayAdmission.SubmissionSession.Rcpt | internal/smtp/submission.go:182-193 | At most 100 recipients, only after login |
| RelayAdmission.SubmissionSession.Data | internal/smtp/submission.go:195-239 | Rows are added for all recipients or for none, by the limit, the count failing open |
| RelayAdmission.SubmissionSession.Reset | internal/smtp/submission.go:241-244 | Sender and recipients are forgotten, the login is not |
| RelayAdmission.EveryHourIsWithinTheLimit | internal/smtp/submission.go:205-216 | Over a whole run every closed hour, wherever it begins, holds at most the limit of a client's rows |
| RelayAdmission.LimitIsExact | internal/smtp/submission.go:205-216 | After any run a submission is refused if and only if there is a limit, the count works, and the recipients accepted in the past hour plus its own exceed it |
| RelayAdmission.SubmissionIsExact | internal/smtp/submission.go:195-239 | After any run, when a submission is accepted and with which rows, and when each refusal is given |
| RelayAdmission.RowsAreTheAccepted | internal/smtp/submission.go:271-295 | The rows counted for a client from any moment on are the recipients of its accepted submissions |
| ZBase32.ZBase32Encode | internal/keydir/keydir.go:92-107 | The loop emits one letter per five bits of input, the i-th for the i-th big-endian group |
| ZBase32.DecodeEncode | internal/keydir/keydir.go:92-107 | A decoder recovers byte strings of every length |
| ZBase32.EncodingIsInjective | internal/discovery/discovery.go:338-352 | Different byte strings, of equal or different length, have different encodings |
| KeyDirectory.WkdHashesAgree | internal/keydir/keydir.go:85-90 | Two local parts have the same 32-letter directory name if and only if the digests of their lower-case forms agree |
| KeyDirectory.ServeKey | internal/web/handlers_keys.go:401-429 | The scan finds the first row with the hash asked for |
| KeyDirectory.LookupFindsTheOwner | internal/discovery/discovery.go:221-227 | Barring a digest collision, asking for an address in any case finds the row of that local part, and no other |
| MailStore.PathsAreDistinct | internal/store/store.go:87-92 | Full-length digests never share a file or meet a temporary name |
| MailStore.Server.WriteBlob | internal/store/store.go:94-117 | Temporary file and rename leave exactly the blob under its digest, or everything as it was if it is there |
| MailStore.Server.ReadBlob | internal/store/store.go:119-125 | The contents of the file a digest names, if there is one |
| MailStore.BuildPatchSet | internal/web/handlers_messages.go:319-358 | The UPDATE built clause by clause, with its numbered parameters, changes the user's message to the patched one and nothing else; there is none exactly for the empty patch |
| MailStore.Server.HandlePatchMessage | internal/web/handlers_messages.go:180-215 | The patch handler's new state and reply |
| MailStore.Server.HandleDeleteMessage | internal/web/handlers_messages.go:360-423 | Moving to the trash and deleting for good, with every refusal |
| MailStore.Server.HandleData | internal/smtp/inbound.go:136-201 | One blob for all recipients, one row for each that still resolves |
| MailStore.Server.HandleSend | internal/web/handlers_compose.go:226-276 | Refused without recipients; otherwise one blob, one row in the sender's mailbox and one queue row per address that is not blank, blind copies included |
| MailStore.DeliverableIsExact | internal/web/handlers_compose.go:265-275 | A message is queued for every address that is not blank, in order, trimmed and in lower case |
| MailRows.SentIsExact | internal/web/handlers_compose.go:226-276 | Sending adds one row to the sender's mailbox and exactly one queue row per recipient, and changes no other |
| MailRows.SentKeepsItsRows | internal/store/migrations/0003_phase2.up.sql:18-35 | Over every run, a sent message still there has as many queue rows as it had recipients |
| MailRows.DeliveredIsExact | internal/smtp/inbound.go:136-201 | A delivery adds one unread inbox row per recipient found, in order, and nothing else |
| MailRows.NoticesAreExact | internal/queue/queue.go:123-222 | What a bounce notice and a relayed submission add |
| MailRows.WrittenIsExact | internal/store/store.go:94-117 | The blob's file is there with the text, unless it was there before; no other file changes, save for a temporary one left over |
| MailRows.PatchIsExact | internal/web/handlers_messages.go:180-215 | When a patch is refused and how; otherwise exactly the named fields of the owner's message change, and the trash mark follows the folder |
| MailRows.DeletionIsExactFor | internal/web/handlers_messages.go:360-423 | When deleting is refused and how; otherwise which rows and which blob go |
| MailRows.RemovalIsExact | internal/lifecycle/lifecycle.go:13-101 | Deleting an account leaves the rows of others unchanged, and a domain that stays without its owner |
| MailStore.Server.DeleteUser | internal/lifecycle/lifecycle.go:13-101 | The deletion goes through for every existing user: no domain it drops is still referred to |
| MailStore.Server.RemoveDomain | internal/domains/domains.go:183-208 | Removal of a custom domain, with every refusal and the restriction of the schema |
| MailStoreRuns.RemoveDomainIsExact | internal/domains/domains.go:183-208 | It goes if and only if its owner asks and it has no address of any kind; the restriction alone stops it if and only if all its addresses are aliases or reserved; the invariants stay and nothing else changes |
| MailStoreRuns.RunKeeps | internal/store/migrations/0001_initial.up.sql:41-69 | Over every run: all message blobs are on disk under their digest, no reference dangles, and the trash is exactly the messages marked deleted |
| MailStoreRuns.EveryMessageIsReadable | internal/store/store.go:119-125 | From an empty server, every message row can be read and has the digest it names |
| MailStoreRuns.BlobGoesWithItsLastMessage | internal/web/handlers_messages.go:396-405 | A step removes a blob if and only if it removes the last message referring to it |
| MailStoreRuns.OrphansAreStoredForNobody | internal/lifecycle/lifecycle.go:92-98 | A blob without a message appears only when something is stored that no message will refer to; deletions leave none behind |
| MailStoreRuns.MailNeverChanges | internal/store/store.go:94-117 | A message still there has the owner and the bytes it had at any earlier time |
| MailStoreRuns.DeleteUserIsExact | internal/lifecycle/lifecycle.go:13-101 | Exactly the user's rows go, exactly the blobs only they referred to, exactly the custom domains nobody else has an address on; everyone else's mail is unchanged |
| MailStoreRuns.RelayedSurvivesIff | internal/web/handlers_messages.go:396-405 | Relayed rows stay readable if and only if no digest a step drops is one of theirs |
| MailStoreRuns.RelayedBlobCanVanish | internal/smtp/submission.go:223-236 | A run in which a relayed row loses its blob |
| Archive.FilterInPlace | internal/archive/archive.go:156-163 | Filtering within the same array keeps the wanted elements in order |
| Archive.ExportRows | internal/archive/archive.go:138-191 | The rows exported, filtered only if some blob is missing |
| Archive.ExportIsClosed | internal/archive/archive.go:138-191 | Only messages without their blob are left out; the blob list has no duplicates and covers the messages; attachments belong to exported messages |
| Archive.ExportUser | internal/archive/archive.go:213-258 | No blob read fails, and the entries are the documents followed by each exported blob once |
| Archive.Importer.ImportUser | internal/archive/archive.go:266-459 | The import's new files, rows and summary, or its error with the blobs read so far |
| ArchiveLaws.ImportIsIdempotent | internal/archive/archive.go:378-459 | A second import of an accepted archive adds nothing but the drafts again; imported and skipped add up to the archive's messages each time |
| ArchiveLaws.UpsertingTwice | internal/archive/archive.go:411-424 | Upserting a list of known keys, duplicates included, a second time changes nothing |
| ArchiveLaws.InsertedAreKept | internal/archive/archive.go:461-500 | The rows inserted are the messages nothing before them represents, in order, with every field |
| ArchiveLaws.AllKeptIff | internal/archive/archive.go:461-480 | Into an empty mailbox nothing is lost if and only if no two messages match |
| ImportRules.ImportIsAcceptedIff | internal/archive/archive.go:266-376 | When an import succeeds, in terms of the active key, the number of entries and each entry on its own |
| ImportRules.ImportKeepsFilesIntact | internal/archive/archive.go:351-376 | No import, failed ones included, changes a blob that was there, and every file it adds has the digest it is stored under |
| ImportRules.ImportedMessagesAreExact | internal/archive/archive.go:461-500 | A message is left out if and only if one in the mailbox or an earlier one added has the same non-empty Message-ID or, where it has none, its blob and arrival time; the others are added in order with every field |
| ImportRules.DistinctMailArrives | internal/archive/archive.go:461-480 | Into an empty mailbox, messages without a Message-ID that differ in blob or time all arrive |
| ImportRules.ImportedRowsAreExact | internal/archive/archive.go:395-456 | What becomes of attachments, known keys, rotations and drafts, row by row |
| ArchiveLaws.ExportIsAccepted | internal/archive/archive.go:289-376 | An export is accepted if and only if the active key is the same and it has at most 1,000,000 entries, and then every document is read as written |
| ArchiveLaws.RoundTrip | internal/archive/archive.go:213-264 | Exported and imported into an empty mailbox: the kept messages with all fields, their attachments, all keys, rotations and drafts, and for every message its blob, with the exported bytes if it was not there before and with its digest in any case |
| ArchiveLaws.ImportKeepsBlobsIff | internal/archive/archive.go:351-392 | A readable mailbox stays readable if and only if each message added has its blob on disk before or among the archive's blob entries |
| ArchiveLaws.ImportCanBreakTheMailbox | internal/archive/archive.go:378-459 | An accepted archive after which it is not |
| AttachmentWalk.MetaWalk.Collect | internal/smtp/inbound.go:318-353 | The metadata walk appends the attachment leaves numbered on from the counter |
| AttachmentWalk.PartWalk.Collect | internal/smtp/inbound.go:355-388 | The body walk appends the same leaves, numbered by the length of the list |
| AttachmentWalk.ParseMeta | internal/smtp/inbound.go:403-450 | Security state and attachment list of a message, the list being empty for an encrypted one |
| AttachmentWalk.LeavesAreTheAttachments | internal/smtp/inbound.go:318-353 | The walks list every attachment leaf of the tree and nothing else |
| AttachmentWalk.WalksAgree | internal/smtp/inbound.go:390-401 | Entry i has number i, and fetching it succeeds with the same name, type and size |
| AttachmentWalk.FetchableIsListedIff | internal/smtp/inbound.go:390-448 | The fetching function alone would serve exactly the listed numbers if and only if the message is not encrypted or has no attachment leaf outside |
| AttachmentWalk.AttachmentByType | internal/smtp/inbound.go:303-316 | Which types, with any case and white space, count as attachments under which disposition |
| AttachmentWalk.AttachmentWithoutType | internal/smtp/inbound.go:303-316 | Without a type, a part is an attachment only if it is marked as one |
| AttachmentWalk.LeavesInOrder | internal/smtp/inbound.go:318-353 | Parts are listed in their order, each as often as it occurs |
| AttachmentWalk.EntriesDescribeLeaves | internal/smtp/inbound.go:318-448 | The state follows from the outer type, and entry i has the number, name, type and size of leaf i, which is what is fetched under i |
| AttachmentDownload.Database.StoreMessage | internal/smtp/inbound.go:507-542 | The new message row and its attachment rows, each of which may fail to be written |
| AttachmentDownload.Database.GetAttachment | internal/web/handlers_messages.go:217-293 | The download, with every refusal in the order of the source |
| AttachmentDownload.RunKeeps | internal/store/migrations/0005_attachments.up.sql:7-14 | Over every run of deliveries, sent mail, bounces and deletions each message has exactly the attachment rows of its own list, less those that failed to be written |
| AttachmentDownload.DownloadIffListed | internal/web/handlers_messages.go:217-293 | After any run and for every index text, a download succeeds if and only if the owner asks, the blob can be read, and the number is listed and its row was written; then type and size are the listed ones and the name is the sanitised listed name |
| AttachmentDownload.LinksWork | internal/web/handlers_pages.go:473-493 | The attachments linked on a message page are exactly those its owner can download |
| ImportedAttachments.ImportedLinksWork | internal/archive/archive.go:378-410 | After an export and an import into an empty mailbox every attachment link of a message can be followed and gives the part it gave before, if the links worked where the archive was made |
| AttachmentDownload.SanitizedIsSafe | internal/web/handlers_messages.go:295-304 | The name served has no separator and no control character, and differs from the given one only if that had some |
| AttachmentDownload.SanitizedIsExact | internal/web/handlers_messages.go:295-304 | Exactly slashes, backslashes and control characters go, and the rest keeps its order |
| AttachmentDownload.ServedNameIsTheName | internal/web/handlers_messages.go:217-304 | The name is served as it is if nothing in it has to go, and as its number if nothing would be left |
| AttachmentDownload.RefusalsAreExact | internal/web/handlers_messages.go:217-293 | After any run, who is told what: strangers that there is no message, owners that it is encrypted exactly if its outer type says so, or that nothing is listed under that number |
| AttachmentDownload.RemovedStaysGone | internal/store/migrations/0005_attachments.up.sql:7-14 | A deleted message goes with exactly its attachment rows, and in no continuation comes back |
| MtaSts.PolicyIsReadBack | internal/web/handlers_domains.go:35-49 | The served policy reads back with its mode, lower-case host and age; nothing is served exactly in mode "disabled" |
| MtaSts.ServedPolicyIsReadBack | internal/domains/domains.go:402-413 | What is served at any time reads back with the mode in force then; without a stored mode that is "enforce" exactly from 48 hours after the last change on |
| MtaSts.OnlyOurHostIsAllowed | internal/smtp/mtasts.go:178-186 | A sender reading the served policy accepts our host in any case, with or without a final dot, and no other |
| MtaSts.ParsePolicy | internal/smtp/mtasts.go:130-160 | The loop over lines computes the policy its lines say |
| MtaSts.ParseMeaning | internal/smtp/mtasts.go:130-160 | What they say: the last version, mode and usable age, and every host, whatever the order and line endings |
| MtaSts.PolicyAllowsMX | internal/smtp/mtasts.go:178-186 | The loop over patterns answers whether one matches the host |
| MtaSts.MatchIsByLabels | internal/smtp/mtasts.go:188-196 | A pattern matches if and only if the labels are equal or a leading `*` stands for exactly one label |
| MtaSts.LookupSTSID | internal/smtp/mtasts.go:81-105 | The nested loops return the id of the first MTA-STS record |
| MtaSts.TxtIsReadBack | internal/web/handlers_domains.go:221-226 | The id in the record the domain page asks for is found among other records |
| StsRules.PolicyIsExact | internal/smtp/mtasts.go:130-160 | A body is a policy if and only if the last line giving a version says `STSv1` and the last giving a mode is not empty; its hosts are those of all lines |
| StsRules.HostIsAllowedIff | internal/smtp/mtasts.go:178-196 | A host is allowed if and only if some line of the body names it, up to case and a final dot, or with a first label `*` for any one label |
| StsRules.AgeIsExact | internal/smtp/mtasts.go:151-154 | The age is that of the last line giving a usable one, multiplied in 64 bits |
| StsRules.LifetimeIsExact | internal/smtp/mtasts.go:163-174 | Ages up to 9,223,372,036 seconds count within five minutes and a day; with one second more the policy is kept for five minutes |
| StsRules.RecordIsExact | internal/smtp/mtasts.go:86-103 | A record gives an id if and only if its last version is `STSv1` and its last id is not empty |
| StsRules.FirstIdIsExact | internal/smtp/mtasts.go:81-105 | The id is that of the first record that gives one |
| StsCache.Resolver.ResolvePolicy | internal/smtp/mtasts.go:52-77 | The resolution's result and new cache, for every combination of answers |
| StsCache.ReturnedPolicyIsFresh | internal/smtp/mtasts.go:58-76 | After any run a returned policy has the current id and was fetched under it, now or less than a day ago |
| StsCache.CacheIsTransparent | internal/cache/mtasts.go:26-47 | If policies change only with their id, a resolution that reaches the host returns what it would without a cache |
| StsCache.StaleIff | internal/smtp/mtasts.go:58-76 | After any run, a resolution differs from a live fetch if and only if the last answer stored for the domain was stored under the current id, has not expired, and the host gives another one now (or none); then the stored policy is returned |
| StsCache.LastStoreIsCached | internal/cache/mtasts.go:26-47 | The cache holds for each domain exactly what the last store since an eviction put there |
| StsRules.LiveIsExact | internal/smtp/mtasts.go:52-77 | What a resolution without a cached policy returns and keeps, for every answer |

## Left out

- OpenPGP, AES-GCM, SHA, bcrypt, tar, JSON and DKIM signing: library code, here functions with the one property used.
- EncryptedMail.SignedMessageRoundTrip: signatures are ideal, as in Continuity.ChainIsSound; only the first signature of a block is looked at, as in the source.
- SMTP, TLS, DNS, HTTP, Redis and rspamd: their answers are parameters of the steps.
- HTTP plumbing, cookies, templates, page scripts, command line and configuration: no property that spans functions.
- Interleaved handlers and two simultaneous writes of one blob: each handler is one step; the source gives no guarantee there.
- Database errors other than the ones listed as outcomes: an import or a handler runs to its end.
- Which texts count as a hard failure: hard or soft is an input of the delivery outcome (internal/queue/queue.go:308-318).
- QueueRuns.RetryWindow: the age check and the retry mark (internal/queue/queue.go:204 and 264) read the clock once each and are given one time here; the strict upper bound can be missed by what passes between them.
- AttachmentDownload.DownloadIffListed: imports are not among its steps (ImportedAttachments.ImportedLinksWork is about one), numbers beyond the database's integers are refused with another status, and the encoding of the name in the Content-Disposition header is left out.
- MimeRoundTrip.InnerMimeRoundTrip: a name the browser cannot percent-encode, as it has half of a surrogate pair, stops the composer and is not covered.
- One worker is assumed, and that its mark updates succeed, since their errors are discarded (internal/queue/queue.go:252-274).
- Per-user send limits: queue rows vanish when a sent message is deleted, so the bound does not hold over runs.
- Login challenges: the claim there does not filter by purpose (internal/web/handlers_auth.go:106-114), so nothing is stated.
- Case mapping is the ASCII one, in `Text` and in `GoText`.
- Times have the database's precision; a timestamp finer than that in an archive is rounded before it is compared.
- An archive that repeats a JSON document: the last one counts, without Go's reuse of the earlier slice's memory.
- The second copy of the z-base-32 loop (internal/discovery/discovery.go:338-352) is the same text and has no second model.
- RotationHistory.RunKeeps: rotation rows from an import are not steps; they are covered by Continuity.ChainIsSound, which is about any table.
- RotationHistory.RotationCompleteness: assumes, like the other results on runs, that fingerprints are upper-case hexadecimal, as `%X` prints them at any length (internal/keydir/keydir.go), and that no two users present the same key; RotationHistory.RotationNeedsAnUnsharedKey is the exact condition at one rotation.
- RelayAdmission.EveryHourIsWithinTheLimit: assumes one client's submissions one after the other, a constant limit above zero and counts that succeed, as the code fails open otherwise.
- MailStoreRuns.RunKeeps: imports are not among its steps; ArchiveLaws.ImportKeepsBlobsIff is the exact condition for one.
- ImportedAttachments.ImportedLinksWork: assumes that two servers never hold different contents under one digest; an archive that was not written by an export can bring links that lead nowhere.
- MailStore.Server.DeleteUser: failing to remove a blob file is logged by the source and not modelled; the tables without a property here (sessions, keys, drafts) are left out of the cascade.
- Archive.ExportUser: the order in which rows are fetched, and address and domain names in the manifest, which an import ignores.
- MailStore.BuildPatchSet: clauses and parameters are values, not SQL text.
