# Passkey login for stain, in Dafny

stain is a small self-hosted photo site. Members sign in with passkeys (WebAuthn).
This project models the passkey core and proves properties about it:

- **Credential helpers** (`src/lib/cred.ts`):
  - base64 conversion (`atou8`, `u8toa`);
  - fixed-offset parsing of authenticator data (`parseAuthData`);
  - key import (`parseKey`);
  - the signed message and the two verifiers (`verifyAuth`, `simpleVerifyFromKey`);
  - the DER to raw ECDSA signature conversion (`parseDerSignature`).
- **Server handlers** (`src/server.ts`):
  - challenge issuance on `GET /login` and `GET /`;
  - the `POST /login` assertion handler, which records the user in the session;
  - the invite-gated `POST /register`;
  - the `chonk` slicing generator.
- **Models** (`src/lib/models.ts`):
  - the caption scanners `findHashtags` and `findMentions`;
  - the EXIF-orientation width/height swap;
  - the invite and passkey writes used by registration.

## Modules

| module | what it models |
|---|---|
| `Wrappers` | `Option` and `Result`. |
| `Bytes` | Bytes as integers 0..255, plus big-endian 16- and 32-bit reads. |
| `Base64` | `u8toa` as padded base64 (section 4 of RFC 4648). `Decode` is its inverse on canonical text. `EncodeUrl` is the unpadded base64url form of section 5, which browsers use to echo the challenge. |
| `AuthData` | `parseAuthData`, with the layout of sections 6.1 and 6.5.1 of W3C Web Authentication Level 2. A window past the end of the buffer gives `Err(RangeError)`. |
| `DerSignature` | `DerToRaw` is what `parseDerSignature` returns or throws. `ParseDerSignature` is the code's index loop, proved equal to it. SEQUENCE and INTEGER follow sections 8.9 and 8.3 of ITU-T X.690. |
| `WebAuthnVerify` | `parseKey`, `verifyAuth` and `simpleVerifyFromKey`. The hash, key import and signature primitives are fields of a `Crypto` value. |
| `Store` | The users, passkeys and invites rows, and `activateInvite` and `insertNewPasskey` as methods of a `Database` class. |
| `SessionAuth` | The session class with its `challenge` and `userId` fields; challenge issuance; `POST /login` as the function `Login` and the step-by-step method `PostLogin`. |
| `Registration` | `POST /register` as the function `Register` and the method `PostRegister`. |
| `Chunking` | `chonk` as a loop. |
| `Captions` | `findRes`, `findHashtags` and `findMentions`; the orientation swap. |

How the login handler is modelled:
- A request yields an `Outcome` with four parts: the request's in-memory session at the end, every response the handler tried to send (in order), whether it threw, and the session the store holds afterwards (`saved`).
- The session middleware is configured with `resave: false` (src/server.ts:180-192). It writes the session once, when the first response ends. So `saved` is the in-memory session as it stood at that moment.
- The client sees only the first response (`Response`).
- The type, cross-origin and origin checks send a 401 without returning, so execution continues into the passkey check.
- After a first response, another `res.send` throws because the headers are already sent. A later `res.end` does nothing. So a second failing check, and the final `ok` or `no userid?` after a failing check, end the handler with a throw.
- Client data whose `challenge`, `type` or `origin` cannot be converted to a string makes the handler throw where it prints that value (`UnprintableValueThrows`).
- The lemmas `RefusedLoginOnlyInMemory` and `ChecksDoNotGuardSession` show what follows. A request that fails exactly one of those checks, but carries a valid assertion over the session's challenge, is answered 401. The request's in-memory session gets the user, and then the `ok` send throws. The store keeps the session as it came in.
- `StoredLoginOnlyWithOk`: the stored session gains a user only when the client is answered `ok`.
- The challenge is cleared only on a mismatch. A successful login leaves it in place, so the same assertion, sent again on the stored session, is accepted again (`AcceptedAssertionReplays`).

## Model

| member | source | states |
|---|---|---|
| Base64.IndexOf | src/lib/cred.ts:6-8 | Reading a base64 character gives the value 0..63 that encodes to it. |
| Base64.Encode | src/lib/cred.ts:9-11 | `u8toa` output has 4⌈n/3⌉ characters. |
| Base64.EncodeShape | src/lib/cred.ts:9-11 | `u8toa` output is alphabet characters followed by exactly the 0, 1 or 2 `=` that n mod 3 calls for. |
| Base64.DecodeEncode | src/lib/cred.ts:6-11 | `atou8(u8toa(b)) == b` for every byte sequence. |
| Base64.EncodeDecode | src/lib/cred.ts:6-11 | On canonical base64 text, `u8toa(atou8(s)) == s`. |
| Base64.Decode | src/lib/cred.ts:6-8 | `atou8` turns n characters of canonical text into between 3n/4 - 2 and 3n/4 octets. The count is exactly 3n/4 when there is no padding. |
| AuthData.ParseAuthData | src/lib/cred.ts:13-73 | Parsing succeeds exactly when the buffer holds the 55-byte header and the whole credential id of the length read at 53..54. Otherwise a RangeError is thrown. |
| AuthData.ParsedFieldsLayout | src/lib/cred.ts:55-59 | The AAGUID is bytes 37..52. The credential id is exactly the L bytes from 55. `credentialIdB64` decodes back to the credential id. |
| AuthData.ParsedFlags | src/lib/cred.ts:28-47 | UP, UV, BE, BS, AT and ED are bits 0, 2, 3, 4, 6 and 7 of byte 32. |
| AuthData.ReservedBitsIgnored | src/lib/cred.ts:28-47 | Buffers that differ only in the reserved flag bits 1 and 5 parse identically. |
| AuthData.AttestedDataReadUnconditionally | src/lib/cred.ts:49-58 | The AT flag decides nothing. Buffers that differ only in bit 6 succeed or fail alike, with the same AAGUID and credential id. |
| AuthData.TrailingBytesIgnored | src/lib/cred.ts:55-58 | Bytes after the credential id never change the result. |
| AuthData.SignCountReadsBufferStart | src/lib/cred.ts:51-53 | `signCount` is the big-endian u32 of bytes 0..3 of the buffer. |
| AuthData.SignCountIgnoresCounterField | src/lib/cred.ts:51-53 | A buffer with counter field 0 has `signCount` 2^24. |
| AuthData.CounterFieldIgnoresRpIdHash | src/lib/cred.ts:49-53 | The counter read from bytes 33..36 does not depend on the RP-id hash. |
| WebAuthnVerify.ParseKey | src/lib/cred.ts:75-97 | Import succeeds iff the ECDSA P-256 or the RSA import accepts the SPKI bytes. ECDSA is chosen whenever it accepts. |
| WebAuthnVerify.SignedMessage | src/lib/cred.ts:124-132 | The signed bytes are the authenticator data followed by the 32-byte SHA-256 of the client data JSON. |
| WebAuthnVerify.VerifyAuth | src/lib/cred.ts:134-144 | `verifyAuth` returns a verdict iff the key is ECDSA and the DER conversion succeeds. A DER error is reported as such, before the key is looked at. |
| WebAuthnVerify.VerifyAuthChecksRawSignatureOverMessage | src/lib/cred.ts:124-144 | `verifyAuth` is true iff the key is ECDSA, the DER conversion succeeds, and ECDSA P-256 accepts the raw signature over that message. A DER error surfaces as the error. |
| WebAuthnVerify.RsaKeyNeverVerifies | src/lib/cred.ts:134-143 | A key that only the RSA import accepts never verifies. |
| WebAuthnVerify.SimpleVerifyFromKey | src/lib/cred.ts:108-119 | Node's verifier gets the signature unconverted, over the same message. |
| WebAuthnVerify.VerifiersAgreeOnWellFormedDer | src/lib/cred.ts:108-144 | Suppose node's verifier accepts a DER signature exactly when ECDSA accepts its decoded r and s. Then, for an ECDSA key and the DER encoding of minimal r and s where r does not end in 0x02, `verifyAuth` and `simpleVerifyFromKey` give the same verdict. |
| DerSignature.StripLeadingZerosSpec | src/lib/cred.ts:184-188 | Stripping leaves a suffix that is empty or starts non-zero, and removes only zero bytes. |
| DerSignature.SkipLeadingZeros | src/lib/cred.ts:181-189 | The inner `while` stops where stripping the segment's leading zeros stops. |
| DerSignature.ParseDerSignature | src/lib/cred.ts:150-200 | The index loop returns or throws exactly what `DerToRaw` says. |
| DerSignature.DerToRaw | src/lib/cred.ts:146-200 | The raw form `parseDerSignature` returns is never longer than its input. |
| DerSignature.SegmentsOutputBound | src/lib/cred.ts:165-198 | The contents collected by the scan from index i fit in the bytes from i on. |
| DerSignature.RawSignaturePassesThrough | src/lib/cred.ts:151-155 | A buffer that is empty or does not start with 0x30 is returned unchanged. |
| DerSignature.OuterLengthChecked | src/lib/cred.ts:156-163 | A SEQUENCE whose length byte is not `length - 2` throws. |
| DerSignature.LongFormIntegerRejected | src/lib/cred.ts:170-180 | A first INTEGER with a long-form length throws. |
| DerSignature.LongFormSecondIntegerRejected | src/lib/cred.ts:170-180 | A second INTEGER with a long-form length throws too, after a short-form first one not ending in 0x02, whatever follows. |
| DerSignature.WellFormedPairDecodes | src/lib/cred.ts:165-198 | A short-form SEQUENCE { r, s } whose r does not end in 0x02 gives r and s concatenated, each with its leading zeros stripped. |
| DerSignature.DerRoundTrip | src/lib/cred.ts:146-200 | DER-encoding minimal integers r, s (r not ending in 0x02) and converting back gives r followed by s. |
| DerSignature.LastByteTwoMisreadAsTag | src/lib/cred.ts:192-194 | The DER encoding of r = [1, 2], s = [5] converts to [1, 2, 1, 5]. |
| DerSignature.IntendedPairDecodes | src/lib/cred.ts:192-194 | With the resume point after the content, every short-form pair decodes to r and s concatenated, stripped. |
| DerSignature.IntendedDerRoundTrip | src/lib/cred.ts:146-200 | With that resume point, the round trip holds for all minimal r and s. |
| DerSignature.IntendedReadsPastLastByte | src/lib/cred.ts:192-194 | The intended scan converts the buffer above to [1, 2, 5]. |
| Store.Database.ActivateInvite | src/lib/models.ts:285-295 | Stamps `activatedOn` on that code's invite only. Nothing else changes. The lookup invariant is kept. |
| Store.Database.PasskeyById | src/lib/models.ts:304-310 | `getPasskeyById` finds a row exactly when a stored row has that id, and then returns that row. The map lookup relies on the invariant that every row sits under its own id. |
| Store.Database.InsertNewPasskey | src/lib/models.ts:312-328 | Stores the passkey under its credential id. Nothing else changes. The lookup invariant is kept. |
| SessionAuth.ToUrlSafe | src/server.ts:255-258 | The rewritten challenge has no `=`, `+` or `/`. |
| SessionAuth.RemoveCharCount | src/server.ts:255-256 | `replaceAll("=", "")` removes exactly the occurrences of `=` and keeps every other character. |
| SessionAuth.UrlSafeOfEncoding | src/server.ts:246-258 | Rewriting `u8toa(b)` gives exactly the unpadded base64url encoding of b. |
| SessionAuth.GetLogin | src/server.ts:339-345 | Stores `u8toa` of the 32 random bytes as the challenge and renders it. The user is untouched. |
| SessionAuth.IssuedChallengeShape | src/server.ts:339-345 | An issued challenge is 44 characters with one final `=` and decodes to the random bytes. Its echo is 43 characters. |
| SessionAuth.CurrentUser | src/server.ts:1042-1055 | A user is attached iff the session holds a non-empty id of an existing user. |
| SessionAuth.GetHome | src/server.ts:1014-1035 | A logged-in member without a referrer keeps the challenge. Everyone else gets a fresh one. The page renders the session's challenge. |
| SessionAuth.HomeIssuesToVisitors | src/server.ts:1018-1026 | Visitors and invited members get `u8toa(random)`. A member without a referrer keeps the old challenge. |
| SessionAuth.ReissueInvalidatesEcho | src/server.ts:259-269 | Two distinct challenges of the same length are echoed differently, so an echo of the older one mismatches. |
| SessionAuth.IssuedChallengeMatchesEcho | src/server.ts:255-262 | A browser's base64url echo of the issued bytes equals the rewritten challenge. An echo of an earlier challenge does not. |
| SessionAuth.Authenticate | src/server.ts:299-335 | From the passkey lookup on, at most one response is tried. None is tried only when the handler throws. The challenge is untouched, and the user changes only together with `ok`. After an earlier response the store keeps the incoming session. |
| SessionAuth.Login | src/server.ts:228-336 | A request that does not throw is always answered. The challenge is kept or cleared, never replaced. The store ends with either the incoming session or the final in-memory one, and with the incoming one whenever the handler throws. |
| SessionAuth.PostLogin | src/server.ts:228-336 | The handler's responses, throw, in-memory session and stored session are exactly those of `Login`. |
| SessionAuth.NoChallengeRejected | src/server.ts:229-233 | Without a challenge, the only reply is 400 and nothing changes. |
| SessionAuth.MismatchBurnsChallenge | src/server.ts:259-269 | A mismatched challenge is cleared and answered 401 "bad challenge". The same request again gets 400. A client challenge whose string conversion throws makes the log throw first: nothing is sent and nothing changes. |
| SessionAuth.ChallengeKeptUnlessMismatch | src/server.ts:228-336 | The challenge changes iff client data parsed and its challenge mismatched and converts to a string. |
| SessionAuth.UserRecordedOnlyWhenAuthorized | src/server.ts:271-330 | The in-memory session's user changes only for an authorized request. Such a request records the owner's id unless two checks failed, and it throws iff some check failed. |
| SessionAuth.OkExactlyWhenAllChecksPass | src/server.ts:271-335 | The client sees "ok" iff the request is authorized and passes the type, cross-origin and (when on) origin checks. |
| SessionAuth.RefusedLoginOnlyInMemory | src/server.ts:271-335 | An authorized request that fails those checks is answered 401, throws, and leaves the stored session as it came in. With exactly one failing check, the request's in-memory session still gets the user. |
| SessionAuth.StoredLoginOnlyWithOk | src/server.ts:330-335 | The stored session gains a user only when the client is answered `ok`. After an `ok`, both sessions hold the owner's id. |
| SessionAuth.MissingOwnerAnswersNoUserid | src/server.ts:322-328 | A verified passkey whose row names no existing user leaves both sessions unchanged. With printable client data it gets 200 "no userid?" after at most one check's 401. With a value that does not convert, the handler throws. |
| SessionAuth.ChecksDoNotGuardSession | src/server.ts:271-297 | With at most one failing check and printable `type` and `origin`, type, cross-origin, origin and `VALIDATE_DOMAIN` never change the resulting in-memory session. A value that does not convert leaves the user as it came in. |
| SessionAuth.OriginIgnoredUnlessValidating | src/server.ts:279-297 | With `VALIDATE_DOMAIN` off, an origin that converts to a string changes nothing, not even the responses. |
| SessionAuth.UnlistedOriginAnswered401 | src/server.ts:279-297 | With `VALIDATE_DOMAIN` on, an unlisted origin past the challenge check can only get a 401 first response. With printable values it always gets one; otherwise the handler throws and neither session changes. |
| SessionAuth.TypeRejectionShowsValue | src/server.ts:271-273 | A wrong `type` past the challenge check is answered first with 401 "bad webauthn type: " and the value as a template literal prints it: `undefined`, the string itself, or e.g. `5` or `null`. A value whose conversion throws ends the handler with nothing sent and nothing changed. |
| SessionAuth.OriginRejectionShowsValue | src/server.ts:285-289 | With `VALIDATE_DOMAIN` on, a request whose type and cross-origin flag pass but whose origin is unlisted is answered first with 401 "bad cdj origin: " and the origin as printed. An origin whose conversion throws ends the handler with nothing sent and nothing changed. |
| SessionAuth.UnprintableValueThrows | src/server.ts:271-297 | Past the challenge, a `type` or `origin` whose string conversion throws ends the handler with a throw before the passkey lookup, whether or not origins are validated. Only the first two checks' 401s are tried, and neither session changes. |
| SessionAuth.AcceptedAssertionReplays | src/server.ts:246-269 | After a success the stored challenge is still valid. The same assertion, sent again on the stored session, gets the same responses and leaves the same stored session. |
| Registration.PostRegister | src/server.ts:499-532 | The handler's result and tables are exactly those of `Register`. Users are untouched, and the lookup invariant is kept. |
| Registration.Register | src/server.ts:499-532 | Registration never adds or removes an invite and never drops a passkey. Every outcome but the redirect leaves both tables unchanged. |
| Registration.InviteRefusalsInOrder | src/server.ts:505-518 | Past the parse, an unknown code, a deleted invite and an invite for someone else are refused with 400 and their own message, in that order, with no write. |
| Registration.RedirectExactlyForLiveInvite | src/server.ts:503-518 | Redirect iff the authenticator data parses and the code names an undeleted invite for this username. Every refusal leaves the tables unchanged. |
| Registration.ParseFailureComesFirst | src/server.ts:503-504 | Malformed authenticator data throws whatever the invite. |
| Registration.RegistrationWrites | src/server.ts:521-531 | A success stores (credential id, no `user_id`, no `username`, public key, BS bit 4) and stamps the invite. No other row changes. |
| Registration.ActivatedInviteReused | src/server.ts:506-512 | An already activated invite registers again, and both credentials stay stored. |
| Registration.RegisteredKeyNeverLogsIn | src/server.ts:524-529 | As written, a login with a credential registered here never answers `ok` and records no user in either session. |
| Registration.RegisteredKeyLogsInRecipient | src/server.ts:524-529 | With the owner stored where the login reads it, a login with the registered credential whose client data passes the checks is answered `ok`, and the stored session holds the invited user's id. |
| Chunking.SliceCount | src/server.ts:990 | ⌈n/size⌉: the least count whose slices cover n elements. |
| Chunking.Chonk | src/server.ts:989-994 | ⌈n/size⌉ non-empty slices, all of length `size` but the last, whose concatenation is the input. |
| Captions.WordRun | src/lib/models.ts:524-525 | The greedy `\w+`: a prefix of word characters followed by a non-word character or the end. |
| Captions.Scan | src/lib/models.ts:531-534 | Every word the `matchAll` scan captures is non-empty. |
| Captions.FindRes | src/lib/models.ts:527-535 | A blank caption gives no words. Every word returned is non-empty. |
| Captions.FindHashtags | src/lib/models.ts:524-525 | `findHashtags` is the word after every `#` followed by a word character, in order. |
| Captions.FindMentions | src/lib/models.ts:536-537 | `findMentions` is the word after every `@` followed by a word character, in order. |
| Captions.ScanFindsEveryMarker | src/lib/models.ts:531-534 | The `matchAll` scan, which jumps past each match, finds the word after every marker followed by a word character. |
| Captions.FindResIsMarkedWords | src/lib/models.ts:527-535 | `findRes` is the marked words in order, all non-empty runs of `[A-Za-z0-9_]`. The blank check changes nothing. |
| Captions.BlankHasNoMarks | src/lib/models.ts:528-530 | A caption of only whitespace has no marked words. |
| Captions.MarkedWordsAreWords | src/lib/models.ts:531-534 | Every reported word is a non-empty run of word characters. |
| Captions.MarkedWordsMembership | src/lib/models.ts:527-535 | A word is reported iff some marker is immediately followed by it. |
| Captions.HashtagsAndMentions | src/lib/models.ts:524-537 | `findHashtags` and `findMentions` report exactly the words after `#` and `@` respectively. |
| Captions.RepeatsKept | src/lib/models.ts:524-536 | `findRes` with `#`, as `findHashtags` calls it, gives ["a", "b", "a"] for `#a#b #a`: no overlap, repeats kept. |
| Captions.MentionsStopAtPunctuation | src/lib/models.ts:525-537 | `findRes` with `@`, as `findMentions` calls it, gives ["x_1", "y"] for `@x_1,@ @y`. |
| Captions.ReportedSize | src/lib/models.ts:445-446 | The reported size is the stored one or its swap. It is swapped exactly when the orientation is present and above 5. |
| Captions.ReportedSizeMissesTranspose | src/lib/models.ts:445-446 | The reported size is the upright size for every orientation except 5, where it is not swapped. |
| Captions.ReportedSizeInvolutive | src/lib/models.ts:445-446 | Applying the swap twice restores the stored size. A missing orientation swaps nothing. |
| Captions.DisplayedSwapsFromFive | src/lib/models.ts:445-446 | Upright dimensions swap exactly for orientations 5 to 8, the odd quarter turns. |

## Findings

| source | as written | input that shows it | evidently intended | confidence | as-written member | corrected member |
|---|---|---|---|---|---|---|
| src/lib/cred.ts:193 | After an INTEGER the scan resumes at `i + len + 1`, the last content byte, which is read as a tag if it is 0x02. | `30 07 02 02 01 02 02 01 05` (r = 0102, s = 05) converts to `01 02 01 05`. | Resume at `i + len + 2`, giving `01 02 05`. | high; not executed | DerSignature.LastByteTwoMisreadAsTag | DerSignature.IntendedDerRoundTrip |
| src/lib/cred.ts:51-53 | The DataView is built over the view's whole `.buffer`, so `signCount` is bytes 0..3 (the RP-id hash). | 55 bytes, first byte 1, rest 0: `signCount` is 2^24 while the counter field is 0. | The u32 at bytes 33..36. | high; not executed | AuthData.SignCountIgnoresCounterField | AuthData.CounterFieldIgnoresRpIdHash |
| src/server.ts:524-529 | The handler passes the recipient to `insertNewPasskey` as `username`. The insert (src/lib/models.ts:312-328) binds `user_id` from the `user_id` property, which is never set, and writes no `username`. The login looks the owner up by the row's `username` (src/server.ts:322). | Any invite registration followed by a login with that credential: the row has no `username`, so the login answers "no userid?" and records no user. | The recipient's name stored where the login looks the owner up. | high; not executed | Registration.RegisteredKeyNeverLogsIn | Registration.RegisteredKeyLogsInRecipient |
| src/lib/models.ts:445-446 | Width and height are swapped only for orientation > 5. | Orientation 5 (transpose), stored 640×480: reported 640×480, upright 480×640. | Swap for orientations 5 to 8. | medium; not executed | Captions.ReportedSizeMissesTranspose | Captions.DisplayedSwapsFromFive |

The handlers keep the as-written behaviour. `VerifyAuth` uses `DerToRaw`, `ParseAuthData` reads `signCount` from the start of the buffer, and `Register` stores the ownerless row. The model describes the code, and the corrected definitions (`IntendedDerToRaw`, `IntendedRegister`) stand beside it.

## Left out

- Cryptography: SHA-256, SPKI import and ECDSA/RSA verification are the fields of a `Crypto` value. They are not computed.
- WebAuthnVerify.VerifyAuth: a key imported as RSA is assumed to be rejected by the Web Cryptography API when verified with ECDSA parameters (`Err(AlgorithmMismatch)`).
- Randomness: the 32 bytes from `crypto.getRandomValues` are a parameter of the issuing methods.
- JSON parsing: the client data bytes are parsed by a parameter function. `None` stands for a parse that throws or yields `null`: the mismatch branch then throws when it logs `cdj.challenge`. Any other value, object or not, gives a `ClientData` read from its properties. A number, string, boolean or array has none of them, so it takes the mismatch branch. A `challenge`, `type` or `origin` that is present but not a string is carried as the text a template literal renders it as. When that conversion throws, because the value is an object whose `toString` is not a function, it is carried as `Unprintable`, and the handler throws where it prints the value. The rendering itself (`String(v)`) is taken as given, not modelled.
- Base64.Decode: only canonical padded text is decoded. Node's lenient decoding of other text is not modelled, and the handlers' form fields are taken as already-decoded bytes.
- Express responses: a second `res.send` is modelled as a throw, and a second `res.end` as doing nothing. What Express and Node then do with the handler's rejected promise is not modelled.
- Sessions: the store is written once, when the first response ends, and holds the in-memory session as it stood then (`Outcome.saved`). The store's own behaviour, cookies and expiry are not modelled.
- Concurrency: interleaving of concurrent requests on one session (the handlers are `async`) is not modelled.
- SQL: tables are maps and the lookups are map reads. The key constraints of the `passkeys` table are not part of this model, so inserting onto an existing credential id replaces the row.
- Passkey rows: `Passkey.userId` is the `user_id` column and `Passkey.username` the `username` property the login reads. The table's schema is not part of this model, so a row written by `insertNewPasskey` is taken to carry no `username`. An unset `user_id` binding is taken as SQL `NULL`, and the boolean `backed_up` as bound. better-sqlite3, the interface `src/lib/models.ts` is written against, refuses to bind a JavaScript boolean. With that driver, every registration would throw in `insertNewPasskey` (src/lib/models.ts:322-327) after `activateInvite`, and no passkey row would be written. No login with such a key would succeed either way.
- Database driver: the server opens the database with the `sqlite` package, while `src/lib/models.ts` is written against the synchronous better-sqlite3 interface. Queries are modelled as what their SQL says, and the driver is not modelled.
- Loose comparisons: `== null` and `!=` are modelled with `Option`. A form with a missing `username` field is not modelled.
- SessionAuth.ChecksDoNotGuardSession, SessionAuth.OriginIgnoredUnlessValidating: promise equal sessions or outcomes only for a `type` and `origin` that convert to strings. A value whose conversion throws makes the handler throw before the passkey lookup, so it does change the outcome (`UnprintableValueThrows`).
- Chunking.Chonk: requires a whole `size > 0`, and the call supplies `size` (the source's default is 3). The source accepts other sizes too:
  - size 0: a non-empty list yields empty slices forever;
  - a negative size: `Math.ceil(n/size) <= 0`, so no slices;
  - a fractional size: `slice` truncates the bounds, so the slices have uneven lengths.
  The only call site (src/server.ts:1008) is commented out.
- `GET /`: the invite and promotion lists and the rendered templates are not modelled, only the challenge.
- `fileMetaFromPath`: sharp and EXIF reading are not modelled, only the width/height rule.
- Characters: JavaScript strings are UTF-16 code units; here a character is a Unicode scalar value. This makes no difference to the ASCII `\w` class.
- Captions: the copies of `findRes` in `src/lib/post.ts` are not part of this model.
