# Verified model of SentinelVault's protocols

A Dafny model of the parts of SentinelVault where a mistake is hardest to see, with proofs about it: the SRP-6a
login in its two languages, the login service with its lockout, second factors, sessions and token guard, emergency
access, item synchronisation, the default-vault rules, shared vaults, the wrapped-key directory, one-time codes,
the Base32 decoders, the wire format for secret shares, and the string conversion of the web bindings.
`dafny verify dfyconfig.toml` checks everything.

How the model is built:

- Each service is a step function over a value that holds its tables (`Step`), a class whose methods do the same
  work in place (loops, field updates, the source's order of checks) and are proved to take exactly that step, and
  theorems about all runs of the step function. The clock, generated ids and database choices are inputs.
- Beside the theorems about runs, each service has an account that does not mention its step function's branches: which
  calls are refused and what they change, and for every row what any operation does to it (`EmergencyRows`,
  `SharedVaultRows`, `UserVaultRows`, `KeyDirectoryRows`, `SyncViews`, `AuthFactors`, `AuthAnswers`).
- Every asynchronous handler is one atomic step. Tables are maps; `save` replaces a whole record. Entries of the
  expiring key-value store carry their expiry time and are visible strictly before it.
- Hashes, HMAC, signatures and authenticator checks are arbitrary functions, so no result rests on a property of
  SHA-256 or of an authenticator; `SrpBinding` names the pairs of inputs on which the hash must not clash.
  The group modulus is any odd number; `GroupPrimeIsAdmissible` shows that the 2048-bit constant qualifies.
- Algorithms (square-and-multiply, the decoders, the parsers, the writers) are methods with loops, proved against
  independent definitions: exact powers, bit strings, decimal numerals, concatenated frames, UTF-8.

Where the code and its own comments disagree, or the code does what a reader may not expect, the model follows the code:

- key-directory.service.ts:239-240 calls the lexicographically greatest version "latest" and safe. It is the
  greatest number exactly when `CurrentIsGreatest` holds. Lines 111-112 say that a publish leaves earlier versions
  alone; it does exactly when `RowsUpToCurrent` holds (`PublishRewritesNothingExactly`), and `TenIsBelowNine` is a run
  in which it overwrites a record. The doc of `revokeRecipient` (lines 151-155) speaks of a new version only; the
  code also marks the recipient's earlier rows revoked, and publishes nothing when nobody remains.
- sync.service.ts:226-243 checks a whole batch against the store before it, so inside one batch an older entry may
  follow a newer one and win. `NewestWinsExactly` says when the newest one does; `LaterEntryWinsInsideABatch` is a
  batch where it does not. Between pushes versions never fall.
- push (sync.service.ts:226-264) never compares owners, so whoever pushes a newer version under an item's id replaces
  its content; the owner field stays. `KeptExactly` says when version and content stay, `StrangerReplacesContent` is a
  push where they do not.
- deleteUserVault (sync.service.ts:135-153) deletes items by their vault alone, so items that other users have filed
  under it go too. `DeletionSparesOthersExactly` says when nobody else's go, `DeletionTakesOthersItems` is a run where
  one does.
- saveVaultKey and getVaultKey (sync.service.ts:286-361) fall back to different rows when no vault is the default;
  `ReadsBackExactly` gives the condition, `NoDefaultIsReachable` a run that breaks it.
- The two Base32 decoders differ on empty secrets and on separators; `DecodersAgree` states exactly when, and
  `DecodersPart` that both cases occur.

## Model

The rows of `AuthService.LoginService` at the end are the bridge from the model to the source's order of checks: each
method carries out one step of `AuthModel`. What is proved of that step is in the `Auth` rows above them.

| member | source | states |
|---|---|---|
| Powers.JsRemCong | backend/auth-service/src/auth/srp.ts:79 | BigInt's truncating remainder is congruent to its dividend, for negative bases too |
| SrpMath.ModPow | backend/auth-service/src/auth/srp.ts:76-89 | for every base, exponent and modulus: zero modulus, negative exponent, congruence to base^exp, the exact residue when mod > 1, and floor(log2 exp) + 1 passes |
| SrpMath.SecretsAgree | native/crypto_core/src/algorithms.rs:156-168 | (B - k g^x)^(a + u x) and (A v^u)^b are the same residue for every group and all secrets |
| SrpMath.OddDividesNoPowerOfTwo | backend/auth-service/src/auth/srp.ts:136-138 | an honest A is never zero modulo an odd N |
| SrpSession.SafeSubtraction | native/crypto_core/src/algorithms.rs:159-166 | the two-branch subtraction is B - k g^x modulo N and never negative |
| SrpSession.CalculateClientSession | native/crypto_core/src/algorithms.rs:127-210 | the client's computation yields the key and both proofs of the standard's unreduced formulas, and stops exactly on a zero B or u |
| SrpSession.SrpServer.GetMultiplierK | backend/auth-service/src/auth/srp.ts:61-71 | the cached multiplier always equals a fresh one |
| SrpSession.SrpServer.GenerateServerEphemeral | backend/auth-service/src/auth/srp.ts:94-104 | B is k v + g^b modulo N for the reduced random exponent; no bytes are an error |
| SrpSession.SrpServer.VerifySession | backend/auth-service/src/auth/srp.ts:119-181 | the verdict from the unreduced server formula: rejected whenever A is zero modulo N, a length mismatch exactly for evidence of another length, else accepted or rejected by the evidence |
| SrpSession.ZeroPublicIsRejected | backend/auth-service/src/auth/srp.ts:136-138 | an A that is zero modulo N is rejected, whatever evidence comes with it |
| SrpSession.VerdictExactly | backend/auth-service/src/auth/srp.ts:119-181 | for every A and every evidence: exactly when it is a mismatch and when it is accepted, and with which key and counter-evidence |
| SrpSession.ReducedServerSecret | backend/auth-service/src/auth/srp.ts:146-148 | reducing after each multiplication leaves the server's secret unchanged |
| SrpSession.HandshakeSucceeds | backend/auth-service/src/auth/srp.ts:119-181 | with the right master key the server accepts, both ends hold one key and one counter-evidence, unless the client stops on a zero value |
| SrpSession.OnlyTheClientsProof | backend/auth-service/src/auth/srp.ts:165-170 | of all 32-byte proofs exactly the honest client's is accepted |
| SrpBinding.EvidenceBinds | backend/auth-service/src/auth/srp.ts:154-168 | one evidence for two sessions means the same name, salt, A, B and key, unless the hash clashes on one of four named pairs of inputs |
| SrpBinding.CounterEvidenceBinds | backend/auth-service/src/auth/srp.ts:172-174 | one counter-evidence means the same A, evidence and key, unless the hash clashes on the two inputs |
| SrpBinding.ScramblerBinds | backend/auth-service/src/auth/srp.ts:109-114 | one scrambler means the same A and B, unless the hash clashes on the two inputs |
| SrpBinding.MultiplierBinds | backend/auth-service/src/auth/srp.ts:61-71 | one multiplier means the same group modulus, unless the hash clashes on the two inputs |
| SrpBinding.PrivateExponentBinds | native/crypto_core/src/algorithms.rs:95-107 | one private exponent means the same name, master key and salt, unless the hash clashes: the colon ends the name although names may hold colons |
| SrpSession.EncodingsDistinguishResidues | backend/auth-service/src/auth/srp.ts:109-114 | the 256-byte encodings are injective below N |
| SrpSession.GroupPrimeIsAdmissible | native/crypto_core/src/algorithms.rs:54-66 | the fixed modulus is odd, above one and below 256^256 |
| BigEndian.BigIntToBuffer | backend/auth-service/src/auth/srp.ts:6-21 | through hexadecimal, padding or cutting: n modulo 256^len in big-endian |
| BigEndian.BiguintToBytesPadded | native/crypto_core/src/algorithms.rs:72-83 | the same bytes from the minimal big-endian form |
| BigEndian.HexBytesAreMinimal | backend/auth-service/src/auth/srp.ts:7-11 | the even-padded hex string decodes to the minimal bytes |
| BigEndian.WriteThenRead | backend/auth-service/src/auth/srp.ts:26-28 | reading back gives n modulo 256^len, and n itself exactly when it fits |
| BigEndian.BEInjective | backend/auth-service/src/auth/srp.ts:6-21 | equal encodings exactly for numbers congruent modulo 256^len |
| Base32.ServerDecodeBase32 | backend/auth-service/src/auth/totp.ts:81-103 | the wrapping int32 loop returns the regrouped digits, or the error on a foreign character |
| Base32.ClientDecodeBase32 | native/crypto_core/src/algorithms/totp.rs:37-70 | the masked u32 loop returns the regrouped digits, or the two errors |
| Base32.RegroupUnique | backend/auth-service/src/auth/totp.ts:94-100 | the bytes are determined by the digits' bit string and number floor(5n/8) |
| Base32.ShiftIn | backend/auth-service/src/auth/totp.ts:94-95 | shifting in a digit appends its five bits however the accumulator wraps |
| Base32.ClientShift | native/crypto_core/src/algorithms/totp.rs:59-66 | with at most seven pending bits the u32 shift loses nothing |
| Base32.DecodersAgree | native/crypto_core/src/algorithms/totp.rs:37-70 | for every string, the exact condition under which the two decoders part |
| Base32.DecodersPart | native/crypto_core/src/algorithms/totp.rs:37-48 | both kinds of parting occur: the empty secret, and any digits with a hyphen between them |
| Base32.SeparatorsDoNotMatter | native/crypto_core/src/algorithms/totp.rs:37-48 | a separator anywhere changes nothing for the client, and padding at the end nothing for the server |
| Base32.CaseDoesNotMatter | backend/auth-service/src/auth/totp.ts:81-84 | a lower-case letter anywhere decodes like its capital in both |
| Base32.DecodersAgreeOnDigits | backend/auth-service/src/auth/totp.ts:81-103 | on base32 letters both give the regrouped digits |
| Base32.EncodeThenDecode | backend/auth-service/src/auth/totp.ts:81-103 | encoding by section 6 of RFC 4648 and decoding gives any byte string back |
| Totp.TruncationInRange | backend/auth-service/src/auth/totp.ts:66-72 | for any tag of 20 bytes or more the four bytes are in range and their or is the 31-bit truncated value |
| Totp.CodeIsTruncatedValue | native/crypto_core/src/algorithms/totp.rs:105-114 | the code has exactly the asked width and is the truncated value modulo 10^digits |
| Totp.StepBytes | backend/auth-service/src/auth/totp.ts:54-59 | eight big-endian bytes of the step, two's complement when negative |
| Totp.GenerateCode | backend/auth-service/src/auth/totp.ts:50-76 | the server's six-digit code of a step, or the decoder's error |
| Totp.GenerateTotp | native/crypto_core/src/algorithms/totp.rs:73-115 | the client's code for any period, hash and width, with the defaults for zero; from ten digits on the stop of a checked build or the wrapped modulus of an unchecked one |
| Totp.ShownExactly | native/crypto_core/src/algorithms/totp.rs:73-115 | the same read from the digits: a numeral of the asked width for the truncated value of the asked period's step and hash, for every width of both kinds of build; the wrapped modulus is zero exactly from 32 digits on |
| Totp.VerifyCode | backend/auth-service/src/auth/totp.ts:31-44 | accepts exactly the codes of steps within the window; a bad secret is an error, an empty window refuses |
| Totp.AcceptedExactly | backend/auth-service/src/auth/totp.ts:31-44 | a code is right exactly when the secret decodes and its six digits spell the truncated value, modulo a million, of a step at most the window away |
| Totp.SameCode | native/crypto_core/src/algorithms/totp.rs:73-115 | server and client give the same code at every time for every secret both can read |
| Totp.ShownCodeIsAccepted | backend/auth-service/src/auth/totp.ts:31-44 | the server accepts the code that the client shows whenever their 30-second steps are within its window |
| Decimal.PaddedDecimal | backend/auth-service/src/auth/totp.ts:74-75 | shortest numeral plus zero padding is the fixed-width numeral |
| ShareWire.WriteShares | native/crypto_core/src/lib.rs:614-620 | each share behind its little-endian 32-bit length |
| ShareWire.LengthIsLittleEndian | native/crypto_core/src/lib.rs:616-617 | the length comes least significant byte first |
| ShareWire.AllocationSuffices | native/crypto_core/src/lib.rs:580-624 | n shares of a secret fill n (secret_len + 5) bytes exactly |
| ShareWire.FlattenedLength | native/crypto_core/src/lib.rs:614-620 | four bytes a share on top of the contents |
| ShareWire.ParseShares | native/crypto_core/src/lib.rs:652-666 | the cursor loop ends, stays in range and returns what the frames hold |
| ShareWire.ParseSucceeds | native/crypto_core/src/lib.rs:655-666 | success exactly on a non-empty list of frames followed by fewer than four bytes |
| ShareWire.ParseOverruns | native/crypto_core/src/lib.rs:658-660 | the malformed error exactly when a declared length runs past the end |
| ShareWire.ParseFindsNothing | native/crypto_core/src/lib.rs:664-666 | no share found exactly on fewer than four bytes |
| ShareWire.WriteThenParse | native/crypto_core/src/lib.rs:436-454 | parsing inverts writing exactly for non-empty lists of shares below 2^32 bytes |
| Utf8.AsciiPrefix | app/web/pkg/crypto_core.js:468-476 | an ASCII run is its own encoding whatever follows, so the split is safe |
| Utf8.EncodedLength | app/web/pkg/crypto_core.js:477 | three bytes for each code unit always suffice |
| Utf8.DecodeEncoded | app/web/pkg/crypto_core.js:479 | a strict decoder accepts every encoding and finds the string's scalar values |
| Utf8.RoundTrip | app/web/pkg/crypto_core.js:452-487 | exactly the strings without lone surrogates come back unchanged |
| WasmString.EncodeInto | app/web/pkg/crypto_core.js:479 | goes on exactly as long as the next whole character fits, touches nothing outside the view, and finishes in a large enough one |
| WasmString.StringPasser.PassString | app/web/pkg/crypto_core.js:452-487 | a new block of linear memory ends up holding exactly the UTF-8 of the whole string, on both paths, however the allocator moves or grows memory; no other block changes |
| Emergency.EmergencyService.AddContact | backend/sharing-service/src/emergency/emergency.service.ts:21-48 | updates the one active contact of the pair or adds one; what the update does is `EmergencyRows.ContactFate` and `EmergencyRows.SecondDesignation` |
| Emergency.EmergencyService.RevokeContact | backend/sharing-service/src/emergency/emergency.service.ts:64-87 | clears the key and cancels every pending request of the contact, and only those |
| Emergency.EmergencyService.RequestAccess | backend/sharing-service/src/emergency/emergency.service.ts:92-124 | one pending request a contact, maturing after the waiting period |
| Emergency.EmergencyService.DenyRequest | backend/sharing-service/src/emergency/emergency.service.ts:129-147 | only the owner denies, only a pending request |
| Emergency.EmergencyService.GetRequestStatus | backend/sharing-service/src/emergency/emergency.service.ts:152-179 | grants a matured request and shows the contact's key of a granted one |
| Emergency.StepKeepsInv | backend/sharing-service/src/emergency/emergency.service.ts:21-179 | revoked contacts have no key, pending requests an active contact, one active contact a pair, one pending request a contact |
| Emergency.StepGrows | backend/sharing-service/src/emergency/emergency.service.ts:64-147 | resolved requests are final, revoked contacts stay revoked, no row disappears |
| Emergency.KeyReleasedExactlyAfterWaiting | backend/sharing-service/src/emergency/emergency.service.ts:152-179 | over whole histories: a key is shown exactly to a party, after the waiting period in force at creation, with no denial or revocation before, and it is the contact's |
| Emergency.KeyHasARequest | backend/sharing-service/src/emergency/emergency.service.ts:152-179 | every shown key belongs to a request that an earlier event created |
| Emergency.DesignatedKeyArrives | backend/sharing-service/src/emergency/emergency.service.ts:21-179 | a designated key reaches the contact from the end of the waiting period on, and not before |
| Emergency.RedesignationIsNotRetroactive | backend/sharing-service/src/emergency/emergency.service.ts:28-36 | two histories that differ only in the waiting periods of later designations, however many, give everybody the same answers about a request that is already there |
| EmergencyRows.FirstDesignation | backend/sharing-service/src/emergency/emergency.service.ts:21-48 | a new contact gets the designated key from the given hours after a request on and not before; 72 hours when none are given |
| EmergencyRows.SecondDesignation | backend/sharing-service/src/emergency/emergency.service.ts:28-36 | designating an active contact again: a later request yields the new key after the new hours and none before; the old key stays when none or an empty one is given, and no hours are 72 |
| EmergencyRows.SecondDesignationOfAPending | backend/sharing-service/src/emergency/emergency.service.ts:28-36 | a pending request keeps its end of the waiting period and shows the new key |
| EmergencyRows.ContactFate | backend/sharing-service/src/emergency/emergency.service.ts:21-87 | what any operation does to a contact: the owner's revocation, a second designation, nothing else |
| EmergencyRows.ContactsAreDesignated | backend/sharing-service/src/emergency/emergency.service.ts:38-47 | a contact comes about exactly by the designation of a pair without an active one, with the given values |
| EmergencyRows.RequestFate | backend/sharing-service/src/emergency/emergency.service.ts:64-179 | what any operation does to a request: the owner's denial, the revocation of its contact, or a party's question after the end of the waiting period, and only to a pending one |
| EmergencyRows.RequestsAreTheContacts | backend/sharing-service/src/emergency/emergency.service.ts:92-124 | a request comes about exactly when the active contact's own user asks and none is pending |
| EmergencyRows.WhoMay | backend/sharing-service/src/emergency/emergency.service.ts:64-179 | every refusal and every answer: owners revoke and deny, contacts request, the two parties ask, and a refused call changes nothing |
| AuthPruning.ServeSimulates | backend/auth-service/src/auth/auth.service.ts:461-465 | an operation answers alike with and without entries that are stale |
| AuthPruning.PruningIsInvisible | backend/auth-service/src/auth/auth.service.ts:729-741 | with a forward clock, pruning at any points of any run changes no answer |
| AuthLockout.StepCounts | backend/auth-service/src/auth/auth.service.ts:345-393 | only the second step touches counter and lock, and how |
| AuthLockout.FailuresAreLimited | backend/auth-service/src/auth/auth.service.ts:345-393 | in any stretch without a success: at most five failures plus one each quarter of an hour |
| AuthLockout.FailuresAreApart | backend/auth-service/src/auth/auth.service.ts:348-351 | from the fifth failure of a stretch without a success on, failures are a quarter of an hour apart |
| AuthLockout.CounterCounts | backend/auth-service/src/auth/auth.service.ts:368-374 | without a success in between, the stored counter grows by exactly the recorded failures |
| AuthLockout.KnownForEver | backend/auth-service/src/auth/auth.service.ts:190-237 | no operation removes an account |
| AuthProvenance.EveryMintIsBacked | backend/auth-service/src/auth/auth.service.ts:324-328 | each session or token from a password login rests on a live, untaken, proved challenge |
| AuthProvenance.BackingIsExclusive | backend/auth-service/src/auth/redis.service.ts:66-84 | no challenge backs two of them |
| AuthProvenance.SecondFactorStandsBefore | backend/auth-service/src/auth/auth.service.ts:401-427 | a token instead of a session exactly for accounts with a factor on |
| AuthProvenance.EveryFactorIsBacked | backend/auth-service/src/auth/auth.service.ts:461-481 | a passed factor used its own unused token, same account, at most five minutes old, minted by a password login |
| AuthProvenance.FactorIsExclusive | backend/auth-service/src/auth/auth.service.ts:578-629 | no minted token passes twice |
| AuthProvenance.EverySessionIsEarned | backend/auth-service/src/auth/auth.service.ts:319-481 | every stored password or second-factor session has such a history, ending in the very event that opened it under its id and by its method |
| AuthProvenance.ChallengesAreNotShared | backend/auth-service/src/auth/redis.service.ts:66-84 | two sessions never rest on one challenge, whether opened by the password alone or by a factor |
| AuthProvenance.TokensAreNotShared | backend/auth-service/src/auth/auth.service.ts:461-481 | two sessions never rest on one second-factor token |
| AuthProvenance.ChallengeOrigin | backend/auth-service/src/auth/auth.service.ts:283-297 | every stored challenge was issued by an event and not taken or replaced since |
| AuthProvenance.ChallengeStands | backend/auth-service/src/auth/auth.service.ts:283-328 | the other way round: an issued challenge is there until it is taken or issued anew |
| AuthProvenance.TokenOrigin | backend/auth-service/src/auth/auth.service.ts:402-406 | every stored token was minted by an event for that account at that time and not used or replaced since |
| AuthProvenance.TokenStands | backend/auth-service/src/auth/auth.service.ts:402-481 | the other way round: for five minutes a minted token is there until it is used or minted anew, pruning or not |
| AuthProvenance.SessionOrigin | backend/auth-service/src/auth/auth.service.ts:82-113 | every stored session was opened by an operation of its own login method |
| AuthFactors.CodeGrantsExactly | backend/auth-service/src/auth/auth.service.ts:461-481 | a second-factor code opens a session exactly when the token is open and the check accepts the code for the account's secret; a wrong one changes no table and leaves the token |
| AuthFactors.AssertionGrantsExactly | backend/auth-service/src/auth/auth.service.ts:578-629 | a security key opens a session exactly when the check accepts the assertion of the account's first credential of that id over the open challenge; otherwise at most the challenge is gone |
| AuthFactors.PasskeyGrantsExactly | backend/auth-service/src/auth/auth.service.ts:673-724 | the same for a passkey, of the account that the challenge names or of the credential's owner |
| AuthFactors.AssertedExactly | backend/auth-service/src/auth/auth.service.ts:594-629 | an assertion that fails changes nothing and opens nothing; one that succeeds stores the counter of that credential only |
| AuthFactors.EveryFactorIsProved | backend/auth-service/src/auth/auth.service.ts:461-724 | over any run, every session of a code, a security key or a passkey was opened by an event that brought a right one |
| AuthProofs.MintsRestOnRightProofs | backend/auth-service/src/auth/auth.service.ts:319-427 | over any run with the protocol's own check, every session or token from a password login rests on an A that is not zero modulo N and on the evidence of the secret computed from it and the account's verifier |
| AuthProofs.ZeroPublicMintsNothing | backend/auth-service/src/auth/srp.ts:136-138 | over any run nothing is minted from a first step whose A is zero modulo N |
| AuthProofs.CodeSessionsRestOnTheTime | backend/auth-service/src/auth/auth.service.ts:461-481 | over any run with the real codes, every session of a code was opened by the code of a step at most one from the current one, for the secret that the account had |
| AuthAnswers.RegistersExactly | backend/auth-service/src/auth/auth.service.ts:190-237 | the three outcomes of a registration with the whole new state |
| AuthAnswers.IssuesExactly | backend/auth-service/src/auth/auth.service.ts:243-312 | the three outcomes of the first step with the whole new state; unknown names get dummies and the same kind of answer |
| AuthAnswers.ChecksExactly | backend/auth-service/src/auth/auth.service.ts:319-427 | all outcomes of the second step with the whole new state: exactly an accepted proof gets on, a rejected one is counted, the challenge goes in every case |
| AuthAnswers.TotpSetUpExactly | backend/auth-service/src/auth/auth.service.ts:431-459 | a new secret leaves the factor as it is, and it goes on exactly with a right code for the stored secret |
| AuthAnswers.KeySetUpExactly | backend/auth-service/src/auth/auth.service.ts:485-548 | a credential is added and the factor switched on exactly for a verified answer to an open challenge |
| AuthAnswers.OptionsExactly | backend/auth-service/src/auth/auth.service.ts:550-671 | who gets a challenge for a security key or a passkey |
| AuthAnswers.RevokesExactly | backend/auth-service/src/auth/auth.service.ts:140-170 | exactly the account's own sessions other than the caller's can be revoked; nobody else's changes |
| AuthAnswers.AccountFate | backend/auth-service/src/auth/auth.service.ts:319-548 | what any operation other than a right assertion does to an account |
| AuthAnswers.PrunesExactly | backend/auth-service/src/auth/auth.service.ts:729-741 | when pruning happens, and that it deletes exactly the entries older than five minutes |
| AuthGuard.DenylistHolds | backend/auth-service/src/auth/auth.service.ts:160-161 | a revoked session stays denied for a day after its latest revocation |
| AuthGuard.CanActivate | backend/auth-service/src/common/jwt-auth.guard.ts:23-57 | the chain of checks; the caller is attached exactly on success |
| AuthGuard.PassesExactly | backend/auth-service/src/common/jwt-auth.guard.ts:23-57 | a request passes exactly with a Bearer header first, a token that decodes, is unexpired and names a subject, and no live denial of its id |
| AuthGuard.RevokedIsRefused | backend/auth-service/src/auth/auth.service.ts:157-161 | a token is refused at every time after its session's revocation, boundary seconds included |
| AuthGuard.GuardIsExact | backend/auth-service/src/common/jwt-auth.guard.ts:33-57 | a token passes exactly while unexpired and unrevoked |
| AuthHonestLogin.HonestLoginSucceeds | backend/auth-service/src/auth/auth.service.ts:243-427 | two steps of an honest client whose challenge still stands: within five minutes it passes the password and recognises the server |
| AuthHonestLogin.HonestRunSucceeds | backend/auth-service/src/auth/auth.service.ts:243-427 | the same over any run: whatever happens between the two steps, unless somebody takes or reissues the challenge or the account is locked |
| AuthHonestLogin.HonestFactorPasses | backend/auth-service/src/auth/auth.service.ts:461-481 | with the token at most five minutes old, the code that the user's authenticator shows opens the session while the clocks are at most one step apart |
| AuthHonestLogin.HonestFactorRunPasses | backend/auth-service/src/auth/auth.service.ts:402-481 | the same over any run: whatever happens between the password and the code, unless somebody uses or mints the token again |
| SyncItems.SyncService.PushItems | backend/sync-api/src/sync/sync.service.ts:217-282 | conflicts exactly when an entry is older or differs at the same version, and then nothing changes |
| SyncItems.PushAdvances | backend/sync-api/src/sync/sync.service.ts:217-282 | one push only advances an item; at an equal version only its date and filing may change |
| SyncItems.KeptExactly | backend/sync-api/src/sync/sync.service.ts:226-279 | whoever pushes, a stored item keeps owner, and keeps version and content exactly when the push is refused, does not mention it or ends with its version |
| SyncItems.StrangerReplacesContent | backend/sync-api/src/sync/sync.service.ts:226-264 | such a push by somebody who does not own the item |
| SyncItems.SaveAllOutcome | backend/sync-api/src/sync/sync.service.ts:250-279 | the last entry for an id decides, others are untouched, owners stay |
| SyncItems.ItemsOnlyAdvance | backend/sync-api/src/sync/sync.service.ts:217-282 | over any run of pushes, versions never fall, equal versions keep the content, owners never change |
| SyncItems.VersionDeterminesContent | backend/sync-api/src/sync/sync.service.ts:233-241 | two moments with one version have one content |
| SyncItems.NewestWinsExactly | backend/sync-api/src/sync/sync.service.ts:226-279 | an accepted push leaves the newest version of an id exactly when the last entry for the id has it |
| SyncItems.LaterEntryWinsInsideABatch | backend/sync-api/src/sync/sync.service.ts:226-279 | such a batch: an accepted push of versions 5 and 3 leaves 3 |
| SyncItems.PushBackIsIdentity | backend/sync-api/src/sync/sync.service.ts:157-282 | pushing back a pull without a target vault is accepted and changes nothing |
| SyncItems.PushThenPull | backend/sync-api/src/sync/sync.service.ts:187-214 | a pull after a push shows what was pushed; what it shows besides is `SyncViews.PullIsOwnOrShared` |
| SyncViews.PullIsOwnOrShared | backend/sync-api/src/sync/sync.service.ts:187-214 | a pull without a vault shows exactly the items under one of the caller's two names and those whose folder is shared with the caller, as they are stored |
| SyncViews.PullOfAVault | backend/sync-api/src/sync/sync.service.ts:187-214 | a pull of a vault shows exactly the caller's items filed under it, and all items filed under it as a shared folder |
| SyncViews.PullIsIsolated | backend/sync-api/src/sync/sync.service.ts:157-282 | while nothing is shared with a user, no push by somebody else on other ids changes the user's pull |
| SyncViews.RunsAreIsolated | backend/sync-api/src/sync/sync.service.ts:157-282 | the same over any stretch of pushes |
| SyncViews.AcceptedExactly | backend/sync-api/src/sync/sync.service.ts:226-247 | a push is accepted exactly when every entry for a stored id is newer, or repeats version, content and nonce |
| SyncViews.RefusalShowsStored | backend/sync-api/src/sync/sync.service.ts:233-247 | a refusal shows the stored items of exactly the conflicting entries, in their order |
| SyncViews.FiledWhere | backend/sync-api/src/sync/sync.service.ts:250-279 | where an item is filed after a push: under the vault or folder that its last entry names, else the target, else as before |
| UserVaults.UserVaultService.GetUserVaults | backend/sync-api/src/sync/sync.service.ts:44-73 | lists the user's vaults, the oldest first, making a default one from the older table when there is none |
| UserVaults.UserVaultService.CreateUserVault | backend/sync-api/src/sync/sync.service.ts:75-112 | a new default clears the others; the first vault is the default unless refused |
| UserVaults.UserVaultService.UpdateUserVault | backend/sync-api/src/sync/sync.service.ts:114-133 | changes the given fields of an own vault |
| UserVaults.UserVaultService.DeleteUserVault | backend/sync-api/src/sync/sync.service.ts:135-153 | removes an own vault, never the only one, with all items filed under it |
| UserVaults.OneDefaultAlways | backend/sync-api/src/sync/sync.service.ts:91-110 | over any run no user has two default vaults |
| UserVaults.NeverBackToNone | backend/sync-api/src/sync/sync.service.ts:135-153 | a user with a vault always keeps one |
| UserVaults.OthersUntouched | backend/sync-api/src/sync/sync.service.ts:44-153 | no operation touches another user's vaults |
| UserVaults.StepOnItem | backend/sync-api/src/sync/sync.service.ts:135-153 | an item goes exactly when its vault is deleted, by a user who owns the vault and another one, and otherwise only advances |
| UserVaults.DeletionSparesOthersExactly | backend/sync-api/src/sync/sync.service.ts:135-153 | a deletion leaves everybody else's items exactly when it is refused or all that is filed under the vault is the user's own |
| UserVaults.ItemsAdvanceUntilDeletion | backend/sync-api/src/sync/sync.service.ts:135-282 | over any run of vault operations and pushes an item keeps its owner and only advances until its vault is deleted |
| UserVaults.DeletionTakesOthersItems | backend/sync-api/src/sync/sync.service.ts:149-153 | a run that breaks the condition: deleting a vault removes somebody else's item |
| UserVaults.ReadsBackExactly | backend/sync-api/src/sync/sync.service.ts:286-361 | a saved key is sure to be read back exactly with a default vault or at most one vault |
| UserVaults.NoDefaultIsReachable | backend/sync-api/src/sync/sync.service.ts:91-92 | a run reaches two vaults and no default |
| UserVaults.UserVaultService.SaveVaultKey | backend/sync-api/src/sync/sync.service.ts:286-341 | writes the keys to the default vault, else any, else a new default, and to the older table |
| UserVaults.UserVaultService.GetVaultKey | backend/sync-api/src/sync/sync.service.ts:343-361 | the default vault's keys, else the oldest's |
| UserVaultRows.VaultFate | backend/sync-api/src/sync/sync.service.ts:44-341 | what any operation does to a vault, and exactly when it disappears; other users' operations do nothing |
| UserVaultRows.NewVault | backend/sync-api/src/sync/sync.service.ts:44-341 | which vaults come about, with their names, keys and defaults |
| UserVaultRows.LegacyFate | backend/sync-api/src/sync/sync.service.ts:326-341 | the older table changes exactly when a key is saved, for that user only |
| UserVaultRows.ItemsFate | backend/sync-api/src/sync/sync.service.ts:135-153 | items change only by a push or with the deletion of their vault |
| UserVaultRows.Answers | backend/sync-api/src/sync/sync.service.ts:44-341 | every answer and every refusal; a refused call changes nothing |
| UserVaultRows.OlderKeyIsKept | backend/sync-api/src/sync/sync.service.ts:48-66 | the vault made from the older table holds that table's keys and is the answer to the next lookup |
| SharedVault.SharedVaultService.CreateVault | backend/sharing-service/src/shared-vault/shared-vault.service.ts:33-79 | one step: the owner as accepted admin, the others pending at version 1 |
| SharedVault.SharedVaultService.AddMember | backend/sharing-service/src/shared-vault/shared-vault.service.ts:134-156 | one step: an admin adds a new or revoked user at the vault's version |
| SharedVault.SharedVaultService.RotateKeys | backend/sharing-service/src/shared-vault/shared-vault.service.ts:189-212 | one step: strictly greater version, payloads for present members only |
| SharedVault.SharedVaultService.RemoveMember | backend/sharing-service/src/shared-vault/shared-vault.service.ts:160-185 | one step: revokes and clears the payload, never the owner; what the removal achieves is `SharedVaultRows.RemovalRemoves` |
| SharedVault.RewrappedOutcome | backend/sharing-service/src/shared-vault/shared-vault.service.ts:199-205 | exactly the named, unrevoked members get the version and their last payload |
| SharedVault.InvAlways | backend/sharing-service/src/shared-vault/shared-vault.service.ts:33-212 | the owner is an accepted admin, no member is ahead of the vault, revoked members hold no payload |
| SharedVault.VersionsRise | backend/sharing-service/src/shared-vault/shared-vault.service.ts:193-203 | versions never fall over a run and rise with each rotation |
| SharedVault.StepAuthority | backend/sharing-service/src/shared-vault/shared-vault.service.ts:222-227 | only a present admin changes a vault |
| SharedVault.RemovedStaysOut | backend/sharing-service/src/shared-vault/shared-vault.service.ts:160-212 | a removed member gains no payload until an admin adds the member again |
| SharedVault.SharedVaultService.GetVaultsForUser | backend/sharing-service/src/shared-vault/shared-vault.service.ts:83-101 | lists exactly the vaults in which the user is present, with the user's role and payload |
| SharedVault.SharedVaultService.GetVaultDetails | backend/sharing-service/src/shared-vault/shared-vault.service.ts:105-130 | a present member sees the vault and all members without their payloads, anybody else an error |
| SharedVaultRows.RemovalRemoves | backend/sharing-service/src/shared-vault/shared-vault.service.ts:160-185 | after an answered removal the user is revoked without a payload, no admin, not among the remaining and sees the vault no more; every other member is unchanged |
| SharedVaultRows.RemovedSeesNothing | backend/sharing-service/src/shared-vault/shared-vault.service.ts:160-212 | from an answered removal on, over any run, the user has no payload and sees nothing until an admin adds the user again |
| SharedVaultRows.RotationShows | backend/sharing-service/src/shared-vault/shared-vault.service.ts:189-212 | after a rotation a present member is shown the new version, with the new payload if one was named |
| SharedVaultRows.MemberFate | backend/sharing-service/src/shared-vault/shared-vault.service.ts:134-212 | what any operation does to a member: an add after a removal, a removal, a rotation, each by a present admin |
| SharedVaultRows.MembersAreAdded | backend/sharing-service/src/shared-vault/shared-vault.service.ts:134-156 | a member comes about exactly by an admin's add, pending at the vault's version |
| SharedVaultRows.VaultFate | backend/sharing-service/src/shared-vault/shared-vault.service.ts:134-212 | name and owner never change and the version only by a rotation |
| SharedVaultRows.WhoMay | backend/sharing-service/src/shared-vault/shared-vault.service.ts:134-227 | every refusal and every answer; a refused call changes nothing |
| SharedVaultRows.NewVault | backend/sharing-service/src/shared-vault/shared-vault.service.ts:33-79 | a new vault: the trimmed name, the owner with the first own entry's payload, the others by their last entries |
| KeyDirectory.KeyDirectoryService.GetCurrentKeyVersion | backend/sharing-service/src/key-directory/key-directory.service.ts:242-250 | the greatest version string of the folder, or none |
| KeyDirectory.RowsAlways | backend/sharing-service/src/key-directory/key-directory.service.ts:125-147 | over any run every row has a version row, and every version is the numeral of an integer |
| KeyDirectory.KeyDirectoryService.PublishWrappedKeys | backend/sharing-service/src/key-directory/key-directory.service.ts:114-148 | one version row and one row a recipient, at the requested or next version |
| KeyDirectory.KeyDirectoryService.RevokeRecipient | backend/sharing-service/src/key-directory/key-directory.service.ts:157-183 | marks the recipient's rows, then publishes to those who remain |
| KeyDirectory.KeyDirectoryService.FetchWrappedKey | backend/sharing-service/src/key-directory/key-directory.service.ts:193-233 | the caller's own active record, by version or by greatest version string |
| KeyDirectory.RevokedStaysOut | backend/sharing-service/src/key-directory/key-directory.service.ts:157-233 | after a revocation no lookup of the user succeeds in the folder until a publish names the user |
| KeyDirectory.PublishRisesExactly | backend/sharing-service/src/key-directory/key-directory.service.ts:119-125 | a publish always raises the version exactly when the string maximum is the numeric maximum |
| KeyDirectory.SameLengthSuffices | backend/sharing-service/src/key-directory/key-directory.service.ts:242-250 | versions of one digit count are such a case |
| KeyDirectory.PublishRewritesNothingExactly | backend/sharing-service/src/key-directory/key-directory.service.ts:111-148 | a publish never rewrites a row, whatever is asked, exactly when no row of the folder has a greater number than the current version |
| KeyDirectory.PublishRewritesNothing | backend/sharing-service/src/key-directory/key-directory.service.ts:111-112 | where versions always rise that is so: no row changes |
| KeyDirectory.PublishThenFetchExactly | backend/sharing-service/src/key-directory/key-directory.service.ts:208-218 | in any state, a recipient's latest record after a publish is the published one exactly when no active version of theirs is a greater string, and otherwise the one they got before |
| KeyDirectory.PublishThenFetch | backend/sharing-service/src/key-directory/key-directory.service.ts:208-218 | versions of one digit count are such a case |
| KeyDirectory.FetchIsNewest | backend/sharing-service/src/key-directory/key-directory.service.ts:208-218 | while versions have one digit count, anybody's latest record is the numerically newest of their active ones |
| KeyDirectory.TenIsBelowNine | backend/sharing-service/src/key-directory/key-directory.service.ts:235-250 | a run that breaks the condition: from version 9 to 10 a publish overwrites a record |
| KeyDirectoryRows.RowFate | backend/sharing-service/src/key-directory/key-directory.service.ts:125-183 | what a publication or revocation does to any record, and which records come about |
| KeyDirectoryRows.VersionsFate | backend/sharing-service/src/key-directory/key-directory.service.ts:125-183 | which version rows come about, and that a revocation that still names its user is refused without a trace |
| KeyDirectoryRows.RequestedVersion | backend/sharing-service/src/key-directory/key-directory.service.ts:119-124 | the version of a publication: the requested one if it is greater than the current one, else the next |
| KeyDirectoryRows.RecipientsHoldTheNewKey | backend/sharing-service/src/key-directory/key-directory.service.ts:157-183 | every recipient of a publication, and every remaining one of a revocation, holds the new key under its version |
| KeyDirectoryRows.OthersKeepTheirKeys | backend/sharing-service/src/key-directory/key-directory.service.ts:125-183 | a lookup by version is unchanged for everybody who is not named, and in other folders |
| KeyDirectoryRows.FetchShowsOwn | backend/sharing-service/src/key-directory/key-directory.service.ts:193-233 | a lookup shows an active record of the caller in the folder, of the version if one is asked for |
| KeyDirectoryRows.SharesAreActive | backend/sharing-service/src/key-directory/key-directory.service.ts:277-300 | the caller's shares are exactly the caller's active records |
| Decimal.PrintThenParse | backend/sharing-service/src/key-directory/key-directory.service.ts:119-125 | parseInt inverts toString on integers |
| Decimal.ParseReads | backend/sharing-service/src/key-directory/key-directory.service.ts:120-122 | parseInt skips blanks, honours a sign, reads the digits and ignores what follows them |
| Decimal.ParseRefuses | backend/sharing-service/src/key-directory/key-directory.service.ts:120-122 | without a digit after blanks and sign there is no number |
| Decimal.LexIsNumeric | backend/sharing-service/src/key-directory/key-directory.service.ts:242-250 | between numerals of one length, string order is numeric order |
| AuthService.LoginService.PruneOldChallenges | backend/auth-service/src/auth/auth.service.ts:729-741 | deletes exactly the entries older than five minutes |
| AuthService.LoginService.CreateSession | backend/auth-service/src/auth/auth.service.ts:82-113 | one-step refinement: stores an unrevoked session and signs a token for it |
| AuthService.LoginService.Register | backend/auth-service/src/auth/auth.service.ts:190-237 | one-step refinement: a new name gets a fresh account and a session, a taken one a conflict |
| AuthService.LoginService.GenerateTotp | backend/auth-service/src/auth/auth.service.ts:431-443 | one-step refinement: stores a new secret without switching the factor on |
| AuthService.LoginService.EnableTotp | backend/auth-service/src/auth/auth.service.ts:445-459 | one-step refinement: the factor goes on only after a valid code |
| AuthService.LoginService.GenerateWebAuthnRegisterOptions | backend/auth-service/src/auth/auth.service.ts:485-509 | one-step refinement: one registration challenge an account |
| AuthService.LoginService.VerifyWebAuthnRegister | backend/auth-service/src/auth/auth.service.ts:511-548 | one-step refinement: the challenge is used up, a verified credential is appended and the factor goes on |
| AuthService.LoginService.GenerateWebAuthnLoginOptions | backend/auth-service/src/auth/auth.service.ts:550-576 | one-step refinement: needs an open second-factor token |
| AuthService.LoginService.LoginStep1 | backend/auth-service/src/auth/auth.service.ts:243-312 | one-step refinement: lock check, dummy values for unknown names, five-minute challenge, pruning |
| AuthService.LoginService.LoginStep2 | backend/auth-service/src/auth/auth.service.ts:319-427 | one-step refinement: the challenge is taken first, then lock, proof, failure count, second factor, session |
| AuthService.LoginService.VerifyTotp | backend/auth-service/src/auth/auth.service.ts:461-481 | one-step refinement: the token is used up exactly on success |
| AuthService.LoginService.VerifyWebAuthnLogin | backend/auth-service/src/auth/auth.service.ts:578-629 | one-step refinement: challenge used up, counter stored, session opened |
| AuthService.LoginService.GeneratePasskeyLoginOptions | backend/auth-service/src/auth/auth.service.ts:641-671 | one-step refinement: a challenge for one account or any, then pruning |
| AuthService.LoginService.VerifyPasskeyLogin | backend/auth-service/src/auth/auth.service.ts:673-724 | one-step refinement: the challenge is used up whatever the outcome |
| AuthService.LoginService.RevokeSession | backend/auth-service/src/auth/auth.service.ts:140-170 | one-step refinement: never the caller's own session, marks it and denies its id for a day |

## Left out

- Interleaving inside a handler: handlers are not transactions, so the invariants are those of atomic steps.
- Argon2id, AES-GCM, SHA, HMAC, X25519, ML-KEM, ML-DSA and the Shamir polynomials: arbitrary functions or absent.
- Hexadecimal transport of A, B, salt and verifier between handlers, and requests whose hex does not parse.
- User names as lower-case keys: case folding itself is not modelled; SRP takes the UTF-8 bytes of the name.
- Audit events, device labels, token hashes and log lines: written and never read back by the modelled code.
- TypeORM's treatment of undefined fields, database collations, and failures of the database or the key-value store.
- Generated ids are inputs. A duplicate id is refused in Emergency; UserVaults and SharedVault take new ids for granted.
- JavaScript numbers: versions, hours and timestamps are integers, without NaN, fractions or loss above 2^53.
- SrpMath.ModPow: gives a congruence and not the residue for a negative modulus, which no caller passes.
- AuthLockout.FailuresAreLimited: counts failures for existing accounts, since nothing is counted for unknown names.
- SyncItems.PushBackIsIdentity: dates are numbers, so a date that does not survive its ISO form is not modelled.
- WasmString.StringPasser.PassString: addresses are unbounded numbers and the allocator, a stand-in for the generated one, never fails.
- SharedVault.SharedVaultService.RotateKeys: records are values, so a caller's alias to a returned vault object is not modelled.
- Dates of shared vaults and members (createdAt, joinedAt): stored and shown, nothing depends on them.
- Output capacity checks, null pointers and zeroing in the native share functions; the sizes are assumed not to overflow.
- The SQL behind shared folders in pull: the set of shared folders is an input.
- Public key bundles, share links, share invites, personal access tokens, single sign-on: smaller machines of the same kind.
- The scheduler, breach and reputation lookups, command line, browser extension, native host and mobile code: I/O and plumbing.
