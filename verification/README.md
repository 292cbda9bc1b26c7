# Verified model of the BLS remote signer

The repository is a signing sidecar: a gRPC server that signs with a BLS12-381 scalar kept in
memory, in a Vault plugin or in a Nitro enclave, and a key tool that encrypts and migrates
scalars.  This project models the parts that hold state or run concurrently and proves what
they promise.  `dafny verify dfyconfig.toml` checks all of it.

| file | models |
|---|---|
| `Common.dfy`, `Scalar.dfy`, `BlsUtil.dfy` | bytes, scalars as big-endian numbers below the group order, `internal/blstutil` |
| `Hex.dfy`, `HostHex.dfy`, `Base64.dfy`, `EnclaveProto.dfy` | the text forms: `encoding/hex`, the hand-written `hexDecode`, base64 fields, the vsock messages |
| `LocalBackend.dfy` | `backend/memory` and `backend/awskms` |
| `VaultPlugin.dfy`, `VaultRaces.dfy`, `VaultBackend.dfy` | the Vault plugin's key store, its writers interleaved, and the backend that calls it |
| `SigningPaths.dfy` | one specification refined by the three signing paths |
| `TokenRenewal.dfy`, `TokenFate.dfy`, `TokenTurns.dfy` | the Vault token renewal loop: token safety; capped lifetimes, outages and recovery; how it ends and how it goes on |
| `EnclaveInit.dfy`, `InitRetry.dfy`, `RunningCheck.dfy`, `NitroProtocol.dfy`, `NitroReconnect.dfy` | the host/enclave protocol: agreement and safety; from which states calls and clients can still succeed |
| `Keytool.dfy` | `keytool generate` and `keytool migrate`, with crashes |
| `Shutdown.dfy` | draining requests versus zeroing the key |

## Assumptions

- The BLS library is uninterpreted: `pkOf` gives 48 bytes, `sigOf` 96.  A scalar is accepted
  exactly when it is 32 bytes with 0 < value < r.  The tags are those of the
  proof-of-possession scheme (section 4.2.3 of draft-irtf-cfrg-bls-signature).
- A KMS decrypts what it encrypted and rejects an empty blob.
- Crashes of `keytool` stop the process; writes made before the crash are on disk, in order.
  Two paths are equal in the model exactly when they name the same file.
- gRPC's `Serve`, after `GracefulStop`, returns only when accepted requests are answered.
- Vault reports a token's remaining lifetime in whole seconds (rounded down), rejects calls
  with an expired token, and applies a storage `Put` entirely or not at all.
- `Keytool.NoKeyLossIff` takes the Vault import as one step: no other writer of that name is in
  the middle of its request.  `Keytool.VaultMigrateNoKeyLossIff` drops this.
- Times are integers.  Multiplying a whole number of seconds by 0.75 in `float64` is exact for
  every lifetime below 48 years, so the sleep is modelled as 3 * ttl / 4.

## Where the code and its documentation differ

- `backend/vault/vault.go:14-17` promises that signing is never lost to token expiry.
  `TokenSafety` gives a condition under which that holds.  It fails when Vault renews every
  live token but only up to a cap: a loop that is on time never re-authenticates and ends for
  good (`CappedRunLosesToken`, `CappedRunExample`), while one late enough to find its token
  expired does log in again (`LateTurnLogsIn`).  It fails too, even for a fresh login, when
  lookups fail for as long as the token lasts, since a failed lookup never leads to
  `authenticate` (`LookupOutageIff`, `LongOutage`, `OutageRun`).  With a static token a login
  brings no new lifetime.  `RecoverableIff` says, for both ways of authenticating, exactly from
  which states a longer life can still be had.
- `internal/enclaveproto/protocol.go:34-41` calls the byte fields hex-encoded, and line 8
  calls the messages length-prefixed; they are JSON with base64 fields.
- `backend/awsnitro/awsnitro.go:278-291` reads more than hexadecimal text (`AgreesWithStandard`).
- `keytool/keytool.go:125-137` deletes the plaintext once the plugin has answered an import.  The
  plugin holds no lock, so an import that answered with success can still be overwritten by one
  begun before it, and the key is then nowhere (`VaultMigrateNoKeyLossIff`, `VaultMigrateCanLose`).
- `vault-plugin/backend/path_keys.go:84` tells the user to delete a key first; there is no
  delete path, so a stored name is permanent.

## Model

| member | source | states |
|---|---|---|
| Scalar.PartialZeroing | backend/memory/memory.go:67-73 | after k zeroing steps the value is the original mod 256^(32-k), below r, a valid key exactly when a remaining byte is nonzero, and never after all 32 |
| Scalar.OrderOfCurve | internal/blstutil/blstutil.go:83-92 | the bound on a scalar is the value of x^4 - x^2 + 1 at the curve parameter |
| BlsUtil.Deserialize | internal/blstutil/blstutil.go:83-92 | accepts exactly the 32-byte values strictly between 0 and r |
| BlsUtil.TagsDiffer | internal/blstutil/blstutil.go:28-31 | the message tag and the possession tag differ |
| BlsUtil.SignWhileZeroing | internal/blstutil/blstutil.go:69-81 | signing with a half-zeroed key signs under another key while it is nonzero, and fails once it is all zero |
| LocalBackend.StartsOnValidScalars | backend/awskms/awskms.go:81-93 | a backend starts exactly on the valid scalars and caches their public key |
| LocalBackend.Backend.SignMessage | backend/memory/memory.go:57-60 | signs with the message tag under the scalar the buffer holds, or fails when it holds none |
| LocalBackend.Backend.SignProofOfPossession | backend/memory/memory.go:62-65 | likewise with the possession tag |
| LocalBackend.Backend.Close | backend/awskms/awskms.go:110-116 | zeroes every byte in order; every intermediate buffer is the original with a longer zero prefix |
| LocalBackend.SignAfterClose | backend/memory/memory.go:67-73 | after Close both kinds of signature fail |
| Hex.RoundTrip | vault-plugin/backend/bls.go:41-59 | decoding undoes encoding on every byte string |
| Hex.AnyCase | vault-plugin/backend/bls.go:41-59 | a text and its upper-case form decode to the same bytes, or both are refused |
| HostHex.HexDecode | backend/awsnitro/awsnitro.go:278-291 | the loop computes Decoded: every whole pair scanned, floor(len/2) bytes, an error on the empty string or a pair that does not scan |
| HostHex.RoundTrip | backend/awsnitro/awsnitro.go:278-291 | it inverts lower-case encoding on every non-empty byte string and rejects the empty one |
| HostHex.OnlyWholePairsMatter | backend/awsnitro/awsnitro.go:282-289 | nothing past the last whole pair is looked at |
| HostHex.AgreesWithStandard | backend/awsnitro/awsnitro.go:285-287 | exactly when it agrees with encoding/hex on a non-empty string |
| HostHex.AcceptsMore | backend/awsnitro/awsnitro.go:285-287 | concrete strings it accepts that are not hexadecimal |
| Base64.RoundTrip | internal/enclaveproto/protocol.go:31-45 | base64 decoding undoes encoding on every byte string |
| Base64.ReadsIff | internal/enclaveproto/protocol.go:31-45 | a text is read exactly when it is whole groups of four digits with at most two characters of padding at the end |
| EnclaveProto.WireRoundTrip | internal/enclaveproto/protocol.go:31-45 | requests and responses survive the wire, empty omitted fields included |
| EnclaveProto.Answered | enclave/main.go:210-243 | what the host reads back for each request kind, for an unknown kind and for no request |
| EnclaveProto.TagsAgree | enclave/main.go:40-44 | the enclave's own copies of the tags are those every other backend uses |
| VaultPlugin.Plugin.HandleGenerate | vault-plugin/backend/path_keys.go:75-111 | refused exactly on a taken name; a valid generated scalar is stored as hex and its public key reported; otherwise it fails and nothing changes; this is one step of the store specification |
| VaultPlugin.Plugin.HandleImport | vault-plugin/backend/path_keys.go:113-153 | refused without a 64-character key or on a taken name; the text of a valid key is stored as sent and its public key reported; otherwise it fails and nothing changes; this is one step of the store specification |
| VaultPlugin.StepKeeps | vault-plugin/backend/path_keys.go:75-153 | every request keeps the representation invariant and every stored entry; only a writer that reports success adds its name |
| VaultPlugin.PublicKeyReply | vault-plugin/backend/path_keys.go:155-176 | every public-key reply is the key of what is stored under that name |
| VaultPlugin.ImportStores | vault-plugin/backend/path_keys.go:140-152 | a successful import stored the scalar that was sent |
| VaultPlugin.GenerateStores | vault-plugin/backend/path_keys.go:87-110 | a successful generate stored the generated scalar and reports its public key |
| VaultPlugin.LoadKeyEmptyIffAbsent | vault-plugin/backend/path_keys.go:199-209 | loadKey's "" means exactly that the name is absent |
| VaultPlugin.ReadNeverFailsOnKey | vault-plugin/backend/path_keys.go:155-176 | on a stored name only the storage can make the public-key read fail |
| VaultPlugin.SignNeverFailsOnKey | vault-plugin/backend/path_sign.go:72-115 | on a stored name a signature comes back exactly when storage answers and the arguments given are hex, under the stored scalar, with the message tag when none is given |
| VaultPlugin.PossessionNeverFailsOnKey | vault-plugin/backend/path_sign.go:87-115 | likewise for a proof of possession, with the plugin's tag |
| VaultPlugin.SignedIff | vault-plugin/backend/path_sign.go:72-115 | a reply is a signature exactly when a sign request carries a message, message and tag are hex, the name is stored and storage answers; without a message it is refused |
| VaultPlugin.TagsAgree | vault-plugin/backend/path_sign.go:14-20 | the plugin's own copies of the tags are those every other backend uses |
| VaultPlugin.InvAlways | vault-plugin/backend/path_keys.go:97-103 | after any sequence of requests every entry is 64 hex characters decoding to a valid scalar |
| VaultPlugin.WriteOnce | vault-plugin/backend/path_keys.go:78-103 | over any sequence of requests a stored name never changes value |
| VaultPlugin.PublicKeyNeverChanges | vault-plugin/backend/path_keys.go:155-176 | all public-key replies for one name are equal |
| VaultRaces.WriteOnceIff | vault-plugin/backend/path_keys.go:132-145 | with reads and writes interleaved, the store is write-once exactly when no write inside another request's read-to-write window stores a different text |
| VaultRaces.RepliesAgreeIff | vault-plugin/backend/path_keys.go:113-176 | with reads and writes interleaved, all public keys reported for one name are equal exactly when no write inside a read-to-write window stores a scalar with another public key |
| VaultRaces.NoWriteInWindowSuffices | vault-plugin/backend/path_keys.go:79-103 | both hold when no such write happens at all |
| VaultRaces.OneAnswer | vault-plugin/backend/path_keys.go:75-176 | every request reads storage at most once and writes at most once, after its read; it is answered once, and a failure is a failed answer |
| VaultRaces.TwoImportsOverwrite | vault-plugin/backend/path_keys.go:132-145 | a two-request run in which a stored key is replaced and both imports report success |
| VaultRaces.CaseBreaksTextOnly | vault-plugin/backend/path_keys.go:120-145 | importing one scalar in two letter cases changes the stored text and no public-key reply |
| VaultRaces.SigningMatchesIff | vault-plugin/backend/path_sign.go:72-115 | whatever a request finds stored under a name has the public key reported for that name, at every moment, exactly when no write inside a read-to-write window stores a scalar with another public key |
| VaultRaces.SignatureUnderReportedKey | vault-plugin/backend/path_sign.go:72-115 | then a signature and a public key returned under one name are those of one valid scalar, whichever came first |
| VaultRaces.WriteKeptIff | vault-plugin/backend/path_keys.go:132-145 | what one write stored stays visible at every later moment exactly when every write of that name by a request that had read before it stores what looks the same, for any way of looking |
| VaultRaces.UninterruptedIsOneStep | vault-plugin/backend/path_keys.go:131-176 | without interruption a writer, a reader or a signer has the effect and the reply of the plugin's single step |
| VaultBackend.BootsOnStoredKey | backend/vault/vault.go:93-108 | a backend starts on a stored key whenever the exchange works and caches its public key |
| VaultBackend.SignsWithStoredKey | backend/vault/vault.go:289-324 | each kind of signature, hex out and hex back, is that of the stored scalar, or an error |
| VaultBackend.DefaultMount | backend/vault/vault.go:77-80 | without a mount path a backend boots from and signs with the key stored at "bls" |
| SigningPaths.AllPathsRefineSpecified | backend/awsnitro/awsnitro.go:242-264 | in-process, Vault and enclave signing each give exactly the specified 96 bytes or an error, for every message and both kinds |
| TokenRenewal.Loop.RenewTokenLoop | backend/vault/vault.go:121-169 | over any environment (each call's delay and outcome, each wait's lateness or cancellation, a lost renewal reply) the loop only makes steps of the state machine, ends where the turns lead, and returns exactly when stopped or cancelled |
| TokenTurns.StoppedIff | backend/vault/vault.go:122-138 | in every run the loop has stopped by itself exactly when some lookup was answered with a token that is not renewable or has under a second left, and the answer was acted on; no error ever stops it |
| TokenTurns.CancelledIff | backend/vault/vault.go:126-161 | it has been cancelled exactly when the context was; a loop that has returned makes no further call |
| TokenTurns.LoginIffRenewalFailed | backend/vault/vault.go:150-164 | the call that follows another is authenticate exactly when the earlier one was a failed renewal |
| TokenTurns.FailureIff | backend/vault/vault.go:123-161 | after a failed lookup or a failed login a longer-lived token can still be had exactly when the loop is not cancelled and the next lookup, 30 s or 15 s after the failure, leaves a whole second |
| TokenTurns.TurnWithoutRenewal | backend/vault/vault.go:122-148 | how a turn ends that makes no renewal: stopped, cancelled, or looking up again 30 s later, each exactly when |
| TokenTurns.TurnWithRenewal | backend/vault/vault.go:140-167 | at which instant and with which expiry a turn ends that comes to its renewal: renewed, logged in, or backed off 15 s |
| TokenTurns.SteadyLoop | backend/vault/vault.go:121-169 | while Vault answers and renews for one lifetime and under a quarter of it goes into calls and lateness, the loop never returns and every renewal comes before the expiry, over any number of turns |
| TokenRenewal.TokenSafety | backend/vault/vault.go:119-169 | if the time outside the planned sleep stays under a quarter of the lifetime last stated, the token is unexpired at every instant |
| TokenRenewal.QuarterIsTight | backend/vault/vault.go:46-48 | for a lifetime of any number of seconds, spending exactly a quarter elsewhere lets the token expire before it is renewed |
| TokenFate.TurnsBefore | backend/vault/vault.go:122-148 | turns that begin before an instant number at most (instant - start) / 0.75 s + 1, in any run |
| TokenFate.CappedRunLosesToken | backend/vault/vault.go:134-167 | when Vault renews every live token up to a cap and no turn is late: no login, a bounded number of turns before the cap, doom in the last second for a loop about to look up, one more renewal at most for a turn under way, and expiry for good from the cap on |
| TokenFate.CappedRunExample | backend/vault/vault.go:134-138 | a capped run in which the loop stops and the token expires |
| TokenFate.LateTurnLogsIn | backend/vault/vault.go:150-164 | a capped run whose timer is late enough for the token to expire logs in again |
| TokenFate.ReportUnderWay | backend/vault/vault.go:134-142 | a report sent before the last second but acted on in it need not be doomed |
| TokenFate.TurnTakesItsSleep | backend/vault/vault.go:140-148 | from one report to the next at least three quarters of the reported lifetime passes |
| TokenFate.DoomedForever | backend/vault/vault.go:123-138 | a doomed loop never renews again and its token's expiry never changes |
| TokenFate.RecoverableIff | backend/vault/vault.go:121-212 | for a static token and for a fresh login: a live token that outlives the one in use can be reached exactly from the states that are not doomed |
| TokenFate.LookupOutageIff | backend/vault/vault.go:122-132 | for either way of authenticating, an outage in which no lookup is answered can be survived exactly while the loop is not cancelled and its next lookup comes with a whole second of the token left |
| TokenFate.LongOutage | backend/vault/vault.go:122-138 | once the outage has lasted longer no renewal and no login ever follows, even if Vault answers again, and the expiry stays |
| TokenFate.OutageRun | backend/vault/vault.go:123-132 | from every lookup, with timers on time, failed lookups alone lead to an expired token and a doomed loop |
| EnclaveInit.InitPort.ReceiveInit | enclave/main.go:99-127 | the first connection that decodes wins and stays open, earlier ones are closed, the listener is closed on every return after Listen |
| InitRetry.SendInitWithRetry | backend/awsnitro/awsnitro.go:146-160 | it terminates; an attempt is made exactly while the deadline has not passed when its turn comes, so at most ceil(timeout / 500 ms) and at least one unless the deadline passed first; success is the last attempt's reply with all earlier ones failed |
| InitRetry.SixtyAttempts | backend/awsnitro/awsnitro.go:89 | New's thirty seconds allow at most sixty attempts |
| InitRetry.SixtyWhenInstant | backend/awsnitro/awsnitro.go:146-160 | sixty are made when every attempt fails at once and every timer is on time |
| RunningCheck.AnswersPrefix | backend/awsnitro/awsnitro.go:137-144 | the substring test is true exactly when some running CID's decimal text begins with the one asked for; it never misses a running one |
| RunningCheck.AnswersTruncation | backend/awsnitro/awsnitro.go:137-144 | in numbers: true exactly when some running CID is the one asked for, or becomes it by dropping last digits |
| RunningCheck.DecimalReads | backend/awsnitro/awsnitro.go:143 | the decimal text of a CID is read back as that number and has no leading zero |
| RunningCheck.FalsePositive | backend/awsnitro/awsnitro.go:143 | asked for 1 with only 16 running, it answers true |
| NitroProtocol.InvNext | enclave/main.go:52-97 | every step of enclave, host or network keeps the protocol invariant |
| NitroProtocol.PortInvariant | enclave/main.go:99-127 | one init message at most; the ports are never open together; an open 5000 means a valid scalar is held and stays open while the enclave lives |
| NitroProtocol.Agreement | backend/awsnitro/awsnitro.go:40-102 | any two New calls that succeed cache the same 48 bytes, and at most one got them through the init port |
| NitroProtocol.InitWinner | backend/awsnitro/awsnitro.go:83-93 | a call that succeeded through init dialled the one connection ever decoded |
| NitroProtocol.CachedKey | backend/awsnitro/awsnitro.go:95-98 | a cached key is the public key of the valid scalar the enclave holds |
| NitroProtocol.AnswersUnderAgreedKey | enclave/main.go:193-243 | every request ever answered is answered under the scalar whose public key was cached |
| NitroProtocol.ReceiveInitInRun | enclave/main.go:99-127 | in every run what ReceiveInit returns for the connections that arrived is the single decoded connection and the message sent on it |
| NitroProtocol.LastAttemptWins | backend/awsnitro/awsnitro.go:146-187 | a call that succeeds through init succeeds with its last attempt, never dials again, and that attempt is the only one ever accepted |
| NitroProtocol.StrandedInit | backend/awsnitro/awsnitro.go:74-93 | a New call whose probe misses port 5000 after init was consumed never succeeds in that enclave lifetime |
| NitroProtocol.RetryCanSucceedIff | backend/awsnitro/awsnitro.go:147-187 | a call in its retry loop, between attempts or waiting for a reply, can still succeed exactly when no init message was consumed and the enclave is not dead, or its own connection is the one being worked on or answered with the key |
| NitroReconnect.FetchCanSucceedIff | backend/awsnitro/awsnitro.go:50-82 | from every reachable state and however far a New call has come, it can end with the enclave's public key fetched, never dialling the init port, exactly when: the enclave is not dead (up to the probe), was never launched (about to launch it), serves (once the probe found it), or has answered already |
| NitroReconnect.NewCanSucceedIff | backend/awsnitro/awsnitro.go:40-102 | a New call can still succeed exactly when it can still fetch the key or can still get it through init |
| NitroReconnect.RestartReconnects | backend/awsnitro/awsnitro.go:51-82 | after a host with a cached key crashes next to a serving enclave, a new call can end with the same key and no second init |
| NitroReconnect.FoundNeverInits | backend/awsnitro/awsnitro.go:74-82 | over any run, a call whose probe found port 5000 never dials the init port afterwards, whatever it is answered |
| NitroReconnect.LeavesRetryLoopIff | backend/awsnitro/awsnitro.go:150-187 | a call leaves its retry loop exactly by reading a reply without an error, giving up or crashing |
| NitroReconnect.ClientServedIff | enclave/main.go:193-243 | a client of any request, that has dialled or not, can get the answer owed to it exactly when it has it or the enclave is not dead |
| NitroReconnect.DialsGetThrough | enclave/main.go:99-127 | in every run an init dial gets through only before any init message was consumed, and a signing dial only to an enclave serving under a valid scalar |
| NitroReconnect.DeadIff | enclave/main.go:60-97 | the enclave is dead exactly when it was killed, could not listen or accept, or decrypted no valid scalar; then both ports are closed |
| NitroReconnect.TriedOnce | enclave/main.go:108-121 | the accept loop never reads from one connection twice |
| NitroReconnect.DecodedWasSent | enclave/main.go:114-125 | in every run the message ReceiveInit returns was sent, unchanged, on the connection it was decoded from |
| Keytool.World.WriteFile | keytool/keytool.go:279-285 | truncates, then grows the file byte by byte, and reports success exactly when all bytes are written and the file closes |
| Keytool.World.Overwrite | keytool/keytool.go:300-304 | zeroes the file from the front, one byte per step, as far as the write gets |
| Keytool.World.SecureDelete | keytool/keytool.go:287-311 | overwrites with zeros byte by byte, then removes; success exactly when every step worked |
| Keytool.World.Migrate | keytool/keytool.go:113-159 | the command goes through exactly the disk and Vault states of MigrateRun and returns its result |
| Keytool.World.Generate | keytool/keytool.go:58-80 | likewise for generate |
| Keytool.MigrateSucceedsIff | keytool/keytool.go:113-159 | migrate prints the public key exactly when the input is readable and valid and each call on the way works: for a KMS encryption, the write and, if asked, the five steps of wiping what is then at the input path; for Vault a free name, the exchange and the wiping; otherwise it fails |
| Keytool.GenerateSucceedsIff | keytool/keytool.go:58-80 | generate prints the public key of the generated scalar exactly when every call works |
| Keytool.WipedFirst | keytool/keytool.go:287-311 | in any wiping the k-th state has the first k bytes zero; the file goes only after a state in which it is all zeros, and is still there when the wiping fails |
| Keytool.KmsCrashStates | keytool/keytool.go:139-158 | every state a crash can leave: the output a prefix of the blob with the input untouched, then the blob whole with the input zeroed from the front or gone; nothing else changes |
| Keytool.VaultCrashStates | keytool/keytool.go:125-137 | every state a crash can leave: the input untouched until Vault holds the key, then zeroed from the front or gone |
| Keytool.GenerateCrashStates | keytool/keytool.go:64-79 | every state a crash can leave: only the output has changed, to a prefix of the blob |
| Keytool.NoKeyLossIff | keytool/keytool.go:113-159 | whatever fails and wherever the process dies the key is recoverable, exactly when the target is Vault, the files differ, or the output is never opened; for Vault as long as no other writer of that name is mid-request |
| Keytool.VaultMigrateNoKeyLossIff | keytool/keytool.go:125-137 | migrating into Vault with delete-input, the wiping interleaved with other requests in any way, keeps the key somewhere at every moment exactly when every writer of that name that read before the import wrote, and writes after it, stores the same scalar |
| Keytool.VaultMigrateCanLose | keytool/keytool.go:125-137 | for any two keys, a run in which the import reports success and the key ends up nowhere |
| Keytool.EqualPathsIff | keytool/keytool.go:149-157 | with equal paths a run that reports success leaves the key recoverable exactly when it need not delete the input |
| Keytool.ImportHolds | keytool/keytool.go:187-213 | a successful vault import leaves the scalar in Vault and returns its public key |
| Keytool.MigrateThenServe | keytool/keytool.go:139-158 | a successful migration touches only the two files, and a backend started from the blob holds the scalar and the printed public key |
| Keytool.GenerateThenServe | keytool/keytool.go:64-79 | a backend started from a generated blob holds the generated scalar and the printed public key |
| Keytool.VaultMigrateThenServe | keytool/keytool.go:125-137 | a Vault backend whose settings lead to the same mount and name caches the public key migrate printed; "" and "bls" are one mount |
| Keytool.VaultGenerateThenServe | keytool/keytool.go:161-185 | likewise for the public key generate printed |
| Shutdown.InvNext | main/main.go:95-109 | every step but a failing Serve keeps the key whole until nothing runs |
| Shutdown.DrainBeforeZeroing | signerserver/signerserver.go:66-89 | in runs ended by cancellation every reply is the one owed under the original scalar, and at the end the key is gone and no request is unanswered |
| Shutdown.ServingIff | signerserver/signerserver.go:77-88 | over all runs the server is serving exactly until it is cancelled or Serve fails |
| Shutdown.ShutdownCompletes | signerserver/signerserver.go:77-88 | from every state of a run without a failing Serve the shutdown can be completed: cancelled unless it was, every accepted request answered as owed, the key zeroed through every prefix, Close returned |
| Shutdown.NewRequestServedIff | signerserver/signerserver.go:66-89 | a request still to come can get the reply owed to it exactly while ListenAndServe has not returned |
| Shutdown.MixedKeyIff | signerserver/signerserver.go:84-88 | over all runs, a failing Serve included, a request can be signed under another valid key exactly when the key has two nonzero bytes |
| Shutdown.OnlyErrorExitMixes | signerserver/signerserver.go:77-88 | that happens only in runs in which Serve fails |
| Shutdown.ErrorExitCanRefuse | main/main.go:95-109 | for every key and message some run in which Serve fails refuses the signature that is owed |

## Left out

- BLS curve arithmetic, key derivation and randomness: foreign code, uninterpreted; the nil checks after its calls on a valid key cannot fire and are not modelled.
- `backend/gcpkms`, `backend/azurekv`: the same load, sign and zero pattern as `backend/awskms`.
- Configuration files, flag merging, cobra commands, logging, error texts, generated protobuf code: independent overrides and glue; resolved settings are parameters.
- Authentication exchanges of `backend/vault`: a login is an outcome with the expiry of the token it sets, which for a static token is the old one.
- Tokens that never expire: the loop returns for them at once; the model's tokens all have an expiry.
- Vault's path patterns, storage prefix and permissions; HTTP, vsock and SDK transports are outcomes.
- JSON syntax: objects are records with optional fields; the base64 reader does not skip line breaks, which its writer never produces.
- Power loss: `writeFile` does not sync its output, so the crash results cover process crashes only.
- Requests accepted after Serve has failed: the error exit is followed for requests that were in flight.
- An enclave replaced by another image under the same CID: results are per enclave lifetime.
- `waitForPort`: not called by the code around it.
- ListenAndServe, serveCmd, and enclave `main` and `serve` run as steps of state machines, not as loops: their interleaving is the point; fields updated in place by them are components of the state.
- Allocation of connections, the accept loop's goroutines and the deferred `zeroize` in the enclave, which never runs while it serves.
