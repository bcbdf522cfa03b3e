# Me2eM protocol: a verified model

Me2eM derives identities, handles and sub-handles from one seed, lets each level
attest the next one, opens end-to-end encrypted channels between them, and ships
the wallet and user-interface logic that sits on top. This project models the
protocol logic of those packages in Dafny and proves what the protocol is for.
`dafny verify dfyconfig.toml` checks all of it.

Cryptographic primitives are ideal. HKDF (section 2 of RFC 5869), SHA-256,
HMAC and the public-key functions are free constructors: a buffer holds symbolic
bytes, and byte i of an output names the primitive, its whole input and i.
Ed25519 signatures (RFC 8032) verify exactly when the key's holder made them,
AES-GCM opens exactly what was sealed under the same key and iv, and X25519
(section 6.1 of RFC 7748) commutes. A salt enters HKDF as the HMAC key it
amounts to (section 2 of RFC 2104), so trailing zero bytes of a short salt do
not count. JSON and base64url (section 5 of RFC 4648)
are inverse pairs. Clocks, random words, generated keys, ids and the points at
which the platform throws are inputs.

## How it is organised

| part | modules |
|---|---|
| shared ground | `Basics`, `Primitives`, `Decimals`, `Errors` |
| channels | `ChannelSpec` (one step on values), `ChannelCalls` (success and errors of one call), `ChannelTheorems`, `ChannelReplay`, `ChannelDelivery`, `ForwardSecrecy` (theorems over runs), `Channels` (the registry on the heap, proved against `ChannelSpec`) |
| names and keys | `Names`, `DerivationPaths`, `Keys`, `PeerSecret`, `Entities` |
| attestations and sessions | `Json`, `Tokens`, `Attestation`, `Issuers`, `Session`, `SessionTheorems`, `SessionErrors` |
| X3DH and envelopes | `X3dh`, `Envelopes` |
| combinatorics | `RandomInt`, `FisherYates`, `Draws` (several draws in a row, and how many words lead to each result), `CharacterClasses`, `Password`, `SeedWords`, `VerifyFlow` |
| paths, allocation, ownership | `Slip10`, `WalletTree`, `AdapterRegistry`, `IdentityProvider` |

Code that updates state in place is modelled by classes and methods (channel
store, identities, wallet tree, adapter registry, React provider, X3DH buffers);
each method is proved against a function or step of a state machine on values,
and the theorems about whole runs are lemmas about that machine.

## Where the code is weaker than its text, and what holds instead

- `verifyAttested` never compares a Handle session's `hNm` with the attested
  name. `SessionTheorems.ClaimedNameExample` is a session on which the two
  verifiers differ; `SessionTheorems.HandleSessionAgreement` gives the exact
  condition under which they agree.
- `Attestation.issue` neither requires exp > iat nor bounds the payload, so it
  can issue tokens that `decode` refuses: `Attestation.UndecodableExample`.
  `Attestation.IssuedDecodes` gives the exact condition on its options.
- The comments of `protocol.ts` promise wiping on all exit paths. A key
  conversion that throws before the try block leaves the ephemeral key, or the
  converted identity key, behind; `X3dh.InitiateX3DH` and `X3dh.CompleteX3DH`
  say exactly when, and bound what is left. Likewise a failing digest in `establishChannel` leaves the
  derived root behind (`Channels.ChannelStore.EstablishChannel`).
- Channels established with one secret and salts that differ in trailing zero
  bytes have different ids and the same roots
  (`ChannelDelivery.PaddedSaltsShareRoots`); `ChannelDelivery.Lockstep` is exact.
- The comment on `p2pChannelV2` says the peer keys are appended to the info
  string; the code puts them into the HKDF salt, and so does the model.
- A disposer of `registerWalletAdapter` "never removes someone else's adapter"
  only while no object is registered twice:
  `AdapterRegistry.RegisteredTwice` is a run where it does, and
  `AdapterRegistry.DisposeFaithful` gives the exact condition.
- A token whose payload is the JSON text `null` makes `decode` and the session
  parser throw a TypeError instead of the documented error; every other bad token
  is malformed (`Attestation.DecodeExactly`, `SessionTheorems.ParseExactly`).
- `verify-flow.ts` compares cells, not words. Clicking the two cells of a
  repeated word in the other order spells the phrase and is rejected
  (`VerifyFlow.RepeatedWordOrderMatters`); what is checked is spelling exactly
  when the phrase repeats no word (`VerifyFlow.ChecksSpellingExactly`).
- Sequence and epoch numbers enter the message key modulo 2^32, so a relabelling
  by a multiple of 2^32 opens (`ChannelDelivery.RelabelledByWraparound`);
  `ChannelDelivery.DecryptsExactly` states acceptance with that in view.

## Model

| member | source | states |
|---|---|---|
| ChannelCalls.SucceedsExactly | packages/crypto/src/channels/establish.ts:62-116 | each of the five calls succeeds exactly under its conditions: a 32-byte secret, a live channel, a number of at least 0, the right epoch, an unseen number, a ciphertext that opens, and no throw of the platform |
| ChannelCalls.ErrorIsTrue | packages/crypto/src/channels/message-keys.ts:90-193 | every error that a call reports is true of the channel and the arguments |
| ChannelCalls.BornLive | packages/crypto/src/channels/establish.ts:93-116 | establishing and rotating yield a live channel: of epoch 0, in the given role, with id and root of secret and salt, or one epoch on, in role, id and lineage of its predecessor |
| ChannelCalls.FreshIvFreshCiphertext | packages/crypto/src/channels/message-keys.ts:68-115 | encrypting the same under two ivs gives equal ciphertexts exactly when the ivs are equal |
| ChannelDelivery.EndpointsTalk | packages/crypto/src/channels/establish.ts:62-116 | two endpoints that establish with one 32-byte secret and one salt, in any roles, and rotate n times: whatever one encrypts under a number of at least 0 carries its epoch, number and iv, and decrypts at the other |
| ChannelTheorems.RunSafety | packages/crypto/src/channels/rotate.ts:39-87 | over every run of calls from the empty store, a lineage's older channels are dead, its epochs strictly increase, channelId and role are kept and are those of establishing, a live root is the one its secret, salt and epoch determine, and windows hold at most 1000 distinct numbers |
| ChannelTheorems.AtMostOneLive | packages/crypto/src/channels/state.ts:48-75 | two live channels of one lineage are the same channel |
| ChannelTheorems.EpochCountsRotations | packages/crypto/src/channels/rotate.ts:42-53 | in every run a channel's epoch equals the number of channels before it in its lineage |
| ChannelTheorems.StepFrame | packages/crypto/src/channels/rotate.ts:39-87 | one call leaves siblings alone, a failed call changes nothing unless the hand-off of a rotation threw, and no call rewrites the public fields of a channel |
| ChannelTheorems.DeadForever | packages/crypto/src/channels/state.ts:48-66 | a dead channel stays dead and every later call on it fails with an invalid-key error |
| ChannelTheorems.KilledForGood | packages/crypto/src/channels/destroy.ts:45-50 | once a live channel is destroyed, or rotated without a derivation failure, every later call on it in any run fails with an invalid-key error |
| ChannelTheorems.MessageKeyInjective | packages/crypto/src/channels/message-keys.ts:35-65 | a message key determines the root, and epoch and sequence modulo 2^32 |
| ChannelTheorems.RootInjective | packages/crypto/src/channels/rotate.ts:42-53 | roots after n and m rotations are equal exactly for equal secrets, salts that make the same HMAC key, and n = m |
| ChannelTheorems.ChannelIdInjective | packages/crypto/src/channels/establish.ts:74-95 | the channel id determines the 32-byte secret and the salt |
| ChannelReplay.WindowIsLastAccepted | packages/crypto/src/channels/message-keys.ts:149-193 | in every run a live channel's window is its last min(n, 1000) accepted sequence numbers, oldest first |
| ChannelReplay.ReplayGap | packages/crypto/src/channels/message-keys.ts:149-193 | between two successful decrypts of one sequence number on one channel lie at least 1000 successful decrypts of pairwise distinct other numbers |
| ChannelReplay.AcceptanceCondition | packages/crypto/src/channels/message-keys.ts:149-193 | a decrypt succeeds exactly when the epoch is the channel's, the number is not among the last 1000 accepted, and the ciphertext opens under its message key |
| ChannelDelivery.Lockstep | packages/crypto/src/channels/establish.ts:62-116 | live channels of any two runs share a root exactly when secret, HMAC key of the salt and epoch agree, and a channel id exactly when secret and salt do |
| ChannelDelivery.DecryptsExactly | packages/crypto/src/channels/message-keys.ts:90-193 | a sent ciphertext under any label is accepted exactly by an endpoint with the same roots and epoch, under the receiver's epoch label and an unseen number congruent to the sender's modulo 2^32; it then yields the plaintext |
| ChannelDelivery.RelabelledByWraparound | packages/crypto/src/channels/message-keys.ts:35-65 | a concrete message sent with sequence 5 opens a second time with sequence 5 + 2^32 |
| ChannelDelivery.PaddedSaltsShareRoots | packages/crypto/src/channels/establish.ts:74-80 | two concrete channels with different ids, whose salts differ in a final zero byte, read each other's messages |
| ChannelDelivery.SentIsAuthentic | packages/crypto/src/channels/message-keys.ts:90-115 | what one endpoint encrypts is authentic for the other whenever both have the same roots and epoch |
| ChannelDelivery.EveryGenuineMessageArrives | packages/crypto/src/channels/message-keys.ts:149-193 | genuine messages with distinct unseen numbers, in any order among any forgeries, all decrypt to what was sealed, and every forgery fails |
| ForwardSecrecy.EarlierEpochsStaySecret | packages/crypto/src/channels/rotate.ts:16-24 | whoever obtains any bytes but those of the epochs up to n, and applies HKDF to known bytes in any way and any number of times, learns a byte of a root or message key of those epochs only with the whole channel secret |
| ForwardSecrecy.CompromisedRoot | packages/crypto/src/channels/rotate.ts:39-87 | in every run this holds of whoever takes the root of a live channel that has been rotated, for all its earlier epochs |
| ForwardSecrecy.MessageKeyIsEarlier | packages/crypto/src/channels/message-keys.ts:35-65 | every byte of a message key of an epoch up to n counts as one of the earlier epochs |
| ForwardSecrecy.NextRootIsNotEarlier | packages/crypto/src/channels/rotate.ts:42-53 | no byte of the root that rotation n + 1 makes belongs to the epochs up to n |
| Channels.DeriveMessageKey | packages/crypto/src/channels/message-keys.ts:35-65 | returns the message key of root, epoch and sequence; whether or not the import throws, every buffer the call made is zero afterwards |
| Channels.ChannelStore.GetInternals | packages/crypto/src/channels/state.ts:48-66 | an unbranded value, a forgotten channel and a live channel are told apart as the state machine does |
| Channels.ChannelStore.EstablishChannel | packages/crypto/src/channels/establish.ts:62-116 | is the establish step; of the buffers the call made only the stored root is not zero, or, when the digest throws, the root derived before it; the caller's secret is untouched |
| Channels.ChannelStore.EncryptChannelMessage | packages/crypto/src/channels/message-keys.ts:90-115 | is the encrypt step, changes nothing and leaves no buffer that is not zero |
| Channels.ChannelStore.DecryptChannelMessage | packages/crypto/src/channels/message-keys.ts:149-193 | is the decrypt step: only the window of this channel changes, and only on success; no buffer that is not zero is left |
| Channels.ChannelStore.RotateChannel | packages/crypto/src/channels/rotate.ts:39-87 | is the rotate step on the heap: the buffer that held the old root is zero, the new channel owns the only new buffer that is not zero, and there is none when the hand-off throws |
| Channels.ChannelStore.DestroyChannel | packages/crypto/src/channels/destroy.ts:45-50 | is the destroy step: the root buffer of the channel is zero, its window is empty, its entry is gone |
| Channels.RunCalls | packages/crypto/src/channels/state.ts:40-75 | after any run on a new store the heap holds exactly what the state machine says and no two channels share a root buffer or window |
| Channels.Continue | packages/crypto/src/channels/state.ts:40-75 | over any run from any valid store, the very buffer that held the root of a then live channel is zero if the run killed the channel |
| DerivationPaths.InfoInjective | packages/core/src/crypto/derivation-paths.ts:23-91 | over all canonical arguments two info strings are equal exactly when family and arguments are |
| PeerSecret.CompareKeys | packages/core/src/handle.ts:515-520 | the comparator's loop computes the difference at the first differing position |
| PeerSecret.BindPeers | packages/core/src/handle.ts:514-523 | the 64-byte buffer holds both keys in sorted order |
| PeerSecret.SaltIsUnorderedPair | packages/core/src/handle.ts:513-523 | the salt is the same from both sides and determines the unordered pair of public keys |
| PeerSecret.PeersAgree | packages/core/src/handle.ts:496-529 | both peers derive the same shared secret |
| PeerSecret.SecretBindsPeers | packages/core/src/handle.ts:496-529 | two shared secrets are equal exactly when the Diffie-Hellman outputs are equal and both were derived for the same unordered pair of public keys |
| Names.NamePatternExactly | packages/core/src/canonical-name.ts:5 | a canonical name has 1 to 63 characters, all from one list of 40, and starts with a letter or a digit |
| Keys.KeyTreeInjective | packages/core/src/crypto/derivation.ts:31-90 | the keys of identities, handles and sub-handles below any seeds are equal exactly at the same place below the same seed |
| Keys.PublicKeysDiffer | packages/core/src/identity.ts:68-80 | so are their public keys: identities, handles and sub-handles of different seeds never share one |
| Keys.DerivedHandle | packages/core/src/crypto/derivation.ts:52-60 | deriving a handle from a seed succeeds exactly for names that normalize and yields the key at that name's place |
| Keys.DerivedFromHandle | packages/core/src/handle.ts:335-344 | a handle derives a sub-handle exactly for names that normalize, and a sub-handle none |
| Keys.OneStepIsTwoSteps | packages/core/src/identity.ts:137-156 | deriving a sub-handle at once equals deriving the handle and then the sub-handle, errors included |
| Keys.DerivedSubHandle | packages/core/src/crypto/derivation.ts:52-90 | derivation succeeds exactly for names that normalize, with the key and path of the normalized names |
| Keys.SubHandleKeysIsolated | packages/core/src/handle.ts:335-344 | sub-handle keys are equal exactly for equal root key and equal normalized names |
| Entities.Identity.FromSeed | packages/core/src/identity.ts:68-80 | an identity over the root key of a 64-byte seed, with a buffer of its own, and an error for any other length |
| Entities.Identity.DeriveHandle | packages/core/src/identity.ts:100-107 | derives what the key determines, and fails once disposed |
| Entities.Identity.AttestHandle | packages/core/src/identity.ts:200-219 | attests the handle it derived itself, and fails once disposed |
| Entities.Identity.Dispose | packages/core/src/identity.ts:268-273 | the key buffer is zero afterwards, the public key is kept, and a second call does nothing |
| Entities.Handle.DeriveSubHandle | packages/core/src/handle.ts:335-344 | a sub-handle is a leaf, a disposed handle fails, and otherwise the derivation is that of the handle's key and name |
| Entities.Handle.AttestSubHandle | packages/core/src/handle.ts:370-389 | attests the sub-handle it derived itself, and fails once disposed |
| Entities.Handle.SignBody | packages/core/src/handle.ts:220-223 | signs with the handle's key, and fails once disposed |
| Entities.Handle.Dispose | packages/core/src/handle.ts:545-549 | the key buffer is zero afterwards |
| Attestation.ReadExactly | packages/core/src/attestation.ts:287-366 | for all JSON: it reads as a payload exactly when every known field has the type and value that the payload gives it, absent ones being absent, and the payload is well formed |
| Attestation.DecodeExactly | packages/core/src/attestation.ts:287-366 | a token decodes exactly when it has two parts, the first within the limit and JSON that describes a well-formed payload; any other is malformed, but for a TypeError on null |
| Attestation.IssueExactly | packages/core/src/attestation.ts:465-565 | an attestation is issued exactly for a name that normalizes, a positive session TTL, patterns with stars only at their ends, an id of 1 to 256 characters if one is given, and an allowed wallet; every refusal is malformed |
| Issuers.AttestHandleExactly | packages/core/src/identity.ts:200-219 | attestHandle succeeds exactly under these conditions and attests the normalized name with the derived public key |
| Issuers.AttestSubHandleExactly | packages/core/src/handle.ts:370-389 | so does attestSubHandle, by a handle and never by a sub-handle |
| Attestation.PayloadRoundTrip | packages/core/src/attestation.ts:287-366 | the structural checks give a printed payload back exactly when its TTL is positive, iat < exp and the jti has 1 to 256 characters |
| Attestation.MatchMeansPermitted | packages/core/src/attestation.ts:406-416 | the matching loop accepts a name exactly when some pattern is the name itself or a prefix of it followed by a star |
| Attestation.ValidateWalletOpts | packages/core/src/attestation.ts:149-223 | wallet fields are accepted, unchanged, exactly when they are paired, free of white space, on a valid chain, and not refused by its adapter |
| Attestation.IssuedDecodes | packages/core/src/attestation.ts:465-565 | an issued token is signed by the issuer, carries the normalized name, the given subject, grant, times and id, and decodes to its own payload exactly when its text fits, the lifetime in the options is positive, and a generated id has 1 to 256 characters |
| Attestation.UndecodableExample | packages/core/src/attestation.ts:465-565 | a concrete attestation with a lifetime of zero seconds is issued and does not decode |
| SessionTheorems.ParseExactly | packages/core/src/session.ts:291-386 | for all tokens: one parses exactly when it has two parts, the first within the limit and JSON that describes a well-formed session; any other is malformed, but for a TypeError on null |
| SessionTheorems.SessionRoundTrip | packages/core/src/session.ts:291-386 | the parser gives a printed session payload back exactly when its strings are not empty and iat < exp |
| SessionTheorems.SubSessionExactly | packages/core/src/session.ts:543-636 | for tokens that decode, a SubHandle session is accepted exactly when the whole chain of signatures, names, grants, validity windows and revocations holds |
| SessionTheorems.HandleSessionExactly | packages/core/src/session.ts:543-636 | the same for a Handle session with its one attestation |
| SessionTheorems.RootAttestationExactly | packages/core/src/session.ts:673-710 | the root stage returns an attestation exactly when it decodes, the root key signed it, the clock is in its window and it is not revoked |
| SessionTheorems.HandleAttestationExactly | packages/core/src/session.ts:721-802 | the second stage accepts exactly under A's signature, matching path and subject, a permitted name, and nested scopes and TTL |
| SessionTheorems.GrantCheckExactly | packages/core/src/session.ts:808-836 | the grant stage passes exactly when scopes, audience, duration and expiry lie within the grant |
| SessionTheorems.AcceptedShape | packages/core/src/session.ts:647-666 | whatever is accepted parses, comes with one or two decodable attestations as its path demands, and is returned as claimed |
| SessionTheorems.SubSessionSoundness | packages/core/src/session.ts:543-636 | behind an accepted SubHandle session stand a root, a handle and a sub-handle key that each signed the next link, with scopes, TTL, audience and expiry attenuated along the chain |
| SessionTheorems.ClockAndRevocationsDecide | packages/core/src/session.ts:562-568 | for inputs accepted once, acceptance at any clock value and revocation set holds exactly on the closed interval from the latest iat − 30 to the earliest exp + 30 and when the set avoids every jti |
| SessionTheorems.RevokedAttestationRejectsAll | packages/core/src/session.ts:701-707 | no session is accepted through a chain that holds a revoked attestation |
| SessionTheorems.RevokedSessionReportedLast | packages/core/src/session.ts:617-623 | a session is reported as revoked exactly when it is revoked, no link is, and it would be accepted without a revocation store |
| SessionTheorems.CreateExactly | packages/core/src/handle.ts:834-888 | a session is created exactly for a positive whole ttl and, by a sub-handle, within its audiences, scopes, maximal ttl and expiry |
| SessionTheorems.CreatedParses | packages/core/src/session.ts:236-289 | a created session's token is signed by the handle's key and parses to the payload it was created from |
| SessionTheorems.HonestSubSessionAccepted | packages/core/src/session.ts:236-289 | for names that normalize, grants and options that can be issued and decoded, nested grants, a permitted name and a session within the grant: both attestations are issued, the session is created, and it is accepted at every clock value inside all windows |
| SessionTheorems.HonestSessionAcceptedStateless | packages/core/src/session.ts:423-492 | for names that normalize and a positive whole ttl within the local constraints, handles and sub-handles are derived, create the session, and the verifier that holds the identity accepts it |
| SessionTheorems.StatelessExactly | packages/core/src/session.ts:423-492 | the identity verifier accepts exactly a session addressed here, in time, not revoked, and signed by the very key that its claimed names lead to and that it names as hId |
| SessionTheorems.SubSessionAgreement | packages/core/src/session.ts:423-492 | when keys sign attestations only through attestHandle and attestSubHandle, a SubHandle session accepted by the chain verifier gets the same result from the identity verifier |
| SessionTheorems.HandleSessionAgreement | packages/core/src/session.ts:423-492 | for an accepted Handle session the identity verifier accepts exactly when the claimed name normalizes to the attested one |
| SessionTheorems.ClaimedNameExample | packages/core/src/session.ts:543-636 | a concrete Handle session that claims another name: accepted with the chain, rejected with the identity |
| SessionErrors.HandleErrorIsTrue | packages/core/src/session.ts:721-802 | an error of the second stage names the level at fault, and what it says of names, path, subject, scopes, TTL, time, signature or revocation is true |
| SessionErrors.SessionErrorIsTrue | packages/core/src/session.ts:543-636 | every error of verifyAttested on a session that parses is true: of the session when it blames the session, and otherwise of the chain's length, the link at fault, the grant or the subject key |
| SessionErrors.StatelessErrorIsTrue | packages/core/src/session.ts:423-492 | every error of the identity verifier on a session that parses is true of audience, time, claimed names, signature, key or revocation |
| SessionErrors.CreateErrorIsTrue | packages/core/src/handle.ts:834-888 | every error of creation names a ttl that is no positive whole number, or the local constraint exceeded |
| X3dh.SidesAgreeExactly | packages/crypto/src/x3dh/protocol.ts:154-320 | the two differently written computations agree exactly when the recipient's private keys belong to the public keys of the bundle |
| X3dh.InitiateExactly | packages/crypto/src/x3dh/protocol.ts:154-220 | the initiator succeeds exactly for a bundle with a one-time key whose signed pre-key the holder of its identity key has signed, 32-byte keys and no throw; VERIFICATION_FAILED is reported exactly for an unsigned pre-key, INVALID_ARGUMENT exactly for a signed bundle without one-time key |
| X3dh.InitiatorSecretExactly | packages/crypto/src/x3dh/protocol.ts:196-211 | two secrets are equal exactly when all four Diffie-Hellman outputs are |
| X3dh.CompleteExactly | packages/crypto/src/x3dh/protocol.ts:269-320 | the recipient succeeds exactly with a one-time key, 32-byte keys and no throw |
| X3dh.InitiateX3DH | packages/crypto/src/x3dh/protocol.ts:154-220 | result and error as the first failing check or DH dictates; every buffer the call made is zero on every exit except the returned secret; exactly when a key conversion throws before the try block the ephemeral key survives, and beside it nothing but the converted identity key, when the second conversion throws |
| X3dh.CompleteX3DH | packages/crypto/src/x3dh/protocol.ts:269-320 | the mirror result; every buffer the call made is zero except the returned secret; exactly when the second conversion throws the converted key survives, and nothing else; the one-time key is zeroed exactly when its DH returned, and no other buffer of the caller changes |
| X3dh.RecipientTry | packages/crypto/src/x3dh/protocol.ts:290-320 | the try block in DH order: its variables hold the DH outputs and the IKM as far as it came, and the one-time key is consumed exactly when DH4 returned |
| Envelopes.WrapExactly | packages/crypto/src/envelopes/key-wrapping.ts:81-121 | wrapping succeeds exactly for a 32-byte key, a successful X3DH and no later throw, refuses exactly unsigned pre-keys as such, and yields an envelope that names sender, ephemeral key and one-time key |
| Envelopes.UnwrapExactly | packages/crypto/src/envelopes/key-wrapping.ts:152-185 | for any envelope: it opens exactly in version 1, with 32-byte keys and a one-time key, when sealed under the key that the recipient's side of X3DH yields |
| Envelopes.WrapKeyForRecipient | packages/crypto/src/envelopes/key-wrapping.ts:81-121 | outcome of wrapping; on every exit every buffer made by the call and the X3DH below it is zero, shared secret and wrapping key included, but for the early throw of X3DH |
| Envelopes.UnwrapKeyForMe | packages/crypto/src/envelopes/key-wrapping.ts:152-185 | outcome of unwrapping; on every exit every buffer made is zero, with the same exception, and the one-time key is zeroed exactly when consumed |
| Envelopes.UnwrapInvertsWrap | packages/crypto/src/envelopes/key-wrapping.ts:81-185 | unwrapping returns the wrapped key exactly with private keys of the bundle's three public keys, the same info and a salt with the same HMAC key, and fails to decrypt otherwise; the envelope names the one-time public key it needs |
| Envelopes.OneTimeKeyWorksOnce | packages/crypto/src/x3dh/protocol.ts:236-242 | the zeroed one-time key no longer opens the envelope it opened before, unless its public key was that of the zero key |
| RandomInt.RandomIntBelow | packages/crypto/src/validation/password.ts:297-304 | returns the first accepted word modulo n, having rejected exactly the words before it, and says where the next draw starts |
| RandomInt.Uniform | packages/crypto/src/validation/password.ts:297-304 | every residue has exactly floor((2^32 − 1)/n) accepted words |
| RandomInt.TailIsShort | packages/crypto/src/validation/password.ts:297-304 | between 1 and n words are rejected, at least n and at least half of all words are accepted |
| FisherYates.ShufflePermutes | packages/crypto/src/validation/password.ts:354-363 | for any items the result is a permutation |
| FisherYates.ShuffleBijective | packages/crypto/src/validation/password.ts:354-363 | for distinct items every permutation comes from exactly one vector of choices |
| Draws.AcceptedWordsDecide | packages/crypto/src/validation/password.ts:297-304 | the results of a row of draws are those of the words it accepted, and these alone yield the same results without a rejection |
| Draws.VectorsExactly | packages/crypto/src/validation/password.ts:297-304 | a vector with one word per draw yields given residues exactly when each word is accepted and leaves its residue |
| Draws.VectorsCount | packages/crypto/src/validation/password.ts:297-304 | every choice of residues comes from the same number of such vectors, the product of floor((2^32 − 1)/n) over the limits n |
| Draws.ShuffleUniform | packages/crypto/src/validation/password.ts:354-363 | every order of distinct items is what the drawn shuffle makes of exactly that many vectors of accepted words |
| CharacterClasses.ClassExactly | packages/crypto/src/validation/password.ts:328-332 | a class holds exactly its characters, by character code |
| CharacterClasses.AlphabetDistinct | packages/crypto/src/validation/password.ts:328-332 | the alphabet holds 88 characters, no two of them equal |
| Password.ShuffleDrawn | packages/crypto/src/validation/password.ts:354-365 | the in-place loop is the shuffle for exactly the choices that the random words determine |
| Password.GenerateSecurePassword | packages/crypto/src/validation/password.ts:325-366 | exactly the password that the random words determine: max(length, 8) characters of the alphabet, at least two of every class, shuffled from a string that starts with the guaranteed ones |
| Password.GeneratedExactly | packages/crypto/src/validation/password.ts:325-366 | the passwords that some stream of random words leads to are exactly those of the given size over the alphabet with at least two characters of every class |
| Password.CombinationsUniform | packages/crypto/src/validation/password.ts:325-366 | every combination of picked characters and shuffle choices comes from equally many vectors of accepted words, which lead to its password |
| SeedWords.GeneratorExactly | packages/react/src/headless/seed-words.ts:6-9 | the generator is the affine map with this multiplier and increment modulo 2^32, and yields equal values exactly for seeds equal modulo 2^32 |
| SeedWords.SeededChoicesExactly | packages/react/src/headless/seed-words.ts:10-13 | index i is swapped with the value drawn at its turn, counted from the last index down, modulo i + 1 |
| SeedWords.ShuffleWithSeed | packages/react/src/headless/seed-words.ts:3-15 | the in-place loop is the shuffle for the choices of the generator |
| SeedWords.GridShowsPhrase | packages/react/src/headless/seed-words.ts:17-62 | the builder returns exactly when there is room and enough other words; the grid then has gridSize cells and distinct in-range indices that show the phrase in order, repeated words included |
| SeedWords.WithoutExactly | packages/react/src/headless/seed-words.ts:29-31 | filtering keeps every word outside the phrase as often as the list has it, in the order of the list |
| SeedWords.GridWordsExactly | packages/react/src/headless/seed-words.ts:29-44 | a grid shows every phrase word as often as the phrase has it, and any other word at most as often as the list has it |
| SeedWords.BuildVerificationGrid | packages/react/src/headless/seed-words.ts:17-62 | the builder with its queues computes that grid and never reaches its internal error |
| SeedWords.FrontIsCell | packages/react/src/headless/seed-words.ts:42-60 | the queue of the next phrase word is never empty and its front is the word's next unused cell |
| VerifyFlow.RunGood | packages/react/src/headless/verify-flow.ts:28-112 | over every event run the selection is distinct and in range, attempts is 1 exactly in a terminal status, and 'correct' implies the cells spell the phrase |
| SeedWords.UnambiguousExactly | packages/react/src/headless/seed-words.ts:17-62 | in a grid that is returned no phrase word has two cells exactly when the phrase repeats no word |
| VerifyFlow.InitExactly | packages/react/src/headless/verify-flow.ts:28-41 | a screen opens exactly when there is room and enough other words, with nothing selected and no attempt made |
| VerifyFlow.DeselectExactly | packages/react/src/headless/verify-flow.ts:80-92 | deselecting takes exactly the cell out, keeps the others in order, and does nothing for a cell that is not selected |
| VerifyFlow.DeselectUndoesSelect | packages/react/src/headless/verify-flow.ts:66-92 | selecting and then deselecting a cell restores the state |
| VerifyFlow.OnlyResetLeavesVerdict | packages/react/src/headless/verify-flow.ts:56-64 | after a verdict no run without a reset changes anything |
| VerifyFlow.ChecksSpellingExactly | packages/react/src/headless/verify-flow.ts:43-112 | on a screen built for a phrase, clicking cells and checking accepts exactly the selections that spell the phrase, for all selections, if and only if the phrase repeats no word |
| VerifyFlow.SpellingIsCorrect | packages/react/src/headless/seed-words.ts:69-75 | in every reachable state of a phrase without repeats, checking a full selection succeeds exactly when it spells the phrase |
| VerifyFlow.RepeatedWordOrderMatters | packages/react/src/headless/seed-words.ts:69-75 | clicking the two cells of a repeated word in the other order is a run that spells the phrase and ends in incorrect |
| Slip10.ChildInjective | packages/crypto/src/core/slip10.ts:117-138 | a child's key determines parent node and index |
| Slip10.DeriveHardenedExactly | packages/crypto/src/core/slip10.ts:117-138 | a child is derived exactly from a 32-byte key and chain code under a hardened 32-bit index, and key and chain code together are the whole HMAC output |
| Slip10.MasterExactly | packages/crypto/src/core/slip10.ts:85-94 | there is a master node exactly for a seed of 64 bytes, and its key alone determines the seed |
| Slip10.GrammarIsPrinting | packages/crypto/src/core/slip10.ts:165-182 | the regular expression accepts exactly the printed component lists, each in one way |
| Slip10.DeriveHardened | packages/crypto/src/core/slip10.ts:117-138 | one hardened child in fresh buffers, or a TypeError on a malformed node or index; the node is not written |
| Slip10.DerivePath | packages/crypto/src/core/slip10.ts:165-205 | split-and-loop equals the left fold over the parsed indices, in fresh buffers, with a TypeError exactly off the grammar or range; what else it leaves in memory is material of the nodes above and HMAC inputs |
| Slip10.DerivePathExactly | packages/crypto/src/core/slip10.ts:165-205 | accepted paths are exactly the printed ones with components up to 2^31 − 1, and the result is the fold over those components |
| Slip10.DerivePathComposes | packages/crypto/src/core/slip10.ts:165-205 | for every p and every grammatical q, deriving along p and then q equals deriving along their concatenation, errors included |
| Slip10.MarkersAlike | packages/crypto/src/core/slip10.ts:185-203 | paths that differ only in the markers ', h and H derive the same |
| Slip10.FoldInjective | packages/crypto/src/core/slip10.ts:165-205 | paths of equal length from two nodes lead to the same node exactly when nodes and indices are equal |
| Slip10.DerivedNotTraced | packages/crypto/src/core/slip10.ts:165-205 | the derived key and chain code are different from each other and from everything the derivation leaves behind |
| WalletTree.RecognizeExactly | packages/solana/src/wallet-tree.ts:40-56 | a used path stands for index i exactly when it is a possibly zero-padded rendering of i with i ≤ 2^31 − 1 |
| WalletTree.NextExactly | packages/solana/src/wallet-tree.ts:69-85 | the next index is the one number above all recognised indices that is 0 or one more than a recognised one |
| WalletTree.NextPaymentIndex | packages/solana/src/wallet-tree.ts:69-85 | the loop computes that number for any list, non-strings and foreign paths included |
| WalletTree.PaymentPathDerives | packages/solana/src/wallet-tree.ts:36-38 | every issued path is accepted by derivePath and derives along 44, 501, index, 0 |
| WalletTree.DeriveWalletExactly | packages/solana/src/wallet-tree.ts:176-195 | there is a wallet exactly for an index up to 2^31 − 1; its path is recognised as that index, deriving along it gives the private key, and the address is the public key of that |
| WalletTree.WalletsDistinct | packages/solana/src/wallet-tree.ts:176-195 | private keys, and addresses, are equal exactly for equal indices below equal master nodes |
| WalletTree.SeedsDistinct | packages/solana/src/wallet-tree.ts:145-148 | wallets of different seeds never share an address |
| WalletTree.NeverReused | packages/solana/src/wallet-tree.ts:60-85 | over every run of allocations and foreign records the issued indices strictly increase, were not recorded before the run, and have pairwise different addresses |
| WalletTree.ExhaustionIsFinal | packages/solana/src/wallet-tree.ts:176-183 | allocation fails exactly when 2^31 − 1 is recorded, and then nothing is ever issued again |
| WalletTree.AllocatesInOrder | packages/solana/src/wallet-tree.ts:69-85 | k allocations over a list in which nothing is recognised issue 0, 1, 2, … up to 2^31 − 1, record their paths, and stop there |
| WalletTree.SolanaWalletTree.FromSeed | packages/solana/src/wallet-tree.ts:145-148 | holds the master node of a 64-byte seed in fresh buffers and does not write the seed |
| WalletTree.SolanaWalletTree.DeriveWallet | packages/solana/src/wallet-tree.ts:176-195 | the wallet of the index in a fresh key buffer, an error once disposed or out of range; no buffer that the call made still holds the child chain code |
| WalletTree.SolanaWalletTree.Dispose | packages/solana/src/wallet-tree.ts:216-221 | both master buffers are zero, idempotently |
| AdapterRegistry.LookupAsPromised | packages/core/src/payment.ts:251-280 | in every run without a repeated object, each lookup gives the latest registration of the chain unless its own disposer ran |
| AdapterRegistry.DisposeFaithful | packages/core/src/payment.ts:262-270 | running a disposer keeps every lookup as promised exactly when its object does not also stand behind a later live registration |
| AdapterRegistry.RegisteredTwice | packages/core/src/payment.ts:262-270 | a concrete run: with one object registered twice, the first disposer empties the chain of the second registration |
| AdapterRegistry.DisposerOnlyOwn | packages/core/src/payment.ts:262-270 | a disposer empties the chain whose latest registration is its own and leaves every other lookup alone |
| AdapterRegistry.DisposerRunsOnce | packages/core/src/payment.ts:264-269 | after it has run, a disposer never does anything again, whatever happens in between |
| AdapterRegistry.RegisterThenDispose | packages/solana/src/register.ts:57-63 | registering adapters and disposing them right away leaves their chains empty and every other lookup as it was |
| AdapterRegistry.Registry.Register | packages/core/src/payment.ts:251-271 | a bad adapter changes nothing; a good one is the register step and yields a fresh disposer |
| AdapterRegistry.Registry.RegisterSolana | packages/solana/src/register.ts:48-64 | one unknown network changes nothing; otherwise one fresh adapter per network is registered in order |
| AdapterRegistry.CombinedDisposer.Dispose | packages/solana/src/register.ts:58-63 | runs the disposers of its own call once, in order, and nothing on later calls |
| IdentityProvider.EveryInterleaving | packages/react/src/react/Me2emProvider.tsx:15-65 | over every interleaving each identity created is disposed except the one held, commits follow start order, and an activation committed exactly when it is among the commits |
| IdentityProvider.InFlightNeverCommits | packages/react/src/react/Me2emProvider.tsx:29-38 | what was in flight at a start, a clear or the unmount never commits afterwards |
| IdentityProvider.NothingSurvivesAClear | packages/react/src/react/Me2emProvider.tsx:48-65 | nothing started before a clear or the unmount is ever current after it |
| IdentityProvider.CommitsExactlyIfUndisturbed | packages/react/src/react/Me2emProvider.tsx:29-46 | an activation that delivers an identity commits, and is then held and shown, exactly when nothing was started, cleared or unmounted since its start |
| IdentityProvider.Provider.ActivateIdentity | packages/react/src/react/Me2emProvider.tsx:29-46 | the whole activation with any starts, clears and unmount during its await: true exactly for a 64-byte seed and an undisturbed await, and then the new identity over that seed's root key is held and the replaced key is zeroed |
| IdentityProvider.Provider.FinishActivation | packages/react/src/react/Me2emProvider.tsx:31-46 | is the resolve step on objects: true exactly on a commit, with the replaced or superseded identity's key zeroed |
| IdentityProvider.Provider.ClearIdentity | packages/react/src/react/Me2emProvider.tsx:48-53 | is the clear step: the held identity's key is zeroed and dropped, and in-flight activations are invalidated |
| IdentityProvider.Provider.Unmount | packages/react/src/react/Me2emProvider.tsx:58-65 | is the unmount step: as clearing, without touching the React state |

## Left out

- Overlapping calls: each call is one atomic step, so two un-awaited calls on one channel, or a call during another's await, are not modelled.
- Channels.ChannelStore.EstablishChannel: the salt is a byte string given as a value; salts supplied as text are encoded outside the model, and branding and freezing the channel object are part of its constructor.
- ChannelSpec: sequence numbers are integers; non-integers and values that are no numbers are not modelled.
- Primitives.SecureWipe: `crypto.getRandomValues` refuses more than 65536 bytes at a time; buffers that long (a channel salt of more than 65504 bytes) are assumed away.
- Primitives: no chance events (hash collisions, guessed keys), no curve arithmetic, no points of small order beyond the injected fault; private keys that X25519 clamps alike count as different, so theorems about agreement are stated on public keys.
- Session and attestation numbers are reals: rounding of doubles and the infinities of option arguments are not modelled, except that an infinity in parsed JSON is rejected.
- Attestation.IssuedDecodes: the length of the serialised text is an input, and the subject key arrives as its base64url text, so the 32-byte check on it is not modelled.
- Attestation.ValidateWalletOpts: the CAIP-2 grammar and the adapter's address check are parameters.
- Keys and Entities: the entry point that accepts a hexadecimal seed, metadata and its deep copy, and the derived passwords and channel keys beyond their info strings.
- SessionTheorems.CreateExactly: the handle is live; a disposed one fails when the session is signed, as Entities.Handle.SignBody does.
- PeerSecret: sorting needs key bytes as numbers, so X25519 and public keys are parameters here with the commuting law as an assumption; the symbolic X25519 of Primitives serves X3dh.
- Tokens: signatures are over structured payloads, apart from the symbolic Ed25519 over bytes that X3dh uses.
- PeerSecret.DeriveSharedSecret: the guard against a disposed handle, which is that of every other capability in Entities.
- X3dh: public keys of the peer are passed as values, and copies that the runtime or `hkdf` makes inside a primitive are not modelled; wiping is promised of the buffers of the code itself.
- X3dh: generation of signed and one-time pre-keys.
- ForwardSecrecy.EarlierEpochsStaySecret: knowledge grows by HKDF from known bytes; whatever else an observer obtains is given from outside and may be anything but bytes of the earlier epochs.
- RandomInt.RandomIntBelow: the words come from a finite stream, and running out of it is an extra outcome; that the loop ends with probability 1 is not stated.
- SeedWords.ShuffleWithSeed: exact for seeds up to about 5·10^9 in size, where the generator's product is an exact double; larger or fractional seeds lose bits in the source.
- Password: strength estimation, the leak lookup and the list of common passwords.
- Slip10: the public key of a node beyond its use in wallets, and master keys from seeds of other lengths than 64 bytes.
- WalletTree: the address is the public key, not its base58 text.
- AdapterRegistry: the adapter's methods, wallet bindings, and a registry shared by several copies of the module.
- IdentityProvider: rendering, context values, and React's scheduling; the state setter takes effect at once.
- VerifyFlow.RunGood: event indices are integers; NaN and fractions, which the type number admits and SELECT would append, are not modelled, and the selection would not stay in range with them.
- The display, import and identity-flow reducers, storage, clipboard and network helpers: simple or input/output.
