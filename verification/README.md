# Verified model of fwknop-go

fwknop-go sends and receives Single Packet Authorization (SPA) messages. A client prints a message to a
colon-separated text, adds a digest, encrypts it and may append an HMAC; the server takes the datagram apart
again, decides whether it is fresh and allowed, and opens a firewall rule for a while. This project models that
path end to end and proves what it promises.

## The codec

| file | models |
|---|---|
| `Numbers.dfy`, `Bytes.dfy`, `Decimal.dfy` | powers and quotients; byte strings: index, split, join, trim; decimal printing and parsing |
| `Base64.dfy` | base64 (section 4 of RFC 4648) down to 6-bit groups, unpadded, with Go's lenient decoder |
| `Crypto.dfy` | hash, HMAC and AES block functions as parameters, with the laws assumed of them |
| `Kdf.dfy`, `AesCbc.dfy` | EVP_BytesToKey, padding (section 6.3 of RFC 5652), CBC (section 6.2 of NIST SP 800-38A), the salted container |
| `Message.dfy`, `SpaEncode.dfy`, `SpaDecode.dfy` | messages and validators, `Encode`/`Encrypt`, `Decrypt`/`decodePlaintext` |
| `RoundTrip.dfy` | what decoding gives back, exactly when it does; normal forms |
| `WireLength.dfy` | the exact wire length, and which messages fit the server's buffer |

The main result is `RoundTrip.WireRoundTrip`: for every message that can be encrypted, every key, salt, mode and
HMAC type, decrypting returns the message in normal form **if and only if** the message is `Faithful`. A caller can
test `Faithful` before sending: NAT access only on NAT types, and a server-authentication string whose base64 is
not a decimal uint32. `RoundTrip.MessageRecovered` states the same field by field.

Each layer is also described on its own, in numbers and bytes: decimals by their digits, base64 by 24-bit groups, CBC
by its bits and blocks, the plaintext and the container character by character, message types, modes and algorithms by
their numbers.

## The server

| file | models |
|---|---|
| `Access.dfy`, `RuleKeys.dfy` | source networks, ports, timeouts, access messages, rule contexts; what the rule key tells apart |
| `Replay.dfy` | the replay cache as an object, against the history of everything ever added |
| `Server.dfy` | `processSPAPacket`: the stanza loop, its gates, `dispatchAction` |
| `ReplayRuns.dfy`, `ReplayCount.dfy` | how often one wire string gets past the replay gate, over all runs |
| `Malleable.dfy` | how many wire strings carry one message, and what that does to the replay gate |
| `Rules.dfy`, `RulesLimits.dfy` | the rule manager under concurrency: every interleaving of the UDP thread with timers and `CloseRule` goroutines, and the runs that show where the guarantees end |
| `ShutdownRuns.dfy` | when the manager loses track of a rule, and Shutdown interleaved with everything else |
| `Actions.dfy` | the rule manager as an object, for operations that do not overlap |
| `ServerRuns.dfy` | the daemon as a whole: packets, replay history and interleaved rule manager in one machine |
| `EndToEnd.dfy` | from a client's message to the rule the server opens |

The packet loop and the rule manager are proved twice: as imperative methods against specification functions, and
those functions as state machines over unbounded runs. `ServerRuns` ties the two machines together: in every run,
an open rule comes from a packet that cleared every gate of its first accepting stanza, and it does not outlive its
request. That is not because nothing is ever opened: `EndToEnd.HonestRequestOpens` says which requests are let through,
and `ServerRuns.AuthorisedPacketServed` that each of them opens its rule in a run.

## Assumptions

* Hash, HMAC and the AES block permutation are arbitrary functions with fixed output lengths and the inverse law
  (`Crypto.Primitives.Valid`). IP parsing and printing, the printability test and case-insensitive comparison are
  arbitrary functions; the server lemmas that need it assume that the IP parser accepts no `,` and no `/` and reads
  back what the printer writes (`Message.Platform.Valid`). `Crypto.ValidPrimitivesExist` and
  `Message.ValidPlatformsExist` show that both assumptions can be met.
* An address is 32 or 128 bits wide, and an IPv4-mapped IPv6 address is the IPv4 address (`Message.IP`).
* Time is one integer clock that never goes back. A packet carries the three readings made for it; nothing is
  assumed of the time between them unless a lemma says so.
* `Rules.Policy` says what is assumed of the commands: how the check command answers, whether there is an open
  command, whether a close command removes one copy of a rule or all of them, whether close commands succeed on open
  rules (`reliable`; a manager without one has none that succeed), and how late a fired timer may run its command
  (`lag`). `RulesLimits.AlwaysSafeExactlyWhen` shows which of these are needed.
* The platform's `int` is 64 bits wide.

## What the proofs found

* A `ServerAuth` whose base64 reads as a number up to 4294967295 comes back as a client timeout, and the
  authentication is lost; the bytes D7 6D (base64 `120`) are an example. This needs a first byte in 208..247, so
  ASCII strings are safe. The guide's field list (doc/fkospa-guide.md) names no such restriction.
* `NATAccess` is written whenever it is set but read back only for NAT types; on other types it comes back as
  `ServerAuth`, as a timeout, or as an error.
* "Duplicate packets are rejected" (README.md, line 528) does not hold as it stands. The age check has no lower bound
  and reads the clock before the lookup does. With an age limit, a string that every stanza dates `ts` and whose first
  pass is recorded at `t1` passes only once, in all runs, exactly when `ts + slack <= t1`, where `slack` is how far a
  lookup may lag behind its age check, at most `ttl + 1`, and just that if the lag has no bound
  (`ReplayCount.AtMostOnceExactlyWhen`). Otherwise it can pass `1 + ceil((ts + slack - t1) / (ttl + 1))` times, in clock
  units, and does in some run. With `max_spa_packet_age` at zero the time-to-live is zero as well and every replay one
  tick later passes.
* That is about byte strings. The decoder skips line breaks, so on a stanza without an HMAC key (it is optional,
  cmd/fwknopd/access.go, line 93) one message has many wire strings: as long as their digests differ it can pass within
  one tick once for each variant, and with four line breaks more each time over a hundred fit the buffer for a short
  packet (`Malleable.KeylessReplays`). Where every stanza has an HMAC key, each authenticated text has one
  wire string per key, so another pass of the message needs another HMAC (`ServerRuns.OncePerMessage`). One keyless
  stanza with the same encryption key and mode is enough to undo that: where it is the first to take the packet with
  its HMAC cut off, it reads the same message, within the same tick (`Malleable.StrippedPassesAgain`).
* Without a truthful check command, a repeated request opens a second copy of the rule and stops the first timer; a
  close command that removes one copy then leaves the other open for good. A failed close command does so at once.
* Even with truthful checks and reliable commands a fired timer's late delete can make the manager forget a rule
  that has just been opened again, so that `Shutdown` leaves it open; this is the only way it loses track of an open
  rule (`ShutdownRuns.TrackedExactlyWhen`). A refresh can race with the old timer, so that a rule is tracked although
  it is closed. And `Shutdown` does not stop the UDP thread: a rule opened while it closes the others stays open,
  and so does one that is open but not yet scheduled when the timers are stopped. When nothing is opened meanwhile and
  no delete came late, that last rule is the only one it can miss (`ShutdownRuns.CleanShutdownExactlyWhen`).
* The rule key is not injective on messages the server builds contexts from, since it does not validate them:
  "1.2.3.4/tcp,22/x" and "1.2.3.4,tcp/22/x" share a key, and so a timer. It is injective where the source is an address.
* Every read error ends the receive loop: `isClosedErr` (cmd/fwknopd/server.go, lines 204-207) compares the variable
  `net.ErrClosed` with nil, so it is true of all errors and the `continue` after it is never reached.
* With `require_source_address`, a command message is only run when its own text up to the first comma is the
  source address, since the check reads commands like access messages (cmd/fwknopd/server.go, lines 107-114).
* The sender encrypts command messages as long as the joined fields stay within 1500 bytes, commands of 1000 bytes
  among them (`WireLength.LongCommandsAreSent`), but a command of 800 bytes or more never fits the server's 1500-byte
  buffer once encrypted, and arrives cut.

## Model

The main results come first; the other rows follow module by module.

| member | source | states |
|---|---|---|
| `RoundTrip.MessageRecovered` | fkospa/spa_encode.go:16-179 | decrypting a packet gives back the message (every field; the second it was sent in, so r <= timestamp < r + 1 s; the type a timeout gives it; SHA3 taken for SHA2) if and only if NAT access is set on types 2, 4, 5 and 6 only and no authentication is the base64 of a number up to 4294967295, leading zeros included |
| `RoundTrip.WireRoundTrip` | fkospa/spa_encode.go:87-127 | Decrypt(Encrypt(m)) is the normal form of m if and only if m is faithful |
| `RoundTrip.DecodeEncode` | fkospa/spa_decode.go:132-239 | decoding an encoded message returns its normal form if and only if it is faithful |
| `RoundTrip.AuthenticatedExactlyWhen` | fkospa/spa_decode.go:61-85 | with an HMAC key, a wire string carries a text if and only if it is that text followed by the base64 of its HMAC, the type being supported: the separator-free split is exact, and each text has one wire string |
| `RoundTrip.EncodeDecodeEncode` | fkospa/spa_encode.go:16-80 | encoding, decoding and encoding again gives the same text |
| `Base64.RoundTrip` | fkospa/base64.go:10-23 | decoding undoes encoding for every byte string, with the padding stripped or kept |
| `AesCbc.CbcChains` | fkospa/aes_cbc.go:45-47 | ciphertext block n is the encrypted exclusive or of plaintext block n and ciphertext block n - 1, the IV for n = 0 |
| `AesCbc.CbcUnchains` | fkospa/aes_cbc.go:89-91 | decrypted block n is the decryption of ciphertext block n, exclusive or with block n - 1, the IV for n = 0 |
| `AesCbc.SealedBytes` | fkospa/aes_cbc.go:29-56 | the sealed container byte for byte: "Salted__", salt, and the chained blocks of the padded text under key D1 D2 and IV D3, three MD5 hashes of passphrase and salt |
| `SpaDecode.DigestDecides` | fkospa/spa_decode.go:132-151 | every received text: no colon, a digest of no known length, and a digest that is none of the seven of the text before the last colon are refused, each with its error; otherwise the fields are read |
| `Base64.HeaderCheck` | fkospa/aes_cbc.go:60-71 | after prefix restoration and decoding, the "Salted__" test passes exactly when the first wire character that is no line break is 8, 9, + or / |
| `WireLength.FitsExactlyWhen` | cmd/fwknopd/server.go:11-38 | a packet is read whole if and only if its plaintext is below a limit fixed by the HMAC length |
| `WireLength.AccessRequestsFit` | fkospa/spa_fields.go:12-23 | non-command messages without authentication, NAT access only on NAT types, take at most 1100 characters |
| `Replay.CacheRefinesLog` | cmd/fwknopd/replay.go:35-73 | in any run of lookups, insertions and purges under a non-decreasing clock the answers are those of the history without deletion |
| `ReplayCount.ReplayBound` | cmd/fwknopd/server.go:82-98 | with three clock readings per packet, a string dated ts that first passes at t1 passes at most 1 + ceil((ts + slack - t1)/(ttl + 1)) times; slack is the lag allowed between age check and lookup, at most ttl + 1, and just that when the lag has no bound |
| `ReplayCount.BoundAttained` | cmd/fwknopd/server.go:82-98 | for every lag, date and first pass some run reaches that number |
| `ReplayCount.AtMostOnceExactlyWhen` | cmd/fwknopd/server.go:82-98 | over all runs with this lag (or any lag) the string passes at most once from t1 on if and only if ts + slack <= t1; the age limit is on and ts is the latest date any source gives the string |
| `ReplayRuns.PassesExactlyWhen` | cmd/fwknopd/server.go:82-98 | in every run of the server, a packet with an accepting stanza gets past the replay gate if and only if its age is within the limit and no earlier packet with the same SHA-256 hash got past and was recorded at most the limit before its lookup |
| `Malleable.KeylessReplays` | cmd/fwknopd/server.go:52-98 | where the first accepting stanza has no HMAC key, one captured message and its first n variants (four more line breaks each) all pass the replay gate within one tick, for every n, read each time by the same stanza as the same message, as long as their digests differ; variants up to the buffer's size arrive whole |
| `Malleable.StrippedPassesAgain` | cmd/fwknopd/server.go:52-98 | one keyless stanza undoes it: with the HMAC cut off, an accepted packet passes the replay gate again within the same tick and is read as the same message, when the first stanza to take the rest has no HMAC key but the same encryption key and mode, and the digests differ |
| `ServerRuns.SecondPassNeedsAnotherHMAC` | cmd/fwknopd/server.go:82-98 | two packets of a run that pass and are first accepted by stanzas with HMAC keys, the same or two, each carry a text and its HMAC under their own stanza's key; where keys and types agree the texts differ, given the date condition of `NoSecondPass` for equal strings |
| `ServerRuns.OncePerMessage` | cmd/fwknopd/server.go:82-98 | once per message, where every stanza has an HMAC key: any two packets that pass carry such HMACs, of different texts under one key and type |
| `Server.OpensExactlyWhen` | cmd/fwknopd/server.go:52-133 | a rule is opened if and only if the least accepting stanza's gates are all cleared, and it is that stanza's rule |
| `Server.RunsExactlyWhen` | cmd/fwknopd/server.go:177-188 | a command is run if and only if the packet clears the same gates and the least accepting stanza allows commands; text and user are the message's and the stanza's |
| `Server.NoStanzaExactlyWhen` | cmd/fwknopd/server.go:52-133 | a packet is dropped without a stanza if and only if, for each stanza, its source lies outside all address ranges or the keys do not decrypt it |
| `Rules.InvariantHolds` | cmd/fwknopd/actions.go:120-172 | under `Governed` policies (without an open command, or with reliable closes and a truthful check or closes that remove all copies), in every interleaving every open rule has a pending timer, a fired closer that has not run its command, or an open in progress that will schedule one |
| `RulesLimits.AlwaysSafeExactlyWhen` | cmd/fwknopd/actions.go:120-172 | every open rule has a future closer in all interleavings if and only if the policy is `Governed` |
| `Rules.NoDuplicateRules` | cmd/fwknopd/actions.go:124-147 | with a truthful check no interleaving holds two copies of a rule |
| `RulesLimits.AlwaysSingleExactlyWhen` | cmd/fwknopd/actions.go:124-147 | no interleaving ever holds two copies of a rule if and only if the check is truthful or no open command is configured |
| `Rules.NoRuleOutlivesItsDeadline` | cmd/fwknopd/actions.go:242-258 | under `Governed` policies, when close commands run at most `lag` late, no rule is open later than its latest deadline plus the lag, unless its next deadline is being set |
| `Rules.NeverFiresEarly` | cmd/fwknopd/actions.go:242-258 | in every interleaving a timer fires no sooner than max(0, timeout) * 1000000000 ns after the Schedule step of its own request |
| `ShutdownRuns.TrackedExactlyWhen` | cmd/fwknopd/actions.go:120-172 | in every interleaving, whatever the commands do, open rules are tracked after every step if and only if no delete comes late |
| `ShutdownRuns.SurvivesExactlyWhen` | cmd/fwknopd/actions.go:199-231 | from every governed state, a rule can survive an interleaved shutdown during which nothing is opened if and only if it was open and untracked when the timers were stopped |
| `ShutdownRuns.CleanShutdownExactlyWhen` | cmd/fwknopd/actions.go:199-231 | after any interleaved run without late deletes, every such shutdown empties the firewall if and only if no rule is just opened: open, not tracked yet, and about to be scheduled |
| `ShutdownRuns.ShutdownInterleaved` | cmd/fwknopd/actions.go:199-231 | with openings as well, after a run without late deletes, `Governed`: when the loop is done a rule is open only if the UDP thread opened it since the timers were stopped, or it was just opened at that moment |
| `Actions.TracksExactlyWhen` | cmd/fwknopd/actions.go:120-258 | tracked keys equal open rules in all non-overlapping runs if and only if an open command is configured, close commands are reliable, and the check is truthful, or absent with closes that remove all copies |
| `Actions.OneTimerPerOpenRule` | cmd/fwknopd/actions.go:120-258 | in every such run an open rule has exactly one pending timer, due max(0, timeout) * 1000000000 ns after the last successful request |
| `ServerRuns.OpenRuleWasAuthorised` | cmd/fwknopd/server.go:52-133 | in every run every open rule comes from an earlier packet whose least accepting stanza it cleared completely |
| `ServerRuns.NoRuleOutlivesItsRequest` | cmd/fwknopd/actions.go:242-258 | under `Governed` policies and a bounded lag: an open rule not just being scheduled belongs to an authorised packet, and at most max(0, timeout) * 1000000000 ns plus the lag have passed since the Schedule step of its closing; with positive settings the timeout lies between 1 and the stanza's larger setting |
| `EndToEnd.RequestHonoured` | cmd/fwknopd/server.go:52-133 | a client's faithful request that fits and is addressed to its stanza opens a rule if and only if the message the client wrote clears that stanza's gates |
| `EndToEnd.FreshExactlyWhen` | cmd/fwknopd/server.go:82-87 | that request is too old if and only if the age of the second it was made in exceeds a positive limit: never up to one second below the limit, always beyond it |
| `EndToEnd.HonouredRule` | cmd/fwknopd/actions.go:281-298 | that rule has the protocol, port, user, NAT access and timeout of the client's message, the second that contains its timestamp, and its address or, for 0.0.0.0 and ::, the packet's |
| `EndToEnd.HonestRequestOpens` | cmd/fwknopd/server.go:52-133 | every access request that can be encrypted opens the rule it names when it comes from a range of its stanza and of no earlier one, the keys, mode and HMAC type agree, its age is at most the limit less one second, no packet with its digest was recorded within the limit, and the stanza asks for no more |
| `ServerRuns.AuthorisedPacketServed` | cmd/fwknopd/actions.go:120-152 | in every run of the daemon with an idle manager, a packet that clears its gates can be served next: its rule opened unless the check finds it, tracked, and a timer due max(0, timeout) * 1000000000 ns later; with a truthful check it is open then |
| `RuleKeys.KeysEqualExactlyWhen` | cmd/fwknopd/actions.go:121 | any two contexts share a rule key if and only if their slash-separated components agree as one list |
| `Bytes.SplitJoin` | fkospa/spa_decode.go:154 | splitting at the colon undoes joining when no field contains one |
| `Decimal.ParseIntFormat` | fkospa/spa_decode.go:176-181 | every int64 survives `%d` and ParseInt/Atoi |
| `Decimal.ParseUintFormat` | fkospa/spa_decode.go:215-216 | a natural survives `%d` and ParseUint exactly when it is in range |
| `Decimal.FormatNatDigits` | fkospa/spa_encode.go:32 | character k from the right is digit n / 10^k % 10, with no leading zero |
| `Decimal.ParseUintExactlyWhen` | fkospa/spa_decode.go:215-216 | exactly the printed naturals within the limit are read, with any number of leading zeros |
| `Decimal.ParseIntExactlyWhen` | fkospa/spa_decode.go:176-181 | exactly the printed int64 values are read, with an optional sign and leading zeros |
| `Base64.Injective` | fkospa/base64.go:10-13 | different byte strings have different encodings |
| `Base64.NoColon` | fkospa/base64.go:10-13 | no encoding contains the field separator |
| `Base64.EncodeShape` | fkospa/base64.go:10-13 | stripping `=` removes exactly the padding; the length is ceil(4n/3); only alphabet characters remain |
| `Base64.SaltedPrefix` | fkospa/spa_encode.go:106-113 | whatever follows "Salted__", its encoding begins with the ten characters the wire format drops |
| `Base64.AlphabetTable` | fkospa/base64.go:10-13 | the 64 characters in their order |
| `Base64.EncodedGroups` | fkospa/base64.go:10-13 | each four characters show the 24 bits of three bytes, zero bits for what is missing |
| `Base64.DecodesExactlyWhen` | fkospa/base64.go:17-23 | apart from line breaks, exactly the texts are decoded that are alphabet characters closed by at most two '=' to a multiple of four |
| `Base64.DecodedGroups` | fkospa/base64.go:17-23 | each four characters give three bytes of the same 24 bits, the last ones fewer by the number of '=', without the bits that do not fit |
| `Kdf.KeyMaterialPrefix` | fkospa/kdf.go:25-42 | smaller requests get a prefix of what larger ones get |
| `Kdf.ThreeHashes` | fkospa/kdf.go:25-42 | the 48 bytes are MD5(passphrase salt), the MD5 of that and both again, and the MD5 of that and both |
| `Kdf.DeriveKeyAndIV` | fkospa/kdf.go:25-42 | terminates; key and IV are the first bytes of D1 D2 ..., Di = MD5(D(i-1) passphrase salt), computed with exactly ceil((keyLen+ivLen)/16) hashes |
| `AesCbc.Pkcs7Pad` | fkospa/aes_cbc.go:135-142 | the byte loop yields the block-aligned padded data |
| `AesCbc.Pkcs7Unpad` | fkospa/aes_cbc.go:146-166 | the scan strips well-formed padding and otherwise returns the data unchanged, never indexing outside |
| `AesCbc.UnpadPad` | fkospa/aes_cbc.go:135-166 | unpadding undoes padding for all data |
| `AesCbc.UnpadCharacterised` | fkospa/aes_cbc.go:144-166 | on aligned input: either the result is the only string that pads to the input, or no string does and the input is returned |
| `AesCbc.CbcInverse` | fkospa/aes_cbc.go:45-90 | CBC decryption undoes CBC encryption for every key, IV and aligned text |
| `AesCbc.XorAt` | fkospa/aes_cbc.go:45-91 | bit k of byte i of an exclusive or is the sum modulo 2 of the two bits in that place |
| `AesCbc.EncryptWithSalt` | fkospa/aes_cbc.go:29-56 | header, salt and CBC of the padded text under the derived key and IV, as one specification |
| `AesCbc.DecryptSalted` | fkospa/aes_cbc.go:60-100 | each malformed input gives its error and the rest is the specification; no slice leaves its bounds on any path |
| `AesCbc.UnsealSeal` | fkospa/aes_cbc.go:29-100 | what is sealed under a passphrase and salt is recovered by that passphrase |
| `AesCbc.LegacyPadPassphrase` | fkospa/aes_cbc.go:122-132 | copy and fill loop: passphrases shorter than 16 bytes are extended with '0', others unchanged |
| `AesCbc.ModesByNumber` | fkospa/encrypt.go:66-80 | modes 2 and 8 are implemented; in mode 8 alone a passphrase is filled up to 16 bytes with '0', and kept otherwise |
| `Message.Unix` | fkospa/spa_encode.go:32 | the second that contains the timestamp, before the epoch as well |
| `Message.TypesByNumber` | fkospa/message_type.go:40-52 | types 0 to 6 are valid, 2, 4, 5 and 6 take NAT access; a timeout makes 3 of 1, 4 of 2 and 6 of 5 and nothing else of the others |
| `Access.ValidExactlyWhen` | fkospa/spa_encode.go:130-161 | a message is valid if and only if its random value is 16 digits, its user has 1 to 64 printable bytes, its type is 0 to 6, its text is a command of 1 to 1400 bytes or an access message of at most 256, and types 2, 4, 5 and 6 have NAT access of 1 to 128 bytes |
| `Access.MissingExactlyWhen` | fkospa/spa_encode.go:130-161 | the error is a missing field if and only if the first bad field is an empty one |
| `Message.EffectiveTypeStable` | fkospa/spa_encode.go:164-179 | adjusting the type is idempotent and keeps validity, NAT-ness and being a command |
| `SpaEncode.WriteRequired` | fkospa/spa_encode.go:21-46 | the builder holds the six required fields joined by colons |
| `SpaEncode.WriteOptional` | fkospa/spa_encode.go:48-62 | NAT access, authentication and timeout are appended in this order, each under its own condition |
| `SpaEncode.Encode` | fkospa/spa_encode.go:16-80 | first failing check, length limits, digest errors and the plaintext are those of the specification the round trip is about |
| `SpaEncode.FieldsText` | fkospa/spa_encode.go:21-62 | the text of a message character by character: colons, decimal second, version 3.0.0, type digit, base64 fields, optional fields in order |
| `SpaEncode.EncodeOutcome` | fkospa/spa_encode.go:64-79 | between 36 and 1500 characters and one of the seven digests, or the error; then a colon and the digest of the text |
| `SpaEncode.Encrypt` | fkospa/spa_encode.go:87-127 | mode errors, prefix stripping and the HMAC over the unstripped text are those of the wire specification |
| `SpaEncode.SealedBase64` | fkospa/spa_encode.go:106-113 | stripping is safe: the text always starts with the prefix and is longer |
| `SpaDecode.LengthTables` | fkospa/spa_decode.go:109-128 | the HMAC and digest length tables agree with real base64 lengths for all seven algorithms: 22, 27, 43, 64, 86, 43 and 86 |
| `SpaDecode.VerifyDigest` | fkospa/spa_decode.go:262-293 | accepts the digest of the given type or of its SHA3 twin, and no other; an unsupported type is its own error |
| `SpaDecode.DigestExactlyWhen` | fkospa/spa_decode.go:262-293 | a digest of known length is accepted if and only if it is the base64 of one of the seven hashes of the text |
| `SpaDecode.FillFields` | fkospa/spa_decode.go:153-238 | filling the message while an index walks over the fields is the recursive parser, errors included |
| `SpaDecode.FieldsReadExactlyWhen` | fkospa/spa_decode.go:153-239 | exactly when 6 to 9 received fields are read, and as which message: each field in its place, whole seconds, NAT access on types 2, 4, 5 and 6; every other list is invalid data |
| `SpaDecode.DecodePlaintext` | fkospa/spa_decode.go:132-239 | digest split, detection, verification and field parsing in this order, as one specification |
| `SpaDecode.Decrypt` | fkospa/spa_decode.go:43-106 | options apply in order over the defaults; HMAC split, decoding, decryption and parsing with their errors |
| `SpaDecode.LastOptionWins` | fkospa/spa_decode.go:43-50 | the defaults are mode 2 and SHA-256, and each option changes its own setting only |
| `RoundTrip.OptionsParsed` | fkospa/spa_decode.go:211-236 | authentication and timeout come back exactly when the authentication does not read as a number; otherwise only that number comes back, as the timeout |
| `RoundTrip.MisplacedNATAccess` | fkospa/spa_decode.go:200-236 | on a type without NAT access, the NAT access comes back as the authentication or as the timeout, or the packet is refused, by cases |
| `RoundTrip.FieldsParsed` | fkospa/spa_decode.go:153-239 | the parser inverts the printer field by field exactly on faithful messages |
| `RoundTrip.NormalExactlyWhen` | fkospa/spa_decode.go:160-239 | the normal form is the one message that has these fields, described one by one |
| `RoundTrip.FaithfulExactlyWhen` | fkospa/spa_decode.go:200-236 | `Faithful` in numbers: NAT access on types 2, 4, 5 and 6 only, and no authentication whose base64 denotes a uint32 |
| `RoundTrip.HMACOutcome` | fkospa/spa_decode.go:61-85 | without a key no check, for an unknown type its error, for any other text the verification error |
| `RoundTrip.DigestAccepted` | fkospa/spa_decode.go:242-293 | every digest type is detected as its length class and verified, SHA3 through the second try |
| `RoundTrip.DecryptEncrypt` | fkospa/spa_decode.go:43-106 | for every message, salt, key, mode and HMAC type the cryptographic layers cancel |
| `RoundTrip.LegacyIsPaddedCbc` | fkospa/aes_cbc.go:104-132 | legacy mode is plain CBC mode under the padded passphrase, and legacy mode under the padded passphrase too, on both sides |
| `RoundTrip.ConfusableFirstByte` | fkospa/spa_decode.go:211-217 | an authentication taken for a timeout starts with a byte in 208..247 |
| `RoundTrip.ASCIIAuthSafe` | fkospa/spa_decode.go:211-217 | an authentication starting with an ASCII byte is never taken for a timeout |
| `RoundTrip.ConfusableAuth` | fkospa/spa_encode.go:53-57 | a concrete authentication that reads as the timeout 120 |
| `RoundTrip.NormalPrintsTheSame` | fkospa/spa_encode.go:16-80 | with MD5, SHA1 or SHA2 the normal form prints to the identical text, and normalising again changes nothing |
| `WireLength.WireLength` | fkospa/spa_encode.go:100-126 | the exact wire length through padding, header, base64, stripping and HMAC |
| `WireLength.SentExactlyWhen` | fkospa/spa_encode.go:16-127 | any message is encrypted if and only if it is valid, its algorithms are supported and its fields have between 36 and 1500 characters |
| `WireLength.AccessRequestsAreSentExactlyWhen` | fkospa/spa_encode.go:16-127 | for a valid access request without authentication, NAT access only on NAT types, the size limits never matter: it is encrypted if and only if its algorithms are supported |
| `WireLength.LongCommandsNeverFit` | fkospa/spa_fields.go:80-88 | every command of 800 bytes or more that the sender encrypts exceeds the server's buffer |
| `WireLength.LongCommandsAreSent` | fkospa/spa_fields.go:80-88 | every valid command of 800 to 1000 bytes, without authentication and NAT access and with supported algorithms, is encrypted, and is longer than the buffer |
| `Access.MatchSource` | cmd/fwknopd/access.go:174-181 | true exactly when some network contains the address |
| `Access.ContainsExactlyWhen` | cmd/fwknopd/access.go:174-181 | a network contains exactly the addresses of its family from its base, rounded down to a multiple of its size, on for that size; a network without host bits exactly its base |
| `Access.MatchesExactlyWhen` | cmd/fwknopd/access.go:174-181 | a stanza matches a source if and only if it lies in one of these ranges |
| `Access.AnyMatchesEverything` | cmd/fwknopd/access.go:144-151 | the source ANY admits every address of both families |
| `Access.TimeoutBounds` | cmd/fwknopd/actions.go:301-310 | for all settings, with 30 and 300 seconds for those left at zero, negative ones included: the smaller of wish and maximum, the wish where the maximum is negative, the stanza's own timeout without a wish; positive and within the larger setting exactly when `TimeoutTame` |
| `Access.CheckPort` | cmd/fwknopd/actions.go:267-278 | true exactly when the list is empty or some entry equals proto/port up to case |
| `Access.AcceptedMessagesSplit` | cmd/fwknopd/actions.go:313-326 | a message the client accepts is split into address, protocol and port that reassemble to it, the port in 1..65535 |
| `Access.AcceptedExactlyWhen` | fkospa/spa_fields.go:45-77 | the validator accepts exactly "ip,tcp or udp or icmp/port" with an address, a decimal port in 1..65535 and at most 256 bytes, and the server's splitter returns just these parts |
| `Access.ContextOf` | cmd/fwknopd/actions.go:281-310 | the context of any "ip,proto/port": that address unless it is 0.0.0.0 or ::, protocol, port, user, the second of the timestamp, and the timeout by cases |
| `Access.ShortForms` | cmd/fwknopd/actions.go:313-326 | a text without a comma gives nothing, one without a slash behind the comma no port |
| `Access.SplitFirstPart` | cmd/fwknopd/server.go:168-174 | the index loop returns what precedes the first separator, or everything |
| `Access.ContainsIPMeaning` | cmd/fwknopd/server.go:157-166 | for a real source the check holds exactly when the part before the comma denotes that address |
| `Access.SourceGate` | cmd/fwknopd/server.go:157-174 | "head,rest" and a bare "head" pass if and only if the head denotes the packet's source |
| `RuleKeys.RuleKeyInjective` | cmd/fwknopd/actions.go:121 | where source and protocol have no slash, the key determines source, protocol and port, whatever the port is |
| `RuleKeys.CollisionNeedsASlash` | cmd/fwknopd/actions.go:281-326 | two contexts built from whatever messages, with one key for different targets: one of the sources has a slash and is no address |
| `RuleKeys.CollidingContexts` | cmd/fwknopd/actions.go:281-326 | such collisions happen: "ip/proto,port/rest" and "ip,proto/port/rest" |
| `RuleKeys.AcceptedContextsSeparable` | cmd/fwknopd/actions.go:281-298 | contexts built from messages the client accepts have no slash in source, protocol or port, also when the source address is substituted |
| `Replay.PurgeKeepsTheSeen` | cmd/fwknopd/replay.go:64-71 | after a purge exactly the digests that still count as seen have an entry |
| `Replay.PurgeInterval` | cmd/fwknopd/replay.go:24-28 | half the time-to-live, rounded towards zero, from 20 seconds on; ten seconds below |
| `Replay.ReplayCache.constructor` | cmd/fwknopd/replay.go:18-32 | a new cache stands for the empty history |
| `Replay.ReplayCache.IsDuplicate` | cmd/fwknopd/replay.go:35-49 | true exactly when some earlier insertion of the digest is not older than the time-to-live |
| `Replay.ReplayCache.Add` | cmd/fwknopd/replay.go:52-56 | extends the history by this digest and time |
| `Replay.ReplayCache.Purge` | cmd/fwknopd/replay.go:64-71 | the loop over the entries deletes the expired ones and no others; the history is unchanged |
| `Server.LaterStanzasIrrelevant` | cmd/fwknopd/server.go:53-130 | stanzas after the first accepting one have no influence, whatever the gates say |
| `Server.DigestsEqualExactlyWhen` | cmd/fwknopd/server.go:91-98 | two packets count as the same if and only if their SHA-256 hashes are equal |
| `Server.DecidePacket` | cmd/fwknopd/server.go:52-133 | the loop returns the specified decision and leaves the specified replay history |
| `Server.JudgePacket` | cmd/fwknopd/server.go:78-130 | age, replay, username, source, test mode and dispatch in this order; recorded once past the replay check even if a later gate refuses |
| `Server.DispatchAction` | cmd/fwknopd/server.go:177-201 | commands need permission, rules an allowed port |
| `Server.ProcessSPAPacket` | cmd/fwknopd/server.go:52-133 | decision, replay history and rule manager after one packet, against the specifications of all three |
| `Server.OpenedTimeoutBounded` | cmd/fwknopd/actions.go:301-310 | an opened rule's timeout lies between 1 and the larger resolved setting exactly when `TimeoutTame`, which holds for all settings that are not negative |
| `ReplayRuns.GateIsServer` | cmd/fwknopd/server.go:82-98 | getting past the replay check, and being recorded, depends on digest, timestamp and clock readings only |
| `ReplayRuns.DatedByFirstAccepting` | cmd/fwknopd/server.go:82-83 | the timestamp that counts is the one the first accepting stanza decrypts |
| `ReplayRuns.TwoPasses` | cmd/fwknopd/server.go:82-98 | two passes i < j of one string satisfy dupNow(j) > addNow(i) + ttl and ageNow(j) <= ts + maxAge, with three clock readings each |
| `ReplayRuns.ServerTwoPasses` | cmd/fwknopd/server.go:82-98 | the two-pass inequalities for processSPAPacket itself, over any sequence of packets |
| `ReplayCount.NoAgeLimitNoProtection` | cmd/fwknopd/main.go:72-74 | with the age limit off, a string passes any number of times, one tick apart |
| `Malleable.KeylessDecryptsVariants` | fkospa/base64.go:17-23 | a stanza without an HMAC key reads the same message from every wire string that differs in line breaks only, at a length that is the same modulo 4 |
| `Malleable.KeyedRefusesBreaks` | fkospa/spa_decode.go:61-85 | a stanza with an HMAC key refuses every wire string that ends in a line break |
| `Rules.QuiescentMeansClosed` | cmd/fwknopd/actions.go:155-172 | under `Governed` policies, when nothing is pending, fired or in progress the firewall is empty |
| `Rules.OpenRuleWasRequested` | cmd/fwknopd/actions.go:120-152 | in every interleaving every open rule was requested |
| `Rules.LatestWasScheduled` | cmd/fwknopd/actions.go:242-258 | a key's latest deadline is the time of a Schedule step plus max(0, timeout) * 1000000000 ns, for one of its own requests |
| `Rules.TimerWasScheduled` | cmd/fwknopd/actions.go:242-258 | in every interleaving each timer, pending or fired, is due exactly that long after the Schedule step of its own request |
| `Rules.DueTimerCloses` | cmd/fwknopd/actions.go:155-172 | in every state of every run a timer that is due can close its rule: one copy or all of them gone, no other rule touched, the key forgotten |
| `Rules.ShutdownClosesTheTracked` | cmd/fwknopd/actions.go:199-224 | after an undisturbed shutdown no rule is open if and only if every open rule was tracked and its close command succeeded |
| `RulesLimits.FailedCloseLeaks` | cmd/fwknopd/actions.go:163-171 | a run in which a close command that fails, or is not configured, leaves a rule open for good |
| `RulesLimits.SecondCopyLeaks` | cmd/fwknopd/actions.go:124-151 | a run in which a second copy stays open for good, for every policy without a truthful check and with one-copy closes |
| `RulesLimits.OpenButUntracked` | cmd/fwknopd/actions.go:169-171 | a late delete makes the manager forget a newer rule, which shutdown then leaves open |
| `RulesLimits.TrackedButClosed` | cmd/fwknopd/actions.go:130-134 | a refresh racing with the old timer leaves a closed rule tracked |
| `ShutdownRuns.TrackedStepExactlyWhen` | cmd/fwknopd/actions.go:120-172 | a step loses track of an open rule if and only if it is a late delete: a CloseRule goroutine deleting the entry of a key that is open and not being scheduled |
| `ShutdownRuns.ShutdownAfterRun` | cmd/fwknopd/actions.go:199-224 | after an interleaved run without late deletes, with no rule just being scheduled, an undisturbed shutdown empties the firewall if and only if its close commands succeed |
| `ShutdownRuns.TrackedTimerStopped` | cmd/fwknopd/actions.go:200-207 | a timer that was tracked when an interleaved shutdown began never fires in the rest of it |
| `ShutdownRuns.ShutdownEmptiesExactlyWhen` | cmd/fwknopd/actions.go:199-231 | from every governed state, every completed interleaved shutdown during which nothing is opened empties the firewall if and only if every open rule is tracked |
| `ShutdownRuns.OpenedDuringShutdown` | cmd/fwknopd/actions.go:199-224 | a run in which a rule opened during shutdown stays open |
| `ShutdownRuns.JustOpenedSurvives` | cmd/fwknopd/actions.go:199-231 | a run after which a just opened rule survives a shutdown |
| `Actions.SerialRunsExact` | cmd/fwknopd/actions.go:120-258 | under those policies every run of operations that do not overlap keeps: tracked keys are the open rules, one pending timer each, due when last scheduled, no other timer |
| `Actions.ShutdownLeavesNothing` | cmd/fwknopd/actions.go:199-224 | from such a state shutdown leaves no rule open and no timer pending |
| `Actions.SerialIsInterleaved` | cmd/fwknopd/actions.go:120-258 | every non-overlapping run is one of the interleavings and ends in the same state |
| `Actions.ActionsManager.constructor` | cmd/fwknopd/actions.go:63-91 | a new manager tracks nothing |
| `Actions.ActionsManager.ScheduleClose` | cmd/fwknopd/actions.go:242-258 | stops the key's old timer, starts and tracks a new one, due after timeout * 1000000000 ns, at once if that is not positive |
| `Actions.ActionsManager.OpenRule` | cmd/fwknopd/actions.go:120-152 | the whole new state, with and without check and open command; failure reported exactly when a configured open command fails; exact tracking kept |
| `Actions.ActionsManager.CloseRule` | cmd/fwknopd/actions.go:155-172 | one close command and the key forgotten, whether or not the command succeeded |
| `Actions.ActionsManager.Expire` | cmd/fwknopd/actions.go:251-253 | a timer callback run to completion, exact tracking kept |
| `Actions.ActionsManager.StopTimers` | cmd/fwknopd/actions.go:200-207 | the copying loop stops the timer of every tracked rule and no other |
| `Actions.ActionsManager.CloseEach` | cmd/fwknopd/actions.go:209-224 | the closing loop runs one close command per tracked rule |
| `Actions.ActionsManager.Shutdown` | cmd/fwknopd/actions.go:199-231 | tracked timers stopped, tracked rules closed once each except where the close fails, tracking cleared, then the shutdown command run on what is left |
| `ServerRuns.RulesOfARun` | cmd/fwknopd/server.go:30-47 | every run of the daemon is, for the rule manager, one of its interleavings, so all its guarantees apply |
| `ServerRuns.LogOfARun` | cmd/fwknopd/server.go:30-47 | the replay history depends on the packets alone, however timers interleave |
| `ServerRuns.AuthorisedExactlyWhen` | cmd/fwknopd/server.go:52-133 | a packet of a run is authorised for a rule if and only if processSPAPacket opens that rule for it, against the replay history of that moment |
| `ServerRuns.TestModeOpensNothing` | cmd/fwknopd/server.go:119-122 | in test mode the firewall stays empty in every run |
| `ServerRuns.NoSecondPass` | cmd/fwknopd/server.go:82-98 | in every run of the daemon a string dated ts does not pass again when ts plus the lag of the later packet lies no later than the first pass, or ts plus the age limit before it |
| `ServerRuns.Serve` | cmd/fwknopd/server.go:30-47 | the receive loop cuts each datagram to the buffer and decides it against the history of those before it, until the first read error; the rule manager ends where those decisions take it |
| `EndToEnd.ConfiguredStanzaReads` | cmd/fwknopd/server.go:60-76 | a stanza configured like the client recovers the client's message in normal form exactly when it is faithful |

## Left out

- The insides of MD5, SHA, SHA3, HMAC and AES, Go's IP parser and printer, `unicode.IsPrint` and `strings.EqualFold`: parameters.
- The contents and success of rendered command templates: commands act on a multiset of rule keys, and an open command that fails is taken to have changed nothing. A rendering error of the open or the close template ends like a failed command; one of the check template, after which OpenRule returns without opening (cmd/fwknopd/actions.go:125-128), changes nothing and is no step of the model.
- `Validate`, `Init` and the template loading of the manager.
- `ExecuteCommand`: the decision to run a command, with its text and user, is modelled; running it is not.
- `Server.ProcessSPAPacket`: decides that a command is run, with its text and user, but does not run it; the nil replay cache and the nil manager that the source tolerates are left out, since `run` always passes both.
- `Rules.ShutdownClosesTheTracked`: shutdown as one step, up to the shutdown command; interleaved with the other threads, and with the shutdown command, it is in `ShutdownRuns`.
- `Actions.ActionsManager.Shutdown`: the manager's own state; what runs concurrently with it is in `ShutdownRuns`. There the shutdown command may remove any rules and adds none.
- `Actions.ActionsManager.OpenRule`: the object form covers operations that do not overlap; overlapping ones are the state machine of `Rules`.
- `ServerRuns.Serve`: timers that fire between packets are not steps of this loop; they are in the machine of the same module.
- `Message.Unix`: timestamps are nanoseconds with an int64 count of seconds; the wrap-around of Go's `time.Time` arithmetic near that limit and the saturation of `time.Duration` are not modelled.
- The stub AES modes and unknown modes: one error for all of them. Error texts: only the error kind is kept.
- The part of `resolve` that decodes keys and names, the parsing of source networks from text, YAML and CLI configuration, and the legacy configuration converter: they would only add easy members.
- UDP sockets, signals, PID files, logging, HTTP address resolution and key generation.
- Restoring an arbitrary received string by encoding what was decoded: the receiver ignores the version, surplus fields and unused base64 bits.
