/** What survives encoding and decoding, exactly when it does, and how long the wire string is. */
module RoundTrip {
  import B64 = Base64
  import opened Bytes
  import opened Crypto
  import opened Decimal
  import opened AesCbc
  import opened Message
  import opened SpaEncode
  import opened SpaDecode

  // ---------- the text layer ----------

  /** The message a receiver can hope for: effective type, whole seconds, digest class, no command timeout,
      and no trace of the encryption settings. */
  function Normal(m: Message): Message {
    m.(timestamp := Unix(m.timestamp) * NANOS,
       messageType := EffectiveType(m),
       clientTimeout := if EffectiveType(m) == COMMAND then 0 else m.clientTimeout,
       digestType := DigestClass(m.digestType),
       encryptionMode := 0,
       hmacType := 0)
  }

  /** A ServerAuth whose base64 is all digits and fits a uint32 is read as the timeout. */
  predicate ReadsAsTimeout(auth: Text) { ParseUint(B64.Encode(auth), MAX_UINT32).Some? }

  /** The condition under which the fields come back. */
  predicate Faithful(m: Message) {
    && (m.natAccess == [] || RequiresNAT(m.messageType))
    && (m.serverAuth == [] || !ReadsAsTimeout(m.serverAuth))
  }

  /** `r` is `m` as far as a receiver can know it: dated in whole seconds, with the type a timeout gives it, no timeout
      on a command, a SHA3 digest taken for SHA2, and no encryption settings. */
  predicate Recovered(m: Message, r: Message) {
    && r.randVal == m.randVal && r.username == m.username && r.accessMsg == m.accessMsg
    && r.natAccess == m.natAccess && r.serverAuth == m.serverAuth
    && r.timestamp % 1_000_000_000 == 0 && r.timestamp <= m.timestamp < r.timestamp + 1_000_000_000
    && r.messageType == (if m.clientTimeout > 0 && m.messageType in {1, 2} then m.messageType + 2
                         else if m.clientTimeout > 0 && m.messageType == 5 then 6
                         else m.messageType)
    && r.clientTimeout == (if m.messageType == 0 then 0 else m.clientTimeout)
    && r.digestType == (if m.digestType == 6 then 3 else if m.digestType == 7 then 5 else m.digestType)
    && r.encryptionMode == 0 && r.hmacType == 0
  }

  lemma NormalExactlyWhen(m: Message, r: Message)
    ensures r == Normal(m) <==> Recovered(m, r)
  {
    TypesByNumber(m);
    WholeSeconds(m.timestamp, r.timestamp);
  }

  lemma WholeSeconds(t: Instant, r: int)
    ensures r == Unix(t) * 1_000_000_000 <==> r % 1_000_000_000 == 0 && r <= t < r + 1_000_000_000
  {
    if r % 1_000_000_000 == 0 {
      assert r == r / 1_000_000_000 * 1_000_000_000;
    }
  }

  /** The condition in the sender's terms: NAT access on the types that take it, and no authentication whose base64 is
      a number, however many zeros it starts with. */
  lemma FaithfulExactlyWhen(m: Message)
    ensures Faithful(m)
       <==> (m.natAccess == [] || m.messageType in {2, 4, 5, 6})
            && (m.serverAuth == [] || forall n: nat :: n <= 4_294_967_295 ==> !Denotes(B64.Encode(m.serverAuth), n))
  {
    var s := B64.Encode(m.serverAuth);
    if ReadsAsTimeout(m.serverAuth) {
      ParseUintExactlyWhen(s, MAX_UINT32, ParseUint(s, MAX_UINT32).value);
    }
    if n: nat :| n <= 4_294_967_295 && Denotes(s, n) {
      ParseUintExactlyWhen(s, MAX_UINT32, n);
    }
  }

  /** A field that is there is the timeout or else the authentication. */
  lemma FirstOption(field: Text, auth: Text, rest: seq<Text>)
    requires B64.Decode(field) == Some(auth)
    ensures ParseOptions([field] + rest) ==
      if ParseUint(field, MAX_UINT32).Some? then Ok(Tail([], [], ParseUint(field, MAX_UINT32).value))
      else if rest == [] then Ok(Tail([], auth, 0))
      else if ParseUint(rest[0], MAX_UINT32).None? then Err(InvalidData)
      else Ok(Tail([], auth, ParseUint(rest[0], MAX_UINT32).value))
  {}

  lemma TimeoutFieldParsed(m: Message)
    ensures TimeoutField(m) == [] <==> !WritesTimeout(m)
    ensures WritesTimeout(m) ==>
      |TimeoutField(m)| == 1 && ParseUint(TimeoutField(m)[0], MAX_UINT32) == Some(m.clientTimeout)
  {
    ParseUintFormat(m.clientTimeout, MAX_UINT32);
  }

  /** Authentication and timeout come back exactly when the authentication does not look like a number. */
  lemma OptionsParsed(m: Message)
    ensures ParseOptions(AuthField(m) + TimeoutField(m))
         == Ok(Tail([], m.serverAuth, if WritesTimeout(m) then m.clientTimeout else 0))
      <==> m.serverAuth == [] || !ReadsAsTimeout(m.serverAuth)
    ensures m.serverAuth != [] && ReadsAsTimeout(m.serverAuth) ==>
      ParseOptions(AuthField(m) + TimeoutField(m))
        == Ok(Tail([], [], ParseUint(B64.Encode(m.serverAuth), MAX_UINT32).value))
  {
    TimeoutFieldParsed(m);
    if m.serverAuth == [] {
      assert AuthField(m) + TimeoutField(m) == TimeoutField(m);
    } else {
      B64.RoundTrip(m.serverAuth);
      FirstOption(B64.Encode(m.serverAuth), m.serverAuth, TimeoutField(m));
    }
  }

  lemma ParseOptionsNoNAT(rest: seq<Text>)
    ensures ParseOptions(rest).Ok? ==> ParseOptions(rest).value.natAccess == []
  {}

  /** A NAT type comes with a NAT access string whenever the message is valid. */
  lemma TailParsed(m: Message)
    requires RequiresNAT(m.messageType) ==> m.natAccess != []
    ensures ParseTail(RequiresNAT(EffectiveType(m)), OptionalFields(m))
         == Ok(Tail(m.natAccess, m.serverAuth, if WritesTimeout(m) then m.clientTimeout else 0))
      <==> Faithful(m)
  {
    EffectiveTypeStable(m);
    OptionsParsed(m);
    if RequiresNAT(m.messageType) {
      NATTailParsed(m);
    } else {
      ParseOptionsNoNAT(OptionalFields(m));
      if m.natAccess == [] {
        assert OptionalFields(m) == AuthField(m) + TimeoutField(m);
      }
    }
  }

  /** On a type that takes no NAT access, the NAT access is read as the authentication or as the timeout. */
  lemma MisplacedNATAccess(m: Message)
    requires m.natAccess != [] && !RequiresNAT(m.messageType)
    ensures var r := ParseTail(RequiresNAT(EffectiveType(m)), OptionalFields(m));
      if ReadsAsTimeout(m.natAccess) then r == Ok(Tail([], [], ParseUint(B64.Encode(m.natAccess), MAX_UINT32).value))
      else if m.serverAuth == [] then r == Ok(Tail([], m.natAccess, if WritesTimeout(m) then m.clientTimeout else 0))
      else if ReadsAsTimeout(m.serverAuth)
      then r == Ok(Tail([], m.natAccess, ParseUint(B64.Encode(m.serverAuth), MAX_UINT32).value))
      else r == Err(InvalidData)
  {
    EffectiveTypeStable(m);
    B64.RoundTrip(m.natAccess);
    var rest := AuthField(m) + TimeoutField(m);
    assert OptionalFields(m) == [B64.Encode(m.natAccess)] + rest;
    FirstOption(B64.Encode(m.natAccess), m.natAccess, rest);
    TimeoutFieldParsed(m);
    if m.serverAuth != [] {
      assert rest[0] == B64.Encode(m.serverAuth);
    } else {
      assert rest == TimeoutField(m);
    }
  }

  lemma NATFirst(field: Text, nat_: Text, rest: seq<Text>)
    requires B64.Decode(field) == Some(nat_)
    ensures ParseTail(true, [field] + rest)
         == if ParseOptions(rest).Err? then Err(ParseOptions(rest).error)
            else Ok(ParseOptions(rest).value.(natAccess := nat_))
  {
    assert ([field] + rest)[1..] == rest;
  }

  lemma NATTailParsed(m: Message)
    requires m.natAccess != []
    ensures var options := ParseOptions(AuthField(m) + TimeoutField(m));
      ParseTail(true, OptionalFields(m))
        == if options.Err? then Err(options.error) else Ok(options.value.(natAccess := m.natAccess))
  {
    B64.RoundTrip(m.natAccess);
    assert OptionalFields(m) == [B64.Encode(m.natAccess)] + (AuthField(m) + TimeoutField(m));
    NATFirst(B64.Encode(m.natAccess), m.natAccess, AuthField(m) + TimeoutField(m));
  }

  predicate ColonFree(fields: seq<Text>) {
    forall i :: 0 <= i < |fields| ==> COLON !in fields[i]
  }

  lemma ColonFreeConcat(a: seq<Text>, b: seq<Text>)
    requires ColonFree(a) && ColonFree(b)
    ensures ColonFree(a + b)
  {}

  lemma OptionalColonFree(m: Message)
    ensures ColonFree(OptionalFields(m))
  {
    B64.NoColon(m.natAccess);
    B64.NoColon(m.serverAuth);
    FormatIntNoColon(m.clientTimeout);
    ColonFreeConcat(NATField(m), AuthField(m));
    ColonFreeConcat(NATField(m) + AuthField(m), TimeoutField(m));
  }

  lemma DigitsColonFree(s: Text)
    requires AllDigits(s)
    ensures COLON !in s
  {
    assert forall i :: 0 <= i < |s| ==> IsDigit(s[i]);
  }

  lemma RequiredColonFree(m: Message)
    requires AllDigits(m.randVal)
    ensures ColonFree(RequiredFields(m))
  {
    DigitsColonFree(m.randVal);
    B64.NoColon(m.username);
    FormatIntNoColon(Unix(m.timestamp));
    FormatIntNoColon(EffectiveType(m));
    B64.NoColon(m.accessMsg);
    assert COLON !in VERSION;
  }

  lemma FieldsColonFree(m: Message)
    requires AllDigits(m.randVal)
    ensures ColonFree(RequiredFields(m) + OptionalFields(m))
  {
    RequiredColonFree(m);
    OptionalColonFree(m);
    ColonFreeConcat(RequiredFields(m), OptionalFields(m));
  }

  /** Field by field, the parser inverts the printer exactly on faithful messages. */
  lemma FieldsParsed(m: Message, digestType: int)
    requires MIN_INT64 <= EffectiveType(m) <= MAX_INT64
    requires RequiresNAT(m.messageType) ==> m.natAccess != []
    ensures ParseFields(RequiredFields(m) + OptionalFields(m), digestType)
         == Ok(Normal(m).(digestType := digestType))
      <==> Faithful(m)
  {
    var fields := RequiredFields(m) + OptionalFields(m);
    B64.RoundTrip(m.username);
    B64.RoundTrip(m.accessMsg);
    ParseIntFormat(Unix(m.timestamp));
    ParseIntFormat(EffectiveType(m));
    FieldsLayout(m, fields);
    TailParsed(m);
    ParsedShape(m, fields, digestType);
  }

  lemma FieldsLayout(m: Message, fields: seq<Text>)
    requires fields == RequiredFields(m) + OptionalFields(m)
    ensures MIN_FIELDS <= |fields| <= MAX_FIELDS && fields[MIN_FIELDS..] == OptionalFields(m)
    ensures fields[0] == m.randVal && fields[1] == B64.Encode(m.username) && fields[5] == B64.Encode(m.accessMsg)
    ensures fields[2] == FormatInt(Unix(m.timestamp)) && fields[4] == FormatInt(EffectiveType(m))
  {}

  lemma ParsedShape(m: Message, fields: seq<Text>, digestType: int)
    requires MIN_FIELDS <= |fields| <= MAX_FIELDS
    requires fields[0] == m.randVal
    requires B64.Decode(fields[1]) == Some(m.username) && B64.Decode(fields[5]) == Some(m.accessMsg)
    requires ParseInt(fields[2]) == Some(Unix(m.timestamp)) && ParseInt(fields[4]) == Some(EffectiveType(m))
    ensures var tail := ParseTail(RequiresNAT(EffectiveType(m)), fields[MIN_FIELDS..]);
      ParseFields(fields, digestType) == if tail.Err? then Err(tail.error)
        else Ok(Normal(m).(digestType := digestType, natAccess := tail.value.natAccess,
                           serverAuth := tail.value.serverAuth, clientTimeout := tail.value.clientTimeout))
  {}

  /** A digest the sender computes is accepted under the type its length suggests. */
  lemma DigestAccepted(c: Primitives, t: int, body: Text)
    requires c.Valid() && Supported(t)
    ensures var digest := B64.Encode(c.hash(t, body));
      && DetectDigestType(|digest|) == Ok(DigestClass(t))
      && DigestMatches(c, body, digest, DigestClass(t))
  {
    LengthTables(c, t, body, []);
  }

  /** The last colon separates the body from a colon-free digest. */
  lemma DigestFound(c: Primitives, body: Text, digest: Text, t: int)
    requires COLON !in digest && DetectDigestType(|digest|) == Ok(t) && DigestMatches(c, body, digest, t)
    ensures Parse(c, body + [COLON] + digest) == ParseFields(Split(body, COLON), t)
  {
    var text := body + [COLON] + digest;
    assert text[..|body|] == body && text[|body|] == COLON && text[|body| + 1..] == digest;
    LastIndexUnique(text, COLON, |body|);
  }

  lemma FieldsFound(m: Message)
    requires AllDigits(m.randVal)
    ensures Split(EncodedFields(m), COLON) == RequiredFields(m) + OptionalFields(m)
  {
    FieldsColonFree(m);
    SplitJoin(RequiredFields(m) + OptionalFields(m), COLON);
  }

  /** Parsing the sender's plaintext is parsing its fields: the digest is found and verified. */
  lemma PlaintextParsed(c: Primitives, p: Platform, m: Message)
    requires c.Valid() && Plaintext(c, p, m).Ok?
    ensures Parse(c, Plaintext(c, p, m).value)
         == ParseFields(RequiredFields(m) + OptionalFields(m), DigestClass(m.digestType))
  {
    PlaintextShape(c, p, m);
    var body := EncodedFields(m);
    var digest := c.hash(m.digestType, body);
    B64.NoColon(digest);
    DigestAccepted(c, m.digestType, body);
    DigestFound(c, body, B64.Encode(digest), DigestClass(m.digestType));
    FieldsFound(m);
  }

  /** decodePlaintext inverts Encode, up to normalisation, exactly on faithful messages. */
  lemma DecodeEncode(c: Primitives, p: Platform, m: Message)
    requires c.Valid() && Plaintext(c, p, m).Ok?
    ensures Parse(c, Plaintext(c, p, m).value) == Ok(Normal(m)) <==> Faithful(m)
  {
    PlaintextParsed(c, p, m);
    EffectiveTypeStable(m);
    FieldsParsed(m, DigestClass(m.digestType));
  }

  // ---------- the wire layer ----------

  /** With an HMAC key exactly these wire strings carry a text: the text followed by its own HMAC. So each text has
      one wire string. */
  lemma AuthenticatedExactlyWhen(c: Primitives, wire: Text, hmacKey: Text, hmacType: int, text: Text)
    requires c.Valid() && hmacKey != []
    ensures CheckHMAC(c, wire, hmacKey, hmacType) == Ok(text)
       <==> Supported(hmacType) && text != []
            && wire == text + B64.Encode(c.mac(hmacType, B64.B64_SALT_PREFIX + text, hmacKey))
  {
    if Supported(hmacType) {
      var n := HmacB64Length(hmacType);
      LengthTables(c, hmacType, B64.B64_SALT_PREFIX + text, hmacKey);
      if |wire| > n {
        assert wire == wire[..|wire| - n] + wire[|wire| - n..];
      }
      if text != [] && wire == text + B64.Encode(c.mac(hmacType, B64.B64_SALT_PREFIX + text, hmacKey)) {
        CutBack(text, B64.Encode(c.mac(hmacType, B64.B64_SALT_PREFIX + text, hmacKey)), wire, n);
      }
    }
  }

  /** Whatever else a keyed receiver is sent it refuses, by the type's number; without a key there is no check. */
  lemma HMACOutcome(c: Primitives, wire: Text, hmacKey: Text, hmacType: int)
    requires c.Valid()
    ensures var r := CheckHMAC(c, wire, hmacKey, hmacType);
      if hmacKey == [] then r == Ok(wire)
      else if !(1 <= hmacType <= 7) then r == Err(UnsupportedHMACType)
      else r.Ok? || r == Err(HMACVerificationFailed)
  {}

  lemma CutBack(text: Text, hmac: Text, wire: Text, n: nat)
    requires wire == text + hmac && |hmac| == n
    ensures wire[..|wire| - n] == text && wire[|wire| - n..] == hmac
  {}

  /** Cutting the HMAC off and restoring the prefix gives the sender's base64 back. */
  lemma WireAccepted(c: Primitives, p: Platform, m: Message, encKey: Text, hmacKey: Text, salt: Text)
    requires c.Valid() && |salt| == SALT_LEN
    requires Wire(c, p, m, encKey, hmacKey, salt).Ok?
    ensures var b64 := SealedBase64(c, Plaintext(c, p, m).value, EffectivePassphrase(m.encryptionMode, encKey), salt);
      CheckHMAC(c, Wire(c, p, m, encKey, hmacKey, salt).value, hmacKey, m.hmacType) == Ok(b64[|B64.B64_SALT_PREFIX|..])
  {
    var b64 := SealedBase64(c, Plaintext(c, p, m).value, EffectivePassphrase(m.encryptionMode, encKey), salt);
    RestorePrefix(b64);
    if hmacKey != [] {
      AuthenticatedExactlyWhen(c, Wire(c, p, m, encKey, hmacKey, salt).value, hmacKey, m.hmacType,
                               b64[|B64.B64_SALT_PREFIX|..]);
    }
  }

  lemma RestorePrefix(b64: Text)
    requires B64.B64_SALT_PREFIX <= b64
    ensures B64.B64_SALT_PREFIX + b64[|B64.B64_SALT_PREFIX|..] == b64
  {}

  /** Decrypting what was encrypted is decoding what was encoded: for every message, salt, key, mode and HMAC
      type, the cryptographic layers cancel. */
  lemma DecryptEncrypt(c: Primitives, p: Platform, m: Message, encKey: Text, hmacKey: Text, salt: Text)
    requires c.Valid() && |salt| == SALT_LEN
    requires Wire(c, p, m, encKey, hmacKey, salt).Ok?
    ensures DecryptWire(c, Wire(c, p, m, encKey, hmacKey, salt).value, encKey, hmacKey,
                        DecryptConfig(m.encryptionMode, m.hmacType))
         == Parse(c, Plaintext(c, p, m).value)
  {
    var plaintext := Plaintext(c, p, m).value;
    var passphrase := EffectivePassphrase(m.encryptionMode, encKey);
    var b64 := SealedBase64(c, plaintext, passphrase, salt);
    RestorePrefix(b64);
    WireAccepted(c, p, m, encKey, hmacKey, salt);
    B64.RoundTrip(Seal(c, plaintext, passphrase, salt));
    UnsealSeal(c, plaintext, passphrase, salt);
  }

  /** The end-to-end law, in both directions. */
  lemma WireRoundTrip(c: Primitives, p: Platform, m: Message, encKey: Text, hmacKey: Text, salt: Text)
    requires c.Valid() && |salt| == SALT_LEN
    requires Wire(c, p, m, encKey, hmacKey, salt).Ok?
    ensures DecryptWire(c, Wire(c, p, m, encKey, hmacKey, salt).value, encKey, hmacKey,
                        DecryptConfig(m.encryptionMode, m.hmacType)) == Ok(Normal(m))
      <==> Faithful(m)
  {
    DecryptEncrypt(c, p, m, encKey, hmacKey, salt);
    DecodeEncode(c, p, m);
  }

  /** The same in the message's own fields: decrypting recovers the message if and only if it has NAT access on NAT
      types only and no authentication that is a number. */
  lemma MessageRecovered(c: Primitives, p: Platform, m: Message, encKey: Text, hmacKey: Text, salt: Text)
    requires c.Valid() && |salt| == SALT_LEN
    requires Wire(c, p, m, encKey, hmacKey, salt).Ok?
    ensures var r := DecryptWire(c, Wire(c, p, m, encKey, hmacKey, salt).value, encKey, hmacKey,
                                 DecryptConfig(m.encryptionMode, m.hmacType));
      r.Ok? && Recovered(m, r.value)
      <==> (m.natAccess == [] || m.messageType in {2, 4, 5, 6})
           && (m.serverAuth == [] || forall n: nat :: n <= 4_294_967_295 ==> !Denotes(B64.Encode(m.serverAuth), n))
  {
    var r := DecryptWire(c, Wire(c, p, m, encKey, hmacKey, salt).value, encKey, hmacKey,
                         DecryptConfig(m.encryptionMode, m.hmacType));
    WireRoundTrip(c, p, m, encKey, hmacKey, salt);
    if r.Ok? {
      NormalExactlyWhen(m, r.value);
    }
    FaithfulExactlyWhen(m);
  }

  /** The plaintext depends on the validity, the written fields and the digest type. */
  lemma SamePlaintext(c: Primitives, p: Platform, m: Message, n: Message)
    requires Validate(p, m) == Validate(p, n) && m.digestType == n.digestType
    requires RequiredFields(m) == RequiredFields(n) && OptionalFields(m) == OptionalFields(n)
    ensures Plaintext(c, p, m) == Plaintext(c, p, n)
  {
    assert EncodedFields(m) == EncodedFields(n);
  }

  lemma PlaintextIgnoresMode(c: Primitives, p: Platform, m: Message, n: Message)
    requires n == m.(encryptionMode := n.encryptionMode)
    ensures Plaintext(c, p, m) == Plaintext(c, p, n)
  {
    assert EffectiveType(m) == EffectiveType(n);
    SamePlaintext(c, p, m, n);
  }

  lemma SameWire(c: Primitives, p: Platform, m: Message, n: Message, encKey: Text,
                 encKey': Text, hmacKey: Text, salt: Text)
    requires c.Valid() && |salt| == SALT_LEN
    requires Plaintext(c, p, m) == Plaintext(c, p, n) && m.hmacType == n.hmacType
    requires Implemented(m.encryptionMode) && Implemented(n.encryptionMode)
    requires EffectivePassphrase(m.encryptionMode, encKey) == EffectivePassphrase(n.encryptionMode, encKey')
    ensures Wire(c, p, m, encKey, hmacKey, salt) == Wire(c, p, n, encKey', hmacKey, salt)
  {}

  lemma SameDecryption(c: Primitives, wire: Text, encKey: Text, encKey': Text, hmacKey: Text,
                       mode: int, mode': int, t: int)
    requires c.Valid() && Implemented(mode) && Implemented(mode')
    requires EffectivePassphrase(mode, encKey) == EffectivePassphrase(mode', encKey')
    ensures DecryptWire(c, wire, encKey, hmacKey, DecryptConfig(mode, t))
         == DecryptWire(c, wire, encKey', hmacKey, DecryptConfig(mode', t))
  {}

  /** Legacy mode is plain CBC mode under the padded passphrase, and legacy mode under the padded passphrase as well,
      for the sender and for the receiver. */
  lemma LegacyIsPaddedCbc(c: Primitives, p: Platform, m: Message, encKey: Text, hmacKey: Text, salt: Text,
                          wire: Text, hmacType: int)
    requires c.Valid() && |salt| == SALT_LEN && m.encryptionMode == MODE_CBC_LEGACY
    ensures Wire(c, p, m, encKey, hmacKey, salt)
         == Wire(c, p, m.(encryptionMode := MODE_CBC), LegacyPad(encKey), hmacKey, salt)
         == Wire(c, p, m, LegacyPad(encKey), hmacKey, salt)
    ensures DecryptWire(c, wire, encKey, hmacKey, DecryptConfig(MODE_CBC_LEGACY, hmacType))
         == DecryptWire(c, wire, LegacyPad(encKey), hmacKey, DecryptConfig(MODE_CBC, hmacType))
         == DecryptWire(c, wire, LegacyPad(encKey), hmacKey, DecryptConfig(MODE_CBC_LEGACY, hmacType))
  {
    var plain := m.(encryptionMode := MODE_CBC);
    PlaintextIgnoresMode(c, p, m, plain);
    SameWire(c, p, m, plain, encKey, LegacyPad(encKey), hmacKey, salt);
    SameDecryption(c, wire, encKey, LegacyPad(encKey), hmacKey, MODE_CBC_LEGACY, MODE_CBC, hmacType);
    LegacyIdempotent(encKey);
    SameWire(c, p, m, m, encKey, LegacyPad(encKey), hmacKey, salt);
    SameDecryption(c, wire, encKey, LegacyPad(encKey), hmacKey, MODE_CBC_LEGACY, MODE_CBC_LEGACY, hmacType);
  }

  // ---------- server authentication that looks like a number ----------

  /** Confusion needs a first byte in 208..247. */
  lemma ConfusableFirstByte(auth: Text)
    requires auth != [] && ReadsAsTimeout(auth)
    ensures 208 <= auth[0] <= 247
  {
    B64.EncodeShape(auth);
    var first := B64.Encode(auth)[0];
    assert first == B64.EncodeStd(auth)[0] == B64.Alphabet(auth[0] / 4);
    assert IsDigit(first);
  }

  /** So an authentication string starting in ASCII is never mistaken for a timeout. */
  lemma ASCIIAuthSafe(auth: Text)
    requires auth != [] && auth[0] < 128
    ensures !ReadsAsTimeout(auth)
  {
    if ReadsAsTimeout(auth) {
      ConfusableFirstByte(auth);
    }
  }

  /** The confusion is real: these two bytes encode to "120". */
  lemma ConfusableAuth()
    ensures B64.Encode([215, 109]) == [49, 50, 48]
    ensures ParseUint(B64.Encode([215, 109]), MAX_UINT32) == Some(120)
  {
    var d: Text := [215, 109];
    assert B64.EncodeStd(d) == [49, 50, 48, 61];
    B64.EncodeShape(d);
    var s := B64.Encode(d);
    assert s == [49, 50, 48];
    ValueOf120(s);
  }

  lemma ValueOf120(s: Text)
    requires s == [49, 50, 48]
    ensures AllDigits(s) && DigitsValue(s) == 120
  {
    var t, u := s[..2], s[..1];
    assert t[..1] == u && u[..0] == [];
    assert DigitsValue(u) == 1 && DigitsValue(t) == 12;
  }

  // ---------- normal forms ----------

  /** With an MD5, SHA1 or SHA2 digest the decoded message prints to the identical plaintext. */
  lemma NormalPrintsTheSame(c: Primitives, p: Platform, m: Message)
    requires Plaintext(c, p, m).Ok?
    requires m.digestType == DigestClass(m.digestType)
    ensures Plaintext(c, p, Normal(m)) == Plaintext(c, p, m)
    ensures Normal(Normal(m)) == Normal(m)
  {
    EffectiveTypeStable(m);
    var n := Normal(m);
    assert EffectiveType(n) == EffectiveType(m);
    assert Unix(n.timestamp) == Unix(m.timestamp);
    assert RequiredFields(n) == RequiredFields(m);
    assert WritesTimeout(n) == WritesTimeout(m);
    assert OptionalFields(n) == OptionalFields(m);
    assert Validate(p, n) == Validate(p, m);
    SamePlaintext(c, p, n, m);
  }

  /** Encode, decode, encode again: the same string. */
  lemma EncodeDecodeEncode(c: Primitives, p: Platform, m: Message)
    requires c.Valid() && Plaintext(c, p, m).Ok?
    requires Faithful(m) && m.digestType == DigestClass(m.digestType)
    ensures var decoded := Parse(c, Plaintext(c, p, m).value);
      decoded.Ok? && Plaintext(c, p, decoded.value) == Plaintext(c, p, m)
  {
    DecodeEncode(c, p, m);
    NormalPrintsTheSame(c, p, m);
  }
}
