/** The receiver: HMAC split, prefix restoration, decryption, digest check, field parsing. */
module SpaDecode {
  import opened Bytes
  import opened Crypto
  import opened Decimal
  import B64 = Base64
  import opened AesCbc
  import opened Message
  import opened SpaEncode

  const MD5_B64 := 22
  const SHA1_B64 := 27
  const SHA256_B64 := 43
  const SHA384_B64 := 64
  const SHA512_B64 := 86

  /** Base64 length of each HMAC type; 0 for unknown ones. */
  function HmacB64Length(t: int): (n: nat)
    ensures n <= SHA512_B64
    ensures Supported(t) ==> n >= MD5_B64
  {
    if t == MD5 then MD5_B64
    else if t == SHA1 then SHA1_B64
    else if t == SHA256 || t == SHA3_256 then SHA256_B64
    else if t == SHA384 then SHA384_B64
    else if t == SHA512 || t == SHA3_512 then SHA512_B64
    else 0
  }

  function DetectDigestType(length: nat): Result<int> {
    if length == MD5_B64 then Ok(MD5)
    else if length == SHA1_B64 then Ok(SHA1)
    else if length == SHA256_B64 then Ok(SHA256)
    else if length == SHA384_B64 then Ok(SHA384)
    else if length == SHA512_B64 then Ok(SHA512)
    else Err(UnsupportedDigestType)
  }

  /** SHA3 digests are as long as their SHA2 twins, and are taken for them. */
  function DigestClass(t: int): int {
    if t == SHA3_256 then SHA256 else if t == SHA3_512 then SHA512 else t
  }

  /** Both length tables agree with the lengths that base64 really produces. */
  lemma LengthTables(c: Primitives, t: int, data: Text, key: Text)
    requires c.Valid() && Supported(t)
    ensures |B64.Encode(c.mac(t, data, key))| == HmacB64Length(t) > 0
    ensures |B64.Encode(c.hash(t, data))| == HmacB64Length(t)
    ensures DetectDigestType(HmacB64Length(t)) == Ok(DigestClass(t))
    ensures HmacB64Length(t) == [22, 27, 43, 64, 86, 43, 86][t - 1]
  {
    LengthByNumber(t);
    B64.EncodeShape(c.mac(t, data, key));
    B64.EncodeShape(c.hash(t, data));
    EncodedLength(t);
  }

  lemma LengthByNumber(t: int)
    requires Supported(t)
    ensures HmacB64Length(t) == [22, 27, 43, 64, 86, 43, 86][t - 1]
  {}

  lemma EncodedLength(t: int)
    requires Supported(t)
    ensures (4 * RawLength(t) + 2) / 3 == HmacB64Length(t)
    ensures DetectDigestType(HmacB64Length(t)) == Ok(DigestClass(t))
  {}

  /** verifyDigest, with its second try against the SHA3 twin. */
  predicate DigestMatches(c: Primitives, body: Text, digest: Text, t: int) {
    || DigestBase64(c, t, body) == Ok(digest)
    || (t == SHA256 && DigestBase64(c, SHA3_256, body) == Ok(digest))
    || (t == SHA512 && DigestBase64(c, SHA3_512, body) == Ok(digest))
  }

  // ---------- field parsing ----------

  datatype Tail = Tail(natAccess: Text, serverAuth: Text, clientTimeout: UInt32)

  /** [auth] [timeout], where a field that reads as a uint32 is the timeout and ends the parse. */
  function ParseOptions(rest: seq<Text>): Result<Tail> {
    if rest == [] then Ok(Tail([], [], 0))
    else
      match ParseUint(rest[0], MAX_UINT32)
      case Some(timeout) => Ok(Tail([], [], timeout))
      case None =>
        match B64.Decode(rest[0])
        case None => Err(InvalidData)
        case Some(auth) =>
          if |rest| == 1 then Ok(Tail([], auth, 0))
          else
            match ParseUint(rest[1], MAX_UINT32)
            case None => Err(InvalidData)
            case Some(timeout) => Ok(Tail([], auth, timeout))
  }

  function ParseTail(isNAT: bool, tail: seq<Text>): Result<Tail> {
    if !isNAT || tail == [] then ParseOptions(tail)
    else
      match B64.Decode(tail[0])
      case None => Err(InvalidData)
      case Some(nat_) =>
        var options :- ParseOptions(tail[1..]);
        Ok(options.(natAccess := nat_))
  }

  function OrInvalid<T>(o: Option<T>): Result<T> {
    match o
    case None => Err(InvalidData)
    case Some(v) => Ok(v)
  }

  function ParseFields(fields: seq<Text>, digestType: int): Result<Message> {
    if |fields| < MIN_FIELDS || |fields| > MAX_FIELDS then Err(InvalidData)
    else
      var username :- OrInvalid(B64.Decode(fields[1]));
      var seconds: int :- OrInvalid(ParseInt(fields[2]));
      var messageType: int :- OrInvalid(ParseInt(fields[4]));
      var accessMsg :- OrInvalid(B64.Decode(fields[5]));
      var tail :- ParseTail(RequiresNAT(messageType), fields[MIN_FIELDS..]);
      ParseIntRange(fields[2]);
      Ok(Message(fields[0], username, seconds * NANOS, messageType, accessMsg,
                 tail.natAccess, tail.serverAuth, tail.clientTimeout, digestType, 0, 0))
  }

  /** Exactly these field lists are read, and as exactly this message; for all others there is one error. */
  lemma FieldsReadExactlyWhen(fields: seq<Text>, digestType: int, m: Message)
    ensures ParseFields(fields, digestType) == Ok(m)
       <==> && 6 <= |fields| <= 9 && fields[0] == m.randVal
            && B64.Decode(fields[1]) == Some(m.username) && B64.Decode(fields[5]) == Some(m.accessMsg)
            && ParseInt(fields[2]) == Some(m.timestamp / 1_000_000_000) && m.timestamp % 1_000_000_000 == 0
            && ParseInt(fields[4]) == Some(m.messageType)
            && ParseTail(m.messageType in {2, 4, 5, 6}, fields[6..])
               == Ok(Tail(m.natAccess, m.serverAuth, m.clientTimeout))
            && m.digestType == digestType && m.encryptionMode == 0 && m.hmacType == 0
    ensures ParseFields(fields, digestType).Err? ==> ParseFields(fields, digestType) == Err(InvalidData)
  {
    TypesByNumber(m);
    if 6 <= |fields| && ParseInt(fields[2]).Some? {
      ParseIntRange(fields[2]);
      ReadSeconds(ParseInt(fields[2]).value, m.timestamp);
    }
    if |fields| >= 6 {
      TailErrors(RequiresNAT(m.messageType), fields[6..]);
    }
  }

  lemma ReadSeconds(s: int, t: int)
    ensures s * 1_000_000_000 == t <==> s == t / 1_000_000_000 && t % 1_000_000_000 == 0
  {}

  lemma TailErrors(isNAT: bool, tail: seq<Text>)
    ensures ParseTail(isNAT, tail).Err? ==> ParseTail(isNAT, tail) == Err(InvalidData)
  {}

  lemma ParseIntRange(s: Text)
    ensures ParseInt(s).Some? ==> MIN_INT64 <= ParseInt(s).value <= MAX_INT64
  {}

  function Parse(c: Primitives, plaintext: Text): Result<Message> {
    var lastColon := LastIndexOf(plaintext, COLON);
    if lastColon < 0 then Err(InvalidData)
    else
      var digest, body := plaintext[lastColon + 1..], plaintext[..lastColon];
      var digestType :- DetectDigestType(|digest|);
      if !DigestMatches(c, body, digest, digestType) then Err(DigestVerificationFailed)
      else ParseFields(Split(body, COLON), digestType)
  }

  /** A digest is accepted exactly when it is one of the seven of this body. */
  lemma DigestExactlyWhen(c: Primitives, body: Text, digest: Text, t: int)
    requires c.Valid() && DetectDigestType(|digest|) == Ok(t)
    ensures DigestMatches(c, body, digest, t) <==> exists a :: 1 <= a <= 7 && digest == B64.Encode(c.hash(a, body))
  {
    if a :| 1 <= a <= 7 && digest == B64.Encode(c.hash(a, body)) {
      LengthTables(c, a, body, []);
    }
  }

  /** The digest decides about every received text: an unknown length and a wrong digest are told apart, and only a
      digest of the text before the last colon lets the fields be read. */
  lemma DigestDecides(c: Primitives, body: Text, digest: Text)
    requires c.Valid() && 58 !in digest
    ensures var r := Parse(c, body + [58] + digest);
      if |digest| !in {22, 27, 43, 64, 86} then r == Err(UnsupportedDigestType)
      else if !exists a :: 1 <= a <= 7 && digest == B64.Encode(c.hash(a, body)) then r == Err(DigestVerificationFailed)
      else r == ParseFields(Split(body, 58), if |digest| == 22 then 1 else if |digest| == 27 then 2
                                             else if |digest| == 43 then 3 else if |digest| == 64 then 4 else 5)
    ensures Parse(c, digest) == Err(InvalidData)
  {
    var text := body + [58] + digest;
    assert text[..|body|] == body && text[|body|] == 58 && text[|body| + 1..] == digest;
    LastIndexUnique(text, COLON, |body|);
    if DetectDigestType(|digest|).Ok? {
      DigestExactlyWhen(c, body, digest, DetectDigestType(|digest|).value);
    }
  }

  function DigestError(c: Primitives, body: Text, digest: Text, t: int): Option<SpaError> {
    if !Supported(t) then Some(UnsupportedDigestType)
    else if DigestMatches(c, body, digest, t) then None
    else Some(DigestVerificationFailed)
  }

  /** verifyDigest; None when the digest is right. */
  method VerifyDigest(c: Primitives, encodedMsg: Text, expected: Text, digestType: int) returns (failed: Option<SpaError>)
    ensures failed == DigestError(c, encodedMsg, expected, digestType)
  {
    var computed := DigestBase64(c, digestType, encodedMsg);
    if computed.Err? {
      return Some(computed.error);
    }
    if computed.value == expected {
      return None;
    }
    if digestType == SHA256 {
      computed := DigestBase64(c, SHA3_256, encodedMsg);
      if computed.value == expected {
        return None;
      }
    } else if digestType == SHA512 {
      computed := DigestBase64(c, SHA3_512, encodedMsg);
      if computed.value == expected {
        return None;
      }
    }
    return Some(DigestVerificationFailed);
  }

  /** decodePlaintext: the message is filled field by field while `idx` walks over the optional ones. */
  method DecodePlaintext(c: Primitives, plaintext: Text) returns (r: Result<Message>)
    ensures r == Parse(c, plaintext)
  {
    var lastColon := LastIndexOf(plaintext, COLON);
    if lastColon < 0 {
      return Err(InvalidData);
    }
    var digest := plaintext[lastColon + 1..];
    var encodedMsg := plaintext[..lastColon];
    var digestType :- DetectDigestType(|digest|);
    var failed := VerifyDigest(c, encodedMsg, digest, digestType);
    if failed.Some? {
      return Err(failed.value);
    }
    var fields := Split(encodedMsg, COLON);
    r := FillFields(fields, digestType);
  }

  method FillFields(fields: seq<Text>, digestType: int) returns (r: Result<Message>)
    ensures r == ParseFields(fields, digestType)
  {
    var numFields := |fields|;
    if numFields < MIN_FIELDS || numFields > MAX_FIELDS {
      return Err(InvalidData);
    }
    var m := Message([], [], 0, 0, [], [], [], 0, digestType, 0, 0);
    m := m.(randVal := fields[0]);
    var username :- OrInvalid(B64.Decode(fields[1]));
    m := m.(username := username);
    var ts: int :- OrInvalid(ParseInt(fields[2]));
    ParseIntRange(fields[2]);
    m := m.(timestamp := ts * NANOS);
    var mt: int :- OrInvalid(ParseInt(fields[4]));
    m := m.(messageType := mt);
    var accessMsg :- OrInvalid(B64.Decode(fields[5]));
    m := m.(accessMsg := accessMsg);

    ghost var tail := fields[MIN_FIELDS..];
    var idx := MIN_FIELDS;
    if idx < numFields && RequiresNAT(m.messageType) {
      var natAccess :- OrInvalid(B64.Decode(fields[idx]));
      m := m.(natAccess := natAccess);
      idx := idx + 1;
    }
    ghost var rest := fields[idx..];
    assert rest == if RequiresNAT(mt) && tail != [] then tail[1..] else tail;
    if idx < numFields {
      var timeout := ParseUint(fields[idx], MAX_UINT32);
      if timeout.Some? {
        m := m.(clientTimeout := timeout.value);
        idx := idx + 1;
      } else {
        var auth :- OrInvalid(B64.Decode(fields[idx]));
        m := m.(serverAuth := auth);
        idx := idx + 1;
        if idx < numFields {
          assert rest[1] == fields[idx];
          var late: int :- OrInvalid(ParseUint(fields[idx], MAX_UINT32));
          m := m.(clientTimeout := late);
        }
      }
    }
    return Ok(m);
  }

  // ---------- decryption ----------

  datatype DecryptOption = WithMode(mode: int) | WithHMACType(hmacType: int)
  datatype DecryptConfig = DecryptConfig(encMode: int, hmacType: int)

  const DEFAULT_CONFIG := DecryptConfig(MODE_CBC, SHA256)

  function ApplyOptions(opts: seq<DecryptOption>): DecryptConfig {
    if opts == [] then DEFAULT_CONFIG
    else
      var cfg := ApplyOptions(opts[..|opts| - 1]);
      match opts[|opts| - 1]
      case WithMode(mode) => cfg.(encMode := mode)
      case WithHMACType(t) => cfg.(hmacType := t)
  }

  /** Without options the mode is CBC and the HMAC type SHA-256, and each option changes its own setting. */
  lemma LastOptionWins(opts: seq<DecryptOption>, o: DecryptOption)
    ensures ApplyOptions([]) == DecryptConfig(2, 3)
    ensures var cfg, next := ApplyOptions(opts), ApplyOptions(opts + [o]);
      match o
      case WithMode(mode) => next == DecryptConfig(mode, cfg.hmacType)
      case WithHMACType(t) => next == DecryptConfig(cfg.encMode, t)
  {
    assert (opts + [o])[..|opts|] == opts;
  }

  /** The stripped ciphertext, once the HMAC that ends the wire string has been checked. */
  function CheckHMAC(c: Primitives, wire: Text, hmacKey: Text, hmacType: int): Result<Text> {
    var n := HmacB64Length(hmacType);
    if hmacKey == [] then Ok(wire)
    else if n == 0 then Err(UnsupportedHMACType)
    else if |wire| <= n then Err(HMACVerificationFailed)
    else
      var stripped, hmac := wire[..|wire| - n], wire[|wire| - n..];
      var computed := HMACBase64(c, hmacType, B64.B64_SALT_PREFIX + stripped, hmacKey);
      if computed == Ok(hmac) then Ok(stripped)
      else if computed.Err? then Err(UnsupportedHMACType)
      else Err(HMACVerificationFailed)
  }

  function DecryptWire(c: Primitives, wire: Text, encKey: Text, hmacKey: Text, cfg: DecryptConfig): Result<Message>
    requires c.Valid()
  {
    var stripped :- CheckHMAC(c, wire, hmacKey, cfg.hmacType);
    match B64.Decode(B64.B64_SALT_PREFIX + stripped)
    case None => Err(DecryptionFailed)
    case Some(ciphertext) =>
      if !Implemented(cfg.encMode) then Err(UnsupportedEncryptionMode)
      else
        var plaintext :- Unseal(c, ciphertext, EffectivePassphrase(cfg.encMode, encKey));
        Parse(c, plaintext)
  }

  /** Decrypt: options are applied in order over the defaults. */
  method Decrypt(c: Primitives, spaData: Text, encKey: Text, hmacKey: Text, opts: seq<DecryptOption>)
    returns (r: Result<Message>)
    requires c.Valid()
    ensures r == DecryptWire(c, spaData, encKey, hmacKey, ApplyOptions(opts))
  {
    var cfg := DEFAULT_CONFIG;
    for i := 0 to |opts|
      invariant cfg == ApplyOptions(opts[..i])
    {
      assert opts[..i + 1][..i] == opts[..i];
      match opts[i] {
        case WithMode(mode) => cfg := cfg.(encMode := mode);
        case WithHMACType(t) => cfg := cfg.(hmacType := t);
      }
    }
    assert opts[..|opts|] == opts;
    var b64WithPrefix := B64.B64_SALT_PREFIX + spaData;
    if |hmacKey| > 0 {
      var hmacLen := HmacB64Length(cfg.hmacType);
      if hmacLen == 0 {
        return Err(UnsupportedHMACType);
      }
      if |spaData| <= hmacLen {
        return Err(HMACVerificationFailed);
      }
      var strippedCiphertext := spaData[..|spaData| - hmacLen];
      var hmacFromData := spaData[|spaData| - hmacLen..];
      var fullB64 := B64.B64_SALT_PREFIX + strippedCiphertext;
      var computedHMAC := HMACBase64(c, cfg.hmacType, fullB64, hmacKey);
      if computedHMAC != Ok(hmacFromData) {
        return Err(if computedHMAC.Err? then UnsupportedHMACType else HMACVerificationFailed);
      }
      b64WithPrefix := fullB64;
    }
    var ciphertext := B64.Decode(b64WithPrefix);
    if ciphertext.None? {
      return Err(DecryptionFailed);
    }
    var passphrase := encKey;
    if cfg.encMode == MODE_CBC_LEGACY {
      passphrase := LegacyPadPassphrase(encKey);
    } else if cfg.encMode != MODE_CBC {
      return Err(UnsupportedEncryptionMode);
    }
    var decrypted := DecryptSalted(c, ciphertext.value, passphrase);
    var plaintext :- decrypted;
    r := DecodePlaintext(c, plaintext);
  }
}
