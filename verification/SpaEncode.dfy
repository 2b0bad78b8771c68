/** The sender: fields, colon-joined text, digest, encryption, prefix stripping, HMAC. */
module SpaEncode {
  import opened Bytes
  import opened Crypto
  import opened Decimal
  import B64 = Base64
  import opened AesCbc
  import opened Message

  /** "3.0.0" */
  const VERSION: Text := [51, 46, 48, 46, 48]

  function RequiredFields(m: Message): (f: seq<Text>)
    ensures |f| == MIN_FIELDS
  {
    [m.randVal, B64.Encode(m.username), FormatInt(Unix(m.timestamp)), VERSION,
     FormatInt(EffectiveType(m)), B64.Encode(m.accessMsg)]
  }

  predicate WritesTimeout(m: Message) { m.clientTimeout > 0 && EffectiveType(m) != COMMAND }

  function OptionalFields(m: Message): (f: seq<Text>)
    ensures |f| <= MAX_FIELDS - MIN_FIELDS
  {
    NATField(m) + AuthField(m) + TimeoutField(m)
  }

  function NATField(m: Message): (f: seq<Text>)
    ensures |f| <= 1
  {
    if m.natAccess != [] then [B64.Encode(m.natAccess)] else []
  }

  function AuthField(m: Message): (f: seq<Text>)
    ensures |f| <= 1
  {
    if m.serverAuth != [] then [B64.Encode(m.serverAuth)] else []
  }

  function TimeoutField(m: Message): (f: seq<Text>)
    ensures |f| <= 1
  {
    if WritesTimeout(m) then [FormatInt(m.clientTimeout)] else []
  }

  function EncodedFields(m: Message): Text {
    Join(RequiredFields(m) + OptionalFields(m), COLON)
  }

  function DigestBase64(c: Primitives, digestType: int, data: Text): Result<Text> {
    if Supported(digestType) then Ok(B64.Encode(c.hash(digestType, data))) else Err(UnsupportedDigestType)
  }

  function HMACBase64(c: Primitives, hmacType: int, data: Text, key: Text): Result<Text> {
    if Supported(hmacType) then Ok(B64.Encode(c.mac(hmacType, data, key))) else Err(UnsupportedHMACType)
  }

  /** The plaintext as a whole: the joined fields, a colon and their digest. */
  function Plaintext(c: Primitives, p: Platform, m: Message): Result<Text> {
    match Validate(p, m)
    case Some(e) => Err(e)
    case None => WithDigest(c, m.digestType, EncodedFields(m))
  }

  function WithDigest(c: Primitives, digestType: int, body: Text): Result<Text> {
    if |body| < MIN_ENCODED || |body| > MAX_ENCODED then Err(MessageTooLarge)
    else
      var digest :- DigestBase64(c, digestType, body);
      Ok(body + [COLON] + digest)
  }

  lemma PlaintextShape(c: Primitives, p: Platform, m: Message)
    requires Plaintext(c, p, m).Ok?
    ensures Supported(m.digestType) && Validate(p, m) == None
    ensures Plaintext(c, p, m).value == EncodedFields(m) + [COLON] + B64.Encode(c.hash(m.digestType, EncodedFields(m)))
  {}

  lemma JoinSix(a: Text, b: Text, c: Text, d: Text, e: Text, f: Text)
    ensures Join([a, b, c, d, e, f], COLON)
      == a + [COLON] + b + [COLON] + c + [COLON] + d + [COLON] + e + [COLON] + f
  {
    JoinSnoc([a], b, COLON);
    JoinSnoc([a, b], c, COLON);
    JoinSnoc([a, b, c], d, COLON);
    JoinSnoc([a, b, c, d], e, COLON);
    JoinSnoc([a, b, c, d, e], f, COLON);
    assert [a] + [b] == [a, b];
    assert [a, b] + [c] == [a, b, c];
    assert [a, b, c] + [d] == [a, b, c, d];
    assert [a, b, c, d] + [e] == [a, b, c, d, e];
    assert [a, b, c, d, e] + [f] == [a, b, c, d, e, f];
  }

  /** The six fields every message has, appended to the builder one by one. */
  method WriteRequired(m: Message) returns (b: Text)
    ensures b == Join(RequiredFields(m), COLON)
  {
    b := m.randVal;
    b := b + [COLON] + B64.Encode(m.username);
    b := b + [COLON] + FormatInt(Unix(m.timestamp));
    b := b + [COLON] + VERSION;
    var msgType := EffectiveType(m);
    b := b + [COLON] + FormatInt(msgType);
    b := b + [COLON] + B64.Encode(m.accessMsg);
    JoinSix(m.randVal, B64.Encode(m.username), FormatInt(Unix(m.timestamp)), VERSION,
            FormatInt(msgType), B64.Encode(m.accessMsg));
  }

  lemma {:induction false} JoinMore(fields: seq<Text>, more: seq<Text>)
    requires fields != [] && |more| <= 1
    ensures Join(fields + more, COLON) == Join(fields, COLON) + if more == [] then [] else [58] + more[0]
  {
    if |more| == 1 {
      JoinSnoc(fields, more[0], COLON);
      assert more == [more[0]];
    } else {
      assert fields + more == fields;
    }
  }

  lemma TypeDigit(t: int)
    requires 0 <= t <= 6
    ensures FormatInt(t) == [48 + t]
  {}

  lemma RequiredText(m: Message)
    requires 0 <= m.messageType <= 6
    ensures Join(RequiredFields(m), COLON)
         == m.randVal + [58] + B64.Encode(m.username) + [58] + FormatInt(m.timestamp / 1_000_000_000)
            + [58] + [51, 46, 48, 46, 48] + [58] + [48 + EffectiveType(m)] + [58] + B64.Encode(m.accessMsg)
  {
    TypesByNumber(m);
    TypeDigit(EffectiveType(m));
    JoinSix(m.randVal, B64.Encode(m.username), FormatInt(Unix(m.timestamp)), VERSION,
            FormatInt(EffectiveType(m)), B64.Encode(m.accessMsg));
  }

  lemma OptionalText(m: Message, fields: seq<Text>)
    requires fields != []
    ensures Join(fields + OptionalFields(m), COLON)
         == Join(fields, COLON)
            + (if m.natAccess == [] then [] else [58] + B64.Encode(m.natAccess))
            + (if m.serverAuth == [] then [] else [58] + B64.Encode(m.serverAuth))
            + (if m.clientTimeout == 0 || m.messageType == 0 then [] else [58] + FormatNat(m.clientTimeout))
  {
    TypesByNumber(m);
    JoinMore(fields, NATField(m));
    JoinMore(fields + NATField(m), AuthField(m));
    JoinMore(fields + NATField(m) + AuthField(m), TimeoutField(m));
    InOrder(fields, NATField(m), AuthField(m), TimeoutField(m));
  }

  /** The text of a message as it is written, character by character. */
  lemma FieldsText(m: Message)
    requires 0 <= m.messageType <= 6
    ensures EncodedFields(m)
         == m.randVal + [58] + B64.Encode(m.username) + [58] + FormatInt(m.timestamp / 1_000_000_000)
            + [58] + [51, 46, 48, 46, 48] + [58] + [48 + EffectiveType(m)] + [58] + B64.Encode(m.accessMsg)
            + (if m.natAccess == [] then [] else [58] + B64.Encode(m.natAccess))
            + (if m.serverAuth == [] then [] else [58] + B64.Encode(m.serverAuth))
            + (if m.clientTimeout == 0 || m.messageType == 0 then [] else [58] + FormatNat(m.clientTimeout))
  {
    RequiredText(m);
    OptionalText(m, RequiredFields(m));
  }

  /** What Encode returns, with every error. */
  lemma EncodeOutcome(c: Primitives, p: Platform, m: Message)
    ensures Validate(p, m).Some? ==> Plaintext(c, p, m) == Err(Validate(p, m).value)
    ensures Validate(p, m) == None ==>
      var text := EncodedFields(m);
      Plaintext(c, p, m)
        == if !(36 <= |text| <= 1500) then Err(MessageTooLarge)
           else if !(1 <= m.digestType <= 7) then Err(UnsupportedDigestType)
           else Ok(text + [58] + B64.Encode(c.hash(m.digestType, text)))
  {}

  /** A colon and the field, if there is one. */
  method AppendField(written: Text, field: seq<Text>, ghost fields: seq<Text>) returns (b: Text)
    requires fields != [] && written == Join(fields, COLON) && |field| <= 1
    ensures b == Join(fields + field, COLON)
  {
    b := written;
    if |field| == 1 {
      JoinSnoc(fields, field[0], COLON);
      assert field == [field[0]];
      b := b + [COLON] + field[0];
    } else {
      assert fields + field == fields;
    }
  }

  lemma InOrder(fields: seq<Text>, a: seq<Text>, b: seq<Text>, c: seq<Text>)
    ensures fields + (a + b + c) == fields + a + b + c
  {}

  /** The optional fields, each under its own condition. */
  method WriteOptional(m: Message, written: Text, ghost fields: seq<Text>) returns (b: Text)
    requires fields != [] && written == Join(fields, COLON)
    ensures b == Join(fields + OptionalFields(m), COLON)
  {
    b := written;
    b := AppendField(b, NATField(m), fields);
    b := AppendField(b, AuthField(m), fields + NATField(m));
    b := AppendField(b, TimeoutField(m), fields + NATField(m) + AuthField(m));
    InOrder(fields, NATField(m), AuthField(m), TimeoutField(m));
  }

  /** Message.Encode. */
  method Encode(c: Primitives, p: Platform, m: Message) returns (r: Result<Text>)
    ensures r == Plaintext(c, p, m)
  {
    var invalid := Validate(p, m);
    if invalid.Some? {
      return Err(invalid.value);
    }
    var b := WriteRequired(m);
    b := WriteOptional(m, b, RequiredFields(m));
    var encodedMsg := b;
    if |encodedMsg| < MIN_ENCODED || |encodedMsg| > MAX_ENCODED {
      return Err(MessageTooLarge);
    }
    var digest :- DigestBase64(c, m.digestType, encodedMsg);
    return Ok(encodedMsg + [COLON] + digest);
  }

  /** The wire string for a given salt. */
  function Wire(c: Primitives, p: Platform, m: Message, encKey: Text, hmacKey: Text, salt: Text): Result<Text>
    requires c.Valid() && |salt| == SALT_LEN
  {
    var plaintext :- Plaintext(c, p, m);
    if !Implemented(m.encryptionMode) then Err(UnsupportedEncryptionMode)
    else
      Transmitted(c, plaintext, EffectivePassphrase(m.encryptionMode, encKey), m.hmacType, hmacKey, salt)
  }

  /** The sealed text without its constant prefix, and the HMAC of the text with it. */
  function Transmitted(c: Primitives, plaintext: Text, passphrase: Text, hmacType: int, hmacKey: Text, salt: Text)
    : Result<Text>
    requires c.Valid() && |salt| == SALT_LEN
  {
    var b64 := SealedBase64(c, plaintext, passphrase, salt);
    var stripped := b64[|B64.B64_SALT_PREFIX|..];
    if hmacKey == [] then Ok(stripped)
    else
      var hmac :- HMACBase64(c, hmacType, b64, hmacKey);
      Ok(stripped + hmac)
  }

  /** The base64 of the sealed plaintext: the constant prefix, then at least one character. */
  function SealedBase64(c: Primitives, plaintext: Text, passphrase: Text, salt: Text): (s: Text)
    requires c.Valid() && |salt| == SALT_LEN
    ensures B64.B64_SALT_PREFIX <= s && |s| > |B64.B64_SALT_PREFIX|
  {
    var sealed := Seal(c, plaintext, passphrase, salt);
    SealedHeader(c, plaintext, passphrase, salt);
    B64.SaltedPrefix(sealed[8..]);
    B64.Encode(sealed)
  }

  lemma SealedHeader(c: Primitives, plaintext: Text, passphrase: Text, salt: Text)
    requires c.Valid() && |salt| == SALT_LEN
    ensures var sealed := Seal(c, plaintext, passphrase, salt);
      |sealed| > 8 && sealed == B64.SALTED + sealed[8..]
  {}

  /** Message.Encrypt; the random salt is a parameter. */
  method Encrypt(c: Primitives, p: Platform, m: Message, encKey: Text, hmacKey: Text, salt: Text)
    returns (r: Result<Text>)
    requires c.Valid() && |salt| == SALT_LEN
    ensures r == Wire(c, p, m, encKey, hmacKey, salt)
  {
    var encoded := Encode(c, p, m);
    var plaintext :- encoded;
    var passphrase := encKey;
    if m.encryptionMode == MODE_CBC_LEGACY {
      passphrase := LegacyPadPassphrase(encKey);
    } else if m.encryptionMode != MODE_CBC {
      return Err(UnsupportedEncryptionMode);
    }
    var ciphertext := EncryptWithSalt(c, plaintext, passphrase, salt);
    var b64Ciphertext := B64.Encode(ciphertext);
    assert b64Ciphertext == SealedBase64(c, plaintext, passphrase, salt);
    var strippedCiphertext := b64Ciphertext[|B64.B64_SALT_PREFIX|..];
    if |hmacKey| == 0 {
      return Ok(strippedCiphertext);
    }
    var hmacB64 :- HMACBase64(c, m.hmacType, b64Ciphertext, hmacKey);
    return Ok(strippedCiphertext + hmacB64);
  }
}
