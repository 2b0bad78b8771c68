/** The exact length of the wire string, and which messages reach the server's buffer whole. */
module WireLength {
  import B64 = Base64
  import opened Bytes
  import opened Crypto
  import opened Decimal
  import opened AesCbc
  import opened Message
  import opened SpaEncode
  import opened SpaDecode

  const BUFFER_SIZE := 1500

  /** ReadFromUDP keeps what fits the buffer. */
  function Received(datagram: Text): (r: Text)
    ensures r <= datagram && |r| == if |datagram| <= 1500 then |datagram| else 1500
  {
    if |datagram| <= BUFFER_SIZE then datagram else datagram[..BUFFER_SIZE]
  }

  function TotalLength(parts: seq<Text>): nat {
    if parts == [] then 0 else |parts[0]| + TotalLength(parts[1..])
  }

  lemma {:induction false} TotalLengthAppend(a: seq<Text>, b: seq<Text>)
    ensures TotalLength(a + b) == TotalLength(a) + TotalLength(b)
  {
    if a == [] {
      assert a + b == b;
    } else {
      assert (a + b)[1..] == a[1..] + b;
      TotalLengthAppend(a[1..], b);
    }
  }

  lemma {:induction false} JoinLength(parts: seq<Text>, sep: Byte)
    requires parts != []
    ensures |Join(parts, sep)| == TotalLength(parts) + |parts| - 1
  {
    if |parts| > 1 {
      JoinLength(parts[1..], sep);
    } else {
      assert parts[1..] == [];
    }
  }

  /** Base64 length of n bytes. */
  function B64Length(n: nat): nat { (4 * n + 2) / 3 }

  /** Length of the optional part, separators included. */
  function OptionalLength(m: Message): nat {
    (if m.natAccess != [] then 1 + B64Length(|m.natAccess|) else 0)
    + (if m.serverAuth != [] then 1 + B64Length(|m.serverAuth|) else 0)
    + (if WritesTimeout(m) then 1 + |FormatInt(m.clientTimeout)| else 0)
  }

  function RequiredLength(m: Message): nat {
    |m.randVal| + B64Length(|m.username|) + |FormatInt(Unix(m.timestamp))| + |VERSION|
    + |FormatInt(EffectiveType(m))| + B64Length(|m.accessMsg|) + 5
  }

  lemma RequiredFieldsLength(m: Message)
    ensures TotalLength(RequiredFields(m)) + 5 == RequiredLength(m)
  {
    B64.EncodeShape(m.username);
    B64.EncodeShape(m.accessMsg);
    var f := RequiredFields(m);
    assert f == [f[0], f[1], f[2], f[3], f[4], f[5]];
    SixLength(f[0], f[1], f[2], f[3], f[4], f[5]);
  }

  lemma SixLength(a: Text, b: Text, c: Text, d: Text, e: Text, f: Text)
    ensures TotalLength([a, b, c, d, e, f]) == |a| + |b| + |c| + |d| + |e| + |f|
  {
    SingletonLength(f);
    assert [e, f][1..] == [f];
    assert [d, e, f][1..] == [e, f];
    assert [c, d, e, f][1..] == [d, e, f];
    assert [b, c, d, e, f][1..] == [c, d, e, f];
    assert [a, b, c, d, e, f][1..] == [b, c, d, e, f];
    assert TotalLength([d, e, f]) == |d| + |e| + |f|;
    assert TotalLength([b, c, d, e, f]) == |b| + |c| + |d| + |e| + |f|;
  }

  lemma SingletonLength(t: Text)
    ensures TotalLength([t]) == |t| && TotalLength([]) == 0
  {
    assert [t][1..] == [];
  }

  lemma OptionalFieldsLength(m: Message)
    ensures TotalLength(OptionalFields(m)) + |OptionalFields(m)| == OptionalLength(m)
  {
    B64.EncodeShape(m.natAccess);
    B64.EncodeShape(m.serverAuth);
    SingletonLength(B64.Encode(m.natAccess));
    SingletonLength(B64.Encode(m.serverAuth));
    SingletonLength(FormatInt(m.clientTimeout));
    TotalLengthAppend(NATField(m) + AuthField(m), TimeoutField(m));
    TotalLengthAppend(NATField(m), AuthField(m));
  }

  lemma EncodedLength(m: Message)
    ensures |EncodedFields(m)| == RequiredLength(m) + OptionalLength(m)
  {
    RequiredFieldsLength(m);
    OptionalFieldsLength(m);
    TotalLengthAppend(RequiredFields(m), OptionalFields(m));
    JoinLength(RequiredFields(m) + OptionalFields(m), COLON);
  }

  /** Padding to whole blocks, sixteen header bytes, base64, minus the dropped prefix. */
  function StrippedLength(plaintext: nat): nat {
    B64Length(16 + 16 * (plaintext / 16 + 1)) - 10
  }

  function HMACLength(hmacKey: Text, hmacType: int): (n: nat)
    ensures n <= SHA512_B64
  {
    if hmacKey == [] then 0 else HmacB64Length(hmacType)
  }

  /** Sealing pads to the next whole block and adds the header. */
  lemma SealLength(c: Primitives, plaintext: Text, passphrase: Text, salt: Text)
    requires c.Valid() && |salt| == SALT_LEN
    ensures |Seal(c, plaintext, passphrase, salt)| == 16 + 16 * (|plaintext| / 16 + 1)
  {}

  lemma WireLength(c: Primitives, p: Platform, m: Message, encKey: Text, hmacKey: Text, salt: Text)
    requires c.Valid() && |salt| == SALT_LEN
    requires Wire(c, p, m, encKey, hmacKey, salt).Ok?
    ensures |Wire(c, p, m, encKey, hmacKey, salt).value|
         == StrippedLength(|Plaintext(c, p, m).value|) + HMACLength(hmacKey, m.hmacType)
  {
    var plaintext, passphrase := Plaintext(c, p, m).value, EffectivePassphrase(m.encryptionMode, encKey);
    var sealed := Seal(c, plaintext, passphrase, salt);
    SealLength(c, plaintext, passphrase, salt);
    B64.EncodeShape(sealed);
    var b64 := SealedBase64(c, plaintext, passphrase, salt);
    assert b64 == B64.Encode(sealed);
    if hmacKey != [] {
      LengthTables(c, m.hmacType, b64, hmacKey);
    }
  }

  lemma PlaintextLength(c: Primitives, p: Platform, m: Message)
    requires c.Valid() && Plaintext(c, p, m).Ok?
    ensures |Plaintext(c, p, m).value| == RequiredLength(m) + OptionalLength(m) + 1 + HmacB64Length(m.digestType)
  {
    PlaintextShape(c, p, m);
    EncodedLength(m);
    LengthTables(c, m.digestType, EncodedFields(m), []);
  }

  /** The number of plaintext bytes that still fit one datagram buffer, given the HMAC's length. */
  function PlaintextLimit(hmac: nat): int {
    16 * (((4530 - 3 * hmac) / 4 - 16) / 16)
  }

  lemma StrippedFits(n: nat, hmac: nat)
    requires hmac <= SHA512_B64
    ensures StrippedLength(n) + hmac <= BUFFER_SIZE <==> n < PlaintextLimit(hmac)
  {}

  /** A packet is read whole exactly when its plaintext is below the limit. */
  lemma FitsExactlyWhen(c: Primitives, p: Platform, m: Message, encKey: Text, hmacKey: Text, salt: Text)
    requires c.Valid() && |salt| == SALT_LEN
    requires Wire(c, p, m, encKey, hmacKey, salt).Ok?
    ensures |Wire(c, p, m, encKey, hmacKey, salt).value| <= BUFFER_SIZE
       <==> |Plaintext(c, p, m).value| < PlaintextLimit(HMACLength(hmacKey, m.hmacType))
  {
    WireLength(c, p, m, encKey, hmacKey, salt);
    StrippedFits(|Plaintext(c, p, m).value|, HMACLength(hmacKey, m.hmacType));
  }

  /** Access requests always fit: at most 1100 characters, whatever the digest, the HMAC and the mode. */
  lemma AccessRequestsFit(c: Primitives, p: Platform, m: Message, encKey: Text, hmacKey: Text, salt: Text)
    requires c.Valid() && |salt| == SALT_LEN
    requires Wire(c, p, m, encKey, hmacKey, salt).Ok?
    requires m.messageType != COMMAND && m.serverAuth == []
    requires m.natAccess == [] || RequiresNAT(m.messageType)
    ensures |Wire(c, p, m, encKey, hmacKey, salt).value| <= 1100 < BUFFER_SIZE
  {
    WireLength(c, p, m, encKey, hmacKey, salt);
    PlaintextLength(c, p, m);
    AccessRequestLength(p, m);
    StrippedBound(|Plaintext(c, p, m).value|);
  }

  lemma AccessMessageLength(p: Platform, msg: Text)
    requires ValidAccessMsg(p, msg) == None
    ensures 6 <= |msg| <= MAX_ACCESS_MSG
  {}

  /** The joined fields of an access request are always within the size limits. */
  lemma AccessRequestEncodes(p: Platform, m: Message)
    requires Validate(p, m) == None
    requires m.messageType != COMMAND && m.serverAuth == []
    requires m.natAccess == [] || RequiresNAT(m.messageType)
    ensures MIN_ENCODED <= |EncodedFields(m)| <= MAX_ENCODED
  {
    EncodedLength(m);
    AccessRequestLength(p, m);
    AccessMessageLength(p, m.accessMsg);
  }

  predicate AlgorithmsSupported(m: Message, hmacKey: Text) {
    Supported(m.digestType) && Implemented(m.encryptionMode) && (hmacKey == [] || Supported(m.hmacType))
  }

  /** Any message is encrypted if and only if it is valid, its algorithms are supported, and its fields have a length
      within the limits. */
  lemma SentExactlyWhen(c: Primitives, p: Platform, m: Message, encKey: Text, hmacKey: Text, salt: Text)
    requires c.Valid() && |salt| == SALT_LEN
    ensures Wire(c, p, m, encKey, hmacKey, salt).Ok?
       <==> Validate(p, m) == None && AlgorithmsSupported(m, hmacKey)
            && MIN_ENCODED <= RequiredLength(m) + OptionalLength(m) <= MAX_ENCODED
  {
    EncodedLength(m);
  }

  /** For a valid access request that comes down to its algorithms. */
  lemma AccessRequestsAreSentExactlyWhen(c: Primitives, p: Platform, m: Message, encKey: Text, hmacKey: Text, salt: Text)
    requires c.Valid() && |salt| == SALT_LEN
    requires Validate(p, m) == None
    requires m.messageType != COMMAND && m.serverAuth == []
    requires m.natAccess == [] || RequiresNAT(m.messageType)
    ensures Wire(c, p, m, encKey, hmacKey, salt).Ok? <==> AlgorithmsSupported(m, hmacKey)
  {
    EncodedLength(m);
    AccessRequestEncodes(p, m);
    SentExactlyWhen(c, p, m, encKey, hmacKey, salt);
  }

  lemma StrippedBound(n: nat)
    requires n <= 745
    ensures StrippedLength(n) <= 1014
  {}

  lemma AccessRequestLength(p: Platform, m: Message)
    requires Validate(p, m) == None
    requires m.messageType != COMMAND && m.serverAuth == []
    requires m.natAccess == [] || RequiresNAT(m.messageType)
    ensures RequiredLength(m) + OptionalLength(m) <= 658
  {
    EffectiveTypeStable(m);
    IntegerWidths(Unix(m.timestamp));
    IntegerWidths(m.clientTimeout);
    assert |FormatInt(EffectiveType(m))| == 1;
  }

  /** Long commands never fit: the server reads a truncated packet. */
  lemma LongCommandsNeverFit(c: Primitives, p: Platform, m: Message, encKey: Text, hmacKey: Text, salt: Text)
    requires c.Valid() && |salt| == SALT_LEN
    requires Wire(c, p, m, encKey, hmacKey, salt).Ok?
    requires |m.accessMsg| >= 800
    ensures |Wire(c, p, m, encKey, hmacKey, salt).value| > BUFFER_SIZE
  {
    FitsExactlyWhen(c, p, m, encKey, hmacKey, salt);
    LongCommandPlaintext(c, p, m);
    LimitBound(HMACLength(hmacKey, m.hmacType));
  }

  lemma BareCommandLength(p: Platform, m: Message)
    requires Validate(p, m) == None && m.messageType == COMMAND && m.serverAuth == [] && m.natAccess == []
    requires 800 <= |m.accessMsg| <= 1000
    ensures MIN_ENCODED <= RequiredLength(m) + OptionalLength(m) <= MAX_ENCODED
  {
    IntegerWidths(Unix(m.timestamp));
    LongCommandFields(p, m);
    assert EffectiveType(m) == COMMAND && |FormatInt(COMMAND)| == 1;
  }

  /** Yet the sender encrypts them: every valid command of 800 to 1000 bytes whose algorithms are supported. */
  lemma LongCommandsAreSent(c: Primitives, p: Platform, m: Message, encKey: Text, hmacKey: Text, salt: Text)
    requires c.Valid() && |salt| == SALT_LEN
    requires Validate(p, m) == None && m.messageType == COMMAND && m.serverAuth == [] && m.natAccess == []
    requires 800 <= |m.accessMsg| <= 1000 && AlgorithmsSupported(m, hmacKey)
    ensures Wire(c, p, m, encKey, hmacKey, salt).Ok?
    ensures |Wire(c, p, m, encKey, hmacKey, salt).value| > BUFFER_SIZE
  {
    BareCommandLength(p, m);
    SentExactlyWhen(c, p, m, encKey, hmacKey, salt);
    LongCommandsNeverFit(c, p, m, encKey, hmacKey, salt);
  }

  lemma LimitBound(hmac: nat)
    ensures PlaintextLimit(hmac) <= 1104
  {}

  lemma LongCommandPlaintext(c: Primitives, p: Platform, m: Message)
    requires c.Valid() && Plaintext(c, p, m).Ok?
    requires |m.accessMsg| >= 800
    ensures |Plaintext(c, p, m).value| >= 1104
  {
    PlaintextLength(c, p, m);
    LongCommandFields(p, m);
    assert HmacB64Length(m.digestType) >= MD5_B64;
  }

  lemma LongCommandFields(p: Platform, m: Message)
    requires Validate(p, m) == None && |m.accessMsg| >= 800
    ensures RequiredLength(m) >= 1090
  {
    assert |FormatInt(Unix(m.timestamp))| >= 1 && |FormatInt(EffectiveType(m))| >= 1;
  }
}
