/** AES-256-CBC (section 6.2 of NIST SP 800-38A) in OpenSSL's "Salted__" container, with the padding of
    section 6.3 of RFC 5652 and a receiver that leaves malformed padding in place. */
module AesCbc {
  import opened Bytes
  import opened Numbers
  import opened Crypto
  import opened Base64
  import opened Kdf

  const SALT_LEN := 8
  const MIN_KEY_SIZE := 16

  // ---------- padding ----------

  function Pad(data: Text, blockSize: nat): (x: Text)
    requires 1 <= blockSize <= 255
    ensures |x| % blockSize == 0 && |data| < |x| <= |data| + blockSize
  {
    var n := blockSize - |data| % blockSize;
    PadAligned(|data|, blockSize);
    data + Repeat(n, n)
  }

  lemma PadAligned(n: nat, blockSize: nat)
    requires 1 <= blockSize
    ensures (n + (blockSize - n % blockSize)) % blockSize == 0
  {
    var q := n / blockSize;
    assert n + (blockSize - n % blockSize) == (q + 1) * blockSize;
    DivModOf(q + 1, 0, blockSize);
  }

  /** pkcs7Pad: a padding buffer filled byte by byte, then appended. */
  method Pkcs7Pad(data: Text, blockSize: nat) returns (x: Text)
    requires 1 <= blockSize <= 255
    ensures x == Pad(data, blockSize)
  {
    var padLen := blockSize - |data| % blockSize;
    var padding := new Byte[padLen];
    for i := 0 to padding.Length
      invariant forall k :: 0 <= k < i ==> padding[k] == padLen
    {
      padding[i] := padLen;
    }
    assert padding[..] == Repeat(padLen, padLen);
    x := data + padding[..];
  }

  /** Exactly when the last byte names a suffix made of copies of itself. */
  predicate WellPadded(x: Text, blockSize: nat) {
    && x != []
    && var n := x[|x| - 1];
    && 1 <= n <= blockSize && n <= |x|
    && forall i :: |x| - n <= i < |x| ==> x[i] == n
  }

  function Unpad(x: Text, blockSize: nat): Text {
    if WellPadded(x, blockSize) then x[..|x| - x[|x| - 1]] else x
  }

  /** pkcs7Unpad. The requires is what keeps the scan inside the slice. */
  method Pkcs7Unpad(data: Text, blockSize: nat) returns (d: Text)
    requires data == [] || data[|data| - 1] > blockSize || data[|data| - 1] <= |data|
    ensures d == Unpad(data, blockSize)
  {
    if |data| == 0 {
      return data;
    }
    var padVal := data[|data| - 1];
    if padVal < 1 || padVal > blockSize {
      return data;
    }
    var padStart := |data| - padVal;
    var i: int := padStart;
    while i < |data|
      invariant padStart <= i <= |data|
      invariant forall k :: padStart <= k < i ==> data[k] == padVal
    {
      if data[i] != padVal {
        return data;
      }
      i := i + 1;
    }
    return data[..padStart];
  }

  lemma UnpadPad(data: Text, blockSize: nat)
    requires 1 <= blockSize <= 255
    ensures WellPadded(Pad(data, blockSize), blockSize)
    ensures Unpad(Pad(data, blockSize), blockSize) == data
  {
    var x := Pad(data, blockSize);
    assert x[..|data|] == data;
  }

  /** On aligned input the receiver strips exactly the paddings a sender can produce, and each in one way. */
  lemma UnpadCharacterised(x: Text, blockSize: nat)
    requires 1 <= blockSize <= 255 && x != [] && |x| % blockSize == 0
    ensures WellPadded(x, blockSize) ==>
      Pad(Unpad(x, blockSize), blockSize) == x
      && forall d :: Pad(d, blockSize) == x ==> d == Unpad(x, blockSize)
    ensures !WellPadded(x, blockSize) ==>
      Unpad(x, blockSize) == x && forall d :: Pad(d, blockSize) != x
  {
    forall d: Text
      ensures Pad(d, blockSize) == x ==> WellPadded(x, blockSize) && d == Unpad(x, blockSize)
    {
      UnpadPad(d, blockSize);
    }
    if WellPadded(x, blockSize) {
      var n := x[|x| - 1];
      PadLengthRecovered(|x|, n, blockSize);
      assert x == x[..|x| - n] + Repeat(n, n);
    }
  }

  lemma PadLengthRecovered(total: nat, n: nat, blockSize: nat)
    requires 1 <= n <= blockSize && n <= total && total % blockSize == 0
    ensures blockSize - (total - n) % blockSize == n
  {
    var q := total / blockSize;
    assert total == q * blockSize;
    assert q >= 1;
    assert total - n == (q - 1) * blockSize + (blockSize - n);
    if n < blockSize {
      DivModOf(q - 1, blockSize - n, blockSize);
    } else {
      DivModOf(q - 1, 0, blockSize);
    }
  }

  // ---------- cipher block chaining ----------

  function XorBits(a: nat, b: nat, bits: nat): (r: nat)
    decreases bits
  {
    if bits == 0 then 0 else (a + b) % 2 + 2 * XorBits(a / 2, b / 2, bits - 1)
  }

  lemma {:induction false} XorBitsBound(a: nat, b: nat, bits: nat)
    ensures XorBits(a, b, bits) < Power2(bits)
  {
    if bits > 0 {
      XorBitsBound(a / 2, b / 2, bits - 1);
    }
  }

  function Bit(x: nat, k: nat): nat { if k == 0 then x % 2 else Bit(x / 2, k - 1) }

  lemma {:induction false} BitValue(x: nat, k: nat)
    ensures Bit(x, k) == x / Power2(k) % 2
  {
    if k > 0 {
      BitValue(x / 2, k - 1);
      DivideTwice(x, 2, Power2(k - 1));
    }
  }

  lemma LowBit(a: nat, b: nat, high: nat)
    ensures var r := (a + b) % 2 + 2 * high; r % 2 == (a % 2 + b % 2) % 2 && r / 2 == high
  {}

  /** Exclusive or adds bit by bit, without carries. */
  lemma {:induction false} XorBitsAt(a: nat, b: nat, bits: nat, k: nat)
    requires k < bits
    ensures Bit(XorBits(a, b, bits), k) == (Bit(a, k) + Bit(b, k)) % 2
  {
    LowBit(a, b, XorBits(a / 2, b / 2, bits - 1));
    if k > 0 {
      XorBitsAt(a / 2, b / 2, bits - 1, k - 1);
    }
  }

  /** One step of the cancellation: the low bit comes back, the rest is untouched. */
  lemma BitCancel(a: nat, b: nat, high: nat)
    ensures var r := (a + b) % 2 + 2 * high; r / 2 == high && (r + b) % 2 == a % 2
  {}

  lemma {:induction false} XorBitsCancel(a: nat, b: nat, bits: nat)
    requires a < Power2(bits)
    ensures XorBits(XorBits(a, b, bits), b, bits) == a
  {
    if bits > 0 {
      XorBitsCancel(a / 2, b / 2, bits - 1);
      var high := XorBits(a / 2, b / 2, bits - 1);
      BitCancel(a, b, high);
    }
  }

  function XorByte(a: Byte, b: Byte): Byte {
    XorBitsBound(a, b, 8);
    assert Power2(8) == 256;
    XorBits(a, b, 8)
  }

  function Xor(a: Text, b: Text): (r: Text)
    requires |a| == |b|
    ensures |r| == |a|
  {
    seq(|a|, i requires 0 <= i < |a| => XorByte(a[i], b[i]))
  }

  lemma XorCancel(a: Text, b: Text)
    requires |a| == |b|
    ensures Xor(Xor(a, b), b) == a
  {
    forall i | 0 <= i < |a| ensures XorByte(XorByte(a[i], b[i]), b[i]) == a[i] {
      assert Power2(8) == 256;
      XorBitsCancel(a[i], b[i], 8);
    }
  }

  /** Every bit of every byte is the sum modulo 2 of the two bits in its place. */
  lemma XorAt(a: Text, b: Text, i: nat, k: nat)
    requires |a| == |b| && i < |a| && k < 8
    ensures Xor(a, b)[i] / Power2(k) % 2 == (a[i] / Power2(k) % 2 + b[i] / Power2(k) % 2) % 2
  {
    XorBitsAt(a[i], b[i], 8, k);
    BitValue(XorByte(a[i], b[i]), k);
    BitValue(a[i], k);
    BitValue(b[i], k);
  }

  function CbcEncrypt(c: Primitives, key: Text, iv: Text, x: Text): (y: Text)
    requires c.Valid() && |key| == KEY_SIZE && |iv| == BLOCK && |x| % BLOCK == 0
    ensures |y| == |x|
    decreases |x|
  {
    if x == [] then []
    else
      var block := c.encryptBlock(key, Xor(x[..BLOCK], iv));
      block + CbcEncrypt(c, key, block, x[BLOCK..])
  }

  function CbcDecrypt(c: Primitives, key: Text, iv: Text, y: Text): (x: Text)
    requires c.Valid() && |key| == KEY_SIZE && |iv| == BLOCK && |y| % BLOCK == 0
    ensures |x| == |y|
    decreases |y|
  {
    if y == [] then []
    else Xor(c.decryptBlock(key, y[..BLOCK]), iv) + CbcDecrypt(c, key, y[..BLOCK], y[BLOCK..])
  }

  lemma {:induction false} CbcInverse(c: Primitives, key: Text, iv: Text, x: Text)
    requires c.Valid() && |key| == KEY_SIZE && |iv| == BLOCK && |x| % BLOCK == 0
    ensures CbcDecrypt(c, key, iv, CbcEncrypt(c, key, iv, x)) == x
    decreases |x|
  {
    if x != [] {
      var y := CbcEncrypt(c, key, iv, x);
      var block := c.encryptBlock(key, Xor(x[..BLOCK], iv));
      assert y[..BLOCK] == block && y[BLOCK..] == CbcEncrypt(c, key, block, x[BLOCK..]);
      CbcInverse(c, key, block, x[BLOCK..]);
      XorCancel(x[..BLOCK], iv);
      assert x == x[..BLOCK] + x[BLOCK..];
    }
  }

  function Block(s: Text, n: nat): (block: Text)
    requires 16 * n + 16 <= |s|
    ensures |block| == 16
  {
    s[16 * n..16 * n + 16]
  }

  lemma BlockShift(first: Text, rest: Text, n: nat)
    requires |first| == 16
    ensures Block(first + rest, 0) == first
    ensures 16 * n + 16 <= |rest| ==> Block(first + rest, n + 1) == Block(rest, n)
  {}

  /** The chaining law: each ciphertext block is the encrypted exclusive or of the plaintext block and the ciphertext
      block before it; the first is chained to the initialisation vector. */
  lemma {:induction false} CbcChains(c: Primitives, key: Text, iv: Text, x: Text, y: Text, n: nat)
    requires c.Valid() && |key| == 32 && |iv| == 16 && |x| % 16 == 0 && 16 * n + 16 <= |x|
    requires y == CbcEncrypt(c, key, iv, x)
    ensures Block(y, n) == c.encryptBlock(key, Xor(Block(x, n), if n == 0 then iv else Block(y, n - 1)))
    decreases n
  {
    var first, rest := y[..16], y[16..];
    assert x == x[..16] + x[16..] && y == first + rest;
    if n == 0 {
      BlockShift(first, rest, 0);
      BlockShift(x[..16], x[16..], 0);
    } else {
      CbcChains(c, key, first, x[16..], rest, n - 1);
      BlockShift(first, rest, n - 1);
      BlockShift(x[..16], x[16..], n - 1);
      BlockShift(first, rest, if n == 1 then 0 else n - 2);
    }
  }

  /** And its mirror image for decryption. */
  lemma {:induction false} CbcUnchains(c: Primitives, key: Text, iv: Text, y: Text, n: nat)
    requires c.Valid() && |key| == 32 && |iv| == 16 && |y| % 16 == 0 && 16 * n + 16 <= |y|
    ensures Block(CbcDecrypt(c, key, iv, y), n)
         == Xor(c.decryptBlock(key, Block(y, n)), if n == 0 then iv else Block(y, n - 1))
    decreases n
  {
    var first := Xor(c.decryptBlock(key, y[..16]), iv);
    var rest := CbcDecrypt(c, key, y[..16], y[16..]);
    assert y == y[..16] + y[16..] && CbcDecrypt(c, key, iv, y) == first + rest;
    if n == 0 {
      BlockShift(first, rest, 0);
      BlockShift(y[..16], y[16..], 0);
    } else {
      CbcUnchains(c, key, y[..16], y[16..], n - 1);
      BlockShift(first, rest, n - 1);
      BlockShift(y[..16], y[16..], n - 1);
      BlockShift(y[..16], y[16..], if n == 1 then 0 else n - 2);
    }
  }

  // ---------- the salted container ----------

  function Seal(c: Primitives, plaintext: Text, passphrase: Text, salt: Text): (out: Text)
    requires c.Valid()
    ensures |out| == 8 + |salt| + |Pad(plaintext, BLOCK)|
  {
    var kiv := KeyMaterial(c, passphrase, salt, KEY_SIZE + BLOCK);
    SALTED + salt + CbcEncrypt(c, kiv[..KEY_SIZE], kiv[KEY_SIZE..], Pad(plaintext, BLOCK))
  }

  function Unseal(c: Primitives, data: Text, passphrase: Text): Result<Text>
    requires c.Valid()
  {
    if |data| < SALT_LEN + SALT_LEN + BLOCK then Err(DecryptionFailed)
    else if data[..SALT_LEN] != SALTED then Err(DecryptionFailed)
    else
      var salt, ciphertext := data[SALT_LEN..SALT_LEN + SALT_LEN], data[SALT_LEN + SALT_LEN..];
      if |ciphertext| % BLOCK != 0 then Err(DecryptionFailed)
      else
        var kiv := KeyMaterial(c, passphrase, salt, KEY_SIZE + BLOCK);
        Ok(Unpad(CbcDecrypt(c, kiv[..KEY_SIZE], kiv[KEY_SIZE..], ciphertext), BLOCK))
  }

  lemma KeyThenIV(key: Text, iv: Text, kiv: Text)
    requires kiv == key + iv
    ensures key == kiv[..|key|] && iv == kiv[|key|..]
  {}

  lemma SealedAs(c: Primitives, plaintext: Text, passphrase: Text, salt: Text, key: Text, iv: Text)
    requires c.Valid() && |key| == KEY_SIZE && |iv| == BLOCK
    requires key + iv == KeyMaterial(c, passphrase, salt, KEY_SIZE + BLOCK)
    ensures Seal(c, plaintext, passphrase, salt) == SALTED + salt + CbcEncrypt(c, key, iv, Pad(plaintext, BLOCK))
  {
    KeyThenIV(key, iv, key + iv);
  }

  /** aesCBC.encryptWithSalt. */
  method EncryptWithSalt(c: Primitives, plaintext: Text, passphrase: Text, salt: Text) returns (out: Text)
    requires c.Valid()
    ensures out == Seal(c, plaintext, passphrase, salt)
  {
    var key, iv, _ := DeriveKeyAndIV(c, passphrase, salt, KEY_SIZE, BLOCK);
    SealedAs(c, plaintext, passphrase, salt, key, iv);
    var padded := Pkcs7Pad(plaintext, BLOCK);
    var ciphertext := CbcEncrypt(c, key, iv, padded);
    out := [];
    out := out + SALTED;
    out := out + salt;
    assert out == SALTED + salt;
    out := out + ciphertext;
  }

  /** aesCBC.Decrypt: every path stays inside the slices it indexes. */
  method DecryptSalted(c: Primitives, data: Text, passphrase: Text) returns (r: Result<Text>)
    requires c.Valid()
    ensures r == Unseal(c, data, passphrase)
  {
    if |data| < SALT_LEN + SALT_LEN + BLOCK {
      return Err(DecryptionFailed);
    }
    if data[..SALT_LEN] != SALTED {
      return Err(DecryptionFailed);
    }
    var salt := data[SALT_LEN..SALT_LEN + SALT_LEN];
    var ciphertext := data[SALT_LEN + SALT_LEN..];
    if |ciphertext| % BLOCK != 0 {
      return Err(DecryptionFailed);
    }
    var key, iv, _ := DeriveKeyAndIV(c, passphrase, salt, KEY_SIZE, BLOCK);
    KeyThenIV(key, iv, KeyMaterial(c, passphrase, salt, KEY_SIZE + BLOCK));
    var plaintext := CbcDecrypt(c, key, iv, ciphertext);
    plaintext := Pkcs7Unpad(plaintext, BLOCK);
    return Ok(plaintext);
  }

  /** The container byte for byte: "Salted__", the salt, and the padded plaintext chained under the 32-byte key and
      the 16-byte IV that three MD5 hashes make. */
  lemma SealedBytes(c: Primitives, plaintext: Text, passphrase: Text, salt: Text, n: nat)
    requires c.Valid() && |salt| == 8 && n <= |plaintext| / 16
    ensures var d1 := c.hash(1, passphrase + salt);
      var d2 := c.hash(1, d1 + passphrase + salt);
      var d3 := c.hash(1, d2 + passphrase + salt);
      var fill := 16 - |plaintext| % 16;
      var padded := plaintext + Repeat(fill, fill);
      var out := Seal(c, plaintext, passphrase, salt);
      var body := out[16..];
      && out[..8] == [83, 97, 108, 116, 101, 100, 95, 95] && out[8..16] == salt
      && |body| == |padded| == 16 * (|plaintext| / 16 + 1)
      && Block(body, n) == c.encryptBlock(d1 + d2, Xor(Block(padded, n), if n == 0 then d3 else Block(body, n - 1)))
  {
    var d1 := c.hash(1, passphrase + salt);
    var d2 := c.hash(1, d1 + passphrase + salt);
    var d3 := c.hash(1, d2 + passphrase + salt);
    ThreeHashes(c, passphrase, salt);
    SealedAs(c, plaintext, passphrase, salt, d1 + d2, d3);
    ChainedBody(c, plaintext, d1 + d2, d3, n);
    Sections(SALTED, salt, CbcEncrypt(c, d1 + d2, d3, Pad(plaintext, BLOCK)));
  }

  lemma ChainedBody(c: Primitives, plaintext: Text, key: Text, iv: Text, n: nat)
    requires c.Valid() && |key| == 32 && |iv| == 16 && n <= |plaintext| / 16
    ensures var fill := 16 - |plaintext| % 16;
      var padded, body := plaintext + Repeat(fill, fill), CbcEncrypt(c, key, iv, Pad(plaintext, 16));
      && |body| == |padded| == 16 * (|plaintext| / 16 + 1)
      && Block(body, n) == c.encryptBlock(key, Xor(Block(padded, n), if n == 0 then iv else Block(body, n - 1)))
  {
    PaddedBlocks(|plaintext|, |Pad(plaintext, 16)|);
    CbcChains(c, key, iv, Pad(plaintext, 16), CbcEncrypt(c, key, iv, Pad(plaintext, 16)), n);
  }

  lemma PaddedBlocks(n: nat, padded: nat)
    requires padded % 16 == 0 && n < padded <= n + 16
    ensures padded == 16 * (n / 16 + 1)
  {}

  lemma Sections(header: Text, salt: Text, body: Text)
    requires |header| == SALT_LEN && |salt| == SALT_LEN
    ensures var data := header + salt + body;
      && data[..SALT_LEN] == header
      && data[SALT_LEN..SALT_LEN + SALT_LEN] == salt
      && data[SALT_LEN + SALT_LEN..] == body
  {}

  /** Decrypting and unpadding undoes padding and encrypting. */
  lemma BodyRecovered(c: Primitives, key: Text, iv: Text, plaintext: Text)
    requires c.Valid() && |key| == KEY_SIZE && |iv| == BLOCK
    ensures Unpad(CbcDecrypt(c, key, iv, CbcEncrypt(c, key, iv, Pad(plaintext, BLOCK))), BLOCK) == plaintext
  {
    CbcInverse(c, key, iv, Pad(plaintext, BLOCK));
    UnpadPad(plaintext, BLOCK);
  }

  /** Whatever is sealed under a passphrase and an 8-byte salt is recovered by that passphrase. */
  lemma UnsealSeal(c: Primitives, plaintext: Text, passphrase: Text, salt: Text)
    requires c.Valid() && |salt| == SALT_LEN
    ensures Unseal(c, Seal(c, plaintext, passphrase, salt), passphrase) == Ok(plaintext)
  {
    var kiv := KeyMaterial(c, passphrase, salt, KEY_SIZE + BLOCK);
    var key, iv, padded := kiv[..KEY_SIZE], kiv[KEY_SIZE..], Pad(plaintext, BLOCK);
    BodyRecovered(c, key, iv, plaintext);
    WholeBlocks(|plaintext|, |padded|);
    UnsealSections(c, Seal(c, plaintext, passphrase, salt), passphrase, salt, CbcEncrypt(c, key, iv, padded));
  }

  lemma WholeBlocks(n: nat, padded: nat)
    requires padded % BLOCK == 0 && padded > n
    ensures padded >= BLOCK
  {}

  lemma UnsealSections(c: Primitives, data: Text, passphrase: Text, salt: Text, body: Text)
    requires c.Valid() && |salt| == SALT_LEN && |body| >= BLOCK && |body| % BLOCK == 0
    requires data == SALTED + salt + body
    ensures var kiv := KeyMaterial(c, passphrase, salt, KEY_SIZE + BLOCK);
      Unseal(c, data, passphrase) == Ok(Unpad(CbcDecrypt(c, kiv[..KEY_SIZE], kiv[KEY_SIZE..], body), BLOCK))
  {
    Sections(SALTED, salt, body);
  }

  // ---------- legacy passphrases ----------

  function LegacyPad(passphrase: Text): (p: Text)
    ensures |p| >= MIN_KEY_SIZE && passphrase <= p
    ensures |passphrase| >= MIN_KEY_SIZE ==> p == passphrase
  {
    if |passphrase| >= MIN_KEY_SIZE then passphrase
    else passphrase + Repeat('0' as int, MIN_KEY_SIZE - |passphrase|)
  }

  /** legacyPadPassphrase: copy into a 16-byte buffer, then fill the rest with '0'. */
  method LegacyPadPassphrase(passphrase: Text) returns (p: Text)
    ensures p == LegacyPad(passphrase)
  {
    if |passphrase| >= MIN_KEY_SIZE {
      return passphrase;
    }
    var padded := new Byte[MIN_KEY_SIZE];
    for i := 0 to |passphrase|
      invariant padded[..i] == passphrase[..i]
    {
      padded[i] := passphrase[i];
    }
    for i := |passphrase| to MIN_KEY_SIZE
      invariant padded[..|passphrase|] == passphrase
      invariant forall k :: |passphrase| <= k < i ==> padded[k] == '0' as int
    {
      padded[i] := '0' as int;
    }
    p := padded[..];
    assert p == p[..|passphrase|] + p[|passphrase|..];
  }

  /** Padding is idempotent, so legacy mode on a passphrase is plain CBC mode on the padded one. */
  lemma LegacyIdempotent(passphrase: Text)
    ensures LegacyPad(LegacyPad(passphrase)) == LegacyPad(passphrase)
  {}

  // ---------- mode selection ----------

  const MODE_CBC := 2
  const MODE_CBC_LEGACY := 8

  predicate Implemented(mode: int) { mode == MODE_CBC || mode == MODE_CBC_LEGACY }

  /** The passphrase that reaches the key derivation. */
  function EffectivePassphrase(mode: int, passphrase: Text): Text {
    if mode == MODE_CBC_LEGACY then LegacyPad(passphrase) else passphrase
  }

  /** Modes 2 and 8 are implemented, and in mode 8 alone the passphrase is filled up to 16 bytes with zeros. */
  lemma ModesByNumber(mode: int, passphrase: Text, i: nat)
    ensures Implemented(mode) <==> mode == 2 || mode == 8
    ensures var p := EffectivePassphrase(mode, passphrase);
      && |p| == (if mode == 8 && |passphrase| < 16 then 16 else |passphrase|)
      && (i < |p| ==> p[i] == if i < |passphrase| then passphrase[i] else '0' as int)
  {}
}
