/** OpenSSL's EVP_BytesToKey with MD5: key and IV are cut from a chain of hashes. */
module Kdf {
  import opened Bytes
  import opened Crypto

  /** D(n): the hash of D(n-1), the passphrase and the salt; D(1) hashes no predecessor. */
  function Link(c: Primitives, passphrase: Text, salt: Text, n: nat): Text {
    if n == 0 then [] else c.hash(MD5, Link(c, passphrase, salt, n - 1) + passphrase + salt)
  }

  /** D(1) || ... || D(n). */
  function Chain(c: Primitives, passphrase: Text, salt: Text, n: nat): Text {
    if n == 0 then [] else Chain(c, passphrase, salt, n - 1) + Link(c, passphrase, salt, n)
  }

  /** The number of hashes that cover `needed` bytes. */
  function HashCount(needed: nat): nat { (needed + 15) / 16 }

  lemma {:induction false} ChainLength(c: Primitives, passphrase: Text, salt: Text, n: nat)
    requires c.Valid()
    ensures |Chain(c, passphrase, salt, n)| == 16 * n
  {
    if n > 0 {
      ChainLength(c, passphrase, salt, n - 1);
    }
  }

  /** Asking for more material only extends what a smaller request yields. */
  lemma {:induction false} ChainPrefix(c: Primitives, passphrase: Text, salt: Text, m: nat, n: nat)
    requires m <= n
    ensures Chain(c, passphrase, salt, m) <= Chain(c, passphrase, salt, n)
    decreases n
  {
    if m < n {
      ChainPrefix(c, passphrase, salt, m, n - 1);
    }
  }

  /** The first `needed` bytes of the chain. */
  function KeyMaterial(c: Primitives, passphrase: Text, salt: Text, needed: nat): (kiv: Text)
    requires c.Valid()
    ensures |kiv| == needed
  {
    ChainLength(c, passphrase, salt, HashCount(needed));
    Chain(c, passphrase, salt, HashCount(needed))[..needed]
  }

  lemma KeyMaterialPrefix(c: Primitives, passphrase: Text, salt: Text, few: nat, many: nat)
    requires c.Valid() && few <= many
    ensures KeyMaterial(c, passphrase, salt, few) == KeyMaterial(c, passphrase, salt, many)[..few]
  {
    ChainLength(c, passphrase, salt, HashCount(few));
    ChainLength(c, passphrase, salt, HashCount(many));
    ChainPrefix(c, passphrase, salt, HashCount(few), HashCount(many));
  }

  /** The 48 bytes that key and IV take: three MD5 hashes, each fed the one before it. */
  lemma ThreeHashes(c: Primitives, passphrase: Text, salt: Text)
    requires c.Valid()
    ensures var d1 := c.hash(1, passphrase + salt);
      var d2 := c.hash(1, d1 + passphrase + salt);
      var d3 := c.hash(1, d2 + passphrase + salt);
      |d1 + d2| == 32 && |d3| == 16 && KeyMaterial(c, passphrase, salt, 48) == d1 + d2 + d3
  {
    var d1 := c.hash(1, passphrase + salt);
    assert [] + passphrase + salt == passphrase + salt;
    assert Link(c, passphrase, salt, 1) == d1;
    assert Chain(c, passphrase, salt, 1) == d1;
    ChainLength(c, passphrase, salt, 3);
    assert Chain(c, passphrase, salt, 3)[..48] == Chain(c, passphrase, salt, 3);
  }

  lemma ChainStep(c: Primitives, passphrase: Text, salt: Text, n: nat, kiv: Text, prev: Text)
    requires c.Valid() && kiv == Chain(c, passphrase, salt, n) && prev == Link(c, passphrase, salt, n)
    ensures var next := c.hash(MD5, prev + passphrase + salt);
      |next| == 16 && next == Link(c, passphrase, salt, n + 1) && kiv + next == Chain(c, passphrase, salt, n + 1)
  {}

  lemma MoreHashes(needed: nat, hashes: nat)
    requires 16 * hashes < needed
    ensures hashes + 1 <= HashCount(needed)
  {}

  lemma EnoughHashes(needed: nat, hashes: nat)
    requires needed <= 16 * hashes && hashes <= HashCount(needed)
    ensures hashes == HashCount(needed)
  {}

  lemma MaterialFromChain(c: Primitives, passphrase: Text, salt: Text, keyLen: nat, ivLen: nat, n: nat)
    requires c.Valid() && n == HashCount(keyLen + ivLen)
    ensures var kiv := Chain(c, passphrase, salt, n);
      && keyLen + ivLen <= |kiv|
      && kiv[..keyLen] + kiv[keyLen..keyLen + ivLen] == KeyMaterial(c, passphrase, salt, keyLen + ivLen)
  {
    ChainLength(c, passphrase, salt, n);
  }

  /** EVPBytesToKey.DeriveKeyAndIV; `hashes` counts the digests computed. */
  method DeriveKeyAndIV(c: Primitives, passphrase: Text, salt: Text, keyLen: nat, ivLen: nat)
    returns (key: Text, iv: Text, ghost hashes: nat)
    requires c.Valid()
    ensures key + iv == KeyMaterial(c, passphrase, salt, keyLen + ivLen)
    ensures |key| == keyLen && |iv| == ivLen
    ensures hashes == HashCount(keyLen + ivLen)
  {
    var needed := keyLen + ivLen;
    var kiv: Text := [];
    var prev: Text := [];
    hashes := 0;
    assert HashCount(0) == 0;
    while |kiv| < needed
      invariant kiv == Chain(c, passphrase, salt, hashes)
      invariant prev == Link(c, passphrase, salt, hashes)
      invariant |kiv| == 16 * hashes
      invariant hashes <= HashCount(needed)
      decreases needed - |kiv|
    {
      var input := if |prev| > 0 then prev else [];
      input := input + passphrase + salt;
      MoreHashes(needed, hashes);
      assert input == prev + passphrase + salt;
      ChainStep(c, passphrase, salt, hashes, kiv, prev);
      prev := c.hash(MD5, input);
      kiv := kiv + prev;
      hashes := hashes + 1;
    }
    EnoughHashes(needed, hashes);
    MaterialFromChain(c, passphrase, salt, keyLen, ivLen, hashes);
    key, iv := kiv[..keyLen], kiv[keyLen..keyLen + ivLen];
  }
}
