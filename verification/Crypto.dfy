/** The library primitives, taken as parameters: hash and HMAC functions and the AES block permutation.
    `Valid` states all that is assumed of them: output lengths, and that decryption inverts encryption. */
module Crypto {
  import opened Bytes

  const BLOCK := 16
  const KEY_SIZE := 32

  // DigestType and HMACType share these values.
  const MD5 := 1
  const SHA1 := 2
  const SHA256 := 3
  const SHA384 := 4
  const SHA512 := 5
  const SHA3_256 := 6
  const SHA3_512 := 7

  predicate Supported(algorithm: int) { MD5 <= algorithm <= SHA3_512 }

  /** Output length in bytes of each supported algorithm. */
  function RawLength(algorithm: int): nat
    requires Supported(algorithm)
  {
    if algorithm == MD5 then 16
    else if algorithm == SHA1 then 20
    else if algorithm == SHA256 || algorithm == SHA3_256 then 32
    else if algorithm == SHA384 then 48
    else 64
  }

  datatype Primitives = Primitives(
    hash: (int, Text) -> Text,
    mac: (int, Text, Text) -> Text,     // algorithm, data, key
    encryptBlock: (Text, Text) -> Text, // key, block
    decryptBlock: (Text, Text) -> Text)
  {
    ghost predicate Valid() {
      && (forall a, d :: Supported(a) ==> |hash(a, d)| == RawLength(a))
      && (forall a, d, k :: Supported(a) ==> |mac(a, d, k)| == RawLength(a))
      && (forall k, b :: |k| == KEY_SIZE && |b| == BLOCK ==>
            |encryptBlock(k, b)| == BLOCK && decryptBlock(k, encryptBlock(k, b)) == b)
      && (forall k, b :: |k| == KEY_SIZE && |b| == BLOCK ==> |decryptBlock(k, b)| == BLOCK)
    }
  }

  /** The assumptions can be met. */
  lemma ValidPrimitivesExist() returns (c: Primitives)
    ensures c.Valid()
  {
    c := Primitives(
      (a, d) => if Supported(a) then Repeat(0, RawLength(a)) else [],
      (a, d, k) => if Supported(a) then Repeat(0, RawLength(a)) else [],
      (k, b) => b,
      (k, b) => b);
  }

  datatype SpaError =
    | InvalidData
    | MessageTooLarge
    | MissingField
    | DigestVerificationFailed
    | HMACVerificationFailed
    | DecryptionFailed
    | UnsupportedEncryptionMode
    | UnsupportedDigestType
    | UnsupportedHMACType

  datatype Result<+T> = Ok(value: T) | Err(error: SpaError) {
    predicate IsFailure() { Err? }
    function PropagateFailure<U>(): Result<U>
      requires Err?
    {
      Err(error)
    }
    function Extract(): T
      requires Ok?
    {
      value
    }
  }
}
