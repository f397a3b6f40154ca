/** The client's `Encrypt` (ConnectionHandler.cs): the session key's UTF-8
    bytes become the AES key, a fresh 16-byte IV is drawn, and the result is
    the IV followed by the ciphertext. AES-CBC with PKCS7 padding is library
    code and appears here as a `Cipher` function the caller supplies; the IV
    is an input, as the random generator's output. */
module Crypto {
  import opened Base
  import Utf8

  /** Length of the IV `GenerateRandomIV` allocates and fills. */
  const IvLength: nat := 16

  type Iv = s: Bytes | |s| == IvLength witness seq(16, _ => 0 as byte)

  /** AES-CBC encryption with PKCS7 padding under (key bytes, IV), applied to the plaintext. */
  type Cipher = (Bytes, Iv, Bytes) -> Bytes

  /** Key lengths, in bytes, the `Aes.Key` setter accepts (AES-128, AES-192, AES-256). */
  predicate ValidAesKeyLength(n: nat) {
    n == 16 || n == 24 || n == 32
  }

  /** Exceptions `Encrypt` can raise before producing output. */
  datatype CryptoError =
    | KeyMissing                  // the key field is still null: GetBytes(null) throws
    | InvalidKeyLength(length: nat)  // the Aes.Key setter rejects the byte length

  /** `Encrypt(data)` under the session key `key` and the IV the generator produced. */
  function Encrypt(key: Option<string>, iv: Iv, data: Bytes, cipher: Cipher): (r: Result<Bytes, CryptoError>)
    ensures r.Success? <==> key.Some? && ValidAesKeyLength(|Utf8.Encode(key.value)|)
    ensures key.None? ==> r == Failure(KeyMissing)
    ensures key.Some? && r.Failure? ==> r.error == InvalidKeyLength(|Utf8.Encode(key.value)|)
    ensures r.Success? ==>
      var ct := cipher(Utf8.Encode(key.value), iv, data);
      && |r.value| == IvLength + |ct|
      && r.value[..IvLength] == iv
      && r.value[IvLength..] == ct
  {
    match key
    case None => Failure(KeyMissing)
    case Some(k) =>
      var keyBytes := Utf8.Encode(k);
      if !ValidAesKeyLength(|keyBytes|) then Failure(InvalidKeyLength(|keyBytes|))
      else Success(iv + cipher(keyBytes, iv, data))
  }

  /** The receiver's view of an encrypted blob: the IV in front, the ciphertext after it. */
  function OpenFrame(blob: Bytes): Option<(Iv, Bytes)> {
    if |blob| < IvLength then None else Some((blob[..IvLength], blob[IvLength..]))
  }

  /** A receiver that cuts off the first 16 bytes recovers exactly the IV and
      ciphertext `Encrypt` produced. */
  lemma OpenEncrypted(key: Option<string>, iv: Iv, data: Bytes, cipher: Cipher)
    requires Encrypt(key, iv, data, cipher).Success?
    ensures OpenFrame(Encrypt(key, iv, data, cipher).value)
            == Some((iv, cipher(Utf8.Encode(key.value), iv, data)))
  {
  }

  /** Decryption of a received blob with the cipher's inverse. */
  function Decrypt(keyBytes: Bytes, blob: Bytes, decipher: Cipher): Option<Bytes> {
    match OpenFrame(blob)
    case None => None
    case Some((iv, ct)) => Some(decipher(keyBytes, iv, ct))
  }

  /** `decipher` undoes `cipher` under every key and IV. */
  ghost predicate Inverts(decipher: Cipher, cipher: Cipher) {
    forall k, iv, p :: decipher(k, iv, cipher(k, iv, p)) == p
  }

  /** Whoever holds the key and the cipher's inverse gets the plaintext back from
      the uploaded blob: the IV travels with it. */
  lemma DecryptEncrypted(key: string, iv: Iv, data: Bytes, cipher: Cipher, decipher: Cipher)
    requires Inverts(decipher, cipher)
    requires ValidAesKeyLength(|Utf8.Encode(key)|)
    ensures Decrypt(Utf8.Encode(key), Encrypt(Some(key), iv, data, cipher).value, decipher) == Some(data)
  {
    OpenEncrypted(Some(key), iv, data, cipher);
  }

  /** Two encryptions under different IVs never produce the same output, whatever
      the plaintexts: the blob starts with its IV. */
  lemma FreshIvFreshOutput(key: Option<string>, iv1: Iv, iv2: Iv, d1: Bytes, d2: Bytes, cipher: Cipher)
    requires Encrypt(key, iv1, d1, cipher).Success?
    requires iv1 != iv2
    ensures Encrypt(key, iv1, d1, cipher) != Encrypt(key, iv2, d2, cipher)
  {
    var r1 := Encrypt(key, iv1, d1, cipher).value;
    var r2 := Encrypt(key, iv2, d2, cipher).value;
    assert r1[..IvLength] != r2[..IvLength];
  }
}
