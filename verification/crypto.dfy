/**
 * The cryptographic and encoding primitives of the JCA that the core calls,
 * as uninterpreted functions passed in a `Suite`. The model never looks
 * inside them; the few algebraic facts a round trip needs are collected in
 * `Laws` and assumed only where a lemma says so.
 */
module Crypto {
  import opened Bytes
  import opened Wrappers

  datatype Suite = Suite(
    /** `String.getBytes(StandardCharsets.UTF_8)`. */
    utf8: string -> seq<Byte>,
    /** `MessageDigest.getInstance("SHA-256").digest`. */
    sha256: seq<Byte> -> seq<Byte>,
    /** `Base64.getEncoder().encodeToString`. */
    base64Encode: seq<Byte> -> string,
    /** `Base64.getDecoder().decode`; `None` when it throws on malformed input. */
    base64Decode: string -> Option<seq<Byte>>,
    /** `AES/ECB/PKCS5Padding` encryption under a key. */
    aesEncrypt: (seq<Byte>, seq<Byte>) -> seq<Byte>,
    /** `AES/ECB/PKCS5Padding` decryption; `None` when the padding check fails. */
    aesDecrypt: (seq<Byte>, seq<Byte>) -> Option<seq<Byte>>,
    /** `KeyFactory.generatePrivate(new PKCS8EncodedKeySpec(b))` succeeds. */
    isPkcs8: seq<Byte> -> bool,
    /** `KeyFactory.generatePublic(new X509EncodedKeySpec(b))` succeeds. */
    isX509: seq<Byte> -> bool,
    /** `SHA256withRSA` signing of the data with the encoded private key. */
    rsaSign: (seq<Byte>, seq<Byte>) -> seq<Byte>,
    /** `SHA256withRSA` verification of a signature over the data with the encoded public key. */
    rsaVerify: (seq<Byte>, seq<Byte>, seq<Byte>) -> bool,
    /** The encoded public and private keys belong to one generated RSA key pair. */
    isKeyPair: (seq<Byte>, seq<Byte>) -> bool)

  /** The encoded halves of a freshly generated key pair (`getEncoded()`). */
  datatype KeyPair = KeyPair(publicKey: seq<Byte>, privateKey: seq<Byte>)

  /** What a round trip through the primitives may rely on. */
  ghost predicate Laws(c: Suite)
  {
    && (forall b :: c.base64Decode(c.base64Encode(b)) == Some(b))
    && (forall k, m :: c.aesDecrypt(k, c.aesEncrypt(k, m)) == Some(m))
    && (forall pub, priv, data :: c.isKeyPair(pub, priv) ==> c.rsaVerify(pub, data, c.rsaSign(priv, data)))
    && (forall priv, data :: |c.rsaSign(priv, data)| > 0)
  }

  /** The key pair the generator produced, as the parsers and the signature scheme see it. */
  ghost predicate Generated(c: Suite, kp: KeyPair)
  {
    c.isKeyPair(kp.publicKey, kp.privateKey) && c.isPkcs8(kp.privateKey) && c.isX509(kp.publicKey)
  }

  /**
   * SHA-256 of the UTF-8 bytes of a text. The generator and the signer derive
   * the AES key from the PIN this way; the signer and the verifier hash the
   * document's extracted text this way.
   */
  function DigestOf(c: Suite, text: string): seq<Byte>
  {
    c.sha256(c.utf8(text))
  }
}
