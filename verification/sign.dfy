/**
 * The signing side: the `Sign` object the controller and the media watcher
 * share, and its `init` pipeline (read the encrypted key from the medium,
 * unwrap it with the PIN, hash the document's text, sign, store the hex
 * signature under `Signature`, save a sibling copy).
 */
module Signing {
  import opened Bytes
  import opened Wrappers
  import opened Crypto
  import opened Envelope
  import opened Hex
  import opened SignedName
  import opened Storage

  /** The metadata key the signature is stored under. */
  const SignatureField: string := "Signature"

  /** Where `init` throws, in the order it can happen. */
  datatype SignError =
    | KeyFileUnreadable(path: string)     // Files.lines fails
    | KeyTextMalformed                    // Base64 decoding throws
    | DecryptionFailed                    // bad padding: wrong PIN or corrupt blob
    | KeyFormatInvalid                    // not a PKCS#8 RSA key
    | NoFileName                          // getFileName() is null
    | DocumentUnreadable(path: string)    // PDDocument.load fails
    | SaveFailed(path: string)            // document.save fails

  /** What a successful `init` produced: the saved path, the hex signature and the saved document. */
  datatype Signed = Signed(path: string, signatureHex: string, document: Document)

  /** Steps 1 to 3 of `init`: the encoded private key recovered from the key file's lines. */
  function UnwrapPrivateKey(c: Suite, pin: string, keyLines: seq<string>): (r: Result<seq<Byte>, SignError>)
    ensures r == Err(KeyTextMalformed) <==> c.base64Decode(ReadKeyText(keyLines)).None?
    ensures r.Ok? ==>
      && c.base64Decode(ReadKeyText(keyLines)).Some?
      && c.aesDecrypt(DigestOf(c, pin), c.base64Decode(ReadKeyText(keyLines)).value) == Some(r.value)
      && c.isPkcs8(r.value)
    ensures r.Err? ==> r.error in {KeyTextMalformed, DecryptionFailed, KeyFormatInvalid}
  {
    match c.base64Decode(ReadKeyText(keyLines))
    case None => Err(KeyTextMalformed)
    case Some(encrypted) =>
      match c.aesDecrypt(DigestOf(c, pin), encrypted)
      case None => Err(DecryptionFailed)
      case Some(decrypted) =>
        if c.isPkcs8(decrypted) then Ok(decrypted) else Err(KeyFormatInvalid)
  }

  /**
   * The whole of `init`, on the file system's contents before the call.
   * Nothing is written unless the signature exists: every failure, and in
   * particular a wrong PIN or a malformed key, is reported before a signed
   * path is even known to be writable.
   */
  function SignDocument(c: Suite, pin: string, keyPath: string, documentPath: string,
                        files: map<string, Content>, unwritable: set<string>): (r: Result<Signed, SignError>)
    ensures keyPath !in files || !files[keyPath].TextFile? ==> r == Err(KeyFileUnreadable(keyPath))
    ensures keyPath in files && files[keyPath].TextFile? && UnwrapPrivateKey(c, pin, files[keyPath].lines).Err? ==>
      r == Err(UnwrapPrivateKey(c, pin, files[keyPath].lines).error)
    ensures r.Ok? ==>
      && SignedPath(documentPath) == Some(r.value.path) && r.value.path !in unwritable
      && documentPath in files && files[documentPath].PdfFile?
      && SignatureField in r.value.document.metadata && r.value.document.metadata[SignatureField] == r.value.signatureHex
  {
    if keyPath !in files || !files[keyPath].TextFile? then Err(KeyFileUnreadable(keyPath))
    else
      match UnwrapPrivateKey(c, pin, files[keyPath].lines)
      case Err(e) => Err(e)
      case Ok(privateKey) =>
        match SignedPath(documentPath)
        case None => Err(NoFileName)
        case Some(signedPath) =>
          if documentPath !in files || !files[documentPath].PdfFile? then Err(DocumentUnreadable(documentPath))
          else
            var document := files[documentPath].document;
            var signatureHex := Encode(c.rsaSign(privateKey, DigestOf(c, document.text)));
            var signedDocument := document.(metadata := document.metadata[SignatureField := signatureHex]);
            if signedPath in unwritable then Err(SaveFailed(signedPath))
            else Ok(Signed(signedPath, signatureHex, signedDocument))
  }

  /**
   * A key file written by the generator under the same PIN unwraps to the
   * generated private key, as long as no line of its Base64 text mentions
   * BEGIN or END: the generator wraps and the signer unwraps with the same
   * SHA-256-of-PIN key.
   */
  lemma UnwrapGeneratedKey(c: Suite, pin: string, kp: KeyPair)
    requires Laws(c) && Generated(c, kp)
    requires var text := c.base64Encode(c.aesEncrypt(DigestOf(c, pin), kp.privateKey));
      forall line :: line in Chunks(text) ==> IsBodyLine(line)
    ensures var text := c.base64Encode(c.aesEncrypt(DigestOf(c, pin), kp.privateKey));
      UnwrapPrivateKey(c, pin, EnvelopeLines(text, false)) == Ok(kp.privateKey)
  {
    var text := c.base64Encode(c.aesEncrypt(DigestOf(c, pin), kp.privateKey));
    EnvelopeRoundTrip(text, false);
  }

  /**
   * What a successful signing saved: a sibling copy, never the document
   * itself, with the same text and metadata except `Signature`, which holds
   * the hex form of the signature over SHA-256 of the document's text.
   */
  lemma SignedCopy(c: Suite, pin: string, keyPath: string, documentPath: string,
                   files: map<string, Content>, unwritable: set<string>)
    requires SignDocument(c, pin, keyPath, documentPath, files, unwritable).Ok?
    ensures var out := SignDocument(c, pin, keyPath, documentPath, files, unwritable).value;
      var source := files[documentPath].document;
      var privateKey := UnwrapPrivateKey(c, pin, files[keyPath].lines).value;
      && out.path != documentPath
      && Directory(out.path) == Directory(documentPath)
      && out.path !in unwritable
      && out.document.text == source.text
      && out.document.metadata == source.metadata[SignatureField := out.signatureHex]
      && Decode(out.signatureHex) == Ok(c.rsaSign(privateKey, DigestOf(c, source.text)))
  {
    var out := SignDocument(c, pin, keyPath, documentPath, files, unwritable).value;
    SignedPathIsSibling(documentPath);
    var privateKey := UnwrapPrivateKey(c, pin, files[keyPath].lines).value;
    EncodeDecode(c.rsaSign(privateKey, DigestOf(c, files[documentPath].document.text)));
  }

  /**
   * Steps 1 to 3 of `init` as the source runs them: join the body lines,
   * Base64-decode, decrypt with SHA-256 of the PIN, parse as PKCS#8.
   */
  method ReadPrivateKey(c: Suite, pin: string, keyLines: seq<string>) returns (r: Result<seq<Byte>, SignError>)
    ensures r == UnwrapPrivateKey(c, pin, keyLines)
  {
    var base64 := ReadKeyText(keyLines);
    var encryptedBytes := c.base64Decode(base64);
    if encryptedBytes.None? {
      return Err(KeyTextMalformed);
    }
    var key := DigestOf(c, pin);
    var decryptedKey := c.aesDecrypt(key, encryptedBytes.value);
    if decryptedKey.None? {
      return Err(DecryptionFailed);
    }
    if !c.isPkcs8(decryptedKey.value) {
      return Err(KeyFormatInvalid);
    }
    return Ok(decryptedKey.value);
  }

  /** Steps 4 to 6 of `init`: hash the text, sign the hash, write the signature in hex. */
  method SignText(c: Suite, privateKey: seq<Byte>, text: string) returns (signatureHex: string)
    ensures signatureHex == Encode(c.rsaSign(privateKey, DigestOf(c, text)))
  {
    var hash := DigestOf(c, text);
    var digitalSignature := c.rsaSign(privateKey, hash);
    signatureHex := BytesToHex(digitalSignature);
  }

  /** The object the controller and the media watcher share. */
  class Sign {
    var isPendriveRecognized: bool
    var pin: string
    var documentPath: string
    var keyPath: string

    constructor ()
      ensures !isPendriveRecognized && pin == "" && documentPath == "" && keyPath == ""
    {
      isPendriveRecognized := false;
      pin := "";
      documentPath := "";
      keyPath := "";
    }

    method SetPendriveRecognized(b: bool)
      modifies this
      ensures isPendriveRecognized == b
      ensures pin == old(pin) && documentPath == old(documentPath) && keyPath == old(keyPath)
    {
      isPendriveRecognized := b;
    }

    method SetDocumentPath(path: string)
      modifies this
      ensures documentPath == path
      ensures isPendriveRecognized == old(isPendriveRecognized) && pin == old(pin) && keyPath == old(keyPath)
    {
      documentPath := path;
    }

    method SetPin(p: string)
      modifies this
      ensures pin == p
      ensures isPendriveRecognized == old(isPendriveRecognized) && documentPath == old(documentPath) && keyPath == old(keyPath)
    {
      pin := p;
    }

    method SetKeyPath(path: string)
      modifies this
      ensures keyPath == path
      ensures isPendriveRecognized == old(isPendriveRecognized) && pin == old(pin) && documentPath == old(documentPath)
    {
      keyPath := path;
    }

    /**
     * `init`: the steps in source order, each failure returning at once. The
     * file system changes only on success, and then only at the signed path.
     */
    method Init(fs: FileSystem, c: Suite) returns (r: Result<Signed, SignError>)
      modifies fs
      ensures r == SignDocument(c, pin, keyPath, documentPath, old(fs.files), fs.unwritable)
      ensures r.Ok? ==> fs.files == old(fs.files)[r.value.path := PdfFile(r.value.document)]
      ensures r.Err? ==> fs.files == old(fs.files)
    {
      if keyPath !in fs.files || !fs.files[keyPath].TextFile? {
        return Err(KeyFileUnreadable(keyPath));
      }
      var unwrapped := ReadPrivateKey(c, pin, fs.files[keyPath].lines);
      if unwrapped.Err? {
        return Err(unwrapped.error);
      }
      var privateKey := unwrapped.value;
      var signedPath := SignedPath(documentPath);
      if signedPath.None? {
        return Err(NoFileName);
      }
      if documentPath !in fs.files || !fs.files[documentPath].PdfFile? {
        return Err(DocumentUnreadable(documentPath));
      }
      var document := fs.files[documentPath].document;
      var signatureHex := SignText(c, privateKey, document.text);
      document := document.(metadata := document.metadata[SignatureField := signatureHex]);
      if signedPath.value in fs.unwritable {
        return Err(SaveFailed(signedPath.value));
      }
      fs.files := fs.files[signedPath.value := PdfFile(document)];
      r := Ok(Signed(signedPath.value, signatureHex, document));
    }
  }
}
