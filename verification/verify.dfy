/**
 * The verifying side: `Verify` reads the hex signature from the document's
 * `Signature` metadata, hashes the document's current text, loads the public
 * key from its envelope, checks the signature and shows one of two labels.
 */
module Verification {
  import opened Bytes
  import opened Wrappers
  import opened Crypto
  import opened Envelope
  import opened Hex
  import opened Storage
  import opened Widgets
  import Signing

  datatype Verdict = Valid | Tampered | NoSignaturePresent

  /** Where `init` throws, in the order it can happen. */
  datatype VerifyError =
    | NullDocumentPath                   // Paths.get(null)
    | DocumentUnreadable(path: string)   // PDDocument.load fails
    | SignatureMalformed(cause: HexError) // hexToBytes reads past an odd-length string
    | NullKeyPath                        // Paths.get(null)
    | KeyFileUnreadable(path: string)    // Files.lines fails
    | KeyTextMalformed                   // Base64 decoding throws
    | KeyFormatInvalid                   // not an X.509 RSA public key

  /** `extractSignatureFromMetadata`: `Ok(None)` is its null for a missing or empty field. */
  function ExtractSignature(document: Document): (r: Result<Option<seq<Byte>>, HexError>)
    ensures r == Ok(None) <==>
      Signing.SignatureField !in document.metadata || document.metadata[Signing.SignatureField] == ""
    ensures r.Err? <==>
      Signing.SignatureField in document.metadata && |document.metadata[Signing.SignatureField]| % 2 == 1
    ensures r.Ok? && r.value.Some? ==>
      Signing.SignatureField in document.metadata
      && Decode(document.metadata[Signing.SignatureField]) == Ok(r.value.value)
  {
    var field := Signing.SignatureField;
    if field !in document.metadata || document.metadata[field] == "" then Ok(None)
    else match Decode(document.metadata[field])
      case Err(e) => Err(e)
      case Ok(bytes) => Ok(Some(bytes))
  }

  /** `loadPublicKey`: the same BEGIN/END filter and join as the signer, then Base64 and X.509. */
  function LoadPublicKey(c: Suite, keyPath: Option<string>, files: map<string, Content>): (r: Result<seq<Byte>, VerifyError>)
    ensures keyPath.None? ==> r == Err(NullKeyPath)
    ensures r.Ok? ==>
      && keyPath.Some? && keyPath.value in files && files[keyPath.value].TextFile?
      && c.base64Decode(ReadKeyText(files[keyPath.value].lines)) == Some(r.value)
      && c.isX509(r.value)
  {
    match keyPath
    case None => Err(NullKeyPath)
    case Some(path) =>
      if path !in files || !files[path].TextFile? then Err(KeyFileUnreadable(path))
      else match c.base64Decode(ReadKeyText(files[path].lines))
        case None => Err(KeyTextMalformed)
        case Some(keyBytes) => if c.isX509(keyBytes) then Ok(keyBytes) else Err(KeyFormatInvalid)
  }

  /**
   * The whole of `init`. A missing or empty `Signature` ends the check
   * before the key is looked at; a completed check decides on the
   * document's current text: `Valid` exactly when the stored signature
   * verifies, under the loaded public key, against SHA-256 of that text.
   */
  function VerifyDocument(c: Suite, documentPath: Option<string>, keyPath: Option<string>,
                          files: map<string, Content>): (r: Result<Verdict, VerifyError>)
    ensures documentPath.None? ==> r == Err(NullDocumentPath)
    ensures r.Ok? ==> documentPath.Some? && documentPath.value in files && files[documentPath.value].PdfFile?
    ensures r == Ok(NoSignaturePresent) <==>
      && documentPath.Some? && documentPath.value in files && files[documentPath.value].PdfFile?
      && ExtractSignature(files[documentPath.value].document) == Ok(None)
    ensures r.Ok? && r.value != NoSignaturePresent ==>
      var document := files[documentPath.value].document;
      && ExtractSignature(document).Ok? && ExtractSignature(document).value.Some?
      && LoadPublicKey(c, keyPath, files).Ok?
      && (r.value == Valid <==>
          c.rsaVerify(LoadPublicKey(c, keyPath, files).value, DigestOf(c, document.text),
                      ExtractSignature(document).value.value))
  {
    match documentPath
    case None => Err(NullDocumentPath)
    case Some(path) =>
      if path !in files || !files[path].PdfFile? then Err(DocumentUnreadable(path))
      else
        var document := files[path].document;
        match ExtractSignature(document)
        case Err(e) => Err(SignatureMalformed(e))
        case Ok(None) => Ok(NoSignaturePresent)
        case Ok(Some(signature)) =>
          var calculatedHash := DigestOf(c, document.text);
          match LoadPublicKey(c, keyPath, files)
          case Err(e) => Err(e)
          case Ok(publicKey) =>
            Ok(if c.rsaVerify(publicKey, calculatedHash, signature) then Valid else Tampered)
  }

  class Verify {
    var documentPath: Option<string>
    var keyPath: Option<string>

    /** Both paths start as null. */
    constructor ()
      ensures documentPath == None && keyPath == None
    {
      documentPath := None;
      keyPath := None;
    }

    method SetDocumentPath(path: string)
      modifies this
      ensures documentPath == Some(path) && keyPath == old(keyPath)
    {
      documentPath := Some(path);
    }

    method SetKeyPath(path: string)
      modifies this
      ensures keyPath == Some(path) && documentPath == old(documentPath)
    {
      keyPath := Some(path);
    }

    /**
     * `init`: after a completed check exactly one of the two labels is
     * visible, `correctLabel` iff the signature verified; a missing signature
     * or a failure leaves both labels as they were.
     */
    method Init(correctLabel: Text, changedLabel: Text, fs: FileSystem, c: Suite) returns (r: Result<Verdict, VerifyError>)
      requires correctLabel != changedLabel
      modifies correctLabel, changedLabel
      ensures r == VerifyDocument(c, documentPath, keyPath, fs.files)
      ensures r == Ok(Valid) ==> correctLabel.visible && !changedLabel.visible
      ensures r == Ok(Tampered) ==> !correctLabel.visible && changedLabel.visible
      ensures r.Err? || r == Ok(NoSignaturePresent) ==>
        correctLabel.visible == old(correctLabel.visible) && changedLabel.visible == old(changedLabel.visible)
    {
      if documentPath.None? {
        return Err(NullDocumentPath);
      }
      var path := documentPath.value;
      if path !in fs.files || !fs.files[path].PdfFile? {
        return Err(DocumentUnreadable(path));
      }
      var document := fs.files[path].document;
      var field := Signing.SignatureField;
      if field !in document.metadata || document.metadata[field] == "" {
        return Ok(NoSignaturePresent);
      }
      var decoded := HexToBytes(document.metadata[field]);
      if decoded.Err? {
        return Err(SignatureMalformed(decoded.error));
      }
      var digitalSignature := decoded.value;
      var calculatedHash := DigestOf(c, document.text);
      var publicKey := LoadPublicKey(c, keyPath, fs.files);
      if publicKey.Err? {
        return Err(publicKey.error);
      }
      var isValid := c.rsaVerify(publicKey.value, calculatedHash, digitalSignature);
      if isValid {
        correctLabel.visible := true;
        changedLabel.visible := false;
        r := Ok(Valid);
      } else {
        correctLabel.visible := false;
        changedLabel.visible := true;
        r := Ok(Tampered);
      }
    }
  }
}
