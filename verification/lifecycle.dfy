/**
 * How the two applications fit together: the generator writes the key pair,
 * the user carries `private.enc` on the pendrive where the watcher looks for
 * it, the signer signs with it, and the verifier accepts the signed copy
 * under `public.pem`.
 */
module Lifecycle {
  import opened Bytes
  import opened Wrappers
  import opened Strings
  import opened Crypto
  import opened Envelope
  import opened Hex
  import opened SignedName
  import opened Storage
  import opened KeyGen
  import opened Signing
  import opened Verification
  import MediaWatch

  /** The generator's private key file carries the very name the watcher searches for. */
  lemma PrivateKeyFileIsFound(pathToSave: string)
    ensures FileName(TargetPath(pathToSave, false)) == MediaWatch.KeyFileName
  {
    NameStartOfAppend(pathToSave + "\\", MediaWatch.KeyFileName);
    assert TargetPath(pathToSave, false) == (pathToSave + "\\") + MediaWatch.KeyFileName;
  }

  /** A signed copy never lands on the generator's `public.pem`: their last characters differ. */
  lemma SignedCopyMissesPublicKey(documentPath: string, pathToSave: string)
    requires SignedPath(documentPath).Some?
    ensures SignedPath(documentPath).value != TargetPath(pathToSave, true)
  {
    var out := SignedPath(documentPath).value;
    SignedPathIsSibling(documentPath);
    var pub := TargetPath(pathToSave, true);
    assert out[|out| - 1] == SignedSuffix[|SignedSuffix| - 1] == 'f';
    assert pub[|pub| - 1] == 'm';
  }

  /**
   * Generate, sign, verify: with the private envelope on the pendrive and the
   * public envelope where the generator wrote it, signing a PDF under the
   * PIN the keys were generated with succeeds, and verifying the signed copy
   * under `public.pem` gives `Valid`. The envelopes must read back (no
   * Base64 line mentions BEGIN or END) and the signed path be writable.
   */
  lemma SignThenVerify(c: Suite, pin: string, kp: KeyPair, pathToSave: string, keyPath: string,
                       documentPath: string, files: map<string, Content>, unwritable: set<string>)
    requires Laws(c) && Generated(c, kp)
    requires forall line :: line in Chunks(PublicKeyText(c, kp)) ==> IsBodyLine(line)
    requires forall line :: line in Chunks(PrivateKeyText(c, pin, kp)) ==> IsBodyLine(line)
    requires keyPath in files && files[keyPath] == TextFile(EnvelopeLines(PrivateKeyText(c, pin, kp), false))
    requires var pubPath := TargetPath(pathToSave, true);
      pubPath in files && files[pubPath] == TextFile(EnvelopeLines(PublicKeyText(c, kp), true))
    requires documentPath in files && files[documentPath].PdfFile?
    requires SignedPath(documentPath).Some? && SignedPath(documentPath).value !in unwritable
    ensures var r := SignDocument(c, pin, keyPath, documentPath, files, unwritable);
      && r.Ok?
      && r.value.path == SignedPath(documentPath).value
      && VerifyDocument(c, Some(r.value.path), Some(TargetPath(pathToSave, true)),
                        files[r.value.path := PdfFile(r.value.document)]) == Ok(Verdict.Valid)
  {
    var pubPath := TargetPath(pathToSave, true);
    var source := files[documentPath].document;
    var signature := c.rsaSign(kp.privateKey, DigestOf(c, source.text));
    SignsWithGeneratedKey(c, pin, kp, keyPath, documentPath, files, unwritable);
    var out := SignDocument(c, pin, keyPath, documentPath, files, unwritable).value;
    SignedCopyMissesPublicKey(documentPath, pathToSave);
    var files' := files[out.path := PdfFile(out.document)];
    assert files'[pubPath] == files[pubPath];
    VerifiesUnderGeneratedKey(c, kp, out.document, pubPath, files', signature);
  }

  /** Signing step of `SignThenVerify`: the signer recovers the generated private key and signs. */
  lemma SignsWithGeneratedKey(c: Suite, pin: string, kp: KeyPair, keyPath: string,
                              documentPath: string, files: map<string, Content>, unwritable: set<string>)
    requires Laws(c) && Generated(c, kp)
    requires forall line :: line in Chunks(PrivateKeyText(c, pin, kp)) ==> IsBodyLine(line)
    requires keyPath in files && files[keyPath] == TextFile(EnvelopeLines(PrivateKeyText(c, pin, kp), false))
    requires documentPath in files && files[documentPath].PdfFile?
    requires SignedPath(documentPath).Some? && SignedPath(documentPath).value !in unwritable
    ensures var r := SignDocument(c, pin, keyPath, documentPath, files, unwritable);
      var source := files[documentPath].document;
      var signature := c.rsaSign(kp.privateKey, DigestOf(c, source.text));
      && r.Ok?
      && r.value.path == SignedPath(documentPath).value
      && r.value.document.text == source.text
      && ExtractSignature(r.value.document) == Ok(Some(signature))
  {
    UnwrapGeneratedKey(c, pin, kp);
    assert UnwrapPrivateKey(c, pin, files[keyPath].lines) == Ok(kp.privateKey);
    var r := SignDocument(c, pin, keyPath, documentPath, files, unwritable);
    assert r.Ok?;
    SignedCopy(c, pin, keyPath, documentPath, files, unwritable);
    var source := files[documentPath].document;
    var signature := c.rsaSign(kp.privateKey, DigestOf(c, source.text));
    EncodeShape(signature);
    assert r.value.signatureHex != "";
  }

  /** Verifying step of `SignThenVerify`: a document carrying the signature over its text checks out. */
  lemma VerifiesUnderGeneratedKey(c: Suite, kp: KeyPair, document: Document, pubPath: string,
                                  files: map<string, Content>, signature: seq<Byte>)
    requires Laws(c) && Generated(c, kp)
    requires forall line :: line in Chunks(PublicKeyText(c, kp)) ==> IsBodyLine(line)
    requires pubPath in files && files[pubPath] == TextFile(EnvelopeLines(PublicKeyText(c, kp), true))
    requires ExtractSignature(document) == Ok(Some(signature))
    requires signature == c.rsaSign(kp.privateKey, DigestOf(c, document.text))
    ensures forall path :: path in files && files[path] == PdfFile(document) ==>
      VerifyDocument(c, Some(path), Some(pubPath), files) == Ok(Verdict.Valid)
  {
    EnvelopeRoundTrip(PublicKeyText(c, kp), true);
    assert LoadPublicKey(c, Some(pubPath), files) == Ok(kp.publicKey);
  }
}
