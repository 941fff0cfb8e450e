/**
 * The auxiliary application's `KeyGenerator`: it encrypts a fresh RSA private
 * key under SHA-256 of the PIN and writes `public.pem` and `private.enc`
 * envelopes into the chosen directory.
 */
module KeyGen {
  import opened Bytes
  import opened Wrappers
  import opened Crypto
  import opened Envelope
  import opened Storage

  /** The file `saveToFile` opens: `pathToSave + "\public.pem"` or `pathToSave + "\private.enc"`. */
  function TargetPath(pathToSave: string, pub: bool): (path: string)
    ensures |path| > |pathToSave| && path[..|pathToSave|] == pathToSave
    ensures path[|pathToSave|] == '\\'
    ensures path[|pathToSave| + 1..] == if pub then "public.pem" else "private.enc"
  {
    pathToSave + (if pub then "\\public.pem" else "\\private.enc")
  }

  /** The Base64 text of the public key's X.509 encoding. */
  function PublicKeyText(c: Suite, kp: KeyPair): string
  {
    c.base64Encode(kp.publicKey)
  }

  /** The Base64 text of the PKCS#8 private key encrypted under the PIN-derived AES key. */
  function PrivateKeyText(c: Suite, pin: string, kp: KeyPair): string
  {
    c.base64Encode(c.aesEncrypt(DigestOf(c, pin), kp.privateKey))
  }

  /** `saveToFile` threw: the target file could not be opened for writing. */
  datatype WriteError = CannotOpen(path: string)

  class KeyGenerator {
    const pin: string
    const pathToSave: string

    constructor (pin: string, pathToSave: string)
      ensures this.pin == pin && this.pathToSave == pathToSave
    {
      this.pin := pin;
      this.pathToSave := pathToSave;
    }

    /**
     * `saveToFile`: the header, then `s` in slices of 64 characters starting
     * at 0, 64, 128, ..., then the footer; a file that cannot be opened is an
     * error and nothing is written.
     */
    method SaveToFile(fs: FileSystem, s: string, pub: bool) returns (r: Result<(), WriteError>)
      modifies fs
      ensures var path := TargetPath(pathToSave, pub);
        if path in fs.unwritable then r == Err(CannotOpen(path)) && fs.files == old(fs.files)
        else r == Ok(()) && fs.files == old(fs.files)[path := TextFile(EnvelopeLines(s, pub))]
    {
      var path := TargetPath(pathToSave, pub);
      if path in fs.unwritable {
        return Err(CannotOpen(path));
      }
      var lines := [Header(pub)];
      var i := 0;
      while i < |s|
        invariant 0 <= i
        invariant i < |s| ==> lines + Chunks(s[i..]) == [Header(pub)] + Chunks(s)
        invariant i >= |s| ==> lines == [Header(pub)] + Chunks(s)
        decreases |s| - i
      {
        var end := if i + LineWidth < |s| then i + LineWidth else |s|;
        assert Chunks(s[i..]) == [s[i..end]] + Chunks(s[end..]) by {
          if |s| - i > LineWidth {
            assert s[i..][..LineWidth] == s[i..end];
            assert s[i..][LineWidth..] == s[end..];
          } else {
            assert s[i..end] == s[i..] && s[i..] != "";
            assert s[end..] == "";
          }
        }
        lines := lines + [s[i..end]];
        i := i + LineWidth;
        if i >= |s| {
          assert s[end..] == "";
        } else {
          assert end == i;
        }
      }
      lines := lines + [Footer(pub)];
      fs.files := fs.files[path := TextFile(lines)];
      r := Ok(());
    }

    /**
     * `init`: the key pair comes from the generator; the private key is
     * encrypted under SHA-256 of the PIN; the public envelope is written
     * first and the encrypted private key second, so a failure on the second
     * file leaves the first in place.
     */
    method Init(fs: FileSystem, c: Suite, kp: KeyPair) returns (r: Result<(), WriteError>)
      modifies fs
      ensures var pubPath, privPath := TargetPath(pathToSave, true), TargetPath(pathToSave, false);
        var pubFile := TextFile(EnvelopeLines(PublicKeyText(c, kp), true));
        var privFile := TextFile(EnvelopeLines(PrivateKeyText(c, pin, kp), false));
        if pubPath in fs.unwritable then
          r == Err(CannotOpen(pubPath)) && fs.files == old(fs.files)
        else if privPath in fs.unwritable then
          r == Err(CannotOpen(privPath)) && fs.files == old(fs.files)[pubPath := pubFile]
        else
          r == Ok(()) && fs.files == old(fs.files)[pubPath := pubFile][privPath := privFile]
    {
      var key := DigestOf(c, pin);
      var encryptedPrivateKey := c.aesEncrypt(key, kp.privateKey);
      r := SaveToFile(fs, c.base64Encode(kp.publicKey), true);
      if r.Err? {
        return;
      }
      r := SaveToFile(fs, c.base64Encode(encryptedPrivateKey), false);
    }
  }
}
