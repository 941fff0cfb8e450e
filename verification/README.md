# PAdES signing application — a Dafny model

This project models the core of a two-part PAdES-style signing system for
PDF documents:

- The **key generator** (auxiliary application) creates an RSA key pair. It
  encrypts the private key with AES under SHA-256 of a user PIN, and writes
  `public.pem` and `private.enc` as text envelopes: a BEGIN header, the
  Base64 text in 64-character lines, and an END footer.
- The **signing application** has three parts:
  - a media watcher that polls the file-system roots for a removable drive
    holding `private.enc`;
  - a signer that reads the envelope back, unwraps the private key with the
    PIN, signs SHA-256 of the document's extracted text, stores the
    signature as lower-case hex in the `Signature` metadata field, and saves
    a sibling `<name>_signed.pdf`;
  - a verifier that reads the hex signature back, hashes the document's
    current text, loads the public key from its envelope, and shows the
    "correct" or the "changed" label.
- The **window controller** gates the buttons on the PIN, the drive and the
  chosen files. It raises the `signed` flag that stops the watcher.

Modules, one per part of the program:

| file | module | models |
|---|---|---|
| `hex.dfy` | `Hex` | `Sign.bytesToHex` and `Verify.hexToBytes` and their round trips |
| `envelope.dfy` | `Envelope` | the envelope layout `saveToFile` writes and the BEGIN/END filter both readers apply |
| `signed_path.dfy` | `SignedName` | the derivation of the signed copy's path |
| `key_generator.dfy` | `KeyGen` | `KeyGenerator.init` and `saveToFile` |
| `sign.dfy` | `Signing` | the `Sign` object and its `init` pipeline |
| `verify.dfy` | `Verification` | the `Verify` object and its `init` pipeline |
| `usb_detector.dfy` | `MediaWatch` | `USBDetector.run`: one scan, and the polling loop |
| `controller.dfy` | `Controller` | `HelloController`: gates, handlers, the `signed` flag |
| `lifecycle.dfy` | `Lifecycle` | generate, then sign, then verify, end to end |

Supporting modules:

- `Wrappers`: `Option` and `Result`.
- `Bytes`: a byte is its unsigned bit pattern 0..255, and Java's `(byte)`
  cast is reduction modulo 256.
- `Strings`: `contains`, joining, `endsWith`, ASCII lower-casing.
- `Crypto`: SHA-256, AES, RSA, Base64, UTF-8 and the key parsers. They are
  uninterpreted function values in a `Suite`. The only facts lemmas may
  rely on are collected in `Laws`:
  - Base64 and AES round-trip;
  - an RSA signature made with the private half of a generated pair
    verifies under its public half;
  - a signature is never empty.
- `Storage`: the file system, a map from path to a text file (its lines) or
  a PDF (extracted text and metadata), plus the set of paths that cannot be
  written.
- `Widgets`: a label with a visibility flag.

## Model

| member | source | states |
|---|---|---|
| Bytes.ToByte | Developed_app_folder/src/main/java/org/example/developed_app/verify/Verify.java:138-139 | the `(byte)` cast keeps the value modulo 256 |
| Hex.Digit | Developed_app_folder/src/main/java/org/example/developed_app/verify/Verify.java:138-139 | `Character.digit(c, 16)` lies in -1..15 and is -1 exactly for a character that is not a hex digit |
| Hex.NibbleChar | Developed_app_folder/src/main/java/org/example/developed_app/sign/Sign.java:55 | the digit written for a nibble is a lower-case hex digit that reads back as that nibble |
| Hex.ToHexString | Developed_app_folder/src/main/java/org/example/developed_app/sign/Sign.java:55 | `Integer.toHexString(0xff & b)` gives one lower-case digit for a byte below 16 and two otherwise, never with a leading `0`, and the digits read back as the byte |
| Hex.BytesToHex | Developed_app_folder/src/main/java/org/example/developed_app/sign/Sign.java:52-60 | the loop with its zero padding produces exactly the two-digits-per-byte encoding `Encode` |
| Hex.EncodeShape | Developed_app_folder/src/main/java/org/example/developed_app/sign/Sign.java:52-60 | the hex text has 2n characters, all lower-case hex; characters 2k and 2k+1 are byte k's high and low nibble; a byte below 16 gets a leading `0` |
| Hex.HexToBytes | Developed_app_folder/src/main/java/org/example/developed_app/verify/Verify.java:134-142 | the array loop computes `Decode`: it succeeds iff the text has even length and then gives half as many bytes as characters; on odd length the `charAt(i + 1)` fault is at the index equal to the length |
| Hex.PairByte | Developed_app_folder/src/main/java/org/example/developed_app/verify/Verify.java:138-139 | on two hex digits the shift-and-add gives 16 times the high digit plus the low one, with no wrap-around, so the byte splits back into the two digits |
| Hex.DecodeHexDigits | Developed_app_folder/src/main/java/org/example/developed_app/verify/Verify.java:138-139 | on valid hex digits, byte k is 16 times the high digit plus the low digit, without wrap-around |
| Hex.EncodeDecode | Developed_app_folder/src/main/java/org/example/developed_app/verify/Verify.java:134-142 | decoding the signer's hex of any byte sequence returns exactly that sequence |
| Hex.DecodeEncode | Developed_app_folder/src/main/java/org/example/developed_app/verify/Verify.java:134-142 | a valid even-length hex text re-encodes to itself up to letter case |
| Hex.DecodeIgnoresCase | Developed_app_folder/src/main/java/org/example/developed_app/verify/Verify.java:138-139 | texts that differ only in the case of hex letters decode to the same bytes |
| Envelope.BodyLines | Developed_app_folder/src/main/java/org/example/developed_app/sign/Sign.java:72-74 | the filter keeps no more lines than it is given, and keeps exactly the lines without BEGIN or END |
| Envelope.BodyLinesAppend | Developed_app_folder/src/main/java/org/example/developed_app/sign/Sign.java:72-74 | the filter distributes over concatenation, so the lines it keeps stay in file order and each kept line appears as often as in the file |
| Envelope.ReadKeyText | Developed_app_folder/src/main/java/org/example/developed_app/sign/Sign.java:72-74 | when no line mentions BEGIN or END, the text handed to the decoder is all lines joined with no separator |
| Envelope.BodyLinesIdentity | Developed_app_folder/src/main/java/org/example/developed_app/verify/Verify.java:103-105 | the filter changes nothing exactly when no line mentions BEGIN or END |
| Envelope.ReadKeyTextShorter | Developed_app_folder/src/main/java/org/example/developed_app/verify/Verify.java:103-105 | dropping a non-empty line makes the joined text strictly shorter |
| Envelope.MarkersAreDropped | auxiliaryApilcationGui/src/main/java/org/example/auxiliaryapilcationgui/KeyGenerator.java:80-84 | the header and the footer are always dropped by the readers; an empty key gives only header and footer |
| Envelope.Chunks | auxiliaryApilcationGui/src/main/java/org/example/auxiliaryapilcationgui/KeyGenerator.java:81-83 | the body lines joined with no separator give the key text back |
| Envelope.EnvelopeLines | auxiliaryApilcationGui/src/main/java/org/example/auxiliaryapilcationgui/KeyGenerator.java:80-84 | a key file has ceil(n/64) body lines between the header first and the footer last |
| Envelope.ChunksAre | auxiliaryApilcationGui/src/main/java/org/example/auxiliaryapilcationgui/KeyGenerator.java:81-83 | there are ceil(n/64) body lines, and line k is the slice from 64k to min(64k+64, n) |
| Envelope.ChunkCount | auxiliaryApilcationGui/src/main/java/org/example/auxiliaryapilcationgui/KeyGenerator.java:81 | the loop steps through the text in strides of 64: ceil(n/64) lines |
| Envelope.ChunkAt | auxiliaryApilcationGui/src/main/java/org/example/auxiliaryapilcationgui/KeyGenerator.java:82 | line k starts at 64k, inside the text, and ends at min(64k+64, n) |
| Envelope.ChunkSizes | auxiliaryApilcationGui/src/main/java/org/example/auxiliaryapilcationgui/KeyGenerator.java:81-83 | every body line but the last has 64 characters, the last 1 to 64, and there are none only for an empty key |
| Envelope.ChunksNonEmpty | auxiliaryApilcationGui/src/main/java/org/example/auxiliaryapilcationgui/KeyGenerator.java:81-83 | no body line is empty |
| Envelope.EnvelopeRoundTrip | Developed_app_folder/src/main/java/org/example/developed_app/sign/Sign.java:72-74 | reading an envelope returns the body lines that mention neither BEGIN nor END, joined; that is the written text iff no body line mentions a marker, is never longer, and is strictly shorter when a line is lost |
| Envelope.LostLine | Developed_app_folder/src/main/java/org/example/developed_app/sign/Sign.java:72-74 | a Base64 line containing `END` is silently lost: `MENDAQ==` reads back as the empty text |
| SignedName.NameStart | Developed_app_folder/src/main/java/org/example/developed_app/sign/Sign.java:92 | the file name starts after the last `\` or `/`, and holds no separator |
| SignedName.FileName | Developed_app_folder/src/main/java/org/example/developed_app/sign/Sign.java:92 | `getFileName()` is a suffix of the path that holds no separator and is preceded by a separator when shorter than the path |
| SignedName.Directory | Developed_app_folder/src/main/java/org/example/developed_app/sign/Sign.java:93 | the directory part `resolveSibling` keeps, followed by the file name, is the whole path, and is empty or ends in a separator |
| SignedName.RemoveAll | Developed_app_folder/src/main/java/org/example/developed_app/sign/Sign.java:92 | `replace(".pdf", "")` never lengthens the text and leaves it unchanged exactly when it removes no occurrence |
| SignedName.RemoveAllShortens | Developed_app_folder/src/main/java/org/example/developed_app/sign/Sign.java:92 | `replace(".pdf", "")` removes 4 characters per occurrence and adds no character |
| SignedName.SignedPath | Developed_app_folder/src/main/java/org/example/developed_app/sign/Sign.java:91-93 | the signed path is missing exactly when the path ends in a separator (no file name), and otherwise ends in `_signed.pdf` |
| SignedName.SignedPathIsSibling | Developed_app_folder/src/main/java/org/example/developed_app/sign/Sign.java:91-93 | the signed copy is in the document's directory, is named (name without every `.pdf`) + `_signed.pdf`, and is never the document itself |
| SignedName.ReportExample | Developed_app_folder/src/main/java/org/example/developed_app/sign/Sign.java:92-93 | a name `<stem>.pdf` whose stem has no dot is signed into `<stem>_signed.pdf` (so `report.pdf` gives `report_signed.pdf`) |
| SignedName.EveryOccurrenceRemoved | Developed_app_folder/src/main/java/org/example/developed_app/sign/Sign.java:92 | every `.pdf` is removed, not only the extension: `<stem>.pdf.pdf` gives `<stem>_signed.pdf` |
| SignedName.OnePassOnly | Developed_app_folder/src/main/java/org/example/developed_app/sign/Sign.java:92 | removal is a single left-to-right pass: `<stem>..pdfpdf` gives `<stem>.pdf_signed.pdf`, keeping the `.pdf` the removal brings together |
| KeyGen.TargetPath | auxiliaryApilcationGui/src/main/java/org/example/auxiliaryapilcationgui/KeyGenerator.java:79 | the key file is the chosen directory followed by `\` and `public.pem` for the public key or `private.enc` for the private one |
| KeyGen.KeyGenerator.constructor | auxiliaryApilcationGui/src/main/java/org/example/auxiliaryapilcationgui/KeyGenerator.java:37-40 | the generator keeps the PIN and the target directory it is given |
| KeyGen.KeyGenerator.SaveToFile | auxiliaryApilcationGui/src/main/java/org/example/auxiliaryapilcationgui/KeyGenerator.java:77-89 | an unwritable target is an error with nothing written; otherwise the file holds header, 64-character slices and footer |
| KeyGen.KeyGenerator.Init | auxiliaryApilcationGui/src/main/java/org/example/auxiliaryapilcationgui/KeyGenerator.java:48-69 | the public envelope is written first, then the private key encrypted under SHA-256 of the PIN; a failure on the second file leaves the first written |
| Signing.Sign.constructor | Developed_app_folder/src/main/java/org/example/developed_app/sign/Sign.java:29-44 | the drive starts unrecognized and the PIN and both paths start empty |
| Signing.Sign.SetPendriveRecognized | Developed_app_folder/src/main/java/org/example/developed_app/sign/Sign.java:130-132 | sets the flag and nothing else |
| Signing.Sign.SetDocumentPath | Developed_app_folder/src/main/java/org/example/developed_app/sign/Sign.java:148-150 | sets the document path and nothing else |
| Signing.Sign.SetPin | Developed_app_folder/src/main/java/org/example/developed_app/sign/Sign.java:157-159 | sets the PIN and nothing else |
| Signing.Sign.SetKeyPath | Developed_app_folder/src/main/java/org/example/developed_app/sign/Sign.java:175-177 | sets the key path and nothing else |
| Signing.UnwrapPrivateKey | Developed_app_folder/src/main/java/org/example/developed_app/sign/Sign.java:72-89 | a malformed Base64 text is `KeyTextMalformed` exactly when decoding fails; success means the text decodes, AES under SHA-256 of the PIN decrypts it to the key and the key parses as PKCS#8; every failure is one of the three unwrap errors |
| Signing.ReadPrivateKey | Developed_app_folder/src/main/java/org/example/developed_app/sign/Sign.java:72-89 | the source's step-by-step unwrapping computes `UnwrapPrivateKey` |
| Signing.SignText | Developed_app_folder/src/main/java/org/example/developed_app/sign/Sign.java:99-105 | the hash, sign and hex steps give the hex encoding of the RSA signature over SHA-256 of the text |
| Signing.SignDocument | Developed_app_folder/src/main/java/org/example/developed_app/sign/Sign.java:71-114 | an unreadable key file fails first, then any unwrap failure, both before any output path is looked at; a success saves at the derived signed path, which is writable, from a readable PDF, with `Signature` holding the signature hex; a `Signature` field already present is overwritten |
| Signing.Sign.Init | Developed_app_folder/src/main/java/org/example/developed_app/sign/Sign.java:71-114 | signing follows the source's steps and failures in order; the file system changes only on success, and then only at the signed path |
| Signing.UnwrapGeneratedKey | Developed_app_folder/src/main/java/org/example/developed_app/sign/Sign.java:72-89 | a key file the generator wrote under the same PIN unwraps to the generated private key, provided no Base64 line mentions BEGIN or END |
| Signing.SignedCopy | Developed_app_folder/src/main/java/org/example/developed_app/sign/Sign.java:91-109 | a successful signing saves a writable sibling, never the document; same text, metadata changed only at `Signature`, which decodes to the RSA signature of SHA-256 of the text |
| Verification.Verify.constructor | Developed_app_folder/src/main/java/org/example/developed_app/verify/Verify.java:25-30 | both paths start null |
| Verification.Verify.SetDocumentPath | Developed_app_folder/src/main/java/org/example/developed_app/verify/Verify.java:158-160 | sets the document path and nothing else |
| Verification.Verify.SetKeyPath | Developed_app_folder/src/main/java/org/example/developed_app/verify/Verify.java:176-178 | sets the key path and nothing else |
| Verification.ExtractSignature | Developed_app_folder/src/main/java/org/example/developed_app/verify/Verify.java:74-83 | a missing or empty `Signature` field is "no signature"; an odd-length one is an error; otherwise its decoding |
| Verification.LoadPublicKey | Developed_app_folder/src/main/java/org/example/developed_app/verify/Verify.java:102-110 | a null key path fails; a loaded key comes from a readable text file whose filtered, joined lines Base64-decode to it and parse as X.509 |
| Verification.VerifyDocument | Developed_app_folder/src/main/java/org/example/developed_app/verify/Verify.java:39-66 | a null document path fails; "no signature" is answered exactly for a readable PDF without a signature, before the key file is looked at; a completed check loaded the key and is `Valid` iff the stored signature verifies, under that key, against SHA-256 of the document's current text |
| Verification.Verify.Init | Developed_app_folder/src/main/java/org/example/developed_app/verify/Verify.java:39-66 | after a completed check exactly one label shows, `correctLabel` iff valid; no signature or any failure leaves both labels as they were |
| MediaWatch.IsRemovable | Developed_app_folder/src/main/java/org/example/developed_app/sign/USBDetector.java:58 | the file store counts as removable iff some window of its text spells `removable` in any mix of ASCII case |
| MediaWatch.RemovableWindow | Developed_app_folder/src/main/java/org/example/developed_app/sign/USBDetector.java:58 | `contains` on the lower-cased text finds `removable` exactly where a window of the original text lower-cases to it |
| MediaWatch.FirstUnavailable | Developed_app_folder/src/main/java/org/example/developed_app/sign/USBDetector.java:54-73 | the first root whose file store cannot be read; every root before it can be read |
| MediaWatch.Scan | Developed_app_folder/src/main/java/org/example/developed_app/sign/USBDetector.java:54-77 | a scan fails iff some file store cannot be read, and the failure names the first such root |
| MediaWatch.ScanOnce | Developed_app_folder/src/main/java/org/example/developed_app/sign/USBDetector.java:50-77 | the nested loops compute exactly the scan `Scan` describes |
| MediaWatch.SearchListing | Developed_app_folder/src/main/java/org/example/developed_app/sign/USBDetector.java:61-69 | the listing loop leaves the flag and path of the last regular file named `private.enc`, or the values it started with when there is none |
| MediaWatch.ScanSpec | Developed_app_folder/src/main/java/org/example/developed_app/sign/USBDetector.java:54-77 | a scan fails iff some file store cannot be read; otherwise the drive is recognized iff some removable directory root lists a regular file named `private.enc`, the path is that of the last such file in scan order, and with no match the result is (false, "") |
| MediaWatch.NameMatchIsExact | Developed_app_folder/src/main/java/org/example/developed_app/sign/USBDetector.java:64 | the name must match exactly: `PRIVATE.ENC` or a directory does not count |
| MediaWatch.Watch | Developed_app_folder/src/main/java/org/example/developed_app/sign/USBDetector.java:42-81 | the watcher never completes more scans than there were polls; `WatchSpec` states the rest |
| MediaWatch.WatchSpec | Developed_app_folder/src/main/java/org/example/developed_app/sign/USBDetector.java:42-81 | the watcher scans only on polls that saw `signed` false, stops only on a `signed` poll, a failed scan or the end of the polls, and leaves the last completed scan published |
| MediaWatch.Run | Developed_app_folder/src/main/java/org/example/developed_app/sign/USBDetector.java:42-81 | the loop ends as `Watch` describes, its published snapshot is what the shared `Sign` holds, and PIN and document path are untouched |
| Controller.VerifyGate | Developed_app_folder/src/main/java/org/example/developed_app/HelloController.java:102-104 | the gate throws iff the document path is null, or it is empty and the key path is null; when it answers, the button is disabled iff both paths are empty |
| Controller.Regated | Developed_app_folder/src/main/java/org/example/developed_app/HelloController.java:91-97 | the sign button is disabled iff the gate `SignReady` fails, that is unless a PIN is typed, the drive is recognized and a document is chosen; the drive label is enabled and reads "recognized" iff the drive is; every other part of the window is as before |
| Controller.HelloController.constructor | Developed_app_folder/src/main/java/org/example/developed_app/HelloController.java:31-86 | a fresh `Sign` and `Verify` in their initial states and two distinct result labels; the window starts as the layout and the `signed` value passed in |
| Controller.HelloController.TryTo | Developed_app_folder/src/main/java/org/example/developed_app/HelloController.java:91-97 | the window becomes `Regated` of the old window on the shared `Sign` state: nothing but the sign button and the drive label changes |
| Controller.HelloController.TryToVerify | Developed_app_folder/src/main/java/org/example/developed_app/HelloController.java:102-104 | the verify button is disabled as `VerifyGate` answers, or unchanged when the gate throws; nothing else in the window changes |
| Controller.HelloController.OnKeyTyped | Developed_app_folder/src/main/java/org/example/developed_app/HelloController.java:110-112 | the typed text becomes the PIN field's text and the sign gate is re-evaluated; nothing else changes |
| Controller.HelloController.OnSignSelectButtonClick | Developed_app_folder/src/main/java/org/example/developed_app/HelloController.java:118-132 | a chosen regular file becomes the document, re-gates and hides the error label; cancel or a non-file changes nothing; a dialog failure shows the error label and changes nothing else |
| Controller.HelloController.OnSignButtonClick | Developed_app_folder/src/main/java/org/example/developed_app/HelloController.java:140-144 | `signed` is raised before signing runs and is the only window change; the typed text becomes the PIN and signing runs on the current state |
| Controller.HelloController.OnVerifyDocumentSelectButtonClick | Developed_app_folder/src/main/java/org/example/developed_app/HelloController.java:150-163 | a chosen regular file becomes the document to verify and the verify button follows `VerifyGate`, with the error label shown when it throws; cancel or a non-file changes nothing; a dialog failure only shows the error label |
| Controller.HelloController.OnVerifyKeySelectButtonClick | Developed_app_folder/src/main/java/org/example/developed_app/HelloController.java:169-182 | a chosen file becomes the key even when the gate then throws on a null document path, which shows the error label; cancel or a non-file changes nothing; a dialog failure only shows the error label |
| Controller.HelloController.OnVerifyButtonClick | Developed_app_folder/src/main/java/org/example/developed_app/HelloController.java:190-192 | runs the check, which sets exactly one result label on a completed check; the window itself is unchanged |
| Controller.KeyChosenFirst | Developed_app_folder/src/main/java/org/example/developed_app/HelloController.java:169-182 | choosing the key before the document shows the error label, yet the key is kept and choosing the document enables verification |
| Lifecycle.PrivateKeyFileIsFound | auxiliaryApilcationGui/src/main/java/org/example/auxiliaryapilcationgui/KeyGenerator.java:79 | the generator's private key file has the exact name the watcher searches for |
| Lifecycle.SignedCopyMissesPublicKey | Developed_app_folder/src/main/java/org/example/developed_app/sign/Sign.java:93 | a signed copy can never overwrite the generator's `public.pem` |
| Lifecycle.SignThenVerify | Developed_app_folder/src/main/java/org/example/developed_app/sign/Sign.java:71-114 | with the generator's envelopes in place, signing a PDF under the key's PIN succeeds, and verifying the saved copy under `public.pem` gives `Valid` |
| Lifecycle.SignsWithGeneratedKey | Developed_app_folder/src/main/java/org/example/developed_app/sign/Sign.java:71-114 | with the generator's private envelope in place, signing succeeds and the saved copy carries the signature over its own text |
| Lifecycle.VerifiesUnderGeneratedKey | Developed_app_folder/src/main/java/org/example/developed_app/verify/Verify.java:39-66 | a PDF carrying the generated key's signature over its text verifies as `Valid` under the generator's `public.pem` |

## Left out

- Cryptography, Base64 and UTF-8 are uninterpreted functions. Lemmas assume only the round-trip and signature laws in `Crypto.Laws`. The key size (4096 bits), key-pair randomness and the ECB mode are not modelled.
- PDF handling is abstracted to a document's extracted text plus its metadata map. Loading, text extraction, saving and closing are not modelled, and neither are the PDF object structure or incremental updates.
- The watcher's thread, its one-second sleep, the `InterruptedException` path and `Platform.runLater(controller::tryTo)` are not modelled. The controller constructor's thread start is also left out. The watcher sees the `signed` flag once per poll, as input data, and its effect on the window is left to `TryTo`.
- The operating system's answers are input data: the roots, their file-store descriptions, `isDirectory`, the listings and the file-chooser result.
- Console output is left out. This includes the generator printing the plaintext private key in Base64 (`auxiliaryApilcationGui/src/main/java/org/example/auxiliaryapilcationgui/KeyGenerator.java:56-57`).
- The window layout file is not part of this model. The controller's constructor takes the initial widget states as parameters.
- Controller.HelloController: `signed` is a static field shared by every controller; the model keeps one per controller, and the constructor takes its current value in `layout`.
- `PrintWriter` line terminators are not modelled: a key file is its sequence of lines. `PrintWriter`'s swallowed write errors are not modelled either; the only write failure is a target that cannot be opened.
- Paths are plain strings with `\` and `/` as separators. There is no normalisation, no case folding and no root components.
- Hex.HexToBytes: a Dafny string is a sequence of Unicode scalar values, while Java's `length()` and `charAt` count UTF-16 code units. A text holding a character outside the Basic Multilingual Plane therefore has a different length and different characters in the model: `"a\U{1F600}"` decodes to one byte in the model where Java runs past the end, and `"\U{1F600}"` is an odd-length error in the model where Java returns one byte.
- Hex.Digit: only ASCII digits and letters are hex digits. `Character.digit` also accepts other Unicode digit characters; those are not modelled.
- MediaWatch.IsRemovable: lower-casing is ASCII-only.
- Verification.VerifyDocument: a signature whose length RSA rejects makes `Signature.verify` throw. The model folds this into `rsaVerify` returning false.
- Verification.Verify.Init: because of that folding, a signature of the wrong length shows `changedLabel` in the model. In the source, `init` throws and both labels stay as they were.
- Signing.Sign.Init: a save that fails after the output file is opened, leaving a partial copy, is not modelled. A save either writes the whole signed copy or fails before writing.
- SignedName.SignedPath: a path whose text ends in a separator is taken for a root with no file name (`None`). Java's `Paths.get` strips a trailing separator, so `dir\` is signed as `dir_signed.pdf` there.
- The documented behaviour differs from the code in two places, and the model follows the code:
  - an unreadable file store ends the watcher instead of skipping the root;
  - the verifier's paths start null, so a missing path makes `Verify.init` fail with a null-pointer exception, not a precondition error. The signer's paths start as `""`. Signing with no key chosen fails as `KeyFileUnreadable("")` as long as the file map holds no text file at `""`; the model does not rule one out, while Java's `Paths.get("")` is the working directory, which can never be read as lines.
