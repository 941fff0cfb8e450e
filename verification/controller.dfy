/**
 * The main window's controller (`HelloController`): its handlers change the
 * shared `Sign` and `Verify` objects, the global `signed` flag that stops the
 * media watcher, and the enabled/visible state of its widgets.
 */
module Controller {
  import opened Wrappers
  import opened Crypto
  import opened Storage
  import opened Widgets
  import opened Signing
  import opened Verification

  const RecognizedText: string := "Pendrive is recognized"
  const NotRecognizedText: string := "Pendrive is not recognized"

  /** What a file chooser gave back: nothing, a file (`getAbsolutePath()`, `isFile()`), or an exception. */
  datatype Choice = Cancelled | Chosen(absolutePath: string, isFile: bool) | DialogFailed

  /** The readiness gate of `tryTo`: a PIN typed, the pendrive recognized, a document chosen. */
  predicate SignReady(pin: string, recognized: bool, documentPath: string)
  {
    pin != "" && recognized && documentPath != ""
  }

  /**
   * `tryToVerify`'s `getDocumentPath().isEmpty() && getKeyPath().isEmpty()`:
   * the button's new disabled state, or `None` for the NullPointerException
   * a null path raises when it is reached.
   */
  function VerifyGate(documentPath: Option<string>, keyPath: Option<string>): (r: Option<bool>)
    ensures r.None? <==> documentPath.None? || (documentPath == Some("") && keyPath.None?)
    ensures r.Some? ==> (r.value <==> documentPath == Some("") && keyPath == Some(""))
  {
    match documentPath
    case None => None
    case Some(d) =>
      if d != "" then Some(false)
      else match keyPath
        case None => None
        case Some(k) => Some(k == "")
  }

  /**
   * Everything of the window the handlers change: the static `signed` flag,
   * the PIN field's text and the widgets' enabled, visible and text states.
   */
  datatype Window = Window(
    signed: bool,
    password: string,
    signButtonDisabled: bool,
    pendriveLabelDisabled: bool,
    pendriveLabelText: string,
    wrongLabelVisible: bool,
    verifyButtonDisabled: bool)

  /** The window after `tryTo` re-evaluates the sign gate and the pendrive label. */
  function Regated(w: Window, recognized: bool, documentPath: string): (r: Window)
    ensures r.signButtonDisabled == !SignReady(w.password, recognized, documentPath)
    ensures !r.pendriveLabelDisabled <==> recognized
    ensures r.pendriveLabelText == RecognizedText <==> recognized
    ensures r.(signButtonDisabled := w.signButtonDisabled, pendriveLabelDisabled := w.pendriveLabelDisabled,
               pendriveLabelText := w.pendriveLabelText) == w
  {
    w.(signButtonDisabled := !(w.password != "" && recognized && documentPath != ""),
       pendriveLabelDisabled := !recognized,
       pendriveLabelText := if recognized then RecognizedText else NotRecognizedText)
  }

  class HelloController {
    /** The static `signed` flag the media watcher polls. */
    var signed: bool
    const sign: Sign
    const verify: Verify
    const correctLabel: Text
    const changedLabel: Text
    /** The text currently in the PIN field. */
    var password: string
    var signButtonDisabled: bool
    var pendriveLabelDisabled: bool
    var pendriveLabelText: string
    var wrongLabelVisible: bool
    var verifyButtonDisabled: bool

    ghost predicate Valid()
      reads this
    {
      correctLabel != changedLabel
    }

    function Current(): Window
      reads this
    {
      Window(signed, password, signButtonDisabled, pendriveLabelDisabled, pendriveLabelText,
             wrongLabelVisible, verifyButtonDisabled)
    }

    /**
     * A fresh `Sign` and `Verify`. The window starts as the layout file and
     * the current value of the static `signed` flag say, passed in as `layout`
     * and the two result labels' visibility.
     */
    constructor (layout: Window, correctVisible: bool, changedVisible: bool)
      ensures Valid() && fresh(sign) && fresh(verify) && fresh(correctLabel) && fresh(changedLabel)
      ensures Current() == layout
      ensures correctLabel.visible == correctVisible && changedLabel.visible == changedVisible
      ensures !sign.isPendriveRecognized && sign.pin == "" && sign.documentPath == "" && sign.keyPath == ""
      ensures verify.documentPath == None && verify.keyPath == None
    {
      signed := layout.signed;
      sign := new Sign();
      verify := new Verify();
      correctLabel := new Text(correctVisible);
      changedLabel := new Text(changedVisible);
      password := layout.password;
      signButtonDisabled := layout.signButtonDisabled;
      pendriveLabelDisabled := layout.pendriveLabelDisabled;
      pendriveLabelText := layout.pendriveLabelText;
      wrongLabelVisible := layout.wrongLabelVisible;
      verifyButtonDisabled := layout.verifyButtonDisabled;
    }

    /**
     * `tryTo`: the sign button is enabled iff the gate holds; the pendrive
     * label is enabled and says "recognized" iff the pendrive is recognized;
     * nothing else changes.
     */
    method TryTo()
      modifies this
      ensures signButtonDisabled == !SignReady(password, sign.isPendriveRecognized, sign.documentPath)
      ensures pendriveLabelDisabled == !sign.isPendriveRecognized
      ensures pendriveLabelText == if sign.isPendriveRecognized then RecognizedText else NotRecognizedText
      ensures Current() == Regated(old(Current()), sign.isPendriveRecognized, sign.documentPath)
    {
      signButtonDisabled := !(password != "" && sign.isPendriveRecognized && sign.documentPath != "");
      pendriveLabelDisabled := !sign.isPendriveRecognized;
      pendriveLabelText := if sign.isPendriveRecognized then RecognizedText else NotRecognizedText;
    }

    /** `tryToVerify`: `threw` when a null path is dereferenced, and then nothing changes. */
    method TryToVerify() returns (threw: bool)
      modifies this
      ensures threw <==> VerifyGate(verify.documentPath, verify.keyPath).None?
      ensures Current() == if threw then old(Current())
        else old(Current()).(verifyButtonDisabled := VerifyGate(verify.documentPath, verify.keyPath).value)
    {
      var gate := VerifyGate(verify.documentPath, verify.keyPath);
      threw := gate.None?;
      if !threw {
        verifyButtonDisabled := gate.value;
      }
    }

    /** `onKeyTyped`: the PIN field now holds `text`, and `tryTo` re-evaluates the gate and the pendrive label. */
    method OnKeyTyped(text: string)
      modifies this
      ensures password == text
      ensures signButtonDisabled == !SignReady(text, sign.isPendriveRecognized, sign.documentPath)
      ensures Current() == Regated(old(Current()).(password := text), sign.isPendriveRecognized, sign.documentPath)
    {
      password := text;
      TryTo();
    }

    /**
     * `onSignSelectButtonClick`: a regular file becomes the document to sign,
     * `tryTo` runs and `wrongLabel` is hidden; a cancelled dialog or a
     * non-file changes nothing; a failing dialog only shows `wrongLabel`.
     */
    method OnSignSelectButtonClick(choice: Choice)
      modifies this, sign
      ensures choice.Chosen? && choice.isFile ==>
        && sign.documentPath == choice.absolutePath
        && signButtonDisabled == !SignReady(password, sign.isPendriveRecognized, choice.absolutePath)
        && Current() == Regated(old(Current()), sign.isPendriveRecognized, choice.absolutePath).(wrongLabelVisible := false)
      ensures !(choice.Chosen? && choice.isFile) ==> sign.documentPath == old(sign.documentPath)
      ensures choice.Cancelled? || (choice.Chosen? && !choice.isFile) ==> Current() == old(Current())
      ensures choice.DialogFailed? ==> Current() == old(Current()).(wrongLabelVisible := true)
      ensures sign.isPendriveRecognized == old(sign.isPendriveRecognized) && sign.pin == old(sign.pin)
      ensures sign.keyPath == old(sign.keyPath)
    {
      match choice
      case DialogFailed =>
        wrongLabelVisible := true;
      case Cancelled =>
      case Chosen(path, isFile) =>
        if isFile {
          sign.SetDocumentPath(path);
          TryTo();
          wrongLabelVisible := false;
        }
    }

    /**
     * `onSignButtonClick`: `signed` is set before signing runs, so the
     * watcher stops whether or not signing succeeds; the PIN field's text
     * becomes the signer's PIN; no widget changes.
     */
    method OnSignButtonClick(fs: FileSystem, c: Suite) returns (r: Result<Signed, SignError>)
      modifies this, sign, fs
      ensures Current() == old(Current()).(signed := true)
      ensures sign.pin == password
      ensures sign.isPendriveRecognized == old(sign.isPendriveRecognized)
      ensures sign.documentPath == old(sign.documentPath) && sign.keyPath == old(sign.keyPath)
      ensures r == SignDocument(c, password, sign.keyPath, sign.documentPath, old(fs.files), fs.unwritable)
      ensures r.Ok? ==> fs.files == old(fs.files)[r.value.path := PdfFile(r.value.document)]
      ensures r.Err? ==> fs.files == old(fs.files)
    {
      signed := true;
      sign.SetPin(password);
      r := sign.Init(fs, c);
    }

    /**
     * `onVerifyDocumentSelectButtonClick`: a regular file becomes the
     * document to verify and `tryToVerify` runs, its exception showing
     * `wrongLabel`; a cancelled dialog or a non-file changes nothing; a
     * failing dialog only shows `wrongLabel`.
     */
    method OnVerifyDocumentSelectButtonClick(choice: Choice)
      modifies this, verify
      ensures choice.Chosen? && choice.isFile ==>
        && verify.documentPath == Some(choice.absolutePath) && verify.keyPath == old(verify.keyPath)
        && var gate := VerifyGate(Some(choice.absolutePath), old(verify.keyPath));
           Current() == if gate.Some? then old(Current()).(verifyButtonDisabled := gate.value)
                        else old(Current()).(wrongLabelVisible := true)
      ensures choice.Chosen? && choice.isFile && choice.absolutePath != "" ==> !verifyButtonDisabled
      ensures !(choice.Chosen? && choice.isFile) ==>
        verify.documentPath == old(verify.documentPath) && verify.keyPath == old(verify.keyPath)
      ensures choice.Cancelled? || (choice.Chosen? && !choice.isFile) ==> Current() == old(Current())
      ensures choice.DialogFailed? ==> Current() == old(Current()).(wrongLabelVisible := true)
    {
      match choice
      case DialogFailed =>
        wrongLabelVisible := true;
      case Cancelled =>
      case Chosen(path, isFile) =>
        if isFile {
          verify.SetDocumentPath(path);
          var threw := TryToVerify();
          if threw {
            wrongLabelVisible := true;
          }
        }
    }

    /**
     * `onVerifyKeySelectButtonClick`: a regular file becomes the public key
     * and `tryToVerify` runs; with no document chosen yet it throws on the
     * null document path, the key path stays set and `wrongLabel` shows.
     */
    method OnVerifyKeySelectButtonClick(choice: Choice)
      modifies this, verify
      ensures choice.Chosen? && choice.isFile ==>
        && verify.keyPath == Some(choice.absolutePath) && verify.documentPath == old(verify.documentPath)
        && var gate := VerifyGate(old(verify.documentPath), Some(choice.absolutePath));
           Current() == if gate.Some? then old(Current()).(verifyButtonDisabled := gate.value)
                        else old(Current()).(wrongLabelVisible := true)
      ensures choice.Chosen? && choice.isFile && old(verify.documentPath).None? ==>
        Current() == old(Current()).(wrongLabelVisible := true)
      ensures !(choice.Chosen? && choice.isFile) ==>
        verify.documentPath == old(verify.documentPath) && verify.keyPath == old(verify.keyPath)
      ensures choice.Cancelled? || (choice.Chosen? && !choice.isFile) ==> Current() == old(Current())
      ensures choice.DialogFailed? ==> Current() == old(Current()).(wrongLabelVisible := true)
    {
      match choice
      case DialogFailed =>
        wrongLabelVisible := true;
      case Cancelled =>
      case Chosen(path, isFile) =>
        if isFile {
          verify.SetKeyPath(path);
          var threw := TryToVerify();
          if threw {
            wrongLabelVisible := true;
          }
        }
    }

    /** `onVerifyButtonClick`: runs the check and lets it set the two result labels; the window is untouched. */
    method OnVerifyButtonClick(fs: FileSystem, c: Suite) returns (r: Result<Verdict, VerifyError>)
      requires Valid()
      modifies correctLabel, changedLabel
      ensures Current() == old(Current())
      ensures r == VerifyDocument(c, verify.documentPath, verify.keyPath, fs.files)
      ensures r == Ok(Verdict.Valid) ==> correctLabel.visible && !changedLabel.visible
      ensures r == Ok(Tampered) ==> !correctLabel.visible && changedLabel.visible
      ensures r.Err? || r == Ok(NoSignaturePresent) ==>
        correctLabel.visible == old(correctLabel.visible) && changedLabel.visible == old(changedLabel.visible)
    {
      r := verify.Init(correctLabel, changedLabel, fs, c);
    }
  }

  /**
   * Choosing the verification key before the document: the key path is
   * kept, the gate check throws and `wrongLabel` shows; choosing the document
   * afterwards enables the verify button.
   */
  method KeyChosenFirst(keyFile: string, documentFile: string) returns (controller: HelloController)
    requires documentFile != ""
    ensures controller.verify.keyPath == Some(keyFile)
    ensures controller.verify.documentPath == Some(documentFile)
    ensures controller.wrongLabelVisible && !controller.verifyButtonDisabled
  {
    controller := new HelloController(Window(false, "", true, true, NotRecognizedText, false, true), false, false);
    controller.OnVerifyKeySelectButtonClick(Chosen(keyFile, true));
    assert controller.wrongLabelVisible && controller.verify.keyPath == Some(keyFile);
    controller.OnVerifyDocumentSelectButtonClick(Chosen(documentFile, true));
  }
}
