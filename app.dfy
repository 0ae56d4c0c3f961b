/** The page logic of `js/app.js`: output file names, the rules that enable the
    two buttons, the guards of the two click handlers, and the module-level
    state those handlers update. The app encrypts with `FileEncryptor`, the
    original layout. */
module App {
  import opened Common
  import opened WebCrypto
  import EncryptorV1
  import EncryptorV3

  const EncryptedSuffix: string := ".encrypted"
  const DecryptedSuffix: string := ".decrypted"

  /** The length the encrypt form demands of a password. */
  const MinFormPasswordLength: nat := 8

  const NoFileMessage: string := "Файл не вибрано"
  const MismatchMessage: string := "Паролі не збігаються!"
  const TooShortMessage: string := "Пароль повинен містити мінімум 8 символів!"
  const NoPasswordMessage: string := "Введіть пароль!"

  // ---------------------------------------------------------------- file names

  /** The name of the downloaded envelope: the original name plus `.encrypted`. */
  function EncryptedFileName(name: string): (r: string)
    ensures EndsWith(r, EncryptedSuffix) && StartsWith(r, name)
    ensures |r| == |name| + |EncryptedSuffix|
  {
    name + EncryptedSuffix
  }

  /** The name of the downloaded plaintext: the last 10 characters dropped when
      the name ends with `.encrypted`, `.decrypted` appended otherwise. */
  function DecryptedFileName(name: string): (r: string)
    ensures EndsWith(name, EncryptedSuffix) ==> EncryptedFileName(r) == name
    ensures !EndsWith(name, EncryptedSuffix) ==>
      StartsWith(r, name) && EndsWith(r, DecryptedSuffix) && |r| == |name| + |DecryptedSuffix|
  {
    if EndsWith(name, EncryptedSuffix) then name[..|name| - 10] else name + DecryptedSuffix
  }

  /** Decrypting a file under the name encryption gave it restores the original name. */
  lemma DecryptedNameUndoesEncryptedName(name: string)
    ensures DecryptedFileName(EncryptedFileName(name)) == name
  {
    var n := EncryptedFileName(name);
    assert n[..|n| - 10] == name;
  }

  /** The other way round, the rule restores a name exactly when it ends with
      `.encrypted`; any other name gets `.decrypted` and cannot come back. */
  lemma EncryptedNameUndoesDecryptedName(name: string)
    ensures EncryptedFileName(DecryptedFileName(name)) == name <==> EndsWith(name, EncryptedSuffix)
  {
    if EndsWith(name, EncryptedSuffix) {
      assert name == name[..|name| - 10] + EncryptedSuffix;
    } else {
      assert |EncryptedFileName(DecryptedFileName(name))| > |name|;
    }
  }

  // ---------------------------------------------------------------- forms and guards

  /** `validateEncryptForm`: the encrypt button is enabled when a file is
      chosen, the password has 8 characters or more, and the confirmation
      equals a non-empty password. */
  predicate EncryptFormEnabled(hasFile: bool, password: string, confirm: string)
    ensures EncryptFormEnabled(hasFile, password, confirm) <==>
      hasFile && password == confirm && |password| >= MinFormPasswordLength
    ensures EncryptFormEnabled(hasFile, password, confirm) ==> DecryptFormEnabled(hasFile, password)
  {
    var passwordValid := |password| >= MinFormPasswordLength;
    var passwordsMatch := password == confirm && |password| > 0;
    hasFile && passwordValid && passwordsMatch
  }

  /** `validateDecryptForm`: the decrypt button is enabled when a file is
      chosen and the password is not empty. */
  predicate DecryptFormEnabled(hasFile: bool, password: string)
    ensures DecryptFormEnabled(hasFile, password) <==> hasFile && password != ""
  {
    hasFile && |password| > 0
  }

  /** A click handler either goes on or shows a message and stops. */
  datatype Guard = Proceed | Refuse(message: string)

  /** The guards of the encrypt click handler, checked in order: no file, then
      a mismatch, then a short password. The handler goes on exactly when the
      form would enable the button. */
  function EncryptClickGuard(hasFile: bool, password: string, confirm: string): (g: Guard)
    ensures !hasFile ==> g == Refuse(NoFileMessage)
    ensures hasFile && password != confirm ==> g == Refuse(MismatchMessage)
    ensures hasFile && password == confirm && |password| < MinFormPasswordLength ==> g == Refuse(TooShortMessage)
    ensures g.Proceed? <==> EncryptFormEnabled(hasFile, password, confirm)
  {
    if !hasFile then Refuse(NoFileMessage)
    else if password != confirm then Refuse(MismatchMessage)
    else if |password| < 8 then Refuse(TooShortMessage)
    else Proceed
  }

  /** The guards of the decrypt click handler, checked in order: no file, then
      an empty password. The handler goes on exactly when the form would
      enable the button. */
  function DecryptClickGuard(hasFile: bool, password: string): (g: Guard)
    ensures !hasFile ==> g == Refuse(NoFileMessage)
    ensures hasFile && password == "" ==> g == Refuse(NoPasswordMessage)
    ensures g.Proceed? <==> DecryptFormEnabled(hasFile, password)
  {
    if !hasFile then Refuse(NoFileMessage)
    else if password == "" then Refuse(NoPasswordMessage)
    else Proceed
  }

  /** The form's 8-character rule is looser than the 12-character floor of
      `FileEncryptorV3`: every password of 8 to 11 characters is let through
      by the app and refused by the current format's policy. */
  lemma FormFloorBelowV3Policy()
    ensures forall p | MinFormPasswordLength <= |p| < EncryptorV3.MinPasswordLength ::
      EncryptClickGuard(true, p, p).Proceed? && EncryptorV3.ValidatePassword(p).Throw?
  {
  }

  // ---------------------------------------------------------------- page state

  /** A file chosen in a file input; only its name is used. */
  datatype SelectedFile = SelectedFile(name: string)

  /** What `showResult` puts in a result panel. */
  datatype Notice =
    | Failure(text: string)
    | EncryptedNotice(fileName: string, originalSize: nat, encryptedSize: nat, totalSize: nat)
    | DecryptedNotice(fileName: string, size: nat)

  /** A file handed to `downloadFile`. */
  datatype Download = Download(data: Bytes, fileName: string)

  /** The module-level state of the page. */
  class Page {
    var encryptSelectedFile: Option<SelectedFile>
    var encryptPassword: string
    var encryptPasswordConfirm: string
    var encryptBtnDisabled: bool
    /** The encrypt result panel: `None` while hidden. */
    var encryptResult: Option<Notice>

    var decryptSelectedFile: Option<SelectedFile>
    var decryptPassword: string
    var decryptBtnDisabled: bool
    /** The decrypt result panel: `None` while hidden. */
    var decryptResult: Option<Notice>

    /** Every file handed to `downloadFile`, in order. */
    var downloads: seq<Download>

    /** Each button is disabled exactly when its form is incomplete. */
    ghost predicate ButtonsMatchForms()
      reads this
    {
      && encryptBtnDisabled == !EncryptFormEnabled(encryptSelectedFile.Some?, encryptPassword, encryptPasswordConfirm)
      && decryptBtnDisabled == !DecryptFormEnabled(decryptSelectedFile.Some?, decryptPassword)
    }

    /** The page as loaded: nothing chosen, empty inputs, both buttons disabled. */
    constructor ()
      ensures encryptSelectedFile == None && encryptPassword == "" && encryptPasswordConfirm == ""
      ensures decryptSelectedFile == None && decryptPassword == ""
      ensures encryptBtnDisabled && decryptBtnDisabled
      ensures encryptResult == None && decryptResult == None && downloads == []
      ensures ButtonsMatchForms()
    {
      encryptSelectedFile, encryptPassword, encryptPasswordConfirm := None, "", "";
      encryptBtnDisabled, encryptResult := true, None;
      decryptSelectedFile, decryptPassword := None, "";
      decryptBtnDisabled, decryptResult := true, None;
      downloads := [];
    }

    /** `validateEncryptForm` */
    method ValidateEncryptForm()
      modifies this`encryptBtnDisabled
      ensures encryptBtnDisabled == !EncryptFormEnabled(encryptSelectedFile.Some?, encryptPassword, encryptPasswordConfirm)
    {
      var hasFile := encryptSelectedFile != None;
      var password := encryptPassword;
      var passwordConfirm := encryptPasswordConfirm;
      var passwordValid := |password| >= 8;
      var passwordsMatch := password == passwordConfirm && |password| > 0;
      encryptBtnDisabled := !(hasFile && passwordValid && passwordsMatch);
    }

    /** `validateDecryptForm` */
    method ValidateDecryptForm()
      modifies this`decryptBtnDisabled
      ensures decryptBtnDisabled == !DecryptFormEnabled(decryptSelectedFile.Some?, decryptPassword)
    {
      var hasFile := decryptSelectedFile != None;
      var hasPassword := |decryptPassword| > 0;
      decryptBtnDisabled := !(hasFile && hasPassword);
    }

    /** The `change` listener of the encrypt file input; a cancelled choice changes nothing. */
    method OnEncryptFileChange(file: Option<SelectedFile>)
      requires ButtonsMatchForms()
      modifies this`encryptSelectedFile, this`encryptBtnDisabled
      ensures ButtonsMatchForms()
      ensures encryptSelectedFile == if file.Some? then file else old(encryptSelectedFile)
    {
      if file.Some? {
        encryptSelectedFile := file;
        ValidateEncryptForm();
      }
    }

    /** The `input` listener of the encrypt password field. */
    method OnEncryptPasswordInput(value: string)
      requires ButtonsMatchForms()
      modifies this`encryptPassword, this`encryptBtnDisabled
      ensures ButtonsMatchForms()
      ensures encryptPassword == value
    {
      encryptPassword := value;
      ValidateEncryptForm();
    }

    /** The `input` listener of the encrypt confirmation field. */
    method OnEncryptPasswordConfirmInput(value: string)
      requires ButtonsMatchForms()
      modifies this`encryptPasswordConfirm, this`encryptBtnDisabled
      ensures ButtonsMatchForms()
      ensures encryptPasswordConfirm == value
    {
      encryptPasswordConfirm := value;
      ValidateEncryptForm();
    }

    /** The `change` listener of the decrypt file input; a cancelled choice changes nothing. */
    method OnDecryptFileChange(file: Option<SelectedFile>)
      requires ButtonsMatchForms()
      modifies this`decryptSelectedFile, this`decryptBtnDisabled
      ensures ButtonsMatchForms()
      ensures decryptSelectedFile == if file.Some? then file else old(decryptSelectedFile)
    {
      if file.Some? {
        decryptSelectedFile := file;
        ValidateDecryptForm();
      }
    }

    /** The `input` listener of the decrypt password field. */
    method OnDecryptPasswordInput(value: string)
      requires ButtonsMatchForms()
      modifies this`decryptPassword, this`decryptBtnDisabled
      ensures ButtonsMatchForms()
      ensures decryptPassword == value
    {
      decryptPassword := value;
      ValidateDecryptForm();
    }

    /** The click handler of the encrypt button. `read` is what reading the
        chosen file gives; `salt` and `iv` are the random values `encryptFile`
        draws. A refused guard only shows its message; otherwise the file is
        encrypted, downloaded under its new name and the form reset, or the
        error is shown and the form kept. */
    method OnEncryptClick(c: Primitives, read: Outcome<Bytes>, salt: Bytes, iv: Bytes)
      requires |salt| == EncryptorV1.SaltSize && |iv| == EncryptorV1.IvSize
      requires ButtonsMatchForms()
      modifies this
      ensures ButtonsMatchForms()
      ensures decryptSelectedFile == old(decryptSelectedFile) && decryptPassword == old(decryptPassword)
      ensures var g := EncryptClickGuard(old(encryptSelectedFile).Some?, old(encryptPassword), old(encryptPasswordConfirm));
        g.Refuse? ==>
          && encryptResult == Some(Failure(g.message))
          && decryptResult == old(decryptResult)
          && downloads == old(downloads)
          && encryptSelectedFile == old(encryptSelectedFile)
          && encryptPassword == old(encryptPassword)
          && encryptPasswordConfirm == old(encryptPasswordConfirm)
      ensures var g := EncryptClickGuard(old(encryptSelectedFile).Some?, old(encryptPassword), old(encryptPasswordConfirm));
        g.Proceed? ==>
          && decryptResult == None
          && encryptBtnDisabled == encryptSelectedFile.None?
          && (read.Throw? ==>
                && encryptResult == Some(Failure("✗ Помилка: " + read.error.message))
                && downloads == old(downloads)
                && encryptSelectedFile == old(encryptSelectedFile)
                && encryptPassword == old(encryptPassword)
                && encryptPasswordConfirm == old(encryptPasswordConfirm))
          && (read.Ok? ==>
                var r := EncryptorV1.EncryptSpec(c, read.value, old(encryptPassword), salt, iv);
                && (r.Encrypted? ==>
                      var name := EncryptedFileName(old(encryptSelectedFile).value.name);
                      && downloads == old(downloads) + [Download(r.data, name)]
                      && encryptResult == Some(EncryptedNotice(name, r.originalSize, r.encryptedSize, r.totalSize))
                      && encryptSelectedFile == None && encryptPassword == "" && encryptPasswordConfirm == "")
                && (r.EncryptFailed? ==>
                      && downloads == old(downloads)
                      && encryptResult == Some(Failure("✗ Помилка шифрування: " + r.error))
                      && encryptSelectedFile == old(encryptSelectedFile)
                      && encryptPassword == old(encryptPassword)
                      && encryptPasswordConfirm == old(encryptPasswordConfirm)))
    {
      if encryptSelectedFile.None? {
        encryptResult := Some(Failure(NoFileMessage));
        return;
      }
      var password := encryptPassword;
      var passwordConfirm := encryptPasswordConfirm;
      if password != passwordConfirm {
        encryptResult := Some(Failure(MismatchMessage));
        return;
      }
      if |password| < 8 {
        encryptResult := Some(Failure(TooShortMessage));
        return;
      }

      encryptBtnDisabled := true;
      // clearResults()
      encryptResult, decryptResult := None, None;

      match read {
        case Throw(e) =>
          encryptResult := Some(Failure("✗ Помилка: " + e.message));
        case Ok(fileData) =>
          var result := EncryptorV1.EncryptFile(c, fileData, password, salt, iv);
          if result.Encrypted? {
            var encryptedFileName := encryptSelectedFile.value.name + ".encrypted";
            downloads := downloads + [Download(result.data, encryptedFileName)];
            encryptResult := Some(EncryptedNotice(encryptedFileName, result.originalSize,
                                                  result.encryptedSize, result.totalSize));
            // resetEncryptForm()
            encryptSelectedFile, encryptPassword, encryptPasswordConfirm := None, "", "";
            encryptBtnDisabled := true;
          } else {
            encryptResult := Some(Failure("✗ Помилка шифрування: " + result.error));
          }
      }
      // finally
      ValidateEncryptForm();
    }

    /** The click handler of the decrypt button. `read` is what reading the
        chosen file gives. A refused guard only shows its message; otherwise
        the file is decrypted, downloaded under the derived name and the form
        reset, or the error is shown and the form kept. */
    method OnDecryptClick(c: Primitives, read: Outcome<Bytes>)
      requires ButtonsMatchForms()
      modifies this
      ensures ButtonsMatchForms()
      ensures encryptSelectedFile == old(encryptSelectedFile) && encryptPassword == old(encryptPassword)
      ensures encryptPasswordConfirm == old(encryptPasswordConfirm)
      ensures var g := DecryptClickGuard(old(decryptSelectedFile).Some?, old(decryptPassword));
        g.Refuse? ==>
          && decryptResult == Some(Failure(g.message))
          && encryptResult == old(encryptResult)
          && downloads == old(downloads)
          && decryptSelectedFile == old(decryptSelectedFile)
          && decryptPassword == old(decryptPassword)
      ensures var g := DecryptClickGuard(old(decryptSelectedFile).Some?, old(decryptPassword));
        g.Proceed? ==>
          && encryptResult == None
          && decryptBtnDisabled == decryptSelectedFile.None?
          && (read.Throw? ==>
                && decryptResult == Some(Failure("✗ Помилка: " + read.error.message))
                && downloads == old(downloads)
                && decryptSelectedFile == old(decryptSelectedFile)
                && decryptPassword == old(decryptPassword))
          && (read.Ok? ==>
                var r := EncryptorV1.DecryptSpec(c, read.value, old(decryptPassword));
                && (r.Decrypted? ==>
                      var name := DecryptedFileName(old(decryptSelectedFile).value.name);
                      && downloads == old(downloads) + [Download(r.data, name)]
                      && decryptResult == Some(DecryptedNotice(name, r.size))
                      && decryptSelectedFile == None && decryptPassword == "")
                && (r.DecryptFailed? ==>
                      && downloads == old(downloads)
                      && decryptResult == Some(Failure("✗ " + r.error))
                      && decryptSelectedFile == old(decryptSelectedFile)
                      && decryptPassword == old(decryptPassword)))
    {
      if decryptSelectedFile.None? {
        decryptResult := Some(Failure(NoFileMessage));
        return;
      }
      var password := decryptPassword;
      if password == "" {
        decryptResult := Some(Failure(NoPasswordMessage));
        return;
      }

      decryptBtnDisabled := true;
      // clearResults()
      encryptResult, decryptResult := None, None;

      match read {
        case Throw(e) =>
          decryptResult := Some(Failure("✗ Помилка: " + e.message));
        case Ok(fileData) =>
          var result := EncryptorV1.DecryptFile(c, fileData, password);
          if result.Decrypted? {
            var decryptedFileName := decryptSelectedFile.value.name;
            if EndsWith(decryptedFileName, ".encrypted") {
              decryptedFileName := decryptedFileName[..|decryptedFileName| - 10];
            } else {
              decryptedFileName := decryptedFileName + ".decrypted";
            }
            downloads := downloads + [Download(result.data, decryptedFileName)];
            decryptResult := Some(DecryptedNotice(decryptedFileName, result.size));
            // resetDecryptForm()
            decryptSelectedFile, decryptPassword := None, "";
            decryptBtnDisabled := true;
          } else {
            decryptResult := Some(Failure("✗ " + result.error));
          }
      }
      // finally
      ValidateDecryptForm();
    }
  }
}
