/**
  `AddAccountViewModel`, the state machine behind the add-account form. Every
  handler replaces the UI-state record with an updated copy; `saveAccount`
  also validates the form, encrypts the secret and inserts one account.

  Each handler runs to completion before the next one starts (the coroutine
  scheduling is not modelled). The repository is the sequence `inserted` of
  the records handed to `insertUserAccount`. The key from `getKey()`, the
  encryption and the insertion are inputs: `key` is what `getKey()` returned
  or threw, `encrypt` stands for `CryptoUtils.encrypt`, and `insertFailure`
  is the exception `insertUserAccount` throws, if any.
 */
module AddAccount {
  import opened KotlinLang
  import QrCodeParser

  /** `AddAccountUiState`, its defaults being the initial state. */
  datatype AddAccountUiState = AddAccountUiState(
    isLoading: bool,
    error: Option<string>,
    isScanning: bool,
    hasPermission: bool,
    accountName: string,
    issuer: string,
    secret: string,
    isManualEntry: bool)

  const InitialState: AddAccountUiState :=
    AddAccountUiState(false, None, false, false, "", "", "", false)

  /** `UserAccount`, the stored record. */
  datatype UserAccount = UserAccount(
    id: int,
    sharedKey: string,
    image: int,
    issuer: Option<string>,
    name: Option<string>,
    code: Option<string>)

  const InvalidQrMessage: string := "Invalid QR code format"
  const RequiredMessage: string := "Account name and secret are required"
  const SaveFailedMessage: string := "Failed to save account"

  /** The record `saveAccount` builds: the form's name, its issuer unless blank
      (`ifBlank { null }`), the encrypted secret as the key, no image and no
      code. */
  function NewAccount(state: AddAccountUiState, encryptedSecret: string): (a: UserAccount)
    ensures a.name == Some(state.accountName) && a.sharedKey == encryptedSecret
    ensures a.issuer.None? <==> IsBlank(state.issuer)
    ensures a.issuer.Some? ==> a.issuer.value == state.issuer
    ensures a.id == 0 && a.image == 0 && a.code.None?
  {
    UserAccount(0, encryptedSecret, 0, if IsBlank(state.issuer) then None else Some(state.issuer),
                Some(state.accountName), None)
  }

  /** What every record `saveAccount` inserts looks like. */
  predicate IsSavedAccount(a: UserAccount) {
    && a.id == 0 && a.image == 0 && a.code.None?
    && a.name.Some? && !IsBlank(a.name.value)
    && (a.issuer.Some? ==> !IsBlank(a.issuer.value))
  }

  /** A record built from a form that passed validation is a saved account. */
  lemma NewAccountIsSaved(state: AddAccountUiState, encryptedSecret: string)
    requires !IsBlank(state.accountName)
    ensures IsSavedAccount(NewAccount(state, encryptedSecret))
  {
  }

  /** The error `catch (e: Exception)` shows. */
  function ErrorMessage(e: Exception): (m: string)
    ensures e.message.Some? ==> m == e.message.value
    ensures e.message.None? ==> m == SaveFailedMessage
  {
    if e.message.Some? then e.message.value else SaveFailedMessage
  }

  class AddAccountViewModel {
    var uiState: AddAccountUiState
    var inserted: seq<UserAccount>

    constructor(existing: seq<UserAccount>)
      ensures uiState == InitialState && inserted == existing
    {
      uiState := InitialState;
      inserted := existing;
    }

    /** `handleQRCodeResult`: a URI that parses fills the three form fields
        (a missing account name or issuer as `""`) and clears the error; one
        that does not sets the error and keeps the form. Scanning stops
        either way. */
    method HandleQrCodeResult(qrCode: string)
      modifies this
      ensures match QrCodeParser.ParseOtpAuthUri(qrCode)
        case Some(u) =>
          uiState == old(uiState).(accountName := QrCodeParser.OrEmpty(u.accountName),
                                   issuer := QrCodeParser.OrEmpty(u.issuer),
                                   secret := u.secret, isScanning := false, error := None)
        case None =>
          uiState == old(uiState).(error := Some(InvalidQrMessage), isScanning := false)
      ensures uiState.error.None? <==> QrCodeParser.IsValidOtpAuthUri(qrCode)
      ensures QrCodeParser.IsValidOtpAuthUri(qrCode) ==>
        uiState.secret == QrCodeParser.UriParameters(QrCodeParser.ParseUri(qrCode))["secret"]
      ensures uiState.isLoading == old(uiState.isLoading) && inserted == old(inserted)
    {
      var otpAuthUri := QrCodeParser.ParseOtpAuthUri(qrCode);
      if otpAuthUri.Some? {
        QrCodeParser.ParsedParameters(qrCode);
        uiState := uiState.(
          accountName := QrCodeParser.OrEmpty(otpAuthUri.value.accountName),
          issuer := QrCodeParser.OrEmpty(otpAuthUri.value.issuer),
          secret := otpAuthUri.value.secret,
          isScanning := false,
          error := None);
      } else {
        uiState := uiState.(error := Some(InvalidQrMessage), isScanning := false);
      }
    }

    /** `updateAccountName`: only the name changes. */
    method UpdateAccountName(name: string)
      modifies this
      ensures uiState == old(uiState).(accountName := name) && inserted == old(inserted)
    {
      uiState := uiState.(accountName := name);
    }

    /** `updateIssuer`: only the issuer changes. */
    method UpdateIssuer(issuer: string)
      modifies this
      ensures uiState == old(uiState).(issuer := issuer) && inserted == old(inserted)
    {
      uiState := uiState.(issuer := issuer);
    }

    /** `updateSecret`: only the secret changes. */
    method UpdateSecret(secret: string)
      modifies this
      ensures uiState == old(uiState).(secret := secret) && inserted == old(inserted)
    {
      uiState := uiState.(secret := secret);
    }

    /** `toggleManualEntry`: flips manual entry and clears the error. */
    method ToggleManualEntry()
      modifies this
      ensures uiState == old(uiState).(isManualEntry := !old(uiState.isManualEntry), error := None)
      ensures inserted == old(inserted)
    {
      uiState := uiState.(isManualEntry := !uiState.isManualEntry, error := None);
    }

    /** `saveAccount`. A blank name or secret only sets the "required" error.
        Otherwise the key is fetched and the secret encrypted; when that and
        the insertion succeed, exactly one record is added and the form is
        reset to its defaults; when any of them throws, nothing is added and
        the exception's message (or the generic one) is shown. No outcome
        leaves the form loading. */
    method SaveAccount(key: Result<string, Exception>,
                       encrypt: (string, string) -> Result<string, Exception>,
                       insertFailure: Option<Exception>)
      modifies this
      ensures IsBlank(old(uiState.accountName)) || IsBlank(old(uiState.secret)) ==>
        uiState == old(uiState).(error := Some(RequiredMessage)) && inserted == old(inserted)
      ensures !IsBlank(old(uiState.accountName)) && !IsBlank(old(uiState.secret)) ==>
        match SaveSteps(old(uiState), key, encrypt, insertFailure)
        case Success(encrypted) =>
          uiState == InitialState && inserted == old(inserted) + [NewAccount(old(uiState), encrypted)]
        case Failure(e) =>
          uiState == old(uiState).(isLoading := false, error := Some(ErrorMessage(e)))
          && inserted == old(inserted)
      ensures old(!uiState.isLoading) ==> !uiState.isLoading
      ensures |inserted| <= |old(inserted)| + 1 && inserted[..|old(inserted)|] == old(inserted)
      ensures forall i :: |old(inserted)| <= i < |inserted| ==> IsSavedAccount(inserted[i])
    {
      var state := uiState;
      if IsBlank(state.accountName) || IsBlank(state.secret) {
        uiState := state.(error := Some(RequiredMessage));
        return;
      }
      uiState := state.(isLoading := true, error := None);
      var outcome: Result<string, Exception>;
      if key.Failure? {
        outcome := Failure(key.error);
      } else {
        var encryptedSecret := encrypt(state.secret, key.value);
        if encryptedSecret.Failure? {
          outcome := Failure(encryptedSecret.error);
        } else {
          var account := NewAccount(state, encryptedSecret.value);
          NewAccountIsSaved(state, encryptedSecret.value);
          if insertFailure.Some? {
            outcome := Failure(insertFailure.value);
          } else {
            inserted := inserted + [account];
            uiState := InitialState;
            outcome := Success(encryptedSecret.value);
          }
        }
      }
      if outcome.Failure? {
        uiState := uiState.(error := Some(ErrorMessage(outcome.error)), isLoading := false);
      }
    }

    /** `clearError`: only the error changes. */
    method ClearError()
      modifies this
      ensures uiState == old(uiState).(error := None) && inserted == old(inserted)
    {
      uiState := uiState.(error := None);
    }
  }

  /** The steps of `saveAccount` after validation: `getKey()`, then
      `encrypt`, then `insertUserAccount`; the first to throw decides the
      failure, otherwise the encrypted secret is what was stored. */
  function SaveSteps(state: AddAccountUiState, key: Result<string, Exception>,
                     encrypt: (string, string) -> Result<string, Exception>,
                     insertFailure: Option<Exception>): Result<string, Exception>
  {
    if key.Failure? then Failure(key.error)
    else
      var encrypted := encrypt(state.secret, key.value);
      if encrypted.Failure? then encrypted
      else if insertFailure.Some? then Failure(insertFailure.value)
      else encrypted
  }
}
