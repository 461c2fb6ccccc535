/** The sign-in screen's view-model: one immutable `AuthUiState` value, replaced by a copy on
    every change, and the rule that decides whether the submit button is enabled. */
module Auth {
  import opened Outcomes
  import opened ViewState

  datatype AuthUiState = AuthUiState(
    email: string,
    password: string,
    name: string,
    isLogin: bool,
    isLoading: bool,
    error: Option<string>,
    showResetSuccess: bool,
    isLoggedIn: bool)

  /** `AuthUiState()` with every default. */
  const InitialState := AuthUiState("", "", "", true, false, None, false, false)

  const ResetSent := "Password reset email sent!"

  /** The submit button's `enabled` expression on the sign-in screen. */
  predicate SubmitEnabled(s: AuthUiState) {
    s.email != "" && s.password != "" && (s.isLogin || s.name != "") && !s.isLoading
  }

  /** While a request is in flight the button cannot be pressed again. */
  lemma DisabledWhileLoading(s: AuthUiState)
    requires s.isLoading
    ensures !SubmitEnabled(s)
  {
  }

  /** A fresh screen cannot be submitted: the email is still empty. */
  lemma InitialStateDisabled()
    ensures !SubmitEnabled(InitialState)
  {
  }

  /** In login mode the name field plays no part; in sign-up mode it must be filled. */
  lemma NameMattersOnlyForSignUp(s: AuthUiState, name: string)
    ensures s.isLogin ==> (SubmitEnabled(s.(name := name)) <==> SubmitEnabled(s))
    ensures !s.isLogin && name == "" ==> !SubmitEnabled(s.(name := name))
  {
  }

  class AuthViewModel {
    var uiState: AuthUiState

    constructor ()
      ensures uiState == InitialState
    {
      uiState := InitialState;
    }

    /** `checkAuthState`: logged in exactly when the current user is non-null; an exception
        counts as logged out. Nothing else changes. */
    method CheckAuthState(user: Option<string>, threw: bool) returns (requests: seq<Request>)
      modifies this
      ensures requests == [GetCurrentUser]
      ensures uiState == old(uiState).(isLoggedIn := !threw && user.Some?)
    {
      requests := [GetCurrentUser];
      if threw {
        uiState := uiState.(isLoggedIn := false);
      } else {
        uiState := uiState.(isLoggedIn := user != None);
      }
    }

    method OnEmailChange(email: string)
      modifies this
      ensures uiState == old(uiState).(email := email)
    {
      uiState := uiState.(email := email);
    }

    method OnPasswordChange(password: string)
      modifies this
      ensures uiState == old(uiState).(password := password)
    {
      uiState := uiState.(password := password);
    }

    method OnNameChange(name: string)
      modifies this
      ensures uiState == old(uiState).(name := name)
    {
      uiState := uiState.(name := name);
    }

    /** Switches between login and sign-up; twice restores the mode. */
    method ToggleIsLogin()
      modifies this
      ensures uiState == old(uiState).(isLogin := !old(uiState).isLogin)
    {
      uiState := uiState.(isLogin := !uiState.isLogin);
    }

    /** `signIn`: sends the typed email and password; success marks the user logged in and
        runs `onSuccess` (reported as `calledOnSuccess`); a failure or exception stores its
        message. The error is cleared first and loading always ends. */
    method SignIn(outcome: Call<()>) returns (requests: seq<Request>, calledOnSuccess: bool)
      modifies this
      ensures requests == [Request.SignIn(old(uiState).email, old(uiState).password)]
      ensures calledOnSuccess <==> outcome.Succeeded()
      ensures outcome.Succeeded() ==> uiState == old(uiState).(isLoading := false, error := None, isLoggedIn := true)
      ensures !outcome.Succeeded() ==> uiState == old(uiState).(isLoading := false, error := outcome.FailureMessage())
      ensures SubmitEnabled(uiState) <==> SubmitEnabled(old(uiState).(isLoading := false))
    {
      uiState := uiState.(isLoading := true, error := None);
      requests := [Request.SignIn(uiState.email, uiState.password)];
      calledOnSuccess := false;
      match outcome {
      case Returned(Ok(_)) =>
        uiState := uiState.(isLoggedIn := true);
        calledOnSuccess := true;
      case Returned(Err(message)) =>
        uiState := uiState.(error := message);
      case Threw(message) =>
        uiState := uiState.(error := message);
      }
      uiState := uiState.(isLoading := false);
    }

    /** `signUp`: as `signIn`, sending the name as well. */
    method SignUp(outcome: Call<()>) returns (requests: seq<Request>, calledOnSuccess: bool)
      modifies this
      ensures requests == [Request.SignUp(old(uiState).email, old(uiState).password, old(uiState).name)]
      ensures calledOnSuccess <==> outcome.Succeeded()
      ensures outcome.Succeeded() ==> uiState == old(uiState).(isLoading := false, error := None, isLoggedIn := true)
      ensures !outcome.Succeeded() ==> uiState == old(uiState).(isLoading := false, error := outcome.FailureMessage())
    {
      uiState := uiState.(isLoading := true, error := None);
      requests := [Request.SignUp(uiState.email, uiState.password, uiState.name)];
      calledOnSuccess := false;
      match outcome {
      case Returned(Ok(_)) =>
        uiState := uiState.(isLoggedIn := true);
        calledOnSuccess := true;
      case Returned(Err(message)) =>
        uiState := uiState.(error := message);
      case Threw(message) =>
        uiState := uiState.(error := message);
      }
      uiState := uiState.(isLoading := false);
    }

    /** `resetPassword`: success raises `showResetSuccess` and puts the confirmation text in
        the error field; a failure stores its message. The login flag is never touched. */
    method ResetPassword(outcome: Call<()>) returns (requests: seq<Request>)
      modifies this
      ensures requests == [Request.ResetPassword(old(uiState).email)]
      ensures outcome.Succeeded() ==> uiState == old(uiState).(isLoading := false, error := Some(ResetSent), showResetSuccess := true)
      ensures !outcome.Succeeded() ==> uiState == old(uiState).(isLoading := false, error := outcome.FailureMessage())
      ensures uiState.isLoggedIn == old(uiState).isLoggedIn
    {
      uiState := uiState.(isLoading := true, error := None);
      requests := [Request.ResetPassword(uiState.email)];
      match outcome {
      case Returned(Ok(_)) =>
        uiState := uiState.(showResetSuccess := true, error := Some(ResetSent));
      case Returned(Err(message)) =>
        uiState := uiState.(error := message);
      case Threw(message) =>
        uiState := uiState.(error := message);
      }
      uiState := uiState.(isLoading := false);
    }
  }
}
