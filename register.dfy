/** The registration page: the form's state, the submit handler with its two
    match checks, the settling of the sign-up request, and the typing
    handlers that keep the match flags and the error in step. */
module RegisterPage {
  import opened Wrappers
  import opened Text

  const PasswordsMismatch := "Passwords do not match"
  const EmailsMismatch := "Emails do not match"
  const RegistrationFailed := "Registration failed"

  /** One call of `register(username, email, password)`. */
  datatype Signup = Signup(username: string, email: string, password: string)

  /** How the sign-up request ends: the account is made, or the server's
      message (possibly missing) comes back with the failure. */
  datatype Reply = Registered | Rejected(message: Option<string>)

  /** The component's state variables, the sign-up calls made so far and
      whether the page has navigated home. */
  datatype RegisterState = RegisterState(
    username: string, email: string, confirmEmail: string, password: string, confirmPassword: string,
    error: string, passwordMatch: bool, emailMatch: bool, loading: bool,
    requests: seq<Signup>, navigatedHome: bool)

  /** The `useState` initial values. */
  const InitialRegister := RegisterState("", "", "", "", "", "", true, true, false, [], false)

  /** The outcome of the submit handler's checks, in the order it makes them. */
  datatype Verdict = PasswordMismatch | EmailMismatch | Proceed

  function Validate(s: RegisterState): (v: Verdict)
    ensures v == PasswordMismatch <==> s.password != s.confirmPassword
    ensures v == EmailMismatch <==> s.password == s.confirmPassword && s.email != s.confirmEmail
    ensures v == Proceed <==> s.password == s.confirmPassword && s.email == s.confirmEmail
  {
    if s.password != s.confirmPassword then PasswordMismatch
    else if s.email != s.confirmEmail then EmailMismatch
    else Proceed
  }

  /** `handleSubmit` up to the awaited `register` call: a password mismatch
      is reported first, then an email mismatch; only a form that passes both
      clears the error, sets loading and makes the call. */
  function Submitted(s: RegisterState): (r: RegisterState)
    ensures r.requests == (if Validate(s) == Proceed then s.requests + [Signup(s.username, s.email, s.password)] else s.requests)
    ensures r.error == PasswordsMismatch <==> Validate(s) == PasswordMismatch
    ensures r.error == EmailsMismatch <==> Validate(s) == EmailMismatch
    ensures r.error == "" <==> Validate(s) == Proceed
    ensures Validate(s) == PasswordMismatch ==> !r.passwordMatch && r.emailMatch == s.emailMatch && r.loading == s.loading
    ensures Validate(s) == EmailMismatch ==> !r.emailMatch && r.passwordMatch == s.passwordMatch && r.loading == s.loading
    ensures Validate(s) == Proceed ==> r.loading && r.passwordMatch == s.passwordMatch && r.emailMatch == s.emailMatch
    ensures r.(error := s.error, passwordMatch := s.passwordMatch, emailMatch := s.emailMatch,
               loading := s.loading, requests := s.requests) == s
  {
    match Validate(s)
    case PasswordMismatch => s.(passwordMatch := false, error := PasswordsMismatch)
    case EmailMismatch => s.(emailMatch := false, error := EmailsMismatch)
    case Proceed =>
      s.(error := "", loading := true, requests := s.requests + [Signup(s.username, s.email, s.password)])
  }

  /** The rest of `handleSubmit` once the call returns: home on success;
      otherwise the server's message or 'Registration failed' and both match
      flags back to true. Loading ends either way. */
  function Settled(s: RegisterState, reply: Reply): (r: RegisterState)
    ensures !r.loading && r.requests == s.requests
    ensures reply.Registered? ==> r == s.(navigatedHome := true, loading := false)
    ensures reply.Rejected? ==>
              && r.error == OrDefault(reply.message, RegistrationFailed) && r.error != ""
              && r.passwordMatch && r.emailMatch && r.navigatedHome == s.navigatedHome
    ensures reply.Rejected? ==>
              r == s.(error := OrDefault(reply.message, RegistrationFailed), passwordMatch := true, emailMatch := true, loading := false)
  {
    match reply
    case Registered => s.(navigatedHome := true, loading := false)
    case Rejected(m) =>
      s.(error := OrDefault(m, RegistrationFailed), passwordMatch := true, emailMatch := true, loading := false)
  }

  /** The email field's `onChange`: a standing email mismatch is cleared. */
  function EmailTyped(s: RegisterState, v: string): (r: RegisterState)
    ensures r.email == v && r.emailMatch
    ensures r.error == (if s.emailMatch then s.error else "")
    ensures r.(email := s.email, emailMatch := s.emailMatch, error := s.error) == s
  {
    if s.emailMatch then s.(email := v) else s.(email := v, emailMatch := true, error := "")
  }

  /** The password field's `onChange`: a standing password mismatch is cleared. */
  function PasswordTyped(s: RegisterState, v: string): (r: RegisterState)
    ensures r.password == v && r.passwordMatch
    ensures r.error == (if s.passwordMatch then s.error else "")
    ensures r.(password := s.password, passwordMatch := s.passwordMatch, error := s.error) == s
  {
    if s.passwordMatch then s.(password := v) else s.(password := v, passwordMatch := true, error := "")
  }

  /** The confirm-email field's `onChange`: the flag follows the comparison
      with the email, and the error is cleared only when the two now match
      and the error mentions the email mismatch. */
  function ConfirmEmailTyped(s: RegisterState, v: string): (r: RegisterState)
    ensures r.confirmEmail == v && (r.emailMatch <==> s.email == v)
    ensures r.error == "" || r.error == s.error
    ensures r.error != s.error <==> s.email == v && Contains(s.error, EmailsMismatch) && s.error != ""
    ensures r.(confirmEmail := s.confirmEmail, emailMatch := s.emailMatch, error := s.error) == s
  {
    var cleared := s.email == v && Contains(s.error, EmailsMismatch);
    s.(confirmEmail := v, emailMatch := s.email == v, error := if cleared then "" else s.error)
  }

  /** The confirm-password field's `onChange`, like the confirm-email one. */
  function ConfirmPasswordTyped(s: RegisterState, v: string): (r: RegisterState)
    ensures r.confirmPassword == v && (r.passwordMatch <==> s.password == v)
    ensures r.error == "" || r.error == s.error
    ensures r.error != s.error <==> s.password == v && Contains(s.error, PasswordsMismatch) && s.error != ""
    ensures r.(confirmPassword := s.confirmPassword, passwordMatch := s.passwordMatch, error := s.error) == s
  {
    var cleared := s.password == v && Contains(s.error, PasswordsMismatch);
    s.(confirmPassword := v, passwordMatch := s.password == v, error := if cleared then "" else s.error)
  }

  /** When both pairs differ only the password mismatch is reported, and the
      email flag is left alone. */
  lemma PasswordCheckComesFirst(s: RegisterState)
    requires s.password != s.confirmPassword && s.email != s.confirmEmail
    ensures Submitted(s).error == PasswordsMismatch && Submitted(s).emailMatch == s.emailMatch
    ensures Submitted(s).requests == s.requests
  {
  }

  /** After a password mismatch, retyping the confirmation to match clears
      the error and the flag. */
  lemma RetypingConfirmationClearsMismatch(s: RegisterState)
    requires Validate(s) == PasswordMismatch
    ensures var r := ConfirmPasswordTyped(Submitted(s), s.password);
            r.passwordMatch && r.error == "" && Validate(r) != PasswordMismatch
  {
    ContainsItself(PasswordsMismatch);
  }

  /** A rejected sign-up leaves a form that can be sent again: the second
      submission makes the same call once more. */
  lemma RejectedThenResubmitted(s: RegisterState, m: Option<string>)
    requires Validate(s) == Proceed
    ensures var first := Settled(Submitted(s), Rejected(m));
            var again := Submitted(first);
            && first.passwordMatch && first.emailMatch && !first.loading
            && again.requests == s.requests + [Signup(s.username, s.email, s.password), Signup(s.username, s.email, s.password)]
            && again.error == ""
  {
    var first := Settled(Submitted(s), Rejected(m));
    assert Validate(first) == Proceed;
  }

  /** The form component, with the submit and settle halves of the
      asynchronous handler as separate methods. */
  class RegisterForm {
    var username: string
    var email: string
    var confirmEmail: string
    var password: string
    var confirmPassword: string
    var error: string
    var passwordMatch: bool
    var emailMatch: bool
    var loading: bool
    var requests: seq<Signup>
    var navigatedHome: bool

    function State(): RegisterState
      reads this
    {
      RegisterState(username, email, confirmEmail, password, confirmPassword,
                    error, passwordMatch, emailMatch, loading, requests, navigatedHome)
    }

    constructor ()
      ensures State() == InitialRegister
    {
      username, email, confirmEmail, password, confirmPassword := "", "", "", "", "";
      error, passwordMatch, emailMatch, loading := "", true, true, false;
      requests, navigatedHome := [], false;
    }

    method Submit()
      modifies this
      ensures State() == Submitted(old(State()))
    {
      if password != confirmPassword {
        passwordMatch := false;
        error := PasswordsMismatch;
        return;
      }
      if email != confirmEmail {
        emailMatch := false;
        error := EmailsMismatch;
        return;
      }
      error := "";
      loading := true;
      requests := requests + [Signup(username, email, password)];
    }

    method Settle(reply: Reply)
      modifies this
      ensures State() == Settled(old(State()), reply)
    {
      match reply {
        case Registered =>
          navigatedHome := true;
        case Rejected(m) =>
          error := OrDefault(m, RegistrationFailed);
          passwordMatch := true;
          emailMatch := true;
      }
      loading := false;
    }

    method OnUsernameChange(v: string)
      modifies this
      ensures State() == old(State()).(username := v)
    {
      username := v;
    }

    method OnEmailChange(v: string)
      modifies this
      ensures State() == EmailTyped(old(State()), v)
    {
      email := v;
      if !emailMatch {
        emailMatch := true;
        error := "";
      }
    }

    method OnPasswordChange(v: string)
      modifies this
      ensures State() == PasswordTyped(old(State()), v)
    {
      password := v;
      if !passwordMatch {
        passwordMatch := true;
        error := "";
      }
    }

    method OnConfirmEmailChange(v: string)
      modifies this
      ensures State() == ConfirmEmailTyped(old(State()), v)
    {
      confirmEmail := v;
      emailMatch := email == v;
      if email == v && Contains(error, EmailsMismatch) {
        error := "";
      }
    }

    method OnConfirmPasswordChange(v: string)
      modifies this
      ensures State() == ConfirmPasswordTyped(old(State()), v)
    {
      confirmPassword := v;
      passwordMatch := password == v;
      if password == v && Contains(error, PasswordsMismatch) {
        error := "";
      }
    }
  }
}
