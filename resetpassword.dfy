/** The password-reset page: the check of the reset link, the submit handler
    with its match and length checks, and the settling of the reset request. */
module ResetPasswordPage {
  import opened Wrappers
  import opened Text

  const MinPasswordLength := 6
  const PasswordsMismatch := "Passwords do not match"
  const PasswordTooShort := "Password must be at least 6 characters"
  const ResetFailed := "Error resetting password"
  const InvalidLink := "Invalid or expired reset link"

  /** One `POST /auth/reset-password/:token` with body `{ password }`. */
  datatype ResetRequest = ResetRequest(token: string, password: string)

  /** How the reset request ends: the server's confirmation message, or the
      failure with the server's message, possibly missing. */
  datatype Reply = Reset(confirmation: string) | Refused(reason: Option<string>)

  /** The component's state variables and the reset requests sent so far. */
  datatype ResetState = ResetState(
    password: string, confirmPassword: string, message: string, error: string,
    loading: bool, validToken: bool, checkingToken: bool, requests: seq<ResetRequest>)

  /** The `useState` initial values. */
  const InitialReset := ResetState("", "", "", "", false, false, true, [])

  /** What the page shows: the spinner while the link is checked, the
      invalid-link notice, the success message, or the form. */
  datatype Screen = Checking | InvalidLinkNotice | Confirmation(text: string) | Form

  function ScreenOf(s: ResetState): (v: Screen)
    ensures v == Checking <==> s.checkingToken
    ensures v == InvalidLinkNotice <==> !s.checkingToken && !s.validToken
    ensures v == Form <==> !s.checkingToken && s.validToken && s.message == ""
  {
    if s.checkingToken then Checking
    else if !s.validToken then InvalidLinkNotice
    else if s.message != "" then Confirmation(s.message)
    else Form
  }

  /** The `verifyToken` effect once the link check returns: valid or not,
      the check is over. */
  function TokenChecked(s: ResetState, ok: bool): (r: ResetState)
    ensures !r.checkingToken && (r.validToken <==> ok)
    ensures ok ==> r.error == s.error
    ensures !ok ==> r.error == InvalidLink
    ensures r.(validToken := s.validToken, checkingToken := s.checkingToken, error := s.error) == s
  {
    if ok then s.(validToken := true, checkingToken := false)
    else s.(error := InvalidLink, validToken := false, checkingToken := false)
  }

  /** The outcome of the submit handler's checks, in the order it makes them. */
  datatype Verdict = Mismatch | TooShort | Accept

  function ResetCheck(password: string, confirmPassword: string): (v: Verdict)
    ensures v == Mismatch <==> password != confirmPassword
    ensures v == TooShort <==> password == confirmPassword && |password| < MinPasswordLength
    ensures v == Accept <==> password == confirmPassword && |password| >= MinPasswordLength
  {
    if password != confirmPassword then Mismatch
    else if |password| < MinPasswordLength then TooShort
    else Accept
  }

  /** `handleSubmit` up to the awaited request: a mismatch is reported
      before a short password; an accepted password clears the error and
      the message, sets loading, and sends only the password for the token. */
  function Submitted(s: ResetState, token: string): (r: ResetState)
    ensures ResetCheck(s.password, s.confirmPassword) == Mismatch ==> r == s.(error := PasswordsMismatch)
    ensures ResetCheck(s.password, s.confirmPassword) == TooShort ==> r == s.(error := PasswordTooShort)
    ensures ResetCheck(s.password, s.confirmPassword) == Accept ==>
              && r.loading && r.error == "" && r.message == ""
              && r.requests == s.requests + [ResetRequest(token, s.password)]
    ensures r.requests != s.requests <==> ResetCheck(s.password, s.confirmPassword) == Accept
    ensures r.password == s.password && r.confirmPassword == s.confirmPassword
    ensures r.validToken == s.validToken && r.checkingToken == s.checkingToken
  {
    match ResetCheck(s.password, s.confirmPassword)
    case Mismatch => s.(error := PasswordsMismatch)
    case TooShort => s.(error := PasswordTooShort)
    case Accept =>
      s.(loading := true, error := "", message := "", requests := s.requests + [ResetRequest(token, s.password)])
  }

  /** The rest of `handleSubmit` once the request returns: the server's
      message on success; on failure its message or 'Error resetting
      password'. Loading ends either way. */
  function Settled(s: ResetState, reply: Reply): (r: ResetState)
    ensures !r.loading && r.requests == s.requests
    ensures reply.Reset? ==> r == s.(message := reply.confirmation, loading := false)
    ensures reply.Refused? ==> r == s.(error := OrDefault(reply.reason, ResetFailed), loading := false) && r.error != ""
  {
    match reply
    case Reset(m) => s.(message := m, loading := false)
    case Refused(m) => s.(error := OrDefault(m, ResetFailed), loading := false)
  }

  /** A password of exactly the minimum length passes, one character less
      does not. */
  lemma MinimumLengthIsInclusive(p: string, q: string)
    requires |p| == MinPasswordLength && |q| == MinPasswordLength - 1
    ensures ResetCheck(p, p) == Accept
    ensures ResetCheck(q, q) == TooShort
  {
  }

  /** A short mismatched pair reports the mismatch, not the length. */
  lemma MismatchComesFirst(p: string, q: string)
    requires p != q && |p| < MinPasswordLength
    ensures Submitted(InitialReset.(password := p, confirmPassword := q), "t").error == PasswordsMismatch
  {
  }

  /** Once a link is found invalid the page shows the notice, whatever is
      submitted or typed afterwards. */
  lemma InvalidLinkStays(s: ResetState, token: string, reply: Reply)
    ensures var r := TokenChecked(s, false);
            && ScreenOf(r) == InvalidLinkNotice
            && ScreenOf(Submitted(r, token)) == InvalidLinkNotice
            && ScreenOf(Settled(Submitted(r, token), reply)) == InvalidLinkNotice
  {
  }

  /** A reset that succeeds on a valid link replaces the form by the
      confirmation, when the server says something. */
  lemma SuccessShowsConfirmation(s: ResetState, token: string, m: string)
    requires !s.checkingToken && s.validToken
    requires ResetCheck(s.password, s.confirmPassword) == Accept && m != ""
    ensures ScreenOf(Settled(Submitted(s, token), Reset(m))) == Confirmation(m)
  {
  }

  /** The form component, with the submit and settle halves of the
      asynchronous handler and the end of the link check as separate methods. */
  class ResetPasswordForm {
    const token: string
    var password: string
    var confirmPassword: string
    var message: string
    var error: string
    var loading: bool
    var validToken: bool
    var checkingToken: bool
    var requests: seq<ResetRequest>

    function State(): ResetState
      reads this
    {
      ResetState(password, confirmPassword, message, error, loading, validToken, checkingToken, requests)
    }

    constructor (token: string)
      ensures this.token == token && State() == InitialReset
    {
      this.token := token;
      password, confirmPassword, message, error := "", "", "", "";
      loading, validToken, checkingToken := false, false, true;
      requests := [];
    }

    method VerifyToken(ok: bool)
      modifies this
      ensures State() == TokenChecked(old(State()), ok)
    {
      if ok {
        validToken := true;
      } else {
        error := InvalidLink;
        validToken := false;
      }
      checkingToken := false;
    }

    method Submit()
      modifies this
      ensures State() == Submitted(old(State()), token)
    {
      if password != confirmPassword {
        error := PasswordsMismatch;
        return;
      }
      if |password| < MinPasswordLength {
        error := PasswordTooShort;
        return;
      }
      loading := true;
      error := "";
      message := "";
      requests := requests + [ResetRequest(token, password)];
    }

    method Settle(reply: Reply)
      modifies this
      ensures State() == Settled(old(State()), reply)
    {
      match reply {
        case Reset(m) =>
          message := m;
        case Refused(m) =>
          error := OrDefault(m, ResetFailed);
      }
      loading := false;
    }

    method OnPasswordChange(v: string)
      modifies this
      ensures State() == old(State()).(password := v)
    {
      password := v;
    }

    method OnConfirmPasswordChange(v: string)
      modifies this
      ensures State() == old(State()).(confirmPassword := v)
    {
      confirmPassword := v;
    }
  }
}
