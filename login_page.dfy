/**
 * `LoginPage` (src/components/loginPage.jsx): the sign-in / sign-up form.
 * The two POST requests are not performed here: each handler returns the
 * request it would send (or `None` when a check stops it first), and the
 * server's answer is a parameter.
 */
module LoginPage {
  import opened Wrappers
  import opened Text
  import opened ForumData

  const Domain: string := "@iit.ac.in"
  const DomainError: string := "Please use an @iit.ac.in email address"
  const InvalidCredentials: string := "Invalid email or password. Please sign up if you are a new user."
  const ShortPassword: string := "Password must be at least 6 characters"
  const ShortName: string := "Please enter your full name"
  const GenericSignupError: string := "Something went wrong. Please try again."

  /** The body of the login POST. */
  datatype Credentials = Credentials(email: string, password: string)

  /** The body of the register POST. */
  datatype Registration = Registration(name: string, email: string, password: string)

  /** How the login request ends: a response with its status and body fields, or a thrown error. */
  datatype LoginResponse = LoginAnswered(status: int, email: string, id: int) | LoginThrew

  /** How the register request ends: a response with its `message`, or an error whose response may carry one. */
  datatype RegisterResponse = Registered(message: string) | RegisterThrew(errorMessage: Option<string>)

  /**
   * The sign-up checks in their order: the email domain, then a password of
   * at least 6 characters, then a trimmed name of at least 2. The first that
   * fails gives the message; `None` means the request is sent.
   */
  function SignupError(email: string, password: string, name: string): (r: Option<string>)
    ensures r.None? <==> EndsWith(email, Domain) && |password| >= 6 && |Trim(name)| >= 2
    ensures !EndsWith(email, Domain) ==> r == Some(DomainError)
    ensures EndsWith(email, Domain) && |password| < 6 ==> r == Some(ShortPassword)
    ensures EndsWith(email, Domain) && |password| >= 6 && |Trim(name)| < 2 ==> r == Some(ShortName)
  {
    if !EndsWith(email, Domain) then Some(DomainError)
    else if |password| < 6 then Some(ShortPassword)
    else if |Trim(name)| < 2 then Some(ShortName)
    else None
  }

  /**
   * The message shown when registration throws: the server's `message` when
   * it is present and non-empty (JavaScript truthiness), else the generic one.
   */
  function FailureMessage(message: Option<string>): (r: string)
    ensures r != ""
    ensures message.Some? && message.value != "" ==> r == message.value
    ensures message.None? || message.value == "" ==> r == GenericSignupError
  {
    match message
    case Some(m) => if m != "" then m else GenericSignupError
    case None => GenericSignupError
  }

  /** The form's `useState` hooks. */
  class LoginForm {
    var isSignup: bool
    var email: string
    var password: string
    var name: string
    var error: string
    var success: string

    /** A freshly mounted form: sign-in mode, every field empty. */
    constructor ()
      ensures !isSignup && email == "" && password == "" && name == "" && error == "" && success == ""
    {
      isSignup := false;
      email := "";
      password := "";
      name := "";
      error := "";
      success := "";
    }

    /** Typing into the form: `setEmail`, `setPassword`, `setName`. */
    method EditFields(newEmail: string, newPassword: string, newName: string)
      modifies this`email, this`password, this`name
      ensures email == newEmail && password == newPassword && name == newName
    {
      email, password, name := newEmail, newPassword, newName;
    }

    /**
     * `handleLogin()`: an email outside the domain sets the domain error and
     * sends nothing. Otherwise the credentials are sent; a status-200 answer
     * calls `onLogin` with the answered email (also as the name) and id,
     * another status sets the invalid-credentials error, and a thrown error
     * is only logged. `error` is not cleared first.
     */
    method HandleLogin(response: LoginResponse) returns (request: Option<Credentials>, onLogin: Option<CurrentUser>)
      modifies this`error
      ensures !EndsWith(email, Domain) ==> request.None? && onLogin.None? && error == DomainError
      ensures EndsWith(email, Domain) ==> request == Some(Credentials(email, password))
      ensures EndsWith(email, Domain) && response.LoginAnswered? && response.status == 200 ==>
        onLogin == Some(CurrentUser(response.email, response.email, response.id)) && error == old(error)
      ensures EndsWith(email, Domain) && response.LoginAnswered? && response.status != 200 ==>
        onLogin.None? && error == InvalidCredentials
      ensures EndsWith(email, Domain) && response.LoginThrew? ==> onLogin.None? && error == old(error)
    {
      request, onLogin := None, None;
      if !EndsWith(email, Domain) {
        error := DomainError;
        return;
      }
      request := Some(Credentials(email, password));
      match response {
        case LoginAnswered(status, answeredEmail, id) =>
          if status == 200 {
            onLogin := Some(CurrentUser(answeredEmail, answeredEmail, id));
          } else {
            error := InvalidCredentials;
          }
        case LoginThrew =>
      }
    }

    /**
     * `handleSignup()`: clears `error` and `success`, then runs the checks of
     * `SignupError` with an early return on the first failure. When all pass
     * the registration is sent; its answer's message becomes `success`, and a
     * thrown error sets `error` to `FailureMessage`.
     */
    method HandleSignup(response: RegisterResponse) returns (request: Option<Registration>)
      modifies this`error, this`success
      ensures request.Some? <==> SignupError(email, password, name).None?
      ensures request.None? ==> error == SignupError(email, password, name).value && success == ""
      ensures request.Some? ==> request.value == Registration(name, email, password)
      ensures request.Some? && response.Registered? ==> success == response.message && error == ""
      ensures request.Some? && response.RegisterThrew? ==>
        error == FailureMessage(response.errorMessage) && success == ""
    {
      error := "";
      success := "";
      if !EndsWith(email, Domain) {
        error := DomainError;
        return None;
      }
      if |password| < 6 {
        error := ShortPassword;
        return None;
      }
      if |Trim(name)| < 2 {
        error := ShortName;
        return None;
      }
      request := Some(Registration(name, email, password));
      match response {
        case Registered(message) =>
          success := message;
        case RegisterThrew(message) =>
          error := FailureMessage(message);
      }
    }

    /** The mode link: flips sign-in / sign-up and clears both messages; the fields stay. */
    method ToggleMode()
      modifies this`isSignup, this`error, this`success
      ensures isSignup == !old(isSignup) && error == "" && success == ""
    {
      isSignup := !isSignup;
      error := "";
      success := "";
    }
  }

  /** Signing in as "user@other.com" is refused before any request, with the domain message. */
  method OtherDomainIsRejected(password: string, response: LoginResponse)
    returns (request: Option<Credentials>, error: string)
    ensures request.None? && error == DomainError
  {
    var form := new LoginForm();
    form.EditFields("user@other.com", password, "");
    assert !EndsWith(form.email, Domain) by {
      assert form.email[|form.email| - |Domain|..][1] == 'o' != Domain[1];
    }
    var onLogin;
    request, onLogin := form.HandleLogin(response);
    error := form.error;
  }
}
