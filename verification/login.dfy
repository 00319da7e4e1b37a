/** The email/password screen (app/login.tsx): the field checks made before
    any request, the request made, the alerts and navigation that follow
    its outcome, and the sign-in / sign-up switch. The authentication
    service is a parameter: the outcome it reports for the request. */
module Login {
  import opened Wrappers
  import opened Text

  const FillAllFields: string := "Please fill in all fields"
  const PasswordsDiffer: string := "Passwords do not match"
  const PasswordTooShort: string := "Password must be at least 6 characters"
  const AuthFailedDefault: string := "Failed to authenticate. Please try again."
  const SignUpDone: string := "Account created successfully! Please check your email for verification."

  /** The shortest password accepted, counted in UTF-16 code units on the
      password as typed. */
  const MinPasswordLength: nat := 6

  /** Where a successful sign-in lands. */
  const TabsRoute: string := "/(tabs)"

  datatype Form = Form(
    email: string,
    password: string,
    confirmPassword: string,
    isSignUp: bool,
    signingIn: bool)

  /** What is sent to the authentication service. */
  datatype Request = Request(signUp: bool, email: string, password: string)

  /** How the service call ends: it resolves, or it rejects with an error
      whose message may be empty. */
  datatype Outcome = Resolved | Rejected(message: string)

  /** The observable steps of one press of the main button, in order. */
  datatype Effect =
    | Alert(title: string, message: string)
    | SetSigningIn(on: bool)
    | Call(request: Request)
    | ReplaceRoute(route: string)

  /** The three checks of `handleAuth`, in the order the screen makes them:
      both fields non-blank, the confirmation equal when signing up, and the
      password at least six UTF-16 code units long. The request carries the
      trimmed email and the password as typed. */
  function Validate(f: Form): (r: Result<Request, string>)
    ensures r == Failure(FillAllFields) <==> Blank(f.email) || Blank(f.password)
    ensures r == Failure(PasswordsDiffer) <==>
      !Blank(f.email) && !Blank(f.password) && f.isSignUp && f.password != f.confirmPassword
    ensures r == Failure(PasswordTooShort) <==>
      !Blank(f.email) && !Blank(f.password) && !(f.isSignUp && f.password != f.confirmPassword) &&
      Utf16Length(f.password) < MinPasswordLength
    ensures r.Success? <==>
      !Blank(f.email) && !Blank(f.password) && !(f.isSignUp && f.password != f.confirmPassword) &&
      Utf16Length(f.password) >= MinPasswordLength
    ensures r.Success? ==>
      r.value.signUp == f.isSignUp && r.value.email == Trim(f.email) && r.value.password == f.password &&
      r.value.email != "" && Utf16Length(r.value.password) >= MinPasswordLength
  {
    if Blank(f.email) || Blank(f.password) then Failure(FillAllFields)
    else if f.isSignUp && f.password != f.confirmPassword then Failure(PasswordsDiffer)
    else if Utf16Length(f.password) < MinPasswordLength then Failure(PasswordTooShort)
    else Success(Request(f.isSignUp, Trim(f.email), f.password))
  }

  /** What follows a call: sign-up shows a confirmation alert (its OK button
      navigates), sign-in navigates straight to the tabs, and a rejection
      shows its message or, when that is empty, a default one. */
  function AfterCall(signUp: bool, outcome: Outcome): (effects: seq<Effect>)
    ensures |effects| == 1
    ensures outcome.Rejected? ==>
      effects[0].Alert? && effects[0].title == "Authentication Error" &&
      effects[0].message == (if outcome.message == "" then AuthFailedDefault else outcome.message)
    ensures outcome.Resolved? && !signUp ==> effects[0] == ReplaceRoute(TabsRoute)
    ensures outcome.Resolved? && signUp ==> effects[0] == Alert("Success", SignUpDone)
  {
    match outcome
    case Resolved => if signUp then [Alert("Success", SignUpDone)] else [ReplaceRoute(TabsRoute)]
    case Rejected(message) =>
      [Alert("Authentication Error", if message == "" then AuthFailedDefault else message)]
  }

  /** `handleAuth`: a failed check shows one error alert and stops; otherwise
      the spinner goes on, the request is made, its outcome is reported, and
      the spinner goes off whatever happened. */
  function HandleAuth(f: Form, outcome: Outcome): (effects: seq<Effect>)
    ensures Validate(f).Failure? ==> effects == [Alert("Error", Validate(f).error)]
    ensures Validate(f).Success? ==>
      |effects| == 4 && effects[0] == SetSigningIn(true) && effects[1] == Call(Validate(f).value) &&
      effects[2..3] == AfterCall(f.isSignUp, outcome) && effects[3] == SetSigningIn(false)
  {
    match Validate(f)
    case Failure(message) => [Alert("Error", message)]
    case Success(request) =>
      [SetSigningIn(true), Call(request)] + AfterCall(request.signUp, outcome) + [SetSigningIn(false)]
  }

  /** The main button, disabled while a request is in flight. */
  function PressMain(f: Form, outcome: Outcome): (effects: seq<Effect>)
    ensures f.signingIn ==> effects == []
    ensures !f.signingIn ==> effects == HandleAuth(f, outcome)
  {
    if f.signingIn then [] else HandleAuth(f, outcome)
  }

  /** The secondary button: switches between sign-in and sign-up and empties
      the confirmation field; disabled while a request is in flight. */
  function ToggleMode(f: Form): (r: Form)
    ensures f.signingIn ==> r == f
    ensures !f.signingIn ==>
      r.isSignUp == !f.isSignUp && r.confirmPassword == "" &&
      r.email == f.email && r.password == f.password && r.signingIn == f.signingIn
  {
    if f.signingIn then f else f.(isSignUp := !f.isSignUp, confirmPassword := "")
  }

  /** The spinner state after replaying a press's effects from `on`. */
  function SpinnerAfter(on: bool, effects: seq<Effect>): bool
    decreases |effects|
  {
    if |effects| == 0 then on
    else
      var last := effects[|effects| - 1];
      if last.SetSigningIn? then last.on else SpinnerAfter(on, effects[..|effects| - 1])
  }

  /** The number of service calls in a trace. */
  function Calls(effects: seq<Effect>): nat
    decreases |effects|
  {
    if |effects| == 0 then 0
    else (if effects[0].Call? then 1 else 0) + Calls(effects[1..])
  }

  // ---- properties -----------------------------------------------------------

  /** A press never leaves the spinner on, and makes at most one call,
      exactly when the checks pass. */
  lemma PressSettles(f: Form, outcome: Outcome)
    requires !f.signingIn
    ensures !SpinnerAfter(f.signingIn, PressMain(f, outcome))
    ensures Calls(PressMain(f, outcome)) == if Validate(f).Success? then 1 else 0
  {
    match Validate(f)
    case Success(req) =>
      BracketedCall(f.signingIn, req, AfterCall(req.signUp, outcome));
    case Failure(message) =>
      var effects := [Alert("Error", message)];
      assert effects[..0] == [] && effects[1..] == [];
  }

  /** A call bracketed by the spinner going on and off, with one report
      in between, is one call and leaves the spinner off. */
  lemma BracketedCall(on: bool, req: Request, report: seq<Effect>)
    requires |report| == 1 && !report[0].Call? && !report[0].SetSigningIn?
    ensures Calls([SetSigningIn(true), Call(req)] + report + [SetSigningIn(false)]) == 1
    ensures !SpinnerAfter(on, [SetSigningIn(true), Call(req)] + report + [SetSigningIn(false)])
  {
    var effects := [SetSigningIn(true), Call(req)] + report + [SetSigningIn(false)];
    var e1 := [Call(req)] + report + [SetSigningIn(false)];
    var e2 := report + [SetSigningIn(false)];
    var e3 := [SetSigningIn(false)];
    assert effects[1..] == e1 && e1[1..] == e2 && e2[1..] == e3 && e3[1..] == [];
    assert Calls(e3) == 0;
    assert Calls(e2) == 0;
    assert Calls(e1) == 1;
  }

  /** In sign-in mode the confirmation field is never consulted. */
  lemma SignInIgnoresConfirmation(f: Form, confirm: string)
    requires !f.isSignUp
    ensures Validate(f.(confirmPassword := confirm)) == Validate(f)
  {
  }

  /** A password of only spaces is rejected as missing, even when it is
      long enough. */
  lemma SpacesOnlyPasswordIsMissing()
    ensures Validate(Form("a@b.c", "      ", "", false, false)) == Failure(FillAllFields)
  {
    assert Blank("      ");
  }

  /** Spaces around a real password are kept in the request and count
      towards its length. */
  lemma PaddedPasswordIsKept()
    ensures Validate(Form("a@b.c", " abcd ", "", false, false)) == Success(Request(false, "a@b.c", " abcd "))
  {
    var f := Form("a@b.c", " abcd ", "", false, false);
    assert !Blank(f.email) by { assert !IsWhitespace(f.email[0]); }
    assert !Blank(f.password) by { assert !IsWhitespace(f.password[1]); }
    assert |f.password| == 6;
    assert Utf16Length(f.password) == 6;
    TrimNoPadding(f.email);
  }

  /** The length check counts UTF-16 code units: three characters outside
      the Basic Multilingual Plane make a password of length six. */
  lemma WidePasswordIsLongEnough()
    ensures Validate(Form("a@b.c", "\U{1F600}\U{1F600}\U{1F600}", "", false, false)).Success?
    ensures |"\U{1F600}\U{1F600}\U{1F600}"| == 3
  {
    var f := Form("a@b.c", "\U{1F600}\U{1F600}\U{1F600}", "", false, false);
    assert !Blank(f.email) by { assert !IsWhitespace(f.email[0]); }
    assert !Blank(f.password) by { assert !IsWhitespace(f.password[0]); }
    var p := f.password;
    assert p[1..][1..][1..] == "";
    assert Utf16Length(p) == 6;
  }

  /** Trimming a string with no whitespace at either end changes nothing. */
  lemma TrimNoPadding(s: string)
    requires |s| > 0 && !IsWhitespace(s[0]) && !IsWhitespace(s[|s| - 1])
    ensures Trim(s) == s
  {
    assert TrimStart(s) == s;
    assert TrimEnd(s) == s;
  }

  /** Switching modes twice restores the mode, with the confirmation emptied. */
  lemma ToggleTwice(f: Form)
    requires !f.signingIn
    ensures ToggleMode(ToggleMode(f)) == f.(confirmPassword := "")
  {
  }

  /** Switching to sign-up always asks for the confirmation again: with any
      password, a fresh sign-up form fails the match check. */
  lemma SignUpNeedsFreshConfirmation(f: Form)
    requires !f.signingIn && !f.isSignUp && !Blank(f.email) && !Blank(f.password)
    ensures Validate(ToggleMode(f)) == Failure(PasswordsDiffer)
  {
  }
}
