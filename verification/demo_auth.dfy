/** Form handling of the demo pages (`js/auth.js`): validation chains on the
    values as typed, and a browser key-value store holding the signed-in
    session under one key. */
module DemoAuth {
  import opened Wrappers
  import opened Forms
  import Utils
  import HostedAuth
  import Seqs
  import Text

  // ---------------------------------------------------------------------
  // Validation
  // ---------------------------------------------------------------------

  const PhoneMessage := "Please enter a valid phone number"

  /** The six signup checks in the order the demo page makes them, on the
      values as typed; there is no terms check. Lengths are JavaScript
      lengths, in UTF-16 code units. */
  function SignupChecks(form: SignupForm): (checks: seq<Check>)
    ensures |checks| == 6
  {
    [ Check(Text.JsLength(form.name) >= 2, NameMessage),
      Check(Utils.IsValidEmail(form.email), EmailMessage),
      Check(Text.JsLength(form.phone) >= 10, PhoneMessage),
      Check(form.university != "", UniversityMessage),
      Check(Text.JsLength(form.password) >= 6, PasswordLengthMessage),
      Check(form.password == form.confirmPassword, MismatchMessage) ]
  }

  /** A form the demo signup accepts. */
  predicate SignupAcceptable(form: SignupForm) {
    && Text.JsLength(form.name) >= 2
    && Utils.IsValidEmail(form.email)
    && Text.JsLength(form.phone) >= 10
    && form.university != ""
    && Text.JsLength(form.password) >= 6
    && form.password == form.confirmPassword
  }

  /** Every check passes exactly for an acceptable form. */
  lemma SignupChecksPass(form: SignupForm)
    ensures SignupAcceptable(form) <==> forall i | 0 <= i < 6 :: SignupChecks(form)[i].passes
  {
    var checks := SignupChecks(form);
    assert (forall i | 0 <= i < 6 :: checks[i].passes) ==>
      checks[0].passes && checks[1].passes && checks[2].passes && checks[3].passes
      && checks[4].passes && checks[5].passes;
  }

  /** The validation of the demo `handleSignup`: nothing when the form is
      accepted, otherwise the message of the first failing check. */
  function ValidateSignup(form: SignupForm): (error: Option<string>)
    ensures error.None? <==> SignupAcceptable(form)
    ensures Text.JsLength(form.name) < 2 ==> error == Some(NameMessage)
  {
    var checks := SignupChecks(form);
    SignupChecksPass(form);
    assert Text.JsLength(form.name) < 2 ==> FirstFailure(checks) == Some(NameMessage) by {
      if Text.JsLength(form.name) < 2 {
        FirstFailureAt(checks, 0);
      }
    }
    FirstFailure(checks)
  }

  /** Each check speaks only when every earlier one passed. */
  lemma SignupReportsFirstFailure(form: SignupForm, k: nat)
    requires k < 6 && !SignupChecks(form)[k].passes
    requires forall j | 0 <= j < k :: SignupChecks(form)[j].passes
    ensures ValidateSignup(form) == Some(SignupChecks(form)[k].message)
  {
    FirstFailureAt(SignupChecks(form), k);
  }

  /** The terms box plays no part in the demo signup. */
  lemma TermsIgnored(form: SignupForm, terms: Option<bool>)
    ensures ValidateSignup(form.(terms := terms)) == ValidateSignup(form)
  {
    assert SignupChecks(form.(terms := terms)) == SignupChecks(form);
  }

  /** The two phone rules disagree: the demo counts characters, the hosted
      page counts digits, so a ten-character phone with eight digits passes
      one and fails the other. */
  lemma PhoneRulesDiffer()
    ensures Text.JsLength("123-456-78") >= 10
    ensures !HostedAuth.PhoneAcceptable("123-456-78")
  {
    var a, b, c := "123", "456", "78";
    assert "123-456-78" == a + "-" + b + "-" + c;
    HostedAuth.PhoneSeparatorsIgnored(a + "-" + b, c);
    HostedAuth.PhoneSeparatorsIgnored(a, b);
    Seqs.FilterAppend(a + "-" + b, c, Text.IsDigit);
    Seqs.FilterAppend(a, b, Text.IsDigit);
    assert |HostedAuth.PhoneDigits(a + "-" + b + "-" + c)| <= 8;
  }

  const LoginPasswordMessage := PasswordLengthMessage

  /** The validation of the demo `handleLogin`: the email as typed first,
      then a password of at least six characters. */
  function ValidateLogin(email: string, password: string): (error: Option<string>)
    ensures error.None? <==> Utils.IsValidEmail(email) && Text.JsLength(password) >= 6
    ensures !Utils.IsValidEmail(email) ==> error == Some(EmailMessage)
    ensures Utils.IsValidEmail(email) && Text.JsLength(password) < 6 ==> error == Some(LoginPasswordMessage)
  {
    var checks := [Check(Utils.IsValidEmail(email), EmailMessage), Check(Text.JsLength(password) >= 6, LoginPasswordMessage)];
    TwoChecks(checks[0], checks[1]);
    FirstFailure(checks)
  }

  /** Three emoji make a six-unit password, which the demo login accepts
      with any valid email. */
  lemma ThreeEmojiPasswordAccepted(email: string)
    requires Utils.IsValidEmail(email)
    ensures ValidateLogin(email, "\U{1F600}\U{1F600}\U{1F600}").None?
  {
    Text.ThreeEmojiLength();
  }

  // ---------------------------------------------------------------------
  // Session store
  // ---------------------------------------------------------------------

  /** The signed-in user as the demo pages record it. Login records no phone
      or university. */
  datatype Session = Session(
    email: string,
    name: string,
    phone: Option<string>,
    university: Option<string>,
    loggedIn: bool)

  /** What a stored text parses to: a session written by these pages, or any
      other value (an object of another shape, an array, a number, `null`),
      of which only its truthiness matters to the pages. */
  datatype Parsed = SessionValue(session: Session) | OtherValue(truthy: bool)

  /** A stored value: text that parses, or text that does not (the empty
      string included). */
  datatype Entry = Readable(value: Parsed) | Unreadable(text: string)

  /** The browser's key-value store. */
  type Store = map<string, Entry>

  const SessionKey := "hustlehub_user"
  const DemoUserName := "Demo User"
  const LoginWelcome := "Login successful! Welcome back."
  const SignupWelcome := "Account created successfully! Welcome to Student Sphere."
  const LoggedOut := "Logged out successfully"

  /** The store after a handler ran, and the notification it showed. */
  datatype Outcome = Outcome(store: Store, toast: Toast)

  /** `getCurrentUser()`: whatever the stored text parses to, or nothing when
      the key is missing or its value does not parse. A stored value that
      parses to something other than a session is returned as it is. */
  function CurrentUser(store: Store): (user: Option<Parsed>)
    ensures SessionKey !in store ==> user.None?
    ensures user.Some? <==> SessionKey in store && store[SessionKey].Readable?
    ensures user.Some? ==> store[SessionKey] == Readable(user.value)
  {
    if SessionKey in store && store[SessionKey].Readable? then Some(store[SessionKey].value) else None
  }

  /** The pages treat a truthy current user as signed in: a session, or any
      other truthy value, such as an object of another shape. */
  predicate SignedIn(store: Store) {
    var user := CurrentUser(store);
    user.Some? && (user.value.SessionValue? || user.value.truthy)
  }

  /** A stored object of another shape passes for a signed-in user without
      any session behind it. */
  lemma ForeignValueSignsIn(store: Store)
    ensures var s := store[SessionKey := Readable(OtherValue(true))];
      SignedIn(s) && CurrentUser(s) == Some(OtherValue(true))
  {
  }

  /** `handleLogin`: on a valid email and password, records a session under
      the demo name with the email as typed; otherwise shows the first
      failure and leaves the store alone. */
  function Login(store: Store, email: string, password: string): (o: Outcome)
    ensures ValidateLogin(email, password).Some? ==>
      o == Outcome(store, Toast(ValidateLogin(email, password).value, ErrorToast))
    ensures ValidateLogin(email, password).None? ==>
      && CurrentUser(o.store) == Some(SessionValue(Session(email, DemoUserName, None, None, true)))
      && o.toast == Toast(LoginWelcome, SuccessToast)
    ensures forall k | k != SessionKey :: (k in o.store <==> k in store) && (k in store ==> o.store[k] == store[k])
  {
    match ValidateLogin(email, password)
    case Some(message) => Outcome(store, Toast(message, ErrorToast))
    case None =>
      Outcome(store[SessionKey := Readable(SessionValue(Session(email, DemoUserName, None, None, true)))],
              Toast(LoginWelcome, SuccessToast))
  }

  /** `handleSignup`: on an accepted form, records exactly the validated
      name, email, phone and university; otherwise shows the first failure
      and leaves the store alone. */
  function Signup(store: Store, form: SignupForm): (o: Outcome)
    ensures ValidateSignup(form).Some? ==>
      o == Outcome(store, Toast(ValidateSignup(form).value, ErrorToast))
    ensures ValidateSignup(form).None? ==>
      && CurrentUser(o.store) == Some(SessionValue(Session(form.email, form.name, Some(form.phone), Some(form.university), true)))
      && o.toast == Toast(SignupWelcome, SuccessToast)
    ensures forall k | k != SessionKey :: (k in o.store <==> k in store) && (k in store ==> o.store[k] == store[k])
  {
    match ValidateSignup(form)
    case Some(message) => Outcome(store, Toast(message, ErrorToast))
    case None =>
      var session := Session(form.email, form.name, Some(form.phone), Some(form.university), true);
      Outcome(store[SessionKey := Readable(SessionValue(session))], Toast(SignupWelcome, SuccessToast))
  }

  /** `handleLogout`: removes the session key and nothing else. */
  function Logout(store: Store): (o: Outcome)
    ensures SessionKey !in o.store
    ensures forall k | k != SessionKey :: (k in o.store <==> k in store) && (k in store ==> o.store[k] == store[k])
    ensures o.toast == Toast(LoggedOut, SuccessToast)
  {
    Outcome(store - {SessionKey}, Toast(LoggedOut, SuccessToast))
  }

  /** After logout nobody is signed in, whatever was stored before. */
  lemma LogoutSignsOut(store: Store)
    ensures CurrentUser(Logout(store).store).None? && !SignedIn(Logout(store).store)
  {
  }

  /** A signup then a logout leaves the store as it was without the session
      key. */
  lemma SignupThenLogout(store: Store, form: SignupForm)
    ensures Logout(Signup(store, form).store).store == store - {SessionKey}
  {
  }

  /** Logging in twice records the second login: the session key holds one
      session, the latest. */
  lemma LatestLoginWins(store: Store, e1: string, p1: string, e2: string, p2: string)
    requires ValidateLogin(e2, p2).None?
    ensures CurrentUser(Login(Login(store, e1, p1).store, e2, p2).store) == Some(SessionValue(Session(e2, DemoUserName, None, None, true)))
  {
  }
}
