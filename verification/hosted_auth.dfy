/** Form handling of `auth-supabase.js`: the signup and login validation
    chains (name, email and phone trimmed first; password and confirmation
    taken as typed), the rewrite of store error messages into friendlier
    ones, and the checks and storage path of an avatar upload. */
module HostedAuth {
  import opened Wrappers
  import opened Text
  import opened Seqs
  import opened Forms
  import opened Upload
  import Utils

  // ---------------------------------------------------------------------
  // Signup validation
  // ---------------------------------------------------------------------

  const PhoneDigitsMessage := "Please enter a valid phone number (at least 9 digits)"
  const TermsMessage := "Please accept the Terms & Conditions"

  /** `phone.replace(/\D/g, '')`: the decimal digits of `phone`, in order. */
  function PhoneDigits(phone: string): (digits: string)
    ensures AllDigits(digits) && |digits| <= |phone|
    ensures forall i | 0 <= i < |phone| :: IsDigit(phone[i]) ==> phone[i] in digits
  {
    Filter(phone, IsDigit)
  }

  /** Every digit of the phone is kept, in order: the digits are a
      subsequence of the phone, as many as the phone has. */
  lemma PhoneDigitsCount(phone: string)
    ensures IsSubsequence(PhoneDigits(phone), phone)
    ensures |PhoneDigits(phone)| == Count(phone, IsDigit)
  {
    FilterIsSubsequence(phone, IsDigit);
    FilterLength(phone, IsDigit);
  }

  /** The phone rule: a non-empty phone with at least nine digits, whatever
      else it holds. */
  predicate PhoneAcceptable(phone: string) {
    phone != "" && |PhoneDigits(phone)| >= 9
  }

  /** The outcome of each of the seven signup checks, in page order. */
  datatype Verdicts = Verdicts(
    name: bool, email: bool, phone: bool, university: bool,
    password: bool, matches: bool, terms: bool)

  /** What each check makes of a form: the name, email and phone are trimmed
      first; the university, password, confirmation and terms box are taken
      as read. Lengths are JavaScript lengths, in UTF-16 code units. */
  function Judge(form: SignupForm): Verdicts {
    Verdicts(
      JsLength(Trim(form.name)) >= 2,
      Utils.IsValidEmail(Trim(form.email)),
      PhoneAcceptable(Trim(form.phone)),
      form.university != "",
      JsLength(form.password) >= 6,
      form.password == form.confirmPassword,
      form.terms == Some(true))
  }

  /** The seven checks with their messages, in the order the page makes
      them. */
  function SignupChecks(v: Verdicts): (checks: seq<Check>)
    ensures |checks| == 7
  {
    [ Check(v.name, NameMessage),
      Check(v.email, EmailMessage),
      Check(v.phone, PhoneDigitsMessage),
      Check(v.university, UniversityMessage),
      Check(v.password, PasswordLengthMessage),
      Check(v.matches, MismatchMessage),
      Check(v.terms, TermsMessage) ]
  }

  /** Every check passes exactly when every verdict is favourable. */
  lemma SignupChecksPass(v: Verdicts)
    ensures (v.name && v.email && v.phone && v.university && v.password && v.matches && v.terms)
        <==> forall i | 0 <= i < 7 :: SignupChecks(v)[i].passes
  {
    var checks := SignupChecks(v);
    assert (forall i | 0 <= i < 7 :: checks[i].passes) ==>
      checks[0].passes && checks[1].passes && checks[2].passes && checks[3].passes
      && checks[4].passes && checks[5].passes && checks[6].passes;
  }

  /** A form signup accepts. */
  predicate SignupAcceptable(form: SignupForm) {
    && JsLength(Trim(form.name)) >= 2
    && Utils.IsValidEmail(Trim(form.email))
    && PhoneAcceptable(Trim(form.phone))
    && form.university != ""
    && JsLength(form.password) >= 6
    && form.password == form.confirmPassword
    && form.terms == Some(true)
  }

  /** The validation of `handleSignup`: nothing when signup may proceed,
      otherwise the message of the first failing check. */
  function ValidateSignup(form: SignupForm): (error: Option<string>)
    ensures error.None? <==> SignupAcceptable(form)
    ensures JsLength(Trim(form.name)) < 2 ==> error == Some(NameMessage)
  {
    var v := Judge(form);
    var checks := SignupChecks(v);
    SignupChecksPass(v);
    assert !v.name ==> FirstFailure(checks) == Some(NameMessage) by {
      if !v.name {
        FirstFailureAt(checks, 0);
      }
    }
    FirstFailure(checks)
  }

  /** Each check speaks only when every earlier one passed. */
  lemma SignupReportsFirstFailure(form: SignupForm, k: nat)
    requires k < 7 && !SignupChecks(Judge(form))[k].passes
    requires forall j | 0 <= j < k :: SignupChecks(Judge(form))[j].passes
    ensures ValidateSignup(form) == Some(SignupChecks(Judge(form))[k].message)
  {
    FirstFailureAt(SignupChecks(Judge(form)), k);
  }

  /** Whitespace around the name, email or phone changes nothing: those
      fields are trimmed before any check. */
  lemma PaddingIgnored(form: SignupForm, p: string, q: string)
    requires AllWhitespace(p) && AllWhitespace(q)
    ensures ValidateSignup(form.(name := p + form.name + q, email := p + form.email + q, phone := p + form.phone + q))
         == ValidateSignup(form)
  {
    TrimPadded(p, form.name, q);
    TrimPadded(p, form.email, q);
    TrimPadded(p, form.phone, q);
    var padded := form.(name := p + form.name + q, email := p + form.email + q, phone := p + form.phone + q);
    assert Judge(padded) == Judge(form);
  }

  /** The password is not trimmed: a blank typed before an otherwise
      accepted password no longer matches its confirmation. */
  lemma PasswordNotTrimmed(form: SignupForm)
    requires SignupAcceptable(form)
    ensures ValidateSignup(form.(password := " " + form.password)) == Some(MismatchMessage)
  {
    var padded := form.(password := " " + form.password);
    assert padded.password != padded.confirmPassword by {
      assert |padded.password| != |form.confirmPassword|;
    }
    assert JsLength(padded.password) >= 6 by {
      JsLengthAppend(" ", form.password);
    }
    OnlyMismatch(Judge(padded));
  }

  /** With every other verdict favourable, a mismatch is what is reported. */
  lemma OnlyMismatch(v: Verdicts)
    requires v.name && v.email && v.phone && v.university && v.password && !v.matches
    ensures FirstFailure(SignupChecks(v)) == Some(MismatchMessage)
  {
    FirstFailureAt(SignupChecks(v), 5);
  }

  /** Only digits count towards the phone rule: separators do not help a
      phone that is one digit short, and do not hurt one with nine. */
  lemma PhoneSeparatorsIgnored(a: string, b: string)
    ensures PhoneDigits(a + "-" + b) == PhoneDigits(a + b)
  {
    FilterAppend(a + "-", b, IsDigit);
    FilterAppend(a, "-", IsDigit);
    FilterAppend(a, b, IsDigit);
    assert Filter("-", IsDigit) == [];
  }

  // ---------------------------------------------------------------------
  // Store error messages
  // ---------------------------------------------------------------------

  const AlreadyRegistered := "This email is already registered. Please login instead."
  const InvalidEmailText := "Please enter a valid email address."
  const PasswordText := "Password must be at least 6 characters."
  const InvalidDataText := "Invalid data. Please check all fields and try again."
  const SignupFailedText := "Error creating account. Please try again."

  /** The rewrite of a failed signup's error message (`None` when the thrown
      value has no message): the first of four known fragments the message
      contains picks a fixed text; otherwise the message itself is shown, or
      a default when it is empty or missing. */
  function SignupErrorText(message: Option<string>): (text: string)
    ensures text != ""
    ensures Mentions(message, "User already registered") ==> text == AlreadyRegistered
    ensures (!Mentions(message, "User already registered") && Mentions(message, "Invalid email"))
      ==> text == InvalidEmailText
    ensures (!Mentions(message, "User already registered") && !Mentions(message, "Invalid email")
      && Mentions(message, "Password")) ==> text == PasswordText
    ensures (!Mentions(message, "User already registered") && !Mentions(message, "Invalid email")
      && !Mentions(message, "Password") && Mentions(message, "violates")) ==> text == InvalidDataText
    ensures !KnownFragment(message) ==> text == OrElse(message, SignupFailedText)
  {
    if Mentions(message, "User already registered") then AlreadyRegistered
    else if Mentions(message, "Invalid email") then InvalidEmailText
    else if Mentions(message, "Password") then PasswordText
    else if Mentions(message, "violates") then InvalidDataText
    else OrElse(message, SignupFailedText)
  }

  /** `message?.includes(fragment)`: a missing message mentions nothing. */
  predicate Mentions(message: Option<string>, fragment: string) {
    message.Some? && Contains(message.value, fragment)
  }

  /** The message contains one of the four fragments the rewrite knows. */
  predicate KnownFragment(message: Option<string>) {
    || Mentions(message, "User already registered")
    || Mentions(message, "Invalid email")
    || Mentions(message, "Password")
    || Mentions(message, "violates")
  }

  /** The rewrite never invents text: it is one of the fixed texts or the
      message as given. */
  lemma SignupErrorTextRange(message: Option<string>)
    ensures var text := SignupErrorText(message);
      || text in {AlreadyRegistered, InvalidEmailText, PasswordText, InvalidDataText, SignupFailedText}
      || Some(text) == message
  {
  }

  /** Text around a fragment does not matter: any message mentioning an
      already-registered user gets the same text. */
  lemma AlreadyRegisteredWherever(before: string, after: string)
    ensures SignupErrorText(Some(before + "User already registered" + after)) == AlreadyRegistered
  {
    var m := before + "User already registered" + after;
    assert OccursAt("User already registered", m, |before|) by {
      assert m[|before|..|before| + 23] == "User already registered";
    }
  }

  // ---------------------------------------------------------------------
  // Login validation
  // ---------------------------------------------------------------------

  const PasswordRequiredMessage := "Please enter your password"

  /** The validation of `handleLogin`: the trimmed email first, then a
      non-empty password; there is no length rule. */
  function ValidateLogin(email: string, password: string): (error: Option<string>)
    ensures error.None? <==> Utils.IsValidEmail(Trim(email)) && password != ""
    ensures !Utils.IsValidEmail(Trim(email)) ==> error == Some(EmailMessage)
    ensures Utils.IsValidEmail(Trim(email)) && password == "" ==> error == Some(PasswordRequiredMessage)
  {
    var checks := [Check(Utils.IsValidEmail(Trim(email)), EmailMessage), Check(password != "", PasswordRequiredMessage)];
    TwoChecks(checks[0], checks[1]);
    FirstFailure(checks)
  }

  /** A one-character password passes login validation, which the signup
      check would refuse. */
  lemma LoginHasNoLengthRule(email: string, c: char)
    requires Utils.IsValidEmail(Trim(email))
    ensures ValidateLogin(email, [c]).None?
  {
  }

  // ---------------------------------------------------------------------
  // Avatar upload
  // ---------------------------------------------------------------------

  const MaxAvatarBytes: nat := 5 * 1024 * 1024
  const NotSignedIn := "Not authenticated"
  const AvatarTooLarge := "Image must be less than 5MB"

  /** The checks and storage path of `uploadAvatar(file)`: a signed-in user,
      an image type, at most 5 MiB; the path is the user's folder and
      `avatar.` with the file's own extension. */
  function AvatarPath(userId: Option<string>, file: File): (r: Result<string, string>)
    ensures r.Success? <==> userId.Some? && StartsWith(file.mimeType, "image/") && file.size <= MaxAvatarBytes
    ensures userId.None? ==> r == Failure(NotSignedIn)
    ensures userId.Some? && !StartsWith(file.mimeType, "image/") ==> r == Failure(NotAnImage)
    ensures userId.Some? && StartsWith(file.mimeType, "image/") && file.size > MaxAvatarBytes ==>
      r == Failure(AvatarTooLarge)
    ensures r.Success? ==> r.value == userId.value + "/avatar." + Extension(file.name)
    ensures r.Success? ==>
      && StartsWith(r.value, userId.value + "/")
      && Extension(r.value) == Extension(file.name)
  {
    if userId.None? then Failure(NotSignedIn)
    else
      var error := CheckImage(file, MaxAvatarBytes, AvatarTooLarge);
      if error.Some? then Failure(error.value)
      else
        var folder := userId.value + "/";
        var ext := Extension(file.name);
        var path := folder + "avatar" + "." + ext;
        assert path[..|folder|] == folder;
        assert path == userId.value + "/avatar." + ext;
        ExtensionAfterDot(folder + "avatar", ext);
        Success(path)
  }

  /** A user has one avatar per extension: two accepted uploads with the same
      extension go to the same path, so the later replaces the earlier. */
  lemma AvatarPathPerExtension(userId: string, a: File, b: File)
    requires StartsWith(a.mimeType, "image/") && a.size <= MaxAvatarBytes
    requires StartsWith(b.mimeType, "image/") && b.size <= MaxAvatarBytes
    requires Extension(a.name) == Extension(b.name)
    ensures AvatarPath(Some(userId), a) == AvatarPath(Some(userId), b)
  {
  }
}
