/** What both versions of the pages show back to the user, and the shape
    their form validation shares: an ordered list of checks in which the first
    failing one decides the single message shown. */
module Forms {
  import opened Wrappers

  /** The style of a notification: the hosted pages say "danger" for a
      failure, the demo pages say "error". */
  datatype Severity = SuccessToast | DangerToast | ErrorToast

  /** A transient notification. */
  datatype Toast = Toast(message: string, severity: Severity)

  /** One validation step: whether the input passes it, and what to say when
      it does not. */
  datatype Check = Check(passes: bool, message: string)

  /** The message of the first failing check, or nothing when every check
      passes: the `if (...) { showToast(...); return; }` chain. */
  function FirstFailure(checks: seq<Check>): (r: Option<string>)
    ensures r.None? <==> forall i | 0 <= i < |checks| :: checks[i].passes
    ensures r.Some? ==> exists i | 0 <= i < |checks| ::
      && !checks[i].passes && checks[i].message == r.value
      && forall j | 0 <= j < i :: checks[j].passes
    decreases |checks|
  {
    if |checks| == 0 then None
    else if !checks[0].passes then Some(checks[0].message)
    else
      var r := FirstFailure(checks[1..]);
      assert forall i | 1 <= i < |checks| :: checks[i] == checks[1..][i - 1];
      r
  }

  /** A failing check preceded only by passing ones decides the message. */
  lemma {:induction false} FirstFailureAt(checks: seq<Check>, k: nat)
    requires k < |checks| && !checks[k].passes
    requires forall j | 0 <= j < k :: checks[j].passes
    ensures FirstFailure(checks) == Some(checks[k].message)
    decreases k
  {
    if k > 0 {
      assert checks[1..][k - 1] == checks[k];
      FirstFailureAt(checks[1..], k - 1);
    }
  }

  /** A chain of two checks reports the first, else the second, else
      nothing. */
  lemma TwoChecks(first: Check, second: Check)
    ensures FirstFailure([first, second]) ==
      if !first.passes then Some(first.message)
      else if !second.passes then Some(second.message)
      else None
  {
    assert [first, second][1..] == [second];
    assert [second][1..] == [];
  }

  /** The signup form as read from the page. The demo page has no terms box
      and ignores `terms`; on the hosted page an absent box reads as
      `None`. */
  datatype SignupForm = SignupForm(
    name: string,
    email: string,
    phone: string,
    university: string,
    password: string,
    confirmPassword: string,
    terms: Option<bool>)

  const NameMessage := "Please enter your full name"
  const EmailMessage := "Please enter a valid email address"
  const UniversityMessage := "Please select your university"
  const PasswordLengthMessage := "Password must be at least 6 characters"
  const MismatchMessage := "Passwords do not match"
}
