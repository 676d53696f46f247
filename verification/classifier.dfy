/** The outcome classifiers: what each script concludes from the page after the
    signup form is submitted. The browser is not modelled; its observations arrive
    as a `Run`. `ClassifyJs` is the verdict logic of `testCreateUser` (it logs every
    inline error and always goes on to the notification); `ClassifyPy` is that of
    `test_create_user` (it stops at the first inline error). */
module Classifier {
  import opened Options
  import opened Text

  /** The notification text that marks a duplicate registration. */
  const DuplicateMessage: string := "Email is already in use"

  /** The word that, in any case, marks a successful registration. */
  const SuccessWord: string := "successfully"

  datatype Verdict =
    | EmailErrorShown(text: string)
    | PasswordErrorShown(text: string)
    | DuplicateUser
    | RegistrationSuccess(signedIn: bool)
    | UnexpectedNotification(text: string)
    | NoNotification
    | DriverError(message: string)
  {
    /** A verdict drawn from an inline field error. */
    predicate IsInlineError() { EmailErrorShown? || PasswordErrorShown? }

    /** A verdict drawn from the toast notification (or its absence). */
    predicate IsNotificationVerdict() {
      DuplicateUser? || RegistrationSuccess? || UnexpectedNotification? || NoNotification?
    }
  }

  /** What the page showed after submission: the text of each inline error span
      (`None` when the span is absent), the toast text (`None` when the wait for it
      failed), and whether "Sign Out" appeared in the user menu. */
  datatype PageFacts = PageFacts(
    emailError: Option<string>,
    passwordError: Option<string>,
    notification: Option<string>,
    signOutPresent: bool)

  /** A scenario either failed inside the script's outer `try` before the page facts
      were read (navigation, a missing form element, a driver fault), which the
      script logs as an error, or reached the page facts above. A failure to launch
      the browser happens before that `try` and is not a `Run` at all. */
  datatype Run = Aborted(message: string) | Submitted(facts: PageFacts)

  /** JavaScript and Python truthiness of an optional string: present and non-empty. */
  predicate Truthy(o: Option<string>) { o.Some? && |o.value| > 0 }

  /** The toast text names a duplicate email (case-sensitive). */
  predicate IsDuplicateText(t: string) { Contains(t, DuplicateMessage) }

  /** The toast text reports success ("successfully" in any letter case). */
  predicate IsSuccessText(t: string) { Contains(ToLower(t), SuccessWord) }

  /** The notification branch shared by both scripts: the duplicate test comes first,
      then the case-insensitive success test refined by the sign-out check; any other
      text is unexpected, and no toast at all is "not found". */
  function ClassifyNotification(notification: Option<string>, signOutPresent: bool): (v: Verdict)
    ensures v.IsNotificationVerdict()
    ensures v == NoNotification <==> notification.None?
    ensures v == DuplicateUser <==> notification.Some? && IsDuplicateText(notification.value)
    ensures v.RegistrationSuccess? <==>
      notification.Some? && !IsDuplicateText(notification.value) && IsSuccessText(notification.value)
    ensures v.RegistrationSuccess? ==> v.signedIn == signOutPresent
    ensures v.UnexpectedNotification? ==> notification == Some(v.text)
  {
    match notification
    case None => NoNotification
    case Some(t) =>
      if IsDuplicateText(t) then DuplicateUser
      else if IsSuccessText(t) then RegistrationSuccess(signOutPresent)
      else UnexpectedNotification(t)
  }

  /** The verdict a truthy inline error produces, or nothing. */
  function InlineVerdicts(error: Option<string>, make: string -> Verdict): (vs: seq<Verdict>)
    ensures |vs| <= 1
    ensures |vs| == 1 <==> Truthy(error)
    ensures Truthy(error) ==> vs == [make(error.value)]
  {
    if Truthy(error) then [make(error.value)] else []
  }

  /** `testCreateUser`: the email error, then the password error, each logged when its
      text is non-empty, and then always the notification verdict. */
  function ClassifyJs(run: Run): (vs: seq<Verdict>)
    ensures 1 <= |vs| <= 3
    ensures run.Aborted? ==> vs == [DriverError(run.message)]
    ensures run.Submitted? ==>
      vs[|vs| - 1] == ClassifyNotification(run.facts.notification, run.facts.signOutPresent)
    ensures run.Submitted? ==> forall i :: 0 <= i < |vs| - 1 ==> vs[i].IsInlineError()
    // The two membership clauses below follow from the count and position clauses
    // after them; they are kept as the plain reading of "logged iff truthy".
    ensures run.Submitted? ==>
      (EmailErrorShown(run.facts.emailError.GetOr("")) in vs <==> Truthy(run.facts.emailError))
    ensures run.Submitted? ==>
      (PasswordErrorShown(run.facts.passwordError.GetOr("")) in vs <==> Truthy(run.facts.passwordError))
    ensures run.Submitted? ==>
      |vs| == 1 + (if Truthy(run.facts.emailError) then 1 else 0) + (if Truthy(run.facts.passwordError) then 1 else 0)
    ensures run.Submitted? && Truthy(run.facts.emailError) ==> vs[0] == EmailErrorShown(run.facts.emailError.value)
    ensures run.Submitted? && Truthy(run.facts.passwordError) ==>
      vs[|vs| - 2] == PasswordErrorShown(run.facts.passwordError.value)
  {
    match run
    case Aborted(message) => [DriverError(message)]
    case Submitted(f) =>
      InlineVerdicts(f.emailError, t => EmailErrorShown(t))
        + InlineVerdicts(f.passwordError, t => PasswordErrorShown(t))
        + [ClassifyNotification(f.notification, f.signOutPresent)]
  }

  /** `test_create_user`: a truthy email error returns at once, then a truthy password
      error does; only a page with neither reaches the notification. */
  function ClassifyPy(run: Run): (v: Verdict)
    ensures run.Aborted? ==> v == DriverError(run.message)
    ensures run.Submitted? && Truthy(run.facts.emailError) ==> v == EmailErrorShown(run.facts.emailError.value)
    ensures run.Submitted? && !Truthy(run.facts.emailError) && Truthy(run.facts.passwordError) ==>
      v == PasswordErrorShown(run.facts.passwordError.value)
    ensures v.IsNotificationVerdict() <==>
      run.Submitted? && !Truthy(run.facts.emailError) && !Truthy(run.facts.passwordError)
    ensures run.Submitted? && !Truthy(run.facts.emailError) && !Truthy(run.facts.passwordError) ==>
      v == ClassifyNotification(run.facts.notification, run.facts.signOutPresent)
  {
    match run
    case Aborted(message) => DriverError(message)
    case Submitted(f) =>
      if Truthy(f.emailError) then EmailErrorShown(f.emailError.value)
      else if Truthy(f.passwordError) then PasswordErrorShown(f.passwordError.value)
      else ClassifyNotification(f.notification, f.signOutPresent)
  }

  /** The Python verdict is always the first verdict JavaScript logs. */
  lemma PyVerdictIsFirstJsVerdict(run: Run)
    ensures ClassifyPy(run) == ClassifyJs(run)[0]
  {
  }

  /** The two classifiers agree (JavaScript logging the single Python verdict) exactly
      when no inline error text is shown; otherwise JavaScript logs more. */
  lemma ClassifiersAgreeIff(run: Run)
    ensures ClassifyJs(run) == [ClassifyPy(run)] <==>
      run.Aborted? || (!Truthy(run.facts.emailError) && !Truthy(run.facts.passwordError))
  {
    if run.Submitted? && (Truthy(run.facts.emailError) || Truthy(run.facts.passwordError)) {
      assert |ClassifyJs(run)| >= 2;
    }
  }

  /** A page showing both inline errors: JavaScript logs both and the notification
      verdict, Python only the email error. */
  lemma ClassifiersDisagree()
    ensures var run := Submitted(PageFacts(Some("bad email"), Some("weak"), None, false));
      && ClassifyJs(run) == [EmailErrorShown("bad email"), PasswordErrorShown("weak"), NoNotification]
      && ClassifyPy(run) == EmailErrorShown("bad email")
  {
  }

  /** An empty inline error text is falsy in both languages and is ignored. */
  lemma EmptyErrorIgnored(f: PageFacts)
    ensures ClassifyJs(Submitted(f.(emailError := Some("")))) == ClassifyJs(Submitted(f.(emailError := None)))
    ensures ClassifyPy(Submitted(f.(emailError := Some("")))) == ClassifyPy(Submitted(f.(emailError := None)))
    ensures ClassifyJs(Submitted(f.(passwordError := Some("")))) == ClassifyJs(Submitted(f.(passwordError := None)))
    ensures ClassifyPy(Submitted(f.(passwordError := Some("")))) == ClassifyPy(Submitted(f.(passwordError := None)))
  {
  }

  /** The sign-out observation only matters when the notification reports success. */
  lemma SignOutMattersOnlyOnSuccess(f: PageFacts)
    requires ClassifyJs(Submitted(f.(signOutPresent := true))) != ClassifyJs(Submitted(f.(signOutPresent := false)))
    ensures f.notification.Some? && !IsDuplicateText(f.notification.value) && IsSuccessText(f.notification.value)
  {
  }

  /** A lower-cased text never contains the duplicate message, which starts with an
      upper-case `E`. */
  lemma LowerTextIsNeverDuplicate(t: string)
    ensures !IsDuplicateText(ToLower(t))
  {
    ToLowerIdempotent(t);
    var l := ToLower(t);
    forall i ensures !OccursAt(l, DuplicateMessage, i) {
      if 0 <= i && i + |DuplicateMessage| <= |l| {
        assert l[i..i + |DuplicateMessage|][0] == l[i];
        assert DuplicateMessage[0] == 'E';
        assert !('A' <= l[i] <= 'Z');
      }
    }
  }

  /** Any toast text that does not name a duplicate is classified as its lower-case
      form is: the success test ignores letter case. */
  lemma SuccessIgnoresCase(t: string, signOutPresent: bool)
    requires !IsDuplicateText(t)
    ensures ClassifyNotification(Some(t), signOutPresent).RegistrationSuccess?
        <==> ClassifyNotification(Some(ToLower(t)), signOutPresent).RegistrationSuccess?
  {
    LowerTextIsNeverDuplicate(t);
    ToLowerIdempotent(t);
  }

  /** A text naming a duplicate is a duplicate even when it also says "successfully". */
  lemma DuplicateTakesPrecedence(t: string, signOutPresent: bool)
    requires IsDuplicateText(t) && IsSuccessText(t)
    ensures ClassifyNotification(Some(t), signOutPresent) == DuplicateUser
  {
  }
}
