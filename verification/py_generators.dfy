/** The identity generators and validators of the Selenium script:
    `generate_random_string`, `generate_random_email`, `is_valid_email` (in
    EmailFormat), `generate_random_password` and `is_valid_password`. The picks of
    `generate_random_string` and of the password attempts arrive as the indices they
    choose from their alphabets; the punctuation character of the malformed domain
    arrives as the character itself, and the lemmas about it require it to be
    punctuation. */
module PyGenerators {
  import opened Options
  import opened Chars
  import opened EmailFormat
  import opened Diagnostics

  // ---------------------------------------------------------------- emails

  /** Every pick indexes into `string.ascii_letters + string.digits`. */
  predicate IsAlnumPicks(picks: seq<nat>) {
    forall i :: 0 <= i < |picks| ==> picks[i] < |AsciiAlnum|
  }

  /** `generate_random_string(length)`, with `length == |picks|`. */
  function GenerateRandomString(picks: seq<nat>): (r: string)
    requires IsAlnumPicks(picks)
    ensures |r| == |picks|
    ensures forall i :: 0 <= i < |r| ==> IsAlnum(r[i])
  {
    var r := seq(|picks|, i requires 0 <= i < |picks| => AsciiAlnum[picks[i]]);
    assert forall i :: 0 <= i < |r| ==> IsAlnum(r[i]) by {
      forall i | 0 <= i < |r| ensures IsAlnum(r[i]) {
        AsciiAlnumPick(picks[i]);
      }
    }
    r
  }

  /** The length of every generated user name. */
  const UsernameLength: nat := 8

  /** The domain of a deliberately malformed address: `invalid{p}domain.com`. */
  function MalformedDomain(p: char): string {
    "invalid" + [p] + "domain.com"
  }

  /** `generate_random_email(is_valid)`: an 8-character user name at `example.com`, or
      at the malformed domain. The address is returned as built; the format check and
      the registry only choose the logged line. */
  function GenerateRandomEmail(isValid: bool, userPicks: seq<nat>, p: char): (g: GeneratedEmail)
    requires |userPicks| == UsernameLength && IsAlnumPicks(userPicks)
    ensures g.email == GenerateRandomString(userPicks) + "@" + (if isValid then ExampleDomain else MalformedDomain(p))
    ensures g.log == NotValid <==> !IsValidEmailPy(g.email)
    ensures g.log == AlreadyRegistered <==> IsValidEmailPy(g.email) && g.email in ExistingEmails
    ensures isValid ==> IsValidEmail(g.email) && IsValidEmailPy(g.email) && g.log != NotValid
  {
    var username := GenerateRandomString(userPicks);
    var email := username + "@" + (if isValid then ExampleDomain else MalformedDomain(p));
    ExampleComAddress(username);
    assert isValid ==> email == username + "@" + ExampleDomain;
    GeneratedEmail(email, Diagnose(IsValidEmailPy(email), email))
  }

  /** The malformed host is legal exactly when `p` is `-` or `.`. */
  lemma MalformedHost(p: char)
    requires IsPunctuation(p)
    ensures IsHost(MalformedDomain(p)) <==> p == '-' || p == '.'
  {
    var host := MalformedDomain(p);
    if p == '.' {
      assert host == "invalid" + "." + "domain.com";
      assert IsDomainLabel("invalid") && IsTldPart("domain.com");
      HostOfParts("invalid", "domain.com");
    } else {
      var domain := "invalid" + [p] + "domain";
      assert host == domain + "." + "com";
      assert domain[7] == p;
      assert forall i :: 0 <= i < |domain| && i != 7 ==> IsAlnum(domain[i]);
      HostOfParts(domain, "com");
    }
  }

  /** A "malformed" address is rejected exactly when the punctuation character is
      neither `-` nor `.`: `invalid-domain.com` and `invalid.domain.com` are legal hosts. */
  lemma MalformedEmailRejectedIff(userPicks: seq<nat>, p: char)
    requires |userPicks| == UsernameLength && IsAlnumPicks(userPicks)
    requires IsPunctuation(p)
    ensures !IsValidEmailPy(GenerateRandomEmail(false, userPicks, p).email) <==> p != '-' && p != '.'
  {
    var username := GenerateRandomString(userPicks);
    var email := username + "@" + MalformedDomain(p);
    assert IsLocalPart(username);
    ValidEmailOfParts(username, MalformedDomain(p));
    MalformedHost(p);
    assert email[|email| - 1] == 'm';
    PyAgreesWithoutNewline(email);
  }

  /** A concrete "malformed" address the format check accepts: `aaaaaaaa@invalid-domain.com`. */
  lemma MalformedEmailCanPass()
    ensures IsValidEmailPy(GenerateRandomEmail(false, [0, 0, 0, 0, 0, 0, 0, 0], '-').email)
  {
    MalformedEmailRejectedIff([0, 0, 0, 0, 0, 0, 0, 0], '-');
  }

  /** The malformed-address generator with `p` drawn from punctuation other than `-`
      and `.`; every address it builds is rejected and logged as invalid. */
  function GenerateMalformedEmail(userPicks: seq<nat>, p: char): (g: GeneratedEmail)
    requires |userPicks| == UsernameLength && IsAlnumPicks(userPicks)
    requires IsPunctuation(p) && p != '-' && p != '.'
    ensures !IsValidEmailPy(g.email) && g.log == NotValid
    ensures g.email == GenerateRandomString(userPicks) + "@" + MalformedDomain(p)
  {
    MalformedEmailRejectedIff(userPicks, p);
    GenerateRandomEmail(false, userPicks, p)
  }

  /** A generated address collides with a registered one exactly when it is a "valid"
      address whose user name is `testuser`: `user1` is too short to be generated. */
  lemma EmailCollision(isValid: bool, userPicks: seq<nat>, p: char)
    requires |userPicks| == UsernameLength && IsAlnumPicks(userPicks)
    ensures GenerateRandomEmail(isValid, userPicks, p).email in ExistingEmails
        <==> isValid && GenerateRandomString(userPicks) == "testuser"
  {
    var username := GenerateRandomString(userPicks);
    var email := GenerateRandomEmail(isValid, userPicks, p).email;
    if isValid {
      assert email == username + "@" + ExampleDomain;
      RegisteredExampleCom(username);
    } else {
      assert |email| == 27;
    }
  }

  // ------------------------------------------------------------- passwords

  /** `lowercase + uppercase + digits + symbols`, with `symbols = string.punctuation`. */
  const PyAllChars: string := Lowercase + Uppercase + Digits + Punctuation

  /** The default `length` of `generate_random_password`. */
  const DefaultPasswordLength: nat := 14

  /** The length `is_valid_password` demands. */
  const MinValidLength: nat := 12

  /** The checks of the retry guard: one lower-case, upper-case, digit and punctuation
      character. The four classes are disjoint, so a passing string has at least four
      characters. */
  predicate MeetsStrengthGuard(pw: string): (ok: bool)
    ensures ok ==> |pw| >= 4
  {
    HasLower(pw) && HasUpper(pw) && HasDigit(pw) && HasPunctuation(pw)
  }

  /** `is_valid_password`: at least 12 characters and the four classes, that is, the
      retry guard plus a length minimum. */
  predicate IsValidPassword(pw: string): (ok: bool)
    ensures ok <==> |pw| >= MinValidLength && MeetsStrengthGuard(pw)
  {
    |pw| >= MinValidLength && HasUpper(pw) && HasLower(pw) && HasDigit(pw) && HasPunctuation(pw)
  }

  /** Every pick indexes into the combined alphabet. */
  predicate IsAllCharsPicks(picks: seq<nat>) {
    forall i :: 0 <= i < |picks| ==> picks[i] < |PyAllChars|
  }

  /** The picks of successive attempts at length `length`. */
  predicate AreCandidateDraws(draws: seq<seq<nat>>, length: nat) {
    forall k :: 0 <= k < |draws| ==> |draws[k]| == length && IsAllCharsPicks(draws[k])
  }

  /** One attempt: `length` independent `random.choice(all_chars)` draws. */
  function PasswordCandidate(picks: seq<nat>): (pw: string)
    requires IsAllCharsPicks(picks)
    ensures |pw| == |picks|
    ensures DrawnFrom(pw, PyAllChars)
  {
    seq(|picks|, i requires 0 <= i < |picks| => PyAllChars[picks[i]])
  }

  /** `generate_random_password(length, True)`, one attempt per element of `draws`:
      the first candidate that passes the guard is returned, and the recursion retries
      on every other. `None` means the supplied draws ran out before one passed. */
  function GenerateStrongPassword(length: nat, draws: seq<seq<nat>>): (r: Option<string>)
    requires AreCandidateDraws(draws, length)
    ensures r.Some? ==> |r.value| == length && DrawnFrom(r.value, PyAllChars) && MeetsStrengthGuard(r.value)
    ensures r.Some? ==> exists k :: (0 <= k < |draws| && r.value == PasswordCandidate(draws[k])
        && forall j :: 0 <= j < k ==> !MeetsStrengthGuard(PasswordCandidate(draws[j])))
    ensures r.None? <==> forall k :: 0 <= k < |draws| ==> !MeetsStrengthGuard(PasswordCandidate(draws[k]))
    decreases |draws|
  {
    if |draws| == 0 then
      None
    else
      var candidate := PasswordCandidate(draws[0]);
      if MeetsStrengthGuard(candidate) then
        Some(candidate)
      else
        var rest := GenerateStrongPassword(length, draws[1..]);
        assert forall k :: 1 <= k < |draws| ==> draws[1..][k - 1] == draws[k];
        if rest.Some? then
          var k :| 0 <= k < |draws[1..]| && rest.value == PasswordCandidate(draws[1..][k])
            && forall j :: 0 <= j < k ==> !MeetsStrengthGuard(PasswordCandidate(draws[1..][j]));
          assert rest.value == PasswordCandidate(draws[k + 1]);
          rest
        else
          rest
  }

  /** `generate_random_password(length, False)`: `length` digits. */
  function GenerateWeakPassword(picks: seq<nat>): (pw: string)
    requires forall i :: 0 <= i < |picks| ==> picks[i] < 10
    ensures |pw| == |picks|
    ensures forall i :: 0 <= i < |pw| ==> IsDigit(pw[i])
  {
    var pw := seq(|picks|, i requires 0 <= i < |picks| => Digits[picks[i]]);
    assert forall i :: 0 <= i < |pw| ==> IsDigit(pw[i]) by {
      forall i | 0 <= i < |pw| ensures IsDigit(pw[i]) {
        DigitsAreDigits(picks[i]);
      }
    }
    pw
  }

  /** A weak password never passes `is_valid_password`: it has no letter and no
      punctuation, whatever its length. */
  lemma WeakPasswordRejected(picks: seq<nat>)
    requires forall i :: 0 <= i < |picks| ==> picks[i] < 10
    ensures !IsValidPassword(GenerateWeakPassword(picks))
    ensures !HasUpper(GenerateWeakPassword(picks)) && !HasLower(GenerateWeakPassword(picks))
    ensures !HasPunctuation(GenerateWeakPassword(picks))
  {
    var pw := GenerateWeakPassword(picks);
    assert forall i :: 0 <= i < |pw| ==> IsDigit(pw[i]);
  }

  /** Below four characters no candidate passes the guard, so the retry never returns
      (in Python it recurses until the interpreter's recursion limit). */
  lemma ShortStrongPasswordNeverReturns(length: nat, draws: seq<seq<nat>>)
    requires AreCandidateDraws(draws, length)
    requires length < 4
    ensures GenerateStrongPassword(length, draws).None?
  {
  }

  /** A strong password, once returned, passes `is_valid_password` exactly when the
      requested length reaches 12: the guard and the validator differ only there. */
  lemma StrongPasswordValidIff(length: nat, draws: seq<seq<nat>>)
    requires AreCandidateDraws(draws, length)
    ensures GenerateStrongPassword(length, draws).Some? ==>
      (IsValidPassword(GenerateStrongPassword(length, draws).value) <==> length >= MinValidLength)
  {
  }

  /** At the default length every strong password passes `is_valid_password`. */
  lemma DefaultStrongPasswordValid(draws: seq<seq<nat>>)
    requires AreCandidateDraws(draws, DefaultPasswordLength)
    ensures GenerateStrongPassword(DefaultPasswordLength, draws).Some? ==>
      IsValidPassword(GenerateStrongPassword(DefaultPasswordLength, draws).value)
  {
  }
}
