/** The identity generators of the Puppeteer script: `generateRandomEmail` and
    `generateRandomPassword`. Faker's random outputs arrive as parameters: the
    user name, the three alphanumerics and two symbols of a malformed domain, the
    indices `arrayElement` picks, and the permutation `shuffle` applies. */
module JsGenerators {
  import opened Chars
  import opened EmailFormat
  import opened Diagnostics
  import opened Permutations

  // ---------------------------------------------------------------- emails

  /** What `faker.string.alphanumeric(n)` returns: `n` ASCII letters or digits. */
  predicate IsFakerAlphanumeric(s: string, n: nat) {
    |s| == n && forall i :: 0 <= i < |s| ==> IsAlnum(s[i])
  }

  /** What `faker.string.symbol(n)` returns: `n` ASCII punctuation characters. */
  predicate IsFakerSymbols(s: string, n: nat) {
    |s| == n && forall i :: 0 <= i < |s| ==> IsPunctuation(s[i])
  }

  /** The domain of a deliberately malformed address: `inva`, three alphanumerics,
      `li`, two symbols, `.com`. */
  function MalformedDomain(alnum: string, symbols: string): string {
    "inva" + alnum + "li" + symbols + ".com"
  }

  /** `generateRandomEmail(isValid)`: the address is built once and returned as built;
      the format and registry checks only choose which line is logged. */
  function GenerateRandomEmail(isValid: bool, username: string, alnum: string, symbols: string): (g: GeneratedEmail)
    ensures g.email == username + "@" + (if isValid then ExampleDomain else MalformedDomain(alnum, symbols))
    ensures g.log == NotValid <==> !IsValidEmail(g.email)
    ensures g.log == AlreadyRegistered <==> IsValidEmail(g.email) && g.email in ExistingEmails
  {
    var email := username + "@" + (if isValid then ExampleDomain else MalformedDomain(alnum, symbols));
    GeneratedEmail(email, Diagnose(IsValidEmail(email), email))
  }

  /** A "valid" address passes the format check exactly when faker's user name is a
      well-formed local part. */
  lemma ValidEmailAccepted(username: string, alnum: string, symbols: string)
    ensures IsValidEmail(GenerateRandomEmail(true, username, alnum, symbols).email) <==> IsLocalPart(username)
  {
    ExampleComAddress(username);
  }

  predicate IsHyphenOrDot(c: char) { c == '-' || c == '.' }

  /** The alphanumeric stem of the malformed domain holds no `.` and is a domain label. */
  lemma MalformedStem(alnum: string)
    requires IsFakerAlphanumeric(alnum, 3)
    ensures forall i :: 0 <= i < |"inva" + alnum + "li"| ==> ("inva" + alnum + "li")[i] != '.'
    ensures IsDomainLabel("inva" + alnum + "li")
  {
    var stem := "inva" + alnum + "li";
    forall i | 0 <= i < |stem| ensures IsAlnum(stem[i]) {
      if 4 <= i < 7 {
        assert stem[i] == alnum[i - 4];
      }
    }
  }

  /** First symbol `.`: the domain ends before it and the second symbol opens the tail. */
  lemma MalformedHostDotFirst(alnum: string, symbols: string)
    requires IsFakerAlphanumeric(alnum, 3) && IsFakerSymbols(symbols, 2)
    requires symbols[0] == '.'
    ensures IsHost(MalformedDomain(alnum, symbols)) <==> IsHyphenOrDot(symbols[1])
  {
    var stem := "inva" + alnum + "li";
    var tail := [symbols[1]] + ".com";
    MalformedStem(alnum);
    assert MalformedDomain(alnum, symbols) == stem + "." + tail;
    HostOfParts(stem, tail);
    assert tail[0] == symbols[1];
    assert forall i :: 1 <= i < |tail| ==> tail[i] == ".com"[i - 1];
  }

  /** Second symbol `.` only: the first symbol ends the domain. */
  lemma MalformedHostDotSecond(alnum: string, symbols: string)
    requires IsFakerAlphanumeric(alnum, 3) && IsFakerSymbols(symbols, 2)
    requires symbols[0] != '.' && symbols[1] == '.'
    ensures IsHost(MalformedDomain(alnum, symbols)) <==> symbols[0] == '-'
  {
    var stem := "inva" + alnum + "li";
    var domain := stem + [symbols[0]];
    MalformedStem(alnum);
    assert symbols == [symbols[0], '.'];
    assert MalformedDomain(alnum, symbols) == domain + "." + ".com";
    assert forall i :: 0 <= i < |stem| ==> domain[i] == stem[i];
    assert domain[|stem|] == symbols[0];
    HostOfParts(domain, ".com");
  }

  /** Neither symbol `.`: both sit inside the domain. */
  lemma MalformedHostNoDot(alnum: string, symbols: string)
    requires IsFakerAlphanumeric(alnum, 3) && IsFakerSymbols(symbols, 2)
    requires symbols[0] != '.' && symbols[1] != '.'
    ensures IsHost(MalformedDomain(alnum, symbols)) <==> symbols[0] == '-' && symbols[1] == '-'
  {
    var stem := "inva" + alnum + "li";
    var domain := stem + symbols;
    MalformedStem(alnum);
    assert MalformedDomain(alnum, symbols) == domain + "." + "com";
    assert forall i :: 0 <= i < |stem| ==> domain[i] == stem[i];
    assert domain[|stem|] == symbols[0] && domain[|stem| + 1] == symbols[1];
    HostOfParts(domain, "com");
  }

  /** The host `MalformedDomain` builds is accepted exactly when both symbols are
      `-` or `.`. */
  lemma MalformedHost(alnum: string, symbols: string)
    requires IsFakerAlphanumeric(alnum, 3) && IsFakerSymbols(symbols, 2)
    ensures IsHost(MalformedDomain(alnum, symbols)) <==> IsHyphenOrDot(symbols[0]) && IsHyphenOrDot(symbols[1])
  {
    if symbols[0] == '.' {
      MalformedHostDotFirst(alnum, symbols);
    } else if symbols[1] == '.' {
      MalformedHostDotSecond(alnum, symbols);
    } else {
      MalformedHostNoDot(alnum, symbols);
    }
  }

  /** A "malformed" address is rejected exactly when faker's user name is not a local
      part or one of the two symbols is something other than `-` and `.`: the symbols
      `-` and `.` are legal in a domain, so rejection is not guaranteed. */
  lemma MalformedEmailRejectedIff(username: string, alnum: string, symbols: string)
    requires IsFakerAlphanumeric(alnum, 3) && IsFakerSymbols(symbols, 2)
    ensures !IsValidEmail(GenerateRandomEmail(false, username, alnum, symbols).email)
        <==> !IsLocalPart(username) || !IsHyphenOrDot(symbols[0]) || !IsHyphenOrDot(symbols[1])
  {
    ValidEmailOfParts(username, MalformedDomain(alnum, symbols));
    MalformedHost(alnum, symbols);
  }

  /** A concrete "malformed" address that the format check accepts:
      `ana@invax1Zli--.com`. */
  lemma MalformedEmailCanPass()
    ensures IsValidEmail(GenerateRandomEmail(false, "ana", "x1Z", "--").email)
  {
    assert IsLocalPart("ana");
    assert IsFakerAlphanumeric("x1Z", 3);
    assert IsFakerSymbols("--", 2);
    MalformedEmailRejectedIff("ana", "x1Z", "--");
  }

  /** The punctuation characters that are illegal everywhere after `@`. */
  predicate IsMalformingSymbol(c: char) { IsPunctuation(c) && !IsHyphenOrDot(c) }

  /** The malformed-address generator with its symbols drawn from punctuation other
      than `-` and `.`; every address it builds is rejected and logged as invalid. */
  function GenerateMalformedEmail(username: string, alnum: string, symbols: string): (g: GeneratedEmail)
    requires IsFakerAlphanumeric(alnum, 3)
    requires |symbols| == 2 && IsMalformingSymbol(symbols[0]) && IsMalformingSymbol(symbols[1])
    ensures !IsValidEmail(g.email) && g.log == NotValid
    ensures g.email == username + "@" + MalformedDomain(alnum, symbols)
  {
    MalformedEmailRejectedIff(username, alnum, symbols);
    GenerateRandomEmail(false, username, alnum, symbols)
  }

  /** A generated address collides with a registered one only when it is a "valid"
      address whose user name is `testuser` or `user1`. */
  lemma EmailCollision(isValid: bool, username: string, alnum: string, symbols: string)
    requires !isValid ==> IsFakerAlphanumeric(alnum, 3) && IsFakerSymbols(symbols, 2)
    ensures GenerateRandomEmail(isValid, username, alnum, symbols).email in ExistingEmails
        <==> isValid && (username == "testuser" || username == "user1")
  {
    var email := GenerateRandomEmail(isValid, username, alnum, symbols).email;
    if isValid {
      assert email == username + "@" + ExampleDomain;
      RegisteredExampleCom(username);
    } else {
      assert email[|email| - 5] == symbols[1];
      if email in ExistingEmails {
        RegisteredEndsInE(email);
      }
    }
  }

  // ------------------------------------------------------------- passwords

  const JsSymbols: string := "@$!%*?&"

  /** `lowercase + uppercase + numbers + symbols`, the alphabet of the padding. */
  const JsAllChars: string := Lowercase + Uppercase + Digits + JsSymbols

  /** The password length `generateRandomPassword` produces in both branches. */
  const PasswordLength: nat := 14

  predicate IsJsSymbol(c: char) { c in JsSymbols }
  predicate HasJsSymbol(s: string) { exists i :: 0 <= i < |s| && IsJsSymbol(s[i]) }

  /** The indices `faker.helpers.arrayElement` picks for a strong password: one into
      each class, then one into the combined alphabet per padding position. */
  predicate IsPasswordPicks(picks: seq<nat>) {
    && |picks| == PasswordLength
    && picks[0] < 26 && picks[1] < 26 && picks[2] < 10 && picks[3] < 7
    && forall i :: 4 <= i < PasswordLength ==> picks[i] < |JsAllChars|
  }

  /** The password before its shuffle: lower-case, upper-case, digit, symbol, then
      padding from the combined alphabet up to 14 characters. */
  function OrderedPassword(picks: seq<nat>): (pw: string)
    requires IsPasswordPicks(picks)
    ensures |pw| == PasswordLength
    ensures DrawnFrom(pw, JsAllChars)
    ensures IsLower(pw[0]) && IsUpper(pw[1]) && IsDigit(pw[2]) && IsJsSymbol(pw[3])
  {
    LowercaseIsLower(picks[0]);
    UppercaseIsUpper(picks[1]);
    DigitsAreDigits(picks[2]);
    assert JsAllChars[picks[0]] == Lowercase[picks[0]];
    assert JsAllChars[26 + picks[1]] == Uppercase[picks[1]];
    assert JsAllChars[52 + picks[2]] == Digits[picks[2]];
    assert JsAllChars[62 + picks[3]] == JsSymbols[picks[3]];
    [Lowercase[picks[0]], Uppercase[picks[1]], Digits[picks[2]], JsSymbols[picks[3]]]
      + seq(PasswordLength - 4, i requires 0 <= i < PasswordLength - 4 => JsAllChars[picks[4 + i]])
  }

  /** `generateRandomPassword(isValid)`. A strong password is the ordered one shuffled
      by `perm`: 14 characters from the combined alphabet with at least one of each
      class, and the same characters, counted with multiplicity, as before the shuffle.
      A weak one is fourteen `a`s. */
  function GenerateRandomPassword(isValid: bool, picks: seq<nat>, perm: seq<nat>): (pw: string)
    requires isValid ==> IsPasswordPicks(picks) && IsPermutation(perm, PasswordLength)
    ensures |pw| == PasswordLength
    ensures isValid ==> multiset(pw) == multiset(OrderedPassword(picks))
    ensures isValid ==> DrawnFrom(pw, JsAllChars)
    ensures isValid ==> HasLower(pw) && HasUpper(pw) && HasDigit(pw) && HasJsSymbol(pw)
    ensures !isValid ==> forall i :: 0 <= i < |pw| ==> pw[i] == 'a'
  {
    if isValid then
      var ordered := OrderedPassword(picks);
      var pw := Shuffle(ordered, perm);
      assert DrawnFrom(pw, JsAllChars) by {
        forall i | 0 <= i < |pw| ensures pw[i] in JsAllChars {
          assert pw[i] in multiset(ordered);
        }
      }
      ShuffleKeepsElements(ordered, perm, 0);
      ShuffleKeepsElements(ordered, perm, 1);
      ShuffleKeepsElements(ordered, perm, 2);
      ShuffleKeepsElements(ordered, perm, 3);
      pw
    else
      seq(PasswordLength, _ => 'a')
  }

  /** The weak password is lower-case only: it has no upper-case letter, digit or
      symbol of any kind. */
  lemma WeakPasswordIsWeak(picks: seq<nat>, perm: seq<nat>)
    ensures var pw := GenerateRandomPassword(false, picks, perm);
      && |pw| == PasswordLength
      && (forall i :: 0 <= i < |pw| ==> IsLower(pw[i]))
      && !HasUpper(pw) && !HasDigit(pw) && !HasJsSymbol(pw) && !HasPunctuation(pw)
  {
    var pw := GenerateRandomPassword(false, picks, perm);
    assert !HasJsSymbol(pw) by {
      forall i | 0 <= i < |pw| ensures !IsJsSymbol(pw[i]) {
        assert pw[i] == 'a';
      }
    }
  }
}
