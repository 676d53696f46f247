/** The email-format check both scripts share: the anchored pattern
    `^[a-zA-Z0-9_.+-]+@[a-zA-Z0-9-]+\.[a-zA-Z0-9-.]+$`, written out by hand.
    `IsValidEmail` is JavaScript's `RegExp.prototype.test` (where `$` matches only at
    the very end); `IsValidEmailPy` is Python's `re.match` (where `$` also matches
    just before one final newline). */
module EmailFormat {
  import opened Chars

  /** `[a-zA-Z0-9_.+-]`, the characters of the part before `@`. */
  predicate IsLocalChar(c: char) { IsAlnum(c) || c == '_' || c == '.' || c == '+' || c == '-' }

  /** `[a-zA-Z0-9-]`, the characters between `@` and the first `.` after it. */
  predicate IsDomainChar(c: char) { IsAlnum(c) || c == '-' }

  /** `[a-zA-Z0-9-.]`, the characters after that `.`. */
  predicate IsTldChar(c: char) { IsAlnum(c) || c == '-' || c == '.' }

  predicate IsLocalPart(s: string) { |s| > 0 && forall i :: 0 <= i < |s| ==> IsLocalChar(s[i]) }
  predicate IsDomainLabel(s: string) { |s| > 0 && forall i :: 0 <= i < |s| ==> IsDomainChar(s[i]) }
  predicate IsTldPart(s: string) { |s| > 0 && forall i :: 0 <= i < |s| ==> IsTldChar(s[i]) }

  /** The regular expression's meaning: `s` splits at an `@` (index `at`) and a `.`
      (index `dot`) into three non-empty runs of the three character classes. */
  ghost predicate SplitsAsPattern(s: string, at: int, dot: int) {
    && 0 <= at < dot < |s|
    && s[at] == '@' && s[dot] == '.'
    && IsLocalPart(s[..at]) && IsDomainLabel(s[at + 1..dot]) && IsTldPart(s[dot + 1..])
  }

  /** Some split of `s` matches the pattern end to end. */
  ghost predicate MatchesPattern(s: string) {
    exists at, dot :: SplitsAsPattern(s, at, dot)
  }

  /** Python's `re.match` with a trailing `$`: the pattern matches all of `s`, or all
      of `s` but one final newline. */
  ghost predicate MatchesPatternPy(s: string) {
    MatchesPattern(s) || (|s| > 0 && s[|s| - 1] == '\n' && MatchesPattern(s[..|s| - 1]))
  }

  /** Index of the first `c` in `s`, or `|s|` when there is none. */
  function FirstIndex(s: string, c: char): (k: nat)
    ensures k <= |s|
    ensures k < |s| ==> s[k] == c
    ensures forall i :: 0 <= i < k ==> s[i] != c
  {
    if |s| == 0 then 0
    else if s[0] == c then 0
    else 1 + FirstIndex(s[1..], c)
  }

  /** What follows the `@`: a domain label, the first `.`, and a non-empty tail. */
  predicate IsHost(host: string) {
    var dot := FirstIndex(host, '.');
    dot < |host| && IsDomainLabel(host[..dot]) && IsTldPart(host[dot + 1..])
  }

  /** `isValidEmail` (JavaScript): split at the first `@`, then at the first `.`.
      The shortest accepted address has the shape `a@b.c`; an accepted address
      starts with a local-part character and ends with a character of the tail. */
  predicate IsValidEmail(email: string): (ok: bool)
    ensures ok ==> |email| >= 5
    ensures ok ==> IsLocalChar(email[0]) && IsTldChar(email[|email| - 1])
  {
    var at := FirstIndex(email, '@');
    at < |email| && IsLocalPart(email[..at]) && IsHost(email[at + 1..])
  }

  /** `is_valid_email` (Python): as above, or as above once one final newline is dropped.
      It accepts everything JavaScript accepts, and never a shorter string. */
  predicate IsValidEmailPy(email: string): (ok: bool)
    ensures IsValidEmail(email) ==> ok
    ensures ok ==> |email| >= 5
  {
    IsValidEmail(email) || (|email| > 0 && email[|email| - 1] == '\n' && IsValidEmail(email[..|email| - 1]))
  }

  /** If `c` first occurs at `k`, `FirstIndex` finds it there. */
  lemma FirstIndexAt(s: string, c: char, k: nat)
    requires k < |s| && s[k] == c
    requires forall i :: 0 <= i < k ==> s[i] != c
    ensures FirstIndex(s, c) == k
  {
  }

  /** Whatever the hand-written check accepts splits as the pattern demands. */
  lemma ValidEmailSplits(email: string)
    requires IsValidEmail(email)
    ensures MatchesPattern(email)
  {
    var at := FirstIndex(email, '@');
    var host := email[at + 1..];
    var d := FirstIndex(host, '.');
    var dot := at + 1 + d;
    assert email[at + 1..dot] == host[..d];
    assert email[dot + 1..] == host[d + 1..];
    assert SplitsAsPattern(email, at, dot);
  }

  /** Any split that matches the pattern is the one the hand-written check finds. */
  lemma SplitIsValidEmail(email: string, at: int, dot: int)
    requires SplitsAsPattern(email, at, dot)
    ensures IsValidEmail(email)
  {
    assert forall i :: 0 <= i < at ==> email[..at][i] == email[i];
    FirstIndexAt(email, '@', at);
    var host := email[at + 1..];
    var d := dot - at - 1;
    assert host[..d] == email[at + 1..dot];
    assert forall i :: 0 <= i < d ==> host[..d][i] == host[i];
    FirstIndexAt(host, '.', d);
    assert host[d + 1..] == email[dot + 1..];
  }

  /** The hand-written check accepts exactly the strings the regular expression matches. */
  lemma IsValidEmailMatchesPattern(email: string)
    ensures IsValidEmail(email) <==> MatchesPattern(email)
  {
    if IsValidEmail(email) {
      ValidEmailSplits(email);
    }
    if MatchesPattern(email) {
      var at, dot :| SplitsAsPattern(email, at, dot);
      SplitIsValidEmail(email, at, dot);
    }
  }

  /** The Python check accepts exactly what Python's `re.match` accepts. */
  lemma IsValidEmailPyMatchesPattern(email: string)
    ensures IsValidEmailPy(email) <==> MatchesPatternPy(email)
  {
    IsValidEmailMatchesPattern(email);
    if |email| > 0 {
      IsValidEmailMatchesPattern(email[..|email| - 1]);
    }
  }

  /** Every character of an accepted host is a tail character; in particular no `@`. */
  lemma HostCharacters(host: string)
    ensures IsHost(host) ==> forall i :: 0 <= i < |host| ==> IsTldChar(host[i])
  {
    if IsHost(host) {
      var dot := FirstIndex(host, '.');
      forall i | 0 <= i < |host| ensures IsTldChar(host[i]) {
        if i < dot {
          assert host[i] == host[..dot][i];
        } else if i > dot {
          assert host[i] == host[dot + 1..][i - dot - 1];
        }
      }
    }
  }

  /** A host holding a character outside `[a-zA-Z0-9-.]` is rejected. */
  lemma ForeignCharSpoilsHost(host: string, i: int)
    requires 0 <= i < |host| && !IsTldChar(host[i])
    ensures !IsHost(host)
  {
    HostCharacters(host);
  }

  /** An address assembled as `local @ host` is accepted exactly when both parts are,
      whatever `local` contains. */
  lemma ValidEmailOfParts(local: string, host: string)
    ensures IsValidEmail(local + "@" + host) <==> IsLocalPart(local) && IsHost(host)
  {
    var email := local + "@" + host;
    assert email[..|local|] == local;
    assert email[|local| + 1..] == host;
    var at := FirstIndex(email, '@');
    if at < |local| {
      var rest := email[at + 1..];
      assert rest[|local| - at - 1] == '@';
      ForeignCharSpoilsHost(rest, |local| - at - 1);
      assert !IsLocalPart(local) by {
        assert local[at] == '@';
      }
    } else {
      FirstIndexAt(email, '@', |local|);
    }
  }

  /** A host assembled as `domain . tail`, with no `.` in `domain`, is accepted exactly
      when `domain` and `tail` are. */
  lemma HostOfParts(domain: string, tail: string)
    requires forall i :: 0 <= i < |domain| ==> domain[i] != '.'
    ensures IsHost(domain + "." + tail) <==> IsDomainLabel(domain) && IsTldPart(tail)
  {
    var host := domain + "." + tail;
    FirstIndexAt(host, '.', |domain|);
    assert host[..|domain|] == domain;
    assert host[|domain| + 1..] == tail;
  }

  /** An accepted address holds exactly one `@`, and the host never holds one. */
  lemma ValidEmailHasOneAt(email: string)
    requires IsValidEmail(email)
    ensures multiset(email)['@'] == 1
  {
    var at := FirstIndex(email, '@');
    var local, host := email[..at], email[at + 1..];
    assert email == local + ['@'] + host;
    HostCharacters(host);
    assert '@' !in local;
    assert '@' !in host;
    assert multiset(email) == multiset(local) + multiset{'@'} + multiset(host);
  }

  /** An accepted address never ends in a newline, so JavaScript rejects `t + "\n"`
      while Python accepts it exactly when it accepts `t`. */
  lemma TrailingNewline(t: string)
    ensures !IsValidEmail(t + "\n")
    ensures IsValidEmailPy(t + "\n") <==> IsValidEmail(t)
  {
    var s := t + "\n";
    var at := FirstIndex(s, '@');
    if at < |s| {
      assert s[at + 1..][|s| - at - 2] == '\n';
      ForeignCharSpoilsHost(s[at + 1..], |s| - at - 2);
    }
    assert s[..|s| - 1] == t;
  }

  /** Without a final newline the two checks agree. */
  lemma PyAgreesWithoutNewline(email: string)
    requires |email| == 0 || email[|email| - 1] != '\n'
    ensures IsValidEmailPy(email) <==> IsValidEmail(email)
  {
  }
}
