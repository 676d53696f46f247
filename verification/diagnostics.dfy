/** The informational line each email generator logs, and the fixed set of
    "already registered" addresses it consults. */
module Diagnostics {
  import opened EmailFormat

  /** Which line, if any, the generator logs about the address it built. */
  datatype Diagnostic = Quiet | NotValid | AlreadyRegistered

  /** What an email generator hands back: the address, and the line it logged. */
  datatype GeneratedEmail = GeneratedEmail(email: string, log: Diagnostic)

  /** The domain of every "valid" generated address. */
  const ExampleDomain: string := "example.com"

  /** The simulated database of registered addresses (identical in both scripts):
      `testuser@example.com` and `user1@example.com`. Each is spelled as user name,
      `@` and `ExampleDomain` so that proofs about `local@example.com` meet the same
      terms; `ExistingEmailsAsWritten` states that the set is the literal one. */
  const ExistingEmails: set<string> := {"testuser" + "@" + ExampleDomain, "user1" + "@" + ExampleDomain}

  /** The registered set is exactly the two literal addresses of the scripts. */
  lemma ExistingEmailsAsWritten()
    ensures ExistingEmails == {"testuser@example.com", "user1@example.com"}
  {
    assert "testuser" + "@" + ExampleDomain == "testuser@example.com";
    assert "user1" + "@" + ExampleDomain == "user1@example.com";
  }

  /** The `if / else if` after an address is built: a format failure is reported first,
      and only a well-formed address is looked up among the registered ones. */
  function Diagnose(formatOk: bool, email: string): (d: Diagnostic)
    ensures d == NotValid <==> !formatOk
    ensures d == AlreadyRegistered <==> formatOk && email in ExistingEmails
    ensures d == Quiet <==> formatOk && email !in ExistingEmails
  {
    if !formatOk then NotValid
    else if email in ExistingEmails then AlreadyRegistered
    else Quiet
  }

  /** `local@example.com` is well formed exactly when `local` is. */
  lemma ExampleComAddress(local: string)
    ensures IsValidEmail(local + "@" + ExampleDomain) <==> IsLocalPart(local)
    ensures IsValidEmailPy(local + "@" + ExampleDomain) <==> IsLocalPart(local)
  {
    var host := "example" + "." + "com";
    assert IsDomainLabel("example") && IsTldPart("com");
    HostOfParts("example", "com");
    assert ExampleDomain == host;
    ValidEmailOfParts(local, host);
    var e := local + "@" + ExampleDomain;
    assert e[|e| - 1] == 'm';
    PyAgreesWithoutNewline(e);
  }

  /** An `example.com` address is registered exactly for the two registered user names. */
  lemma RegisteredExampleCom(local: string)
    ensures local + "@" + ExampleDomain in ExistingEmails <==> local == "testuser" || local == "user1"
  {
    var e := local + "@" + ExampleDomain;
    var t, u := "testuser" + "@" + ExampleDomain, "user1" + "@" + ExampleDomain;
    if e == t {
      assert local == e[..|e| - 12] == t[..|t| - 12];
    }
    if e == u {
      assert local == e[..|e| - 12] == u[..|u| - 12];
    }
  }

  /** Every registered address ends in `e.com`; the fifth character from the end is `e`. */
  lemma RegisteredEndsInE(email: string)
    requires email in ExistingEmails
    ensures |email| >= 5 && email[|email| - 5] == 'e'
  {
  }

  /** Both registered addresses pass both format checks, so for either script the
      "already registered" line is the one a collision produces. */
  lemma ExistingEmailsAreWellFormed(email: string)
    requires email in ExistingEmails
    ensures IsValidEmail(email) && IsValidEmailPy(email)
  {
    if email == "testuser" + "@" + ExampleDomain {
      ExampleComAddress("testuser");
    } else {
      ExampleComAddress("user1");
    }
  }
}
