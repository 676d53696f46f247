# Signup-test core: identity generators, format checks and outcome classifiers

Two near-identical browser tests (a Puppeteer script, `index.js`, and a Selenium
script, `test_CrearUsuario_Selenium.py`) register accounts on a web shop's signup form.
Around the browser calls they share a small pure core, modelled here:

- the email-format check, the anchored pattern `^[a-zA-Z0-9_.+-]+@[a-zA-Z0-9-]+\.[a-zA-Z0-9-.]+$`,
  written as a hand-coded predicate (`EmailFormat.IsValidEmail`) and proved equal to the
  pattern's meaning (`EmailFormat.MatchesPattern`, "some split into local part, `@`,
  domain, `.`, tail"); Python's `re.match` variant (`$` also matches before one final
  newline) is `EmailFormat.IsValidEmailPy`;
- the synthetic-identity generators: "valid" and deliberately "malformed" emails, strong
  and weak passwords. Every random choice is an explicit parameter: faker's strings as
  strings, each `arrayElement` and each `random.choice` of a user-name or password
  character as the index it picks, the punctuation character of Python's malformed
  domain as the character itself, and faker's shuffle as a permutation of indices
  (`Permutations.Shuffle`);
- Python's password-strength check `is_valid_password`;
- the outcome classifiers, which turn what the page showed after submission (inline
  error texts, the toast text, whether "Sign Out" appeared) into verdicts:
  `Classifier.ClassifyJs` yields the sequence of verdicts the Puppeteer script logs,
  `Classifier.ClassifyPy` the single verdict the Selenium script stops at.

Modules: `Options`, `Chars` (ASCII classes and alphabets), `Text` (substring search,
lower-casing), `Permutations`, `EmailFormat`, `Diagnostics` (the registered-address set
and the generator's log line), `JsGenerators`, `PyGenerators`, `Classifier`, `Variants`
(the Puppeteer passwords judged by the Python validator).

Where the code and its documented intent differ, the model follows the code: a
"malformed" email is not always rejected (see Findings). The two scripts also differ
from each other, and each is modelled as written: the weak password is fourteen `a`s
in JavaScript but `length` random digits in Python; `is_valid_password` demands 12
characters, while the Python generator defaults to 14 and the JavaScript one always
builds 14.

## Model

| member | source | states |
|---|---|---|
| Permutations.PickRespectsMultiset | index.js:43 | rearranging the same indices in any order picks the same characters, counted with multiplicity |
| Permutations.Shuffle | index.js:43 | the shuffle keeps the length and the multiset of characters of the password |
| Permutations.ShuffleKeepsElements | index.js:43 | every character before the shuffle is still present after it |
| Text.Contains | index.js:115 | the substring search answers true exactly when the text occurs at some position |
| Text.ToLower | index.js:117 | lower-casing keeps the length and folds each character by `LowerChar`, which maps `A`-`Z` to `a`-`z` and keeps every other character |
| Text.ToLowerIdempotent | index.js:117 | lower-casing twice is lower-casing once, and the result holds no `A`-`Z` letter |
| Chars.PunctuationMembership | test_CrearUsuario_Selenium.py:55 | the punctuation alphabet has 32 characters, exactly the ASCII punctuation ranges |
| EmailFormat.IsValidEmail | index.js:7-10 | `isValidEmail`: an accepted address has at least five characters (the shape `a@b.c`), starts with a local-part character and ends with a tail character |
| EmailFormat.IsValidEmailPy | test_CrearUsuario_Selenium.py:44-47 | `is_valid_email`: accepts everything the JavaScript check accepts, and nothing shorter than five characters |
| EmailFormat.IsValidEmailMatchesPattern | index.js:7-10 | the hand-coded check accepts exactly the strings some split of which matches local `@` domain `.` tail |
| EmailFormat.ValidEmailHasOneAt | index.js:8 | an accepted address contains exactly one `@` |
| EmailFormat.HostCharacters | index.js:8 | every character after the `@` of an accepted address is a letter, digit, `-` or `.` |
| EmailFormat.ValidEmailOfParts | index.js:8 | `local@host` is accepted iff local is a non-empty run of `[A-Za-z0-9_.+-]` and host is accepted, whatever local contains |
| EmailFormat.HostOfParts | index.js:8 | a host `d.t` with no `.` in `d` is accepted iff `d` is a non-empty `[A-Za-z0-9-]` run and `t` a non-empty `[A-Za-z0-9-.]` run |
| EmailFormat.IsValidEmailPyMatchesPattern | test_CrearUsuario_Selenium.py:44-47 | the Python check accepts exactly what `re.match` with a final `$` matches, one trailing newline allowed |
| EmailFormat.TrailingNewline | test_CrearUsuario_Selenium.py:46-47 | JavaScript rejects `t` plus a newline, Python accepts it exactly when JavaScript accepts `t` |
| EmailFormat.PyAgreesWithoutNewline | test_CrearUsuario_Selenium.py:44-47 | on strings not ending in a newline the two checks agree |
| Diagnostics.Diagnose | index.js:17-21 | an invalid format is logged first; "already registered" is logged only for a well-formed registered address |
| Diagnostics.ExampleComAddress | index.js:14 | `u@example.com` is accepted by both checks iff `u` is a well-formed local part |
| Diagnostics.ExistingEmailsAreWellFormed | index.js:5 | both registered addresses pass both format checks |
| Diagnostics.ExistingEmailsAsWritten | index.js:5 | the registered set is exactly `testuser@example.com` and `user1@example.com` |
| JsGenerators.GenerateRandomEmail | index.js:12-23 | the address is returned as built in both branches; the log line is "invalid" iff the check rejects it |
| JsGenerators.ValidEmailAccepted | index.js:13-15 | a "valid" address is accepted iff faker's user name is a well-formed local part |
| JsGenerators.MalformedHost | index.js:14 | the malformed host is accepted iff both symbols are `-` or `.` |
| JsGenerators.MalformedEmailRejectedIff | index.js:14-17 | a "malformed" address is rejected iff the user name is ill-formed or a symbol is other than `-` and `.` |
| JsGenerators.MalformedEmailCanPass | index.js:14 | `ana@invax1Zli--.com`, a possible "malformed" address, is accepted |
| JsGenerators.GenerateMalformedEmail | index.js:14 | with symbols drawn from punctuation other than `-` and `.`, every malformed address is rejected and logged invalid |
| JsGenerators.EmailCollision | index.js:19 | a generated address is registered iff it is "valid" with user name `testuser` or `user1` |
| JsGenerators.OrderedPassword | index.js:33-41 | before the shuffle: 14 characters from the combined alphabet, lower, upper, digit, symbol in the first four places |
| JsGenerators.GenerateRandomPassword | index.js:25-47 | a strong password has length 14, characters from the combined alphabet, one of each class, and the unshuffled multiset; a weak one is 14 `a`s |
| JsGenerators.WeakPasswordIsWeak | index.js:46 | the weak password is lower-case only, with no upper-case letter, digit or symbol |
| PyGenerators.GenerateRandomString | test_CrearUsuario_Selenium.py:22-25 | one character per pick, each an ASCII letter or digit |
| PyGenerators.GenerateRandomEmail | test_CrearUsuario_Selenium.py:27-42 | the address is returned as built; a "valid" one is always accepted and never logged invalid |
| PyGenerators.MalformedHost | test_CrearUsuario_Selenium.py:33 | `invalid{p}domain.com` is a legal host iff `p` is `-` or `.` |
| PyGenerators.MalformedEmailRejectedIff | test_CrearUsuario_Selenium.py:33-38 | a "malformed" address is rejected iff the punctuation character is neither `-` nor `.` |
| PyGenerators.MalformedEmailCanPass | test_CrearUsuario_Selenium.py:33 | `aaaaaaaa@invalid-domain.com`, a possible "malformed" address, is accepted |
| PyGenerators.GenerateMalformedEmail | test_CrearUsuario_Selenium.py:33 | with `p` drawn from punctuation other than `-` and `.`, every malformed address is rejected and logged invalid |
| PyGenerators.EmailCollision | test_CrearUsuario_Selenium.py:29-41 | a generated address is registered iff it is "valid" with user name `testuser` (`user1` is too short) |
| PyGenerators.PasswordCandidate | test_CrearUsuario_Selenium.py:52-57 | one attempt has the requested length and characters from letters, digits and punctuation |
| PyGenerators.GenerateStrongPassword | test_CrearUsuario_Selenium.py:51-66 | the first attempt passing the guard is returned, with the requested length and all four classes; none is returned iff no attempt passes |
| PyGenerators.MeetsStrengthGuard | test_CrearUsuario_Selenium.py:60-63 | the retry guard: a passing string has at least four characters, one per disjoint class |
| PyGenerators.IsValidPassword | test_CrearUsuario_Selenium.py:71-77 | `is_valid_password` is the retry guard plus the 12-character minimum |
| PyGenerators.ShortStrongPasswordNeverReturns | test_CrearUsuario_Selenium.py:59-64 | below length 4 no attempt ever passes, so the retry never returns |
| PyGenerators.GenerateWeakPassword | test_CrearUsuario_Selenium.py:67-69 | the weak password is `length` digits |
| PyGenerators.WeakPasswordRejected | test_CrearUsuario_Selenium.py:69-77 | the weak password has no letter or punctuation and fails `is_valid_password` |
| PyGenerators.StrongPasswordValidIff | test_CrearUsuario_Selenium.py:49-77 | a returned strong password passes `is_valid_password` iff the requested length is at least 12 |
| PyGenerators.DefaultStrongPasswordValid | test_CrearUsuario_Selenium.py:49 | at the default length 14 every returned strong password passes `is_valid_password` |
| Classifier.ClassifyNotification | index.js:111-129 | no toast is "not found"; the duplicate text wins; otherwise "successfully" in any case is success, signed in as observed; anything else is unexpected |
| Classifier.InlineVerdicts | index.js:103-108 | an inline error yields one verdict exactly when its text is present and non-empty |
| Classifier.ClassifyJs | index.js:99-131 | one verdict per non-empty inline error text, the email error before the password error, then always the notification verdict; a run that failed inside the outer `try` is a driver error |
| Classifier.ClassifyPy | test_CrearUsuario_Selenium.py:107-141 | an email error returns first, then a password error; only when neither is shown is the result the shared notification verdict; a run that failed inside the outer `try` is a driver error |
| Classifier.PyVerdictIsFirstJsVerdict | test_CrearUsuario_Selenium.py:111-116 | on identical page observations, the Python decision logic yields the first verdict of the JavaScript logic |
| Classifier.ClassifiersAgreeIff | test_CrearUsuario_Selenium.py:111-116 | on identical page observations, the two decision procedures give the same single verdict iff no inline error text is observed |
| Classifier.ClassifiersDisagree | index.js:103-108 | on identical observations with both inline errors, the JavaScript logic gives three verdicts and the Python logic one |
| Classifier.EmptyErrorIgnored | index.js:103-108 | an empty email or password error text is treated as no error by both scripts |
| Classifier.SignOutMattersOnlyOnSuccess | index.js:117-123 | the sign-out observation changes the verdicts only when the toast reports success |
| Classifier.LowerTextIsNeverDuplicate | index.js:115 | a lower-cased text never contains the duplicate message |
| Classifier.SuccessIgnoresCase | index.js:117 | a non-duplicate toast is a success exactly when its lower-case form is |
| Classifier.DuplicateTakesPrecedence | index.js:115-117 | a toast naming a duplicate is a duplicate even when it also says "successfully" |
| Variants.JsSymbolIsPunctuation | index.js:30 | the seven JavaScript password symbols are ASCII punctuation |
| Variants.JsStrongPasswordPassesPyCheck | test_CrearUsuario_Selenium.py:71-77 | every strong JavaScript password passes the Python strength check |
| Variants.JsWeakPasswordFailsPyCheck | test_CrearUsuario_Selenium.py:71-77 | the weak JavaScript password fails the Python strength check |

## Left out

- Browser driving (`setupBrowser`, `setup_browser`, navigation, waits, clicks, typing, `close`, `quit`): I/O against a live site. Its observations are the `Run` the classifiers take.
- `checkInputError`, `check_input_error`, `checkSignOutPresent`, `check_sign_out_present`: DOM queries. Only their results are modelled, as the optional texts and the boolean of `PageFacts`.
- Classifier.ClassifyPy: Python's inner handlers catch only `TimeoutException` and `NoSuchElementException`, so other driver exceptions after submission reach the outer handler. The model treats every observation after submission as available, and an earlier failure inside the outer `try` as `Aborted`.
- Classifier.ClassifyJs and Classifier.ClassifyPy: a failure to launch the browser (`setupBrowser`, `setup_browser`) happens before the outer `try` and escapes uncaught; it is not a `Run` and is never a `DriverError` verdict.
- Classifier.PyVerdictIsFirstJsVerdict, Classifier.ClassifiersAgreeIff and Classifier.ClassifiersDisagree compare the two decision procedures on the same `PageFacts`. The scripts do not observe the same page in the same way: JavaScript looks for an error span that follows the input (`~ span.label-error`) and reads `textContent`; Python looks for a preceding span whose class is exactly `label-input label-error` and reads the rendered text; Python waits up to 10 seconds for the user menu while JavaScript clicks it at once. Whether both scripts see the same facts on a real page is not modelled.
- Faker and `random` internals: their outputs are parameters. `faker.internet.userName` is any string. `faker.string.alphanumeric` yields ASCII letters and digits. `faker.string.symbol` is taken to yield ASCII punctuation; faker's own alphabet is not part of this model.
- `faker.person.fullName` and the fixed full name: unconstrained and never checked.
- PyGenerators.GenerateStrongPassword: the unbounded retry runs over a finite list of attempts. `None` means the supplied attempts ran out; Python would keep recursing until its recursion limit.
- PyGenerators.IsValidPassword and PyGenerators.MeetsStrengthGuard use ASCII classes. Python's `islower`, `isupper` and `isdigit` also accept non-ASCII letters and digits. All generated candidates are ASCII, so this only matters for arbitrary input.
- Text.ToLower folds only `A`-`Z`. JavaScript's `toLowerCase` and Python's `lower` also fold non-ASCII letters, but none of those becomes one of the ASCII letters of "successfully".
- Console output: the model returns verdicts and log values, not text.
- `runTests` and `run_tests` (the scenario sequence, the literal addresses it submits, driver paths, timeouts): orchestration with no logic of its own.

## Findings

| source | as written | input that shows it | evidently intended | confidence | as-written member | corrected member |
|---|---|---|---|---|---|---|
| index.js:14 | the malformed domain embeds two `faker.string.symbol` characters, and `-` and `.` are among them | user name `ana`, alphanumerics `x1Z`, symbols `--` give `ana@invax1Zli--.com`, which `isValidEmail` accepts | a domain the format check always rejects, as the "invalid email" scenario expects | not executed | JsGenerators.MalformedEmailCanPass | JsGenerators.GenerateMalformedEmail |
| test_CrearUsuario_Selenium.py:33 | the malformed domain embeds one `string.punctuation` character, and `-` and `.` are among them | `p = '-'` gives `aaaaaaaa@invalid-domain.com`, which `is_valid_email` accepts | a domain the format check always rejects | not executed | PyGenerators.MalformedEmailCanPass | PyGenerators.GenerateMalformedEmail |
