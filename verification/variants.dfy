/** How the two scripts' password rules relate: the Puppeteer generator's output
    judged by the Selenium script's `is_valid_password`. */
module Variants {
  import opened Chars
  import opened Permutations
  import Js = JsGenerators
  import Py = PyGenerators

  /** Each of `@$!%*?&` is ASCII punctuation. */
  lemma JsSymbolIsPunctuation(c: char)
    requires Js.IsJsSymbol(c)
    ensures IsPunctuation(c)
  {
  }

  /** Every strong JavaScript password passes the Python validator. */
  lemma JsStrongPasswordPassesPyCheck(picks: seq<nat>, perm: seq<nat>)
    requires Js.IsPasswordPicks(picks) && IsPermutation(perm, Js.PasswordLength)
    ensures Py.IsValidPassword(Js.GenerateRandomPassword(true, picks, perm))
  {
    var pw := Js.GenerateRandomPassword(true, picks, perm);
    var i :| 0 <= i < |pw| && Js.IsJsSymbol(pw[i]);
    JsSymbolIsPunctuation(pw[i]);
  }

  /** The weak JavaScript password fails the Python validator. */
  lemma JsWeakPasswordFailsPyCheck(picks: seq<nat>, perm: seq<nat>)
    ensures !Py.IsValidPassword(Js.GenerateRandomPassword(false, picks, perm))
  {
    Js.WeakPasswordIsWeak(picks, perm);
  }
}
