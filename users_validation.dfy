/** The request rule chains of src/middlewares/users.validation.js. Each chain checks its
    fields in order, collects one error per failed rule (a chain does not stop at the
    first failure), and the final handler either answers 400 with the whole list or lets
    the request through. express-validator's `isEmail` is a parameter. A missing body
    field reaches the rules as the empty string. */
module UsersValidation {

  /** One entry of `validationResult(req).array()`. */
  datatype FieldError = FieldError(path: string, msg: string)

  /** The last handler of a chain: `res.status(400).json({ errors })` or `next()`. */
  datatype Verdict = BadRequest(status: int, errors: seq<FieldError>) | Next

  /** express-validator's message for a rule without `withMessage`. */
  const DefaultMessage: string := "Invalid value"

  /** `/[A-Z]/` */
  predicate IsUpper(c: char) { 'A' <= c <= 'Z' }

  /** `/\d/` (ASCII digits only without the unicode flag) */
  predicate IsDigit(c: char) { '0' <= c <= '9' }

  /** `/[!@#$%^&*]/` */
  predicate IsSpecial(c: char) {
    c == '!' || c == '@' || c == '#' || c == '$' || c == '%' || c == '^' || c == '&' || c == '*'
  }

  predicate HasUpper(s: string) { exists i :: 0 <= i < |s| && IsUpper(s[i]) }
  predicate HasDigit(s: string) { exists i :: 0 <= i < |s| && IsDigit(s[i]) }
  predicate HasSpecial(s: string) { exists i :: 0 <= i < |s| && IsSpecial(s[i]) }

  /** The variation selectors U+FE0E and U+FE0F, which validator's `isLength` does not count. */
  predicate IsSelector(c: char) { c == '\U{FE0E}' || c == '\U{FE0F}' }

  /** The length `isLength` compares with its bounds: code points, a surrogate pair
      counting once, less the variation selectors. */
  function VisibleLength(s: string): (n: nat)
    ensures n <= |s|
  {
    if s == [] then 0 else (if IsSelector(s[0]) then 0 else 1) + VisibleLength(s[1..])
  }

  /** Without variation selectors `isLength` counts every character. */
  lemma {:induction false} VisibleLengthPlain(s: string)
    requires forall c :: c in s ==> !IsSelector(c)
    ensures VisibleLength(s) == |s|
  {
    if s != [] {
      assert forall c :: c in s[1..] ==> c in s;
      VisibleLengthPlain(s[1..]);
    }
  }

  /** Variation selectors add nothing: a short password padded with them stays short. */
  lemma {:induction false} VisibleLengthSelectors(s: string)
    requires forall c :: c in s ==> IsSelector(c)
    ensures VisibleLength(s) == 0
  {
    if s != [] {
      assert forall c :: c in s[1..] ==> c in s;
      VisibleLengthSelectors(s[1..]);
    }
  }

  /** The length of a concatenation is the sum of the lengths. */
  lemma {:induction false} VisibleLengthAppend(s: string, t: string)
    ensures VisibleLength(s + t) == VisibleLength(s) + VisibleLength(t)
  {
    if s != [] {
      assert (s + t)[0] == s[0] && (s + t)[1..] == s[1..] + t;
      VisibleLengthAppend(s[1..], t);
    } else {
      assert s + t == t;
    }
  }

  /** The four strength rules: `isLength({ min: 8 })` and the three `matches`. */
  predicate IsStrong(p: string) {
    VisibleLength(p) >= 8 && HasUpper(p) && HasDigit(p) && HasSpecial(p)
  }

  /** One rule of a chain: no error when it holds, its message when it does not. */
  function Rule(holds: bool, path: string, msg: string): (r: seq<FieldError>)
    ensures |r| == Fails(holds)
    ensures forall e :: e in r <==> !holds && e == FieldError(path, msg)
  {
    if holds then [] else [FieldError(path, msg)]
  }

  /** 1 for a rule that fails, 0 for one that holds. */
  function Fails(holds: bool): nat { if holds then 0 else 1 }

  /** The messages a strength chain attaches to its four rules, in rule order. */
  datatype StrengthMessages = StrengthMessages(tooShort: string, noUpper: string, noDigit: string, noSpecial: string)

  const SignUpMessages: StrengthMessages := StrengthMessages(
    "Password must be at least 8 characters long",
    "Password must contain at least one uppercase letter",
    "Password must contain at least one number",
    "Password must contain at least one special character")

  const NewPasswordMessages: StrengthMessages := StrengthMessages(
    "New password must be at least 8 characters long",
    "New password must contain at least one uppercase letter",
    "New password must contain at least one number",
    "New password must contain at least one special character")

  /** The four messages of a strength chain, in rule order. */
  function All(msgs: StrengthMessages): seq<string> {
    [msgs.tooShort, msgs.noUpper, msgs.noDigit, msgs.noSpecial]
  }

  /** The four messages of a chain are pairwise different, so an error names its rule. */
  predicate Distinct(msgs: StrengthMessages) {
    && msgs.tooShort != msgs.noUpper && msgs.tooShort != msgs.noDigit && msgs.tooShort != msgs.noSpecial
    && msgs.noUpper != msgs.noDigit && msgs.noUpper != msgs.noSpecial
    && msgs.noDigit != msgs.noSpecial
  }

  /** The position in the chain of the rule whose message is `m`. */
  function Rank(msgs: StrengthMessages, m: string): nat {
    if m == msgs.tooShort then 0
    else if m == msgs.noUpper then 1
    else if m == msgs.noDigit then 2
    else 3
  }

  /** The errors in `r` come in rule order. */
  predicate Ranked(msgs: StrengthMessages, r: seq<FieldError>) {
    forall a, b :: 0 <= a < b < |r| ==> Rank(msgs, r[a].msg) < Rank(msgs, r[b].msg)
  }

  /** Adding the error of a rule that comes after every error of a ranked list keeps
      it ranked. */
  lemma RankedAppendRule(msgs: StrengthMessages, r: seq<FieldError>, holds: bool, path: string, msg: string)
    requires Ranked(msgs, r)
    requires forall e :: e in r ==> Rank(msgs, e.msg) < Rank(msgs, msg)
    ensures Ranked(msgs, r + Rule(holds, path, msg))
  {
    if !holds {
      var s := r + [FieldError(path, msg)];
      assert forall a :: 0 <= a < |r| ==> s[a] == r[a] && s[a] in r;
    }
  }

  /** With distinct messages the four rules' errors come in rule order. */
  lemma ChainRanked(path: string, msgs: StrengthMessages, short: bool, upper: bool, digit: bool, special: bool)
    ensures Distinct(msgs) ==> Ranked(msgs, Rule(short, path, msgs.tooShort) + Rule(upper, path, msgs.noUpper)
                                          + Rule(digit, path, msgs.noDigit) + Rule(special, path, msgs.noSpecial))
  {
    if Distinct(msgs) {
      var r1 := Rule(short, path, msgs.tooShort);
      RankedAppendRule(msgs, r1, upper, path, msgs.noUpper);
      var r2 := r1 + Rule(upper, path, msgs.noUpper);
      RankedAppendRule(msgs, r2, digit, path, msgs.noDigit);
      var r3 := r2 + Rule(digit, path, msgs.noDigit);
      RankedAppendRule(msgs, r3, special, path, msgs.noSpecial);
    }
  }

  /** Which errors the four rules of a chain produce. */
  lemma ChainMembers(path: string, msgs: StrengthMessages, short: bool, upper: bool, digit: bool, special: bool)
    ensures var r := Rule(short, path, msgs.tooShort) + Rule(upper, path, msgs.noUpper)
                     + Rule(digit, path, msgs.noDigit) + Rule(special, path, msgs.noSpecial);
      && (forall e :: e in r ==> e.path == path && e.msg in All(msgs))
      && (!upper ==> FieldError(path, msgs.noUpper) in r)
      && (!digit ==> FieldError(path, msgs.noDigit) in r)
      && (!special ==> FieldError(path, msgs.noSpecial) in r)
      && (Distinct(msgs) ==>
        && (FieldError(path, msgs.tooShort) in r <==> !short)
        && (FieldError(path, msgs.noUpper) in r <==> !upper)
        && (FieldError(path, msgs.noDigit) in r <==> !digit)
        && (FieldError(path, msgs.noSpecial) in r <==> !special))
  {
  }

  /** The errors of the four rules of a strength chain on field `path` that hold as
      `short`, `upper`, `digit` and `special` say. */
  function Chain(path: string, msgs: StrengthMessages, short: bool, upper: bool, digit: bool, special: bool): (r: seq<FieldError>)
    ensures |r| == Fails(short) + Fails(upper) + Fails(digit) + Fails(special)
    ensures forall e :: e in r ==> e.path == path && e.msg in All(msgs)
    ensures !short ==> r[0] == FieldError(path, msgs.tooShort)
    ensures !upper ==> FieldError(path, msgs.noUpper) in r
    ensures !digit ==> FieldError(path, msgs.noDigit) in r
    ensures !special ==> FieldError(path, msgs.noSpecial) in r
    ensures Distinct(msgs) ==>
      && (FieldError(path, msgs.tooShort) in r <==> !short)
      && (FieldError(path, msgs.noUpper) in r <==> !upper)
      && (FieldError(path, msgs.noDigit) in r <==> !digit)
      && (FieldError(path, msgs.noSpecial) in r <==> !special)
    ensures Distinct(msgs) ==> Ranked(msgs, r)
  {
    ChainMembers(path, msgs, short, upper, digit, special);
    ChainRanked(path, msgs, short, upper, digit, special);
    Rule(short, path, msgs.tooShort)
    + Rule(upper, path, msgs.noUpper)
    + Rule(digit, path, msgs.noDigit)
    + Rule(special, path, msgs.noSpecial)
  }

  /** The errors of the strength chain on field `path`: one per failed rule and none for
      a rule that holds, in rule order. */
  function StrengthErrors(path: string, msgs: StrengthMessages, p: string): (r: seq<FieldError>)
    ensures |r| == Fails(VisibleLength(p) >= 8) + Fails(HasUpper(p)) + Fails(HasDigit(p)) + Fails(HasSpecial(p))
    ensures r == [] <==> IsStrong(p)
    ensures forall e :: e in r ==> e.path == path
    ensures forall e :: e in r ==> e.msg in All(msgs)
    ensures VisibleLength(p) < 8 ==> r[0] == FieldError(path, msgs.tooShort)
    ensures !HasUpper(p) ==> FieldError(path, msgs.noUpper) in r
    ensures !HasDigit(p) ==> FieldError(path, msgs.noDigit) in r
    ensures !HasSpecial(p) ==> FieldError(path, msgs.noSpecial) in r
    ensures Distinct(msgs) ==>
      && (FieldError(path, msgs.tooShort) in r <==> VisibleLength(p) < 8)
      && (FieldError(path, msgs.noUpper) in r <==> !HasUpper(p))
      && (FieldError(path, msgs.noDigit) in r <==> !HasDigit(p))
      && (FieldError(path, msgs.noSpecial) in r <==> !HasSpecial(p))
    ensures Distinct(msgs) ==> Ranked(msgs, r)
  {
    Chain(path, msgs, VisibleLength(p) >= 8, HasUpper(p), HasDigit(p), HasSpecial(p))
  }

  /** Both chains give each strength rule its own message. */
  lemma MessagesDistinct()
    ensures Distinct(SignUpMessages) && Distinct(NewPasswordMessages)
  {
    var s, n := All(SignUpMessages), All(NewPasswordMessages);
    assert s[0][35] != s[1][35] && s[0][35] != s[2][35] && s[0][35] != s[3][35];
    assert s[1][35] != s[2][35] && s[1][35] != s[3][35] && s[2][35] != s[3][35];
    assert n[0][44] != n[1][44] && n[0][44] != n[2][44] && n[0][44] != n[3][44];
    assert n[1][44] != n[2][44] && n[1][44] != n[3][44] && n[2][44] != n[3][44];
  }

  /** The final handler of every chain. */
  function Decide(errors: seq<FieldError>): (v: Verdict)
    ensures v == Next <==> errors == []
    ensures v.BadRequest? ==> v.status == 400 && v.errors == errors && |v.errors| > 0
  {
    if errors == [] then Next else BadRequest(400, errors)
  }

  /** `signUpValidation`: a valid email, then the four strength rules on `password`. */
  function SignUpValidation(email: string, password: string, isEmail: string -> bool): (v: Verdict)
    ensures v == Next <==> isEmail(email) && IsStrong(password)
    ensures v.BadRequest? ==> v.status == 400 && |v.errors| > 0
    ensures !isEmail(email) ==> v.BadRequest? && v.errors[0] == FieldError("email", "Please enter a valid email address")
    ensures isEmail(email) && !IsStrong(password) ==>
      v.BadRequest? && v.errors[0].path == "password" && v.errors[0].msg in All(SignUpMessages)
    ensures v.BadRequest? ==>
      v.errors == Rule(isEmail(email), "email", "Please enter a valid email address")
                  + StrengthErrors("password", SignUpMessages, password)
  {
    Decide(Rule(isEmail(email), "email", "Please enter a valid email address")
           + StrengthErrors("password", SignUpMessages, password))
  }

  /** `loginValidation`: a valid email and a non-empty password; no strength rules. */
  function LoginValidation(email: string, password: string, isEmail: string -> bool): (v: Verdict)
    ensures v == Next <==> isEmail(email) && password != ""
    ensures v.BadRequest? ==> v.status == 400 && forall e :: e in v.errors ==> e.msg == DefaultMessage
    ensures v.BadRequest? ==>
      v.errors == Rule(isEmail(email), "email", DefaultMessage) + Rule(password != "", "password", DefaultMessage)
  {
    Decide(Rule(isEmail(email), "email", DefaultMessage) + Rule(password != "", "password", DefaultMessage))
  }

  /** `passwordValidation`: a non-empty `oldPassword`, then the four strength rules on
      `newPassword`. */
  function PasswordValidation(oldPassword: string, newPassword: string): (v: Verdict)
    ensures v == Next <==> oldPassword != "" && IsStrong(newPassword)
    ensures v.BadRequest? ==> v.status == 400 && |v.errors| > 0
    ensures oldPassword == "" ==> v.BadRequest? && v.errors[0] == FieldError("oldPassword", "Old password required")
    ensures oldPassword != "" && !IsStrong(newPassword) ==>
      v.BadRequest? && v.errors[0].path == "newPassword" && v.errors[0].msg in All(NewPasswordMessages)
    ensures v.BadRequest? ==>
      v.errors == Rule(oldPassword != "", "oldPassword", "Old password required")
                  + StrengthErrors("newPassword", NewPasswordMessages, newPassword)
  {
    Decide(Rule(oldPassword != "", "oldPassword", "Old password required")
           + StrengthErrors("newPassword", NewPasswordMessages, newPassword))
  }

  /** The weak password of the sign-up test breaks all four strength rules, and the first
      error reported is the length rule's. */
  lemma WeakTestPassword(isEmail: string -> bool)
    requires isEmail("newUser@email.com")
    ensures var v := SignUpValidation("newUser@email.com", "pass", isEmail);
      v.BadRequest? && |v.errors| == 4 && v.errors[0].msg == "Password must be at least 8 characters long"
  {
    var p := "pass";
    VisibleLengthPlain(p);
    assert !IsUpper(p[0]) && !IsUpper(p[1]) && !IsUpper(p[2]) && !IsUpper(p[3]);
    assert !IsDigit(p[0]) && !IsDigit(p[1]) && !IsDigit(p[2]) && !IsDigit(p[3]);
    assert !IsSpecial(p[0]) && !IsSpecial(p[1]) && !IsSpecial(p[2]) && !IsSpecial(p[3]);
    assert !HasUpper(p) && !HasDigit(p) && !HasSpecial(p);
  }

  /** The password of the sign-up tests is thirteen characters long for `isLength`. */
  lemma TestPasswordLength()
    ensures VisibleLength("PassWord1234!") == 13
  {
    VisibleLengthPlain("PassWord1234!");
  }

  /** The password of the sign-up tests passes the strength rules. */
  lemma StrongTestPassword()
    ensures IsStrong("PassWord1234!")
  {
    var p := "PassWord1234!";
    TestPasswordLength();
    assert IsUpper(p[0]) && IsDigit(p[8]) && IsSpecial(p[12]);
  }

  /** Four characters padded with four U+FE0F are eight characters, but `isLength` sees
      four: the length rule fails although the other three hold. */
  lemma SelectorPaddedPassword()
    ensures var p := "Ab1!" + "\U{FE0F}\U{FE0F}\U{FE0F}\U{FE0F}";
      |p| == 8 && VisibleLength(p) == 4 && !IsStrong(p)
      && StrengthErrors("password", SignUpMessages, p) == [FieldError("password", SignUpMessages.tooShort)]
  {
    var p := "Ab1!" + "\U{FE0F}\U{FE0F}\U{FE0F}\U{FE0F}";
    VisibleLengthPlain("Ab1!");
    VisibleLengthSelectors("\U{FE0F}\U{FE0F}\U{FE0F}\U{FE0F}");
    VisibleLengthAppend("Ab1!", "\U{FE0F}\U{FE0F}\U{FE0F}\U{FE0F}");
    assert IsUpper(p[0]) && IsDigit(p[2]) && IsSpecial(p[3]);
  }

  /** Login imposes no strength rule: any non-empty password with a valid email passes. */
  lemma LoginIgnoresStrength(email: string, password: string, isEmail: string -> bool)
    requires isEmail(email) && password != "" && !IsStrong(password)
    ensures LoginValidation(email, password, isEmail) == Next
    ensures SignUpValidation(email, password, isEmail).BadRequest?
  {
  }
}
