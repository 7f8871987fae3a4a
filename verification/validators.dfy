/** The registration field validators: each takes the raw field and returns the ordered list
    of violations it finds, the empty list meaning the field is valid. A field that is absent
    from the request body, or `null`, is `None`. */
module Validators {
  import opened Options
  import opened Seqs
  import opened JsText

  /** The violations the validators report. */
  datatype Violation =
    | PasswordRequired | PasswordTooShort | PasswordNoUpper | PasswordNoLower | PasswordNoDigit | PasswordNoSpecial
    | NameRequired | NameHasDigit | NameHasSpecial | NameTooShort
    | EmailRequired | EmailMalformed
  {
    /** The request field the violation is about. */
    function Field(): string {
      if PasswordRequired? || PasswordTooShort? || PasswordNoUpper? || PasswordNoLower? || PasswordNoDigit? || PasswordNoSpecial? then "password"
      else if NameRequired? || NameHasDigit? || NameHasSpecial? || NameTooShort? then "name"
      else "email"
    }

    /** The message reported to the client. */
    function Message(): string {
      match this
      case PasswordRequired => "Senha é obrigatória"
      case PasswordTooShort => "A senha deve ter no mínimo 8 caracteres"
      case PasswordNoUpper => "A senha deve conter pelo menos uma letra maiúscula"
      case PasswordNoLower => "A senha deve conter pelo menos uma letra minúscula"
      case PasswordNoDigit => "A senha deve conter pelo menos um número"
      case PasswordNoSpecial => "A senha deve conter pelo menos um caractere especial"
      case NameRequired => "Nome é obrigatório"
      case NameHasDigit => "Nome não pode conter números"
      case NameHasSpecial => "Nome não pode conter caracteres especiais ou emojis"
      case NameTooShort => "Nome deve ter ao menos 2 caracteres"
      case EmailRequired => "Email é obrigatório"
      case EmailMalformed => "Formato de email inválido"
    }

    /** The `{field, message}` object sent in the response. */
    function ToFieldError(): FieldError {
      FieldError(Field(), Message())
    }
  }

  /** One violation as the response carries it. */
  datatype FieldError = FieldError(field: string, message: string)

  /** A check that may be violated, with the violation it reports. */
  datatype Rule = Rule(violated: bool, error: Violation)

  /** The errors of the rules, in rule order. */
  function ErrorsOf(rules: seq<Rule>): (r: seq<Violation>)
    ensures |r| == |rules|
    ensures forall i :: 0 <= i < |rules| ==> r[i] == rules[i].error
  {
    if rules == [] then [] else [rules[0].error] + ErrorsOf(rules[1..])
  }

  /** The errors of the violated rules, in rule order: the sequence of independent
      `if (...) errors.push(...)` statements. */
  function Violations(rules: seq<Rule>): (r: seq<Violation>)
    ensures IsSubsequence(r, ErrorsOf(rules))
    ensures |r| <= |rules|
  {
    if rules == [] then []
    else
      var rest := Violations(rules[1..]);
      assert ErrorsOf(rules) == [rules[0].error] + ErrorsOf(rules[1..]);
      if rules[0].violated then [rules[0].error] + rest else rest
  }

  /** When no two rules report the same error, a rule's error is reported exactly when the
      rule is violated. */
  lemma {:induction false} ViolationReported(rules: seq<Rule>, i: nat)
    requires i < |rules| && Distinct(ErrorsOf(rules))
    ensures rules[i].error in Violations(rules) <==> rules[i].violated
  {
    var errs := ErrorsOf(rules);
    assert errs == [rules[0].error] + ErrorsOf(rules[1..]);
    if i == 0 {
      if !rules[0].violated {
        NotReported(rules[1..], rules[0].error);
      }
    } else {
      assert ErrorsOf(rules[1..])[i - 1] == errs[i];
      assert Distinct(ErrorsOf(rules[1..])) by {
        forall a, b | 0 <= a < b < |rules| - 1 ensures ErrorsOf(rules[1..])[a] != ErrorsOf(rules[1..])[b] {
          assert ErrorsOf(rules[1..])[a] == errs[a + 1];
        }
      }
      ViolationReported(rules[1..], i - 1);
      assert errs[0] != errs[i];
    }
  }

  /** Only errors of the rules are ever reported. */
  lemma {:induction false} NotReported(rules: seq<Rule>, e: Violation)
    requires e !in ErrorsOf(rules)
    ensures e !in Violations(rules)
  {
    if rules != [] {
      assert ErrorsOf(rules) == [rules[0].error] + ErrorsOf(rules[1..]);
      NotReported(rules[1..], e);
    }
  }

  /** The one-character classes the validators' patterns test for. */
  datatype CharClass =
    | Upper      // [A-Z]
    | Lower      // [a-z]
    | Digit      // [0-9], also written \d
    | NotAlnum   // [^A-Za-z0-9]
    | NotNameChar  // [^A-Za-zÀ-ÖØ-öø-ÿ\s'-]

  /** The character belongs to the class. */
  predicate InClass(c: char, cls: CharClass) {
    match cls
    case Upper => IsAsciiUpper(c)
    case Lower => IsAsciiLower(c)
    case Digit => IsAsciiDigit(c)
    case NotAlnum => !(IsAsciiUpper(c) || IsAsciiLower(c) || IsAsciiDigit(c))
    case NotNameChar => !IsNameChar(c)
  }

  /** Some character of `s` is in the class: the pattern's `test` on `s`. */
  function Contains(s: string, cls: CharClass): bool {
    s != [] && (InClass(s[0], cls) || Contains(s[1..], cls))
  }

  /** `Contains` finds a character of the class exactly when there is one. */
  lemma {:induction false} ContainsIff(s: string, cls: CharClass)
    ensures Contains(s, cls) <==> exists i :: 0 <= i < |s| && InClass(s[i], cls)
  {
    if s != [] {
      ContainsIff(s[1..], cls);
      assert forall i :: 1 <= i < |s| ==> s[i] == s[1..][i - 1];
      if !InClass(s[0], cls) && (exists i :: 0 <= i < |s| && InClass(s[i], cls)) {
        var i :| 0 <= i < |s| && InClass(s[i], cls);
        assert s[1..][i - 1] == s[i];
      }
    }
  }

  const PasswordChecks := [PasswordTooShort, PasswordNoUpper, PasswordNoLower, PasswordNoDigit, PasswordNoSpecial]

  /** No rule list reports the same violation twice. */
  lemma ChecksDistinct()
    ensures Distinct(PasswordChecks) && Distinct(NameChecks)
  {
    forall i, j | 0 <= i < j < |PasswordChecks| ensures PasswordChecks[i] != PasswordChecks[j] {
      assert PasswordChecks[i].Field() == "password";
    }
  }

  /** The five password rules in the order they are checked. */
  function PasswordRules(p: string): (rules: seq<Rule>)
    ensures ErrorsOf(rules) == PasswordChecks
  {
    var rules := [ Rule(|p| < 8, PasswordTooShort),
      Rule(!Contains(p, Upper), PasswordNoUpper),
      Rule(!Contains(p, Lower), PasswordNoLower),
      Rule(!Contains(p, Digit), PasswordNoDigit),
      Rule(!Contains(p, NotAlnum), PasswordNoSpecial) ];
    assert ErrorsOf(rules) == PasswordChecks;
    rules
  }

  /** A password the policy accepts: at least 8 characters, with an ASCII capital, an ASCII
      small letter, an ASCII digit and a character that is none of those. */
  ghost predicate StrongPassword(p: string) {
    && |p| >= 8
    && (exists i :: 0 <= i < |p| && 'A' <= p[i] <= 'Z')
    && (exists i :: 0 <= i < |p| && 'a' <= p[i] <= 'z')
    && (exists i :: 0 <= i < |p| && '0' <= p[i] <= '9')
    && (exists i :: 0 <= i < |p| && !('A' <= p[i] <= 'Z' || 'a' <= p[i] <= 'z' || '0' <= p[i] <= '9'))
  }

  /** `validatePassword`. A missing or empty password gets the single "required" error and no
      other check runs; otherwise the violated rules are reported in the fixed order length,
      capital, small letter, digit, special character (`PasswordRulesReported` says which). */
  function ValidatePassword(password: Option<string>): (r: seq<Violation>)
    ensures password.None? || password == Some("") ==> r == [PasswordRequired]
    ensures password.Some? && password.value != "" ==> IsSubsequence(r, PasswordChecks)
    ensures |r| <= 5
  {
    if password.None? || |password.value| == 0 then [PasswordRequired]
    else Violations(PasswordRules(password.value))
  }

  /** Each password rule is reported exactly when it fails. */
  lemma {:induction false} PasswordRulesReported(p: string)
    requires p != ""
    ensures var r := ValidatePassword(Some(p));
      && (PasswordTooShort in r <==> |p| < 8)
      && (PasswordNoUpper in r <==> !Contains(p, Upper))
      && (PasswordNoLower in r <==> !Contains(p, Lower))
      && (PasswordNoDigit in r <==> !Contains(p, Digit))
      && (PasswordNoSpecial in r <==> !Contains(p, NotAlnum))
  {
    FiveRulesReported(Rule(|p| < 8, PasswordTooShort), Rule(!Contains(p, Upper), PasswordNoUpper),
      Rule(!Contains(p, Lower), PasswordNoLower), Rule(!Contains(p, Digit), PasswordNoDigit),
      Rule(!Contains(p, NotAlnum), PasswordNoSpecial));
  }

  /** In a list of five rules with distinct errors, each error is reported exactly when its
      rule is violated. */
  lemma {:induction false} FiveRulesReported(a: Rule, b: Rule, c: Rule, d: Rule, e: Rule)
    requires a.error != b.error && a.error != c.error && a.error != d.error && a.error != e.error
    requires b.error != c.error && b.error != d.error && b.error != e.error
    requires c.error != d.error && c.error != e.error && d.error != e.error
    ensures var r := Violations([a, b, c, d, e]);
      && (a.error in r <==> a.violated) && (b.error in r <==> b.violated) && (c.error in r <==> c.violated)
      && (d.error in r <==> d.violated) && (e.error in r <==> e.violated)
  {
    var rules := [a, b, c, d, e];
    assert ErrorsOf(rules) == [a.error, b.error, c.error, d.error, e.error];
    assert Distinct(ErrorsOf(rules));
    ViolationReported(rules, 0);
    ViolationReported(rules, 1);
    ViolationReported(rules, 2);
    ViolationReported(rules, 3);
    ViolationReported(rules, 4);
  }

  /** A non-empty password is only ever told about the five rules. */
  lemma {:induction false} PasswordOnlyRules(p: string)
    requires p != ""
    ensures forall e :: e in ValidatePassword(Some(p)) ==> e in PasswordChecks
  {
    var rules := PasswordRules(p);
    forall e | e in Violations(rules) ensures e in PasswordChecks {
      if e !in PasswordChecks { NotReported(rules, e); }
    }
  }

  /** Every password error is about the `password` field. */
  lemma {:induction false} PasswordErrorsField(password: Option<string>)
    ensures forall e :: e in ValidatePassword(password) ==> e.Field() == "password"
  {
    var r := ValidatePassword(password);
    if password.Some? && password.value != "" {
      PasswordOnlyRules(password.value);
      forall e | e in r ensures e.Field() == "password" {
        assert e in PasswordChecks;
      }
    } else {
      assert r == [PasswordRequired];
    }
  }

  /** The password is accepted (no violation at all) exactly when it meets the policy. */
  lemma {:induction false} PasswordAcceptedIff(password: Option<string>)
    ensures ValidatePassword(password) == [] <==> password.Some? && StrongPassword(password.value)
  {
    if password.Some? && password.value != "" {
      var p := password.value;
      var r := ValidatePassword(password);
      PasswordRulesReported(p);
      PasswordOnlyRules(p);
      StrongPasswordClasses(p);
      if r != [] {
        assert r[0] in PasswordChecks;
      }
    }
  }

  lemma {:induction false} StrongPasswordClasses(p: string)
    ensures StrongPassword(p) <==>
      |p| >= 8 && Contains(p, Upper) && Contains(p, Lower) && Contains(p, Digit) && Contains(p, NotAlnum)
  {
    ContainsIff(p, Upper);
    ContainsIff(p, Lower);
    ContainsIff(p, Digit);
    ContainsIff(p, NotAlnum);
  }

  /** A short password is always told it is too short, whatever else it satisfies. */
  lemma {:induction false} ShortPasswordReported(p: string)
    requires 0 < |p| < 8
    ensures PasswordTooShort in ValidatePassword(Some(p))
  {
    PasswordRulesReported(p);
  }

  /** The class the name pattern accepts: ASCII letters, the Latin-1 letters U+00C0-U+00D6,
      U+00D8-U+00F6 and U+00F8-U+00FF, white space, apostrophe and hyphen. */
  predicate IsNameChar(c: char) {
    || IsAsciiUpper(c) || IsAsciiLower(c)
    || ('\U{00C0}' <= c <= '\U{00D6}') || ('\U{00D8}' <= c <= '\U{00F6}') || ('\U{00F8}' <= c <= '\U{00FF}')
    || IsWhitespace(c) || c == '\'' || c == '-'
  }

  const NameChecks := [NameHasDigit, NameHasSpecial, NameTooShort]

  /** The three name rules in the order they are checked. */
  function NameRules(n: string): (rules: seq<Rule>)
    ensures ErrorsOf(rules) == NameChecks
  {
    var rules := [ Rule(Contains(n, Digit), NameHasDigit),
      Rule(Contains(n, NotNameChar), NameHasSpecial),
      Rule(|Trim(n)| < 2, NameTooShort) ];
    assert ErrorsOf(rules) == NameChecks;
    rules
  }

  /** `validateName`. A missing or blank name gets the single "required" error; otherwise the
      violated rules are reported in the order digit, character class, minimum length
      (`NameRulesReported` says which). */
  function ValidateName(name: Option<string>): (r: seq<Violation>)
    ensures name.None? || AllWhitespace(name.value) ==> r == [NameRequired]
    ensures name.Some? && !AllWhitespace(name.value) ==> IsSubsequence(r, NameChecks)
    ensures |r| <= 3
  {
    if name.None? || |Trim(name.value)| == 0 then [NameRequired]
    else Violations(NameRules(name.value))
  }

  /** Each name rule is reported exactly when it is violated; the length rule counts the
      characters left after trimming. */
  lemma {:induction false} NameRulesReported(n: string)
    requires !AllWhitespace(n)
    ensures var r := ValidateName(Some(n));
      && (NameHasDigit in r <==> Contains(n, Digit))
      && (NameHasSpecial in r <==> Contains(n, NotNameChar))
      && (NameTooShort in r <==> |Trim(n)| == 1)
  {
    var rules := NameRules(n);
    ChecksDistinct();
    ViolationReported(rules, 0);
    ViolationReported(rules, 1);
    ViolationReported(rules, 2);
  }

  /** A non-blank name is only ever told about the three rules. */
  lemma {:induction false} NameOnlyRules(n: string)
    requires !AllWhitespace(n)
    ensures forall e :: e in ValidateName(Some(n)) ==> e in NameChecks
  {
    var rules := NameRules(n);
    forall e | e in Violations(rules) ensures e in NameChecks {
      if e !in NameChecks { NotReported(rules, e); }
    }
  }

  /** Every name error is about the `name` field. */
  lemma {:induction false} NameErrorsField(name: Option<string>)
    ensures forall e :: e in ValidateName(name) ==> e.Field() == "name"
  {
    var r := ValidateName(name);
    if name.Some? && !AllWhitespace(name.value) {
      NameOnlyRules(name.value);
      forall e | e in r ensures e.Field() == "name" {
        assert e == NameHasDigit || e == NameHasSpecial || e == NameTooShort;
      }
    } else {
      assert r == [NameRequired];
    }
  }

  /** A digit lies outside the accepted class too, so a name with a digit gets both the digit
      error and the special-character error. */
  lemma {:induction false} NameDigitAlsoSpecial(n: string, i: nat)
    requires i < |n| && IsAsciiDigit(n[i])
    ensures NameHasDigit in ValidateName(Some(n))
    ensures NameHasSpecial in ValidateName(Some(n))
  {
    DigitOutsideNameClass(n[i]);
    assert !AllWhitespace(n);
    NameRulesReported(n);
    ContainsIff(n, Digit);
    ContainsIff(n, NotNameChar);
  }

  lemma {:induction false} DigitOutsideNameClass(c: char)
    requires IsAsciiDigit(c)
    ensures !IsWhitespace(c) && InClass(c, NotNameChar)
  {
    VisibleAsciiNotWhitespace(c);
  }

  /** `validateEmail`, with the format check `isEmail` left abstract. A missing or blank
      address gets the single "required" error; otherwise there is at most the format error,
      present exactly when `isEmail` rejects the address. */
  function ValidateEmail(email: Option<string>, isEmail: string -> bool): (r: seq<Violation>)
    ensures email.None? || AllWhitespace(email.value) ==> r == [EmailRequired]
    ensures email.Some? && !AllWhitespace(email.value) ==> (r == [] <==> isEmail(email.value))
    ensures email.Some? && !AllWhitespace(email.value) ==> r == [] || r == [EmailMalformed]
    ensures forall e :: e in r ==> e.Field() == "email"
  {
    if email.None? || |Trim(email.value)| == 0 then [EmailRequired]
    else if !isEmail(email.value) then [EmailMalformed]
    else []
  }
}
