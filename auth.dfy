/** Registration: the validation chain for email, password and confirmation,
    then a uniqueness-checked insert into the user table.  Email validity,
    email normalisation and password hashing belong to libraries and are
    parameters here. */
module Auth {
  import opened Wrappers
  import opened Text

  /** The validators of the registration form, each with its message. */
  datatype Rule =
    | ValidEmail
    | PasswordLength
    | PasswordUpper
    | PasswordDigit
    | PasswordSpecial
    | PasswordNoSpace
    | PasswordsMatch

  function Message(rule: Rule): string
  {
    match rule
    case ValidEmail => "Enter valid email address"
    case PasswordLength => "Password must be 8\U{2013}72 characters long"
    case PasswordUpper => "Password must include at least one uppercase letter"
    case PasswordDigit => "Password must include at least one number"
    case PasswordSpecial => "Password must include at least one special character"
    case PasswordNoSpace => "Password must not contain spaces."
    case PasswordsMatch => "Passwords do not match"
  }

  const EmailInUseMessage: string := "Email already in use."

  /** The messages of the failed validators, in the order they failed
      (`result.array().map((e) => e.msg)`). */
  function Messages(rules: seq<Rule>): (ms: seq<string>)
    ensures |ms| == |rules|
    ensures forall i :: 0 <= i < |rules| ==> ms[i] == Message(rules[i])
  {
    if rules == [] then [] else [Message(rules[0])] + Messages(rules[1..])
  }

  /** `[A-Z]` */
  predicate IsUpper(c: char)
  {
    'A' <= c <= 'Z'
  }

  /** `[A-Za-z0-9]` */
  predicate IsAlphanumeric(c: char)
  {
    'A' <= c <= 'Z' || 'a' <= c <= 'z' || IsDigit(c)
  }

  /** `[^A-Za-z0-9]` */
  predicate IsSpecial(c: char)
  {
    !IsAlphanumeric(c)
  }

  /** An unanchored `matches` with a one-character class: some character of
      `s` is in the class. */
  function Matches(s: string, inClass: char -> bool): (b: bool)
    ensures b <==> exists i :: 0 <= i < |s| && inClass(s[i])
  {
    if s == [] then false else inClass(s[0]) || Matches(s[1..], inClass)
  }

  /** The password rules, stated on their own. */
  ghost predicate StrongPassword(p: string)
  {
    8 <= CountedLength(p) <= 72 &&
    (exists i :: 0 <= i < |p| && IsUpper(p[i])) &&
    (exists i :: 0 <= i < |p| && IsDigit(p[i])) &&
    (exists i :: 0 <= i < |p| && IsSpecial(p[i])) &&
    (forall i :: 0 <= i < |p| ==> !IsSpace(p[i]))
  }

  /** The registration form, as the validators see it. */
  datatype Form = Form(email: string, password: string, confirmPassword: string)

  /** Whether one validator rejects the form.  The email is validated after
      the `trim()` sanitizer; the confirmation is compared with the raw
      password. */
  predicate Fails(rule: Rule, form: Form, isEmail: string -> bool)
  {
    var p := form.password;
    match rule
    case ValidEmail => !isEmail(Trim(form.email))
    case PasswordLength => !(8 <= CountedLength(p) <= 72)
    case PasswordUpper => !Matches(p, IsUpper)
    case PasswordDigit => !Matches(p, IsDigit)
    case PasswordSpecial => !Matches(p, IsSpecial)
    case PasswordNoSpace => Matches(p, IsSpace)
    case PasswordsMatch => form.confirmPassword != p
  }

  /** The password validators, in chain order. */
  const PasswordChain: seq<Rule> := [PasswordLength, PasswordUpper, PasswordDigit, PasswordSpecial, PasswordNoSpace]

  /** The email, password and confirmation chains, in the order they run. */
  const RegistrationChain: seq<Rule> := [ValidEmail] + PasswordChain + [PasswordsMatch]

  /** `a` is `b` with some elements left out, the rest kept in order. */
  ghost predicate SubsequenceOf<T>(a: seq<T>, b: seq<T>)
    decreases |b|
  {
    a == [] || (b != [] && ((a[0] == b[0] && SubsequenceOf(a[1..], b[1..])) || SubsequenceOf(a, b[1..])))
  }

  /** What `validationResult` collects: every validator of `rules` that
      rejects the form (no chain bails before its last validator). */
  function Failures(rules: seq<Rule>, form: Form, isEmail: string -> bool): (errs: seq<Rule>)
    ensures |errs| <= |rules|
    ensures forall rule :: rule in errs <==> rule in rules && Fails(rule, form, isEmail)
  {
    if rules == [] then []
    else (if Fails(rules[0], form, isEmail) then [rules[0]] else []) + Failures(rules[1..], form, isEmail)
  }

  /** The failures come in chain order ... */
  lemma {:induction false} FailuresInOrder(rules: seq<Rule>, form: Form, isEmail: string -> bool)
    ensures SubsequenceOf(Failures(rules, form, isEmail), rules)
    decreases |rules|
  {
    if rules != [] {
      FailuresInOrder(rules[1..], form, isEmail);
      var rest := Failures(rules[1..], form, isEmail);
      if Fails(rules[0], form, isEmail) {
        var errs := [rules[0]] + rest;
        assert Failures(rules, form, isEmail) == errs;
        assert errs[0] == rules[0] && errs[1..] == rest;
      } else {
        assert Failures(rules, form, isEmail) == rest;
      }
    }
  }

  /** ... each reported no more often than it occurs in the chain. */
  lemma {:induction false} FailuresCounted(rules: seq<Rule>, form: Form, isEmail: string -> bool)
    ensures multiset(Failures(rules, form, isEmail)) <= multiset(rules)
    decreases |rules|
  {
    if rules != [] {
      FailuresCounted(rules[1..], form, isEmail);
      var rest := Failures(rules[1..], form, isEmail);
      assert multiset(rules) == multiset{rules[0]} + multiset(rules[1..]) by {
        assert rules == [rules[0]] + rules[1..];
      }
      if Fails(rules[0], form, isEmail) {
        assert Failures(rules, form, isEmail) == [rules[0]] + rest;
      } else {
        assert Failures(rules, form, isEmail) == rest;
      }
    }
  }

  ghost predicate Distinct(rules: seq<Rule>)
  {
    forall i, j :: 0 <= i < j < |rules| ==> rules[i] != rules[j]
  }

  /** A chain without repeated validators reports each failure once. */
  lemma {:induction false} FailuresDistinct(rules: seq<Rule>, form: Form, isEmail: string -> bool)
    requires Distinct(rules)
    ensures Distinct(Failures(rules, form, isEmail))
    decreases |rules|
  {
    if rules != [] {
      var rest := Failures(rules[1..], form, isEmail);
      FailuresDistinct(rules[1..], form, isEmail);
      if Fails(rules[0], form, isEmail) {
        assert rules[0] !in rules[1..];
        assert rules[0] !in rest;
        var errs := [rules[0]] + rest;
        assert Failures(rules, form, isEmail) == errs;
        assert forall k :: 0 < k < |errs| ==> errs[k] == rest[k - 1];
      } else {
        assert Failures(rules, form, isEmail) == rest;
      }
    }
  }

  /** The registration chain repeats no validator, so each failure is
      reported once. */
  lemma RegistrationFailuresDistinct(form: Form, isEmail: string -> bool)
    ensures Distinct(Failures(RegistrationChain, form, isEmail))
  {
    FailuresDistinct(RegistrationChain, form, isEmail);
  }

  /** Each password validator rejects exactly the passwords that break its rule. */
  lemma PasswordRuleMeaning(form: Form, isEmail: string -> bool)
    ensures var p := form.password;
      (Fails(PasswordLength, form, isEmail) <==> CountedLength(p) < 8 || 72 < CountedLength(p)) &&
      (Fails(PasswordUpper, form, isEmail) <==> forall i :: 0 <= i < |p| ==> !IsUpper(p[i])) &&
      (Fails(PasswordDigit, form, isEmail) <==> forall i :: 0 <= i < |p| ==> !IsDigit(p[i])) &&
      (Fails(PasswordSpecial, form, isEmail) <==> forall i :: 0 <= i < |p| ==> IsAlphanumeric(p[i])) &&
      (Fails(PasswordNoSpace, form, isEmail) <==> exists i :: 0 <= i < |p| && IsSpace(p[i]))
  {
  }

  /** ... and each is reported by the registration chain exactly then. */
  lemma PasswordRules(form: Form, isEmail: string -> bool)
    ensures var p := form.password;
      var errs := Failures(RegistrationChain, form, isEmail);
      (PasswordLength in errs <==> CountedLength(p) < 8 || 72 < CountedLength(p)) &&
      (PasswordUpper in errs <==> forall i :: 0 <= i < |p| ==> !IsUpper(p[i])) &&
      (PasswordDigit in errs <==> forall i :: 0 <= i < |p| ==> !IsDigit(p[i])) &&
      (PasswordSpecial in errs <==> forall i :: 0 <= i < |p| ==> IsAlphanumeric(p[i])) &&
      (PasswordNoSpace in errs <==> exists i :: 0 <= i < |p| && IsSpace(p[i]))
  {
    PasswordRuleMeaning(form, isEmail);
    assert PasswordLength in RegistrationChain && PasswordUpper in RegistrationChain && PasswordDigit in RegistrationChain;
    assert PasswordSpecial in RegistrationChain && PasswordNoSpace in RegistrationChain;
  }

  /** The email validator rejects exactly an invalid trimmed email, and the
      confirmation validator exactly a confirmation that differs. */
  lemma EmailAndConfirmationRules(form: Form, isEmail: string -> bool)
    ensures var errs := Failures(RegistrationChain, form, isEmail);
      (ValidEmail in errs <==> !isEmail(Trim(form.email))) &&
      (PasswordsMatch in errs <==> form.confirmPassword != form.password)
  {
    assert ValidEmail in RegistrationChain && PasswordsMatch in RegistrationChain;
  }

  /** No validator of `rules` is reported exactly when none of them fails. */
  lemma NoneFail(rules: seq<Rule>, form: Form, isEmail: string -> bool)
    ensures Failures(rules, form, isEmail) == [] <==> forall rule :: rule in rules ==> !Fails(rule, form, isEmail)
  {
    var errs := Failures(rules, form, isEmail);
    if errs != [] {
      assert errs[0] in errs;
    }
  }

  /** The password chain passes exactly the strong passwords. */
  lemma PasswordChainPasses(form: Form, isEmail: string -> bool)
    ensures Failures(PasswordChain, form, isEmail) == [] <==> StrongPassword(form.password)
  {
    NoneFail(PasswordChain, form, isEmail);
    assert (forall rule :: rule in PasswordChain ==> !Fails(rule, form, isEmail)) <==>
      !Fails(PasswordLength, form, isEmail) && !Fails(PasswordUpper, form, isEmail) &&
      !Fails(PasswordDigit, form, isEmail) && !Fails(PasswordSpecial, form, isEmail) &&
      !Fails(PasswordNoSpace, form, isEmail);
  }

  /** The whole form is accepted exactly when the trimmed email is valid, the
      password is strong and the confirmation equals it. */
  lemma RegistrationAccepted(form: Form, isEmail: string -> bool)
    ensures Failures(RegistrationChain, form, isEmail) == [] <==>
      isEmail(Trim(form.email)) && StrongPassword(form.password) && form.confirmPassword == form.password
  {
    FailuresAppend([ValidEmail] + PasswordChain, [PasswordsMatch], form, isEmail);
    FailuresAppend([ValidEmail], PasswordChain, form, isEmail);
    PasswordChainPasses(form, isEmail);
  }

  /** The errors of two chains run one after the other are those of the
      first followed by those of the second. */
  lemma {:induction false} FailuresAppend(a: seq<Rule>, b: seq<Rule>, form: Form, isEmail: string -> bool)
    ensures Failures(a + b, form, isEmail) == Failures(a, form, isEmail) + Failures(b, form, isEmail)
    decreases |a|
  {
    if a != [] {
      FailuresAppend(a[1..], b, form, isEmail);
      assert (a + b)[0] == a[0] && (a + b)[1..] == a[1..] + b;
      var first := if Fails(a[0], form, isEmail) then [a[0]] else [];
      assert Failures(a + b, form, isEmail) == first + Failures(a[1..] + b, form, isEmail);
      assert Failures(a, form, isEmail) == first + Failures(a[1..], form, isEmail);
    } else {
      assert a + b == b;
    }
  }

  /** An accepted password has a character that is neither a letter, a
      digit nor whitespace. */
  lemma StrongPasswordHasVisibleSpecial(p: string)
    requires StrongPassword(p)
    ensures exists i :: 0 <= i < |p| && IsSpecial(p[i]) && !IsSpace(p[i])
  {
    var i :| 0 <= i < |p| && IsSpecial(p[i]);
    assert !IsSpace(p[i]);
  }

  /** A password of the right shape is strong. */
  lemma AcceptedExample()
    ensures StrongPassword("Passw0rd!")
  {
    var p := "Passw0rd!";
    assert IsUpper(p[0]) && IsDigit(p[5]) && IsSpecial(p[8]);
    CountedLengthFull(p);
  }

  /** A password of the right length with an upper-case letter, a digit and
      a blank fails only the whitespace rule: the blank itself already
      satisfies the special-character rule. */
  lemma BlankOnlyFailure(form: Form, isEmail: string -> bool)
    requires var p := form.password;
      8 <= CountedLength(p) <= 72 &&
      (exists i :: 0 <= i < |p| && IsUpper(p[i])) &&
      (exists i :: 0 <= i < |p| && IsDigit(p[i])) &&
      (exists i :: 0 <= i < |p| && IsSpace(p[i]))
    ensures forall rule :: rule in Failures(PasswordChain, form, isEmail) <==> rule == PasswordNoSpace
  {
    var p := form.password;
    var k :| 0 <= k < |p| && IsSpace(p[k]);
    assert IsSpecial(p[k]);
  }

  /** A password of 8 to 72 lower-case letters fails exactly the uppercase,
      digit and special-character rules. */
  lemma LowercaseOnly(form: Form, isEmail: string -> bool)
    requires var p := form.password; 8 <= |p| <= 72 && forall i :: 0 <= i < |p| ==> 'a' <= p[i] <= 'z'
    ensures forall rule :: rule in Failures(PasswordChain, form, isEmail) <==>
      rule == PasswordUpper || rule == PasswordDigit || rule == PasswordSpecial
  {
    var p := form.password;
    CountedLengthFull(p);
    assert forall i :: 0 <= i < |p| ==> !IsUpper(p[i]) && !IsDigit(p[i]) && !IsSpecial(p[i]) && !IsSpace(p[i]);
  }

  datatype User = User(id: int, email: string, passwordHash: string)

  datatype Response =
    /** 400 showing the messages of the failed validators. */
    | Invalid(errors: seq<string>)
    /** 400: the normalised email already has an account. */
    | EmailInUse(message: string)
    | RedirectToLogin

  class UserStore {
    /** The user table, keyed by its unique email column. */
    var users: map<string, User>
    var nextId: int

    ghost predicate Valid()
      reads this
    {
      1 <= nextId &&
      forall e :: e in users ==> users[e].email == e && users[e].id < nextId
    }

    constructor ()
      ensures Valid() && users == map[] && nextId == 1
    {
      users, nextId := map[], 1;
    }

    /** `POST /register`.  `isEmail` and `normalize` stand for the email
        validator and sanitizer, `hash` for the password hash. */
    method Register(form: Form, isEmail: string -> bool, normalize: string -> string, hash: string -> string)
      returns (r: Response)
      requires Valid()
      modifies this
      ensures Valid()
      ensures var errs := Failures(RegistrationChain, form, isEmail);
        errs != [] ==> r == Invalid(Messages(errs)) && users == old(users) && nextId == old(nextId)
      ensures var key := normalize(Trim(form.email));
        Failures(RegistrationChain, form, isEmail) == [] && key in old(users) ==>
          r == EmailInUse(EmailInUseMessage) && users == old(users) && nextId == old(nextId)
      ensures var key := normalize(Trim(form.email));
        Failures(RegistrationChain, form, isEmail) == [] && key !in old(users) ==>
          r == RedirectToLogin && nextId == old(nextId) + 1 &&
          (forall e :: e in old(users) ==> old(users)[e].id != old(nextId)) &&
          users == old(users)[key := User(old(nextId), key, hash(form.password))]
    {
      var errs := Failures(RegistrationChain, form, isEmail);
      if errs != [] {
        return Invalid(Messages(errs));
      }
      var key := normalize(Trim(form.email));
      if key in users {
        return EmailInUse(EmailInUseMessage);
      }
      users := users[key := User(nextId, key, hash(form.password))];
      nextId := nextId + 1;
      r := RedirectToLogin;
    }
  }
}
