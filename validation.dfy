/** The request validators run before the register and login handlers: the
    registration-number format, the full-name alphabet and length, password
    strength, and the pass-or-400 decision over the collected errors. A body
    field that is missing is validated as the empty string. */
module Validation {
  import opened Text

  const RegistrationPath := "registrationNumber"
  const FullNamePath := "fullName"
  const PasswordPath := "password"

  /** The message of a validator given no message of its own. */
  const DefaultMessage := "Invalid value"
  const RegistrationFormatMessage := "Registration number must be in format: EG/2020/1234"
  const FullNameMessage := "Full name must contain only letters and spaces"
  const PasswordLengthMessage := "Password must be at least 8 characters long"
  const PasswordStrengthMessage := "Password must contain at least one lowercase letter, one uppercase letter, and one number"
  const LoginFormatMessage := "Invalid registration number format"
  const PasswordRequiredMessage := "Password is required"
  const ValidationFailedMessage := "Validation failed"

  /** One entry of the error list: the field and the failing rule's message. */
  datatype FieldError = FieldError(path: string, msg: string)

  // ---------------------------------------------------------------------------
  // The rules

  /** Emoji presentation selectors, which `isLength` does not count. */
  predicate IsPresentationSelector(c: char) {
    c == '\U{FE0E}' || c == '\U{FE0F}'
  }

  function SelectorCount(s: string): (n: nat)
    ensures n <= |s|
  {
    if s == [] then 0 else (if IsPresentationSelector(s[0]) then 1 else 0) + SelectorCount(s[1..])
  }

  /** The length `isLength` compares with its bounds. */
  function DisplayLength(s: string): nat {
    |s| - SelectorCount(s)
  }

  /** `isLength({ min, max })`. */
  predicate LengthWithin(s: string, min: nat, max: nat) {
    min <= DisplayLength(s) <= max
  }

  /** `/^[A-Z]{2}\/[0-9]{4}\/[0-9]{4}$/`. */
  predicate IsRegistrationNumber(s: string) {
    && |s| == 12
    && IsAsciiUpper(s[0]) && IsAsciiUpper(s[1]) && s[2] == '/'
    && IsDigit(s[3]) && IsDigit(s[4]) && IsDigit(s[5]) && IsDigit(s[6])
    && s[7] == '/'
    && IsDigit(s[8]) && IsDigit(s[9]) && IsDigit(s[10]) && IsDigit(s[11])
  }

  /** `/^[a-zA-Z\s]+$/`. */
  predicate IsNameAlphabet(s: string) {
    |s| > 0 && forall i :: 0 <= i < |s| ==> IsAsciiLetter(s[i]) || IsWhitespace(s[i])
  }

  /** The part of `s` a `.` starting at the beginning can reach: up to the
      first line terminator. */
  function FirstLine(s: string): (r: string)
    ensures |r| <= |s| && r == s[..|r|]
    ensures forall i :: 0 <= i < |r| ==> !IsLineTerminator(r[i])
    ensures |r| < |s| ==> IsLineTerminator(s[|r|])
  {
    if s == [] || IsLineTerminator(s[0]) then [] else [s[0]] + FirstLine(s[1..])
  }

  predicate HasLower(s: string) { exists i :: 0 <= i < |s| && IsAsciiLower(s[i]) }
  predicate HasUpper(s: string) { exists i :: 0 <= i < |s| && IsAsciiUpper(s[i]) }
  predicate HasDigit(s: string) { exists i :: 0 <= i < |s| && IsDigit(s[i]) }

  /** `/^(?=.*[a-z])(?=.*[A-Z])(?=.*\d)/`: each lookahead scans with `.*`
      from the start, so only the first line is searched. */
  predicate IsStrongPassword(s: string) {
    var line := FirstLine(s);
    HasLower(line) && HasUpper(line) && HasDigit(line)
  }

  // ---------------------------------------------------------------------------
  // The chains

  /** One rule of a chain: whether the value breaks it, and what it reports
      when it does. */
  datatype Rule = Rule(fails: bool, error: FieldError)

  /** The error list a chain collects: one entry per failing rule, in rule
      order. */
  function Reports(rules: seq<Rule>): (errs: seq<FieldError>)
    ensures |errs| <= |rules|
    ensures errs == [] <==> forall k :: 0 <= k < |rules| ==> !rules[k].fails
    ensures forall i :: 0 <= i < |errs| ==> exists k :: 0 <= k < |rules| && rules[k].fails && rules[k].error == errs[i]
  {
    if rules == [] then []
    else (if rules[0].fails then [rules[0].error] else []) + Reports(rules[1..])
  }

  predicate DistinctErrors(rules: seq<Rule>) {
    forall i, j :: 0 <= i < j < |rules| ==> rules[i].error != rules[j].error
  }

  /** With distinct messages, a rule's error is listed exactly when the rule
      fails. */
  lemma {:induction false} ReportsMember(rules: seq<Rule>, k: nat)
    requires DistinctErrors(rules) && k < |rules|
    ensures rules[k].error in Reports(rules) <==> rules[k].fails
  {
    var rest := Reports(rules[1..]);
    if k == 0 {
      forall i | 0 <= i < |rest|
        ensures rest[i] != rules[0].error
      {
        var j :| 0 <= j < |rules[1..]| && rules[1..][j].fails && rules[1..][j].error == rest[i];
        assert rules[1..][j] == rules[j + 1];
      }
    } else {
      ReportsMember(rules[1..], k - 1);
      assert rules[1..][k - 1] == rules[k];
    }
  }

  function RegistrationRules(registrationNumber: string, fullName: string, password: string): seq<Rule> {
    [ Rule(!LengthWithin(registrationNumber, 5, 20), FieldError(RegistrationPath, DefaultMessage)),
      Rule(!IsRegistrationNumber(registrationNumber), FieldError(RegistrationPath, RegistrationFormatMessage)),
      Rule(!LengthWithin(fullName, 2, 100), FieldError(FullNamePath, DefaultMessage)),
      Rule(!IsNameAlphabet(fullName), FieldError(FullNamePath, FullNameMessage)),
      Rule(DisplayLength(password) < 8, FieldError(PasswordPath, PasswordLengthMessage)),
      Rule(!IsStrongPassword(password), FieldError(PasswordPath, PasswordStrengthMessage)) ]
  }

  /** The errors of `validateRegistration`, field by field in chain order;
      every failing rule of a chain reports. */
  function RegistrationErrors(registrationNumber: string, fullName: string, password: string): (errs: seq<FieldError>)
    ensures |errs| <= 6
  {
    Reports(RegistrationRules(registrationNumber, fullName, password))
  }

  function LoginRules(registrationNumber: string, password: string): seq<Rule> {
    [ Rule(registrationNumber == "", FieldError(RegistrationPath, DefaultMessage)),
      Rule(!IsRegistrationNumber(registrationNumber), FieldError(RegistrationPath, LoginFormatMessage)),
      Rule(password == "", FieldError(PasswordPath, PasswordRequiredMessage)) ]
  }

  /** The errors of `validateLogin`. */
  function LoginErrors(registrationNumber: string, password: string): (errs: seq<FieldError>)
    ensures |errs| <= 3
  {
    Reports(LoginRules(registrationNumber, password))
  }

  /** What `handleValidationErrors` does: pass the request on, or answer
      400 with the whole error list. */
  datatype Decision = Next | Reject(status: int, message: string, errors: seq<FieldError>)

  /** The decision itself; `RegistrationAcceptedIff`, `LoginAcceptedIff`,
      `RegistrationRejection` and `LoginRejection` state what it means for
      each chain. */
  function HandleValidationErrors(errors: seq<FieldError>): (d: Decision)
    ensures d.Next? <==> errors == []
    ensures d.Reject? ==> d == Reject(400, ValidationFailedMessage, errors)
  {
    if errors == [] then Next else Reject(400, ValidationFailedMessage, errors)
  }

  /** The registration input the handler receives: what passes every rule. */
  predicate ValidRegistration(registrationNumber: string, fullName: string, password: string) {
    && IsRegistrationNumber(registrationNumber)
    && LengthWithin(fullName, 2, 100) && IsNameAlphabet(fullName)
    && DisplayLength(password) >= 8 && IsStrongPassword(password)
  }

  /** The login input the handler receives. */
  predicate ValidLogin(registrationNumber: string, password: string) {
    IsRegistrationNumber(registrationNumber) && password != ""
  }

  // ---------------------------------------------------------------------------
  // Properties

  /** A string with no selectors has its plain length. */
  lemma {:induction false} NoSelectorsFullLength(s: string)
    requires forall i :: 0 <= i < |s| ==> !IsPresentationSelector(s[i])
    ensures DisplayLength(s) == |s|
  {
    if s != [] {
      NoSelectorsFullLength(s[1..]);
    }
  }

  /** Every registration number in the right format is 12 characters long,
      so the 5 to 20 length rule never adds an error of its own. */
  lemma RegistrationNumberLength(s: string)
    requires IsRegistrationNumber(s)
    ensures DisplayLength(s) == 12 && LengthWithin(s, 5, 20)
  {
    NoSelectorsFullLength(s);
  }

  /** Registration input passes exactly when every rule holds. */
  lemma RegistrationAcceptedIff(registrationNumber: string, fullName: string, password: string)
    ensures HandleValidationErrors(RegistrationErrors(registrationNumber, fullName, password)).Next?
            <==> ValidRegistration(registrationNumber, fullName, password)
  {
    var rules := RegistrationRules(registrationNumber, fullName, password);
    assert (forall k :: 0 <= k < |rules| ==> !rules[k].fails)
           <==> !rules[0].fails && !rules[1].fails && !rules[2].fails && !rules[3].fails && !rules[4].fails && !rules[5].fails;
    if IsRegistrationNumber(registrationNumber) {
      RegistrationNumberLength(registrationNumber);
    }
  }

  /** Login input passes exactly when the number has the format and a
      password is given. */
  lemma LoginAcceptedIff(registrationNumber: string, password: string)
    ensures HandleValidationErrors(LoginErrors(registrationNumber, password)).Next?
            <==> ValidLogin(registrationNumber, password)
  {
    var rules := LoginRules(registrationNumber, password);
    assert (forall k :: 0 <= k < |rules| ==> !rules[k].fails)
           <==> !rules[0].fails && !rules[1].fails && !rules[2].fails;
  }

  /** No two rules of the registration chain report the same entry. */
  lemma RegistrationRulesDistinct(registrationNumber: string, fullName: string, password: string)
    ensures DistinctErrors(RegistrationRules(registrationNumber, fullName, password))
  {
    assert |RegistrationPath| != |FullNamePath| && |PasswordPath| != |RegistrationPath|;
    assert FullNamePath[0] != PasswordPath[0];
    assert |DefaultMessage| != |RegistrationFormatMessage| && |DefaultMessage| != |FullNameMessage|;
    assert |PasswordLengthMessage| != |PasswordStrengthMessage|;
  }

  /** Every failing rule of the registration chain reports its own message
      on its own field, and a rule that holds reports nothing. */
  lemma RegistrationErrorsReport(registrationNumber: string, fullName: string, password: string)
    ensures var errs := RegistrationErrors(registrationNumber, fullName, password);
            && (FieldError(RegistrationPath, DefaultMessage) in errs <==> !LengthWithin(registrationNumber, 5, 20))
            && (FieldError(RegistrationPath, RegistrationFormatMessage) in errs <==> !IsRegistrationNumber(registrationNumber))
            && (FieldError(FullNamePath, DefaultMessage) in errs <==> !LengthWithin(fullName, 2, 100))
            && (FieldError(FullNamePath, FullNameMessage) in errs <==> !IsNameAlphabet(fullName))
            && (FieldError(PasswordPath, PasswordLengthMessage) in errs <==> DisplayLength(password) < 8)
            && (FieldError(PasswordPath, PasswordStrengthMessage) in errs <==> !IsStrongPassword(password))
  {
    var rules := RegistrationRules(registrationNumber, fullName, password);
    RegistrationRulesDistinct(registrationNumber, fullName, password);
    ReportsMember(rules, 0);
    ReportsMember(rules, 1);
    ReportsMember(rules, 2);
    ReportsMember(rules, 3);
    ReportsMember(rules, 4);
    ReportsMember(rules, 5);
  }

  /** Every failing rule of the login chain reports, and nothing else. */
  lemma LoginErrorsReport(registrationNumber: string, password: string)
    ensures var errs := LoginErrors(registrationNumber, password);
            && (FieldError(RegistrationPath, DefaultMessage) in errs <==> registrationNumber == "")
            && (FieldError(RegistrationPath, LoginFormatMessage) in errs <==> !IsRegistrationNumber(registrationNumber))
            && (FieldError(PasswordPath, PasswordRequiredMessage) in errs <==> password == "")
  {
    var rules := LoginRules(registrationNumber, password);
    assert |RegistrationPath| != |PasswordPath|;
    assert |DefaultMessage| != |LoginFormatMessage|;
    assert DistinctErrors(rules);
    ReportsMember(rules, 0);
    ReportsMember(rules, 1);
    ReportsMember(rules, 2);
  }

  /** Registration input that breaks a rule is answered 400 with
      "Validation failed" and a non-empty list holding that rule's error. */
  lemma RegistrationRejection(registrationNumber: string, fullName: string, password: string)
    requires !ValidRegistration(registrationNumber, fullName, password)
    ensures var errs := RegistrationErrors(registrationNumber, fullName, password);
            errs != [] && HandleValidationErrors(errs) == Reject(400, ValidationFailedMessage, errs)
  {
    RegistrationAcceptedIff(registrationNumber, fullName, password);
  }

  /** Login input that breaks a rule is answered the same way. */
  lemma LoginRejection(registrationNumber: string, password: string)
    requires !ValidLogin(registrationNumber, password)
    ensures var errs := LoginErrors(registrationNumber, password);
            errs != [] && HandleValidationErrors(errs) == Reject(400, ValidationFailedMessage, errs)
  {
    LoginAcceptedIff(registrationNumber, password);
  }

  /** What passes registration also passes login. */
  lemma RegistrationImpliesLogin(registrationNumber: string, fullName: string, password: string)
    requires ValidRegistration(registrationNumber, fullName, password)
    ensures ValidLogin(registrationNumber, password)
  {
  }

  /** On a password without line breaks the strength rule is a plain search
      for a lower-case letter, an upper-case letter and a digit. */
  lemma StrongPasswordSingleLine(s: string)
    requires forall i :: 0 <= i < |s| ==> !IsLineTerminator(s[i])
    ensures IsStrongPassword(s) <==> HasLower(s) && HasUpper(s) && HasDigit(s)
  {
    var line := FirstLine(s);
    assert |line| == |s|;
    assert line == s;
  }

  /** A line break hides what follows it from the strength rule. */
  lemma StrongPasswordStopsAtLineBreak()
    ensures !IsStrongPassword("\nPassword1")
  {
    assert FirstLine("\nPassword1") == [];
  }

  /** The format of the message shown to users is accepted, a lower-case
      or dash-separated variant is not. */
  lemma RegistrationNumberExamples()
    ensures IsRegistrationNumber("EG/2020/1234")
    ensures !IsRegistrationNumber("eg/2020/1234")
    ensures !IsRegistrationNumber("EG-2020-1234")
  {
  }

  /** A password with all three kinds passes. */
  lemma StrongPasswordExample()
    ensures IsStrongPassword("Password123")
  {
    var good := "Password123";
    StrongPasswordSingleLine(good);
    assert IsAsciiUpper(good[0]) && IsAsciiLower(good[1]) && IsDigit(good[8]);
  }

  /** A password without an upper-case letter never passes. */
  lemma NoUpperIsWeak(s: string)
    requires forall i :: 0 <= i < |s| ==> !IsAsciiUpper(s[i])
    ensures !IsStrongPassword(s)
  {
    var line := FirstLine(s);
    assert forall i :: 0 <= i < |line| ==> line[i] == s[i];
  }

  lemma WeakPasswordExample()
    ensures !IsStrongPassword("password123")
  {
    NoUpperIsWeak("password123");
  }
}
