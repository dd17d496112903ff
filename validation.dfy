/**
 * The rule engine of `perform_validation`: every field's comma-separated rule
 * tokens are checked against its submitted value and an ordered list of errors
 * is built. The submitted values arrive as a map from field name to an optional
 * string, standing in for the session-state lookup.
 */
module Validation {
  import opened Wrappers
  import opened Text

  /** One field of a generated form. `fieldType` is the field's `type`. */
  datatype FieldDefinition = FieldDefinition(
    name: string,
    fieldLabel: string,
    fieldType: string,
    validation: string,
    options: Option<seq<string>>)

  /** One reported violation; each carries the field's label, length rules their number. */
  datatype ValidationError =
    | Required(fieldLabel: string)
    | InvalidEmail(fieldLabel: string)
    | TooShort(fieldLabel: string, minLength: int)
    | WrongLength(fieldLabel: string, exactLength: int)
    | NotNumeric(fieldLabel: string)

  const MinLengthPrefix: string := "min_length:"
  const ExactLengthPrefix: string := "exact_length:"

  // ------------------------------------------------------------ rule tokens

  /** The field's rule tokens: the validation text split on `,`, each piece stripped. */
  function Rules(validation: string): (rules: seq<string>)
    ensures |rules| == |Split(validation, ',')|
    ensures forall k :: 0 <= k < |rules| ==> ',' !in rules[k]
    ensures forall k :: 0 <= k < |rules| && rules[k] != [] ==>
      !IsSpace(rules[k][0]) && !IsSpace(rules[k][|rules[k]| - 1])
  {
    var parts := Split(validation, ',');
    TrimAllKeepAbsent(parts, ',');
    seq(|parts|, k requires 0 <= k < |parts| => Trim(parts[k]))
  }

  lemma TrimAllKeepAbsent(parts: seq<string>, c: char)
    ensures forall k :: 0 <= k < |parts| && c !in parts[k] ==> c !in Trim(parts[k])
  {
    forall k | 0 <= k < |parts| {
      TrimKeepsAbsent(parts[k], c);
    }
  }

  /** The number written after the rule's first `:`, as `int(rule.split(':')[1])` reads it. */
  function RuleArgument(rule: string): Option<int>
    requires ':' in rule
  {
    ParseInt(Split(rule, ':')[1])
  }

  /**
   * A rule's argument reads exactly when the text after its first `:`, up to
   * any second `:`, is a padded, optionally signed run of digits.
   */
  lemma RuleArgumentIff(rule: string)
    requires ':' in rule
    ensures RuleArgument(rule).Some? <==> IntText(Split(rule, ':')[1])
  {
    ParseIntIff(Split(rule, ':')[1]);
  }

  /** A token that starts with `prefix`, which ends in `:`, contains a `:`. */
  lemma PrefixColon(rule: string, prefix: string)
    requires prefix <= rule && |prefix| > 0 && prefix[|prefix| - 1] == ':'
    ensures ':' in rule
  {
    assert rule[|prefix| - 1] == ':';
  }

  /** The stripped submitted value; a missing value counts as the empty string. */
  function StrValue(v: Option<string>): (r: string)
    ensures r == "" <==> v.None? || AllSpace(v.value)
  {
    match v
    case None => ""
    case Some(x) => TrimEmptyIff(x); Trim(x)
  }

  /** `submitted_data.get(name)`. */
  function Lookup(submitted: map<string, Option<string>>, name: string): Option<string> {
    if name in submitted then submitted[name] else None
  }

  // ------------------------------------------------------------ email format

  predicate IsLocalChar(c: char) {
    IsAsciiLetter(c) || IsDigit(c) || c == '.' || c == '_' || c == '%' || c == '+' || c == '-'
  }

  predicate IsDomainChar(c: char) {
    IsAsciiLetter(c) || IsDigit(c) || c == '.' || c == '-'
  }

  /**
   * `s` splits as `^[a-zA-Z0-9._%+-]+@[a-zA-Z0-9.-]+\.[a-zA-Z]{2,}$` with the
   * `@` at `at` and the final `.` at `dot`.
   */
  predicate EmailSplitAt(s: string, at: nat, dot: nat) {
    0 < at && at + 1 < dot && dot + 2 < |s| && s[at] == '@' && s[dot] == '.' &&
    (forall i :: 0 <= i < at ==> IsLocalChar(s[i])) &&
    (forall i :: at < i < dot ==> IsDomainChar(s[i])) &&
    (forall i :: dot < i < |s| ==> IsAsciiLetter(s[i]))
  }

  /** The regular expression matches `s` for some way of splitting it. */
  ghost predicate EmailPattern(s: string) {
    exists at: nat, dot: nat :: EmailSplitAt(s, at, dot)
  }

  /** A direct scan for the email pattern: split at the first `@` and at the domain's last `.`. */
  function EmailFormatOk(s: string): bool {
    '@' in s &&
    var at := IndexOf(s, '@');
    var domain := s[at + 1..];
    0 < at &&
    (forall i :: 0 <= i < at ==> IsLocalChar(s[i])) &&
    (forall i :: 0 <= i < |domain| ==> IsDomainChar(domain[i])) &&
    '.' in domain &&
    var dot := LastIndexOf(domain, '.');
    0 < dot && dot + 2 < |domain| &&
    (forall i :: dot < i < |domain| ==> IsAsciiLetter(domain[i]))
  }

  /** The scan accepts exactly the strings the regular expression matches. */
  lemma EmailFormatIff(s: string)
    ensures EmailFormatOk(s) <==> EmailPattern(s)
  {
    if EmailFormatOk(s) {
      EmailScanMatches(s);
    }
    if EmailPattern(s) {
      var at: nat, dot: nat :| EmailSplitAt(s, at, dot);
      EmailMatchScans(s, at, dot);
    }
  }

  lemma EmailScanMatches(s: string)
    requires EmailFormatOk(s)
    ensures EmailPattern(s)
  {
    var at := IndexOf(s, '@');
    var domain := s[at + 1..];
    var dot := LastIndexOf(domain, '.');
    assert forall i :: at < i < |s| ==> s[i] == domain[i - at - 1];
    assert EmailSplitAt(s, at, at + 1 + dot);
  }

  lemma EmailMatchScans(s: string, at: nat, dot: nat)
    requires EmailSplitAt(s, at, dot)
    ensures EmailFormatOk(s)
  {
    EmailAtIsFirst(s, at, dot);
    EmailDotIsLast(s, at, dot);
    var domain, d := s[at + 1..], dot - at - 1;
    forall i | 0 <= i < |domain|
      ensures IsDomainChar(domain[i])
      ensures d < i ==> IsAsciiLetter(domain[i])
    {
      assert domain[i] == s[at + 1 + i];
    }
    assert 0 < d && d + 2 < |domain|;
  }

  /** In a match, the `@` is the text's first. */
  lemma EmailAtIsFirst(s: string, at: nat, dot: nat)
    requires EmailSplitAt(s, at, dot)
    ensures '@' in s && IndexOf(s, '@') == at
  {
    assert '@' !in s[..at] by {
      assert forall i :: 0 <= i < at ==> s[..at][i] == s[i];
    }
    IndexOfUnique(s, '@', at);
  }

  /** In a match, the final `.` is the domain's last. */
  lemma EmailDotIsLast(s: string, at: nat, dot: nat)
    requires EmailSplitAt(s, at, dot)
    ensures var domain := s[at + 1..];
      '.' in domain && LastIndexOf(domain, '.') == dot - at - 1
  {
    var domain := s[at + 1..];
    var d := dot - at - 1;
    var tail := domain[d + 1..];
    assert domain[d] == s[dot];
    assert forall i :: 0 <= i < |tail| ==> tail[i] == s[dot + 1 + i];
    assert '.' !in tail;
    LastIndexOfUnique(domain, '.', d);
  }

  // ------------------------------------------------------------ length rules

  /** The length an `exact_length` rule compares: a `number` field first loses one `.`. */
  function LengthToCheck(field: FieldDefinition, value: string): nat {
    if field.fieldType == "number" then |RemoveFirst(value, '.')| else |value|
  }

  /** A `min_length:N` token: an error when the value is shorter than a well-formed `N`. */
  function MinLengthErrors(rule: string, field: FieldDefinition, value: string): seq<ValidationError> {
    if MinLengthPrefix <= rule then
      PrefixColon(rule, MinLengthPrefix);
      match RuleArgument(rule)
      case Some(n) => if |value| < n then [TooShort(field.fieldLabel, n)] else []
      case None => []
    else []
  }

  /** An `exact_length:N` token: an error when the checked length differs from a well-formed `N`. */
  function ExactLengthErrors(rule: string, field: FieldDefinition, value: string): seq<ValidationError> {
    if ExactLengthPrefix <= rule then
      PrefixColon(rule, ExactLengthPrefix);
      match RuleArgument(rule)
      case Some(n) => if LengthToCheck(field, value) != n then [WrongLength(field.fieldLabel, n)] else []
      case None => []
    else []
  }

  /** The errors one rule token contributes inside the loop over rules. */
  function LengthRuleErrors(rule: string, field: FieldDefinition, value: string): seq<ValidationError> {
    MinLengthErrors(rule, field, value) + ExactLengthErrors(rule, field, value)
  }

  /** The errors of the loop over `rules`, in rule order. */
  function LengthErrors(rules: seq<string>, field: FieldDefinition, value: string): seq<ValidationError>
    decreases |rules|
  {
    if rules == [] then []
    else LengthErrors(rules[..|rules| - 1], field, value) + LengthRuleErrors(rules[|rules| - 1], field, value)
  }

  // ----------------------------------------------------------- number only

  /** `value.replace('.', '', 1).isdigit()`. */
  predicate NumberOnlyOk(value: string) {
    IsDigits(RemoveFirst(value, '.'))
  }

  /** Digits with at most one decimal point, and at least one digit. */
  ghost predicate NumericText(s: string) {
    IsDigits(s) ||
    exists k :: 0 <= k < |s| && s[k] == '.' && AllDigits(s[..k]) && AllDigits(s[k + 1..]) && |s| >= 2
  }

  // -------------------------------------------------------------- the engine

  /** The email check: it runs for an `email_format` token or an `email` field. */
  function EmailErrors(rules: seq<string>, field: FieldDefinition, value: string): seq<ValidationError> {
    if ("email_format" in rules || field.fieldType == "email") && !EmailFormatOk(value)
    then [InvalidEmail(field.fieldLabel)] else []
  }

  /** The `number_only` check. */
  function NumberErrors(rules: seq<string>, field: FieldDefinition, value: string): seq<ValidationError> {
    if "number_only" in rules && !NumberOnlyOk(value) then [NotNumeric(field.fieldLabel)] else []
  }

  /** The checks that run on a non-empty value, in their order. */
  function ValueErrors(rules: seq<string>, field: FieldDefinition, value: string): seq<ValidationError> {
    EmailErrors(rules, field, value) + LengthErrors(rules, field, value) + NumberErrors(rules, field, value)
  }

  /** The errors one field produces, in the order the checks run. */
  function FieldErrors(field: FieldDefinition, v: Option<string>): seq<ValidationError> {
    var rules := Rules(field.validation);
    var value := StrValue(v);
    if "required" in rules && value == "" then [Required(field.fieldLabel)]
    else if value == "" then []
    else ValueErrors(rules, field, value)
  }

  /** The errors of all fields, field after field. */
  function ErrorsOf(fields: seq<FieldDefinition>, submitted: map<string, Option<string>>): seq<ValidationError>
    decreases |fields|
  {
    if fields == [] then []
    else
      var f := fields[|fields| - 1];
      ErrorsOf(fields[..|fields| - 1], submitted) + FieldErrors(f, Lookup(submitted, f.name))
  }

  /** `perform_validation`: the collected errors and the submitted data, unchanged. */
  method PerformValidation(fields: seq<FieldDefinition>, submitted: map<string, Option<string>>)
    returns (errors: seq<ValidationError>, data: map<string, Option<string>>)
    ensures errors == ErrorsOf(fields, submitted)
    ensures data == submitted
  {
    errors := [];
    for i := 0 to |fields|
      invariant errors == ErrorsOf(fields[..i], submitted)
    {
      assert fields[..i + 1][..i] == fields[..i];
      var field := fields[i];
      var rules := Rules(field.validation);
      var value := Lookup(submitted, field.name);
      var strValue := StrValue(value);

      if "required" in rules && strValue == "" {
        errors := errors + [Required(field.fieldLabel)];
        continue;
      }

      if strValue != "" {
        var valueErrors := CheckValue(rules, field, strValue);
        errors := errors + valueErrors;
      }
    }
    assert fields[..|fields|] == fields;
    data := submitted;
  }

  /** The checks on a non-empty value: email format, the loop over length rules, `number_only`. */
  method CheckValue(rules: seq<string>, field: FieldDefinition, strValue: string)
    returns (errors: seq<ValidationError>)
    ensures errors == ValueErrors(rules, field, strValue)
  {
    errors := [];
    if "email_format" in rules || field.fieldType == "email" {
      if !EmailFormatOk(strValue) {
        errors := errors + [InvalidEmail(field.fieldLabel)];
      }
    }
    assert errors == EmailErrors(rules, field, strValue);
    var lengthErrors := CheckLengthRules(rules, field, strValue);
    errors := errors + lengthErrors;
    var afterLength := errors;
    if "number_only" in rules {
      if !NumberOnlyOk(strValue) {
        errors := errors + [NotNumeric(field.fieldLabel)];
      }
    }
    assert errors == afterLength + NumberErrors(rules, field, strValue);
  }

  /** The loop over rule tokens, checking each `min_length:N` and `exact_length:N` in turn. */
  method CheckLengthRules(rules: seq<string>, field: FieldDefinition, strValue: string)
    returns (errors: seq<ValidationError>)
    ensures errors == LengthErrors(rules, field, strValue)
  {
    errors := [];
    for j := 0 to |rules|
      invariant errors == LengthErrors(rules[..j], field, strValue)
    {
      LengthErrorsStep(rules, j, field, strValue);
      var ruleErrors := CheckLengthRule(rules[j], field, strValue);
      errors := errors + ruleErrors;
    }
    assert rules[..|rules|] == rules;
  }

  lemma LengthErrorsStep(rules: seq<string>, j: nat, field: FieldDefinition, value: string)
    requires j < |rules|
    ensures LengthErrors(rules[..j + 1], field, value)
      == LengthErrors(rules[..j], field, value) + LengthRuleErrors(rules[j], field, value)
  {
    assert rules[..j + 1][..j] == rules[..j];
  }

  /** One rule token: a `min_length:N` check, then an `exact_length:N` check; a malformed `N` is skipped. */
  method CheckLengthRule(rule: string, field: FieldDefinition, strValue: string)
    returns (errors: seq<ValidationError>)
    ensures errors == LengthRuleErrors(rule, field, strValue)
  {
    errors := [];
    if MinLengthPrefix <= rule {
      PrefixColon(rule, MinLengthPrefix);
      var minLen := RuleArgument(rule);
      if minLen.Some? && |strValue| < minLen.value {
        errors := errors + [TooShort(field.fieldLabel, minLen.value)];
      }
    }
    assert errors == MinLengthErrors(rule, field, strValue);
    if ExactLengthPrefix <= rule {
      PrefixColon(rule, ExactLengthPrefix);
      var exactLen := RuleArgument(rule);
      var lenToCheck := LengthToCheck(field, strValue);
      if exactLen.Some? && lenToCheck != exactLen.value {
        errors := errors + [WrongLength(field.fieldLabel, exactLen.value)];
      }
    }
  }

  // -------------------------------------------------------------- properties

  /** A rule token that is a length rule with a well-formed number. */
  predicate WellFormedLengthRule(rule: string) {
    (MinLengthPrefix <= rule || ExactLengthPrefix <= rule) && ':' in rule && RuleArgument(rule).Some?
  }

  /** The length checks report only length errors. */
  lemma {:induction false} LengthErrorsKinds(rules: seq<string>, field: FieldDefinition, value: string)
    decreases |rules|
    ensures forall i :: 0 <= i < |LengthErrors(rules, field, value)| ==>
      LengthErrors(rules, field, value)[i].TooShort? || LengthErrors(rules, field, value)[i].WrongLength?
  {
    if rules != [] {
      LengthErrorsKinds(rules[..|rules| - 1], field, value);
    }
  }

  /** A list built element by element, appending each element's part, is built part by part. */
  lemma {:induction false} BuiltByLastAppend<T>(build: seq<T> -> seq<ValidationError>,
                                                part: T -> seq<ValidationError>, a: seq<T>, b: seq<T>)
    requires build([]) == []
    requires forall xs: seq<T>, x: T :: build(xs + [x]) == build(xs) + part(x)
    decreases |b|
    ensures build(a + b) == build(a) + build(b)
  {
    if b == [] {
      assert a + b == a;
    } else {
      var b', x := b[..|b| - 1], b[|b| - 1];
      assert b == b' + [x];
      assert a + b == (a + b') + [x];
      BuiltByLastAppend(build, part, a, b');
      assert build(a + b) == build(a + b') + part(x);
      assert build(b) == build(b') + part(x);
    }
  }

  lemma LengthErrorsSnoc(rules: seq<string>, rule: string, field: FieldDefinition, value: string)
    ensures LengthErrors(rules + [rule], field, value) == LengthErrors(rules, field, value) + LengthRuleErrors(rule, field, value)
  {
    assert (rules + [rule])[..|rules|] == rules;
  }

  lemma ErrorsOfSnoc(fields: seq<FieldDefinition>, field: FieldDefinition, submitted: map<string, Option<string>>)
    ensures ErrorsOf(fields + [field], submitted) == ErrorsOf(fields, submitted) + FieldErrors(field, Lookup(submitted, field.name))
  {
    assert (fields + [field])[..|fields|] == fields;
  }

  /** Length rules are checked one after the other, in rule order. */
  lemma LengthErrorsAppend(a: seq<string>, b: seq<string>, field: FieldDefinition, value: string)
    ensures LengthErrors(a + b, field, value) == LengthErrors(a, field, value) + LengthErrors(b, field, value)
  {
    var build := rules => LengthErrors(rules, field, value);
    var part := rule => LengthRuleErrors(rule, field, value);
    forall rules: seq<string>, rule: string
      ensures build(rules + [rule]) == build(rules) + part(rule)
    {
      LengthErrorsSnoc(rules, rule, field, value);
    }
    BuiltByLastAppend(build, part, a, b);
  }

  /** The loop over a single token is that token's check. */
  lemma SingletonLengthErrors(rule: string, field: FieldDefinition, value: string)
    ensures LengthErrors([rule], field, value) == LengthRuleErrors(rule, field, value)
  {
    assert [rule][..0] == [];
  }

  /** An unrecognised token, or a length rule whose number is malformed, reports nothing. */
  lemma IgnoredRuleNoErrors(rule: string, field: FieldDefinition, value: string)
    requires !WellFormedLengthRule(rule)
    ensures LengthRuleErrors(rule, field, value) == []
  {
    if MinLengthPrefix <= rule {
      PrefixColon(rule, MinLengthPrefix);
    }
    if ExactLengthPrefix <= rule {
      PrefixColon(rule, ExactLengthPrefix);
    }
  }

  lemma IgnoredRuleAtEnd(a: seq<string>, rule: string, field: FieldDefinition, value: string)
    requires !WellFormedLengthRule(rule)
    ensures LengthErrors(a + [rule], field, value) == LengthErrors(a, field, value)
  {
    assert (a + [rule])[..|a|] == a;
    IgnoredRuleNoErrors(rule, field, value);
  }

  /** Such a token can be dropped from anywhere in the rules without changing the errors. */
  lemma IgnoredRuleAddsNothing(a: seq<string>, rule: string, b: seq<string>, field: FieldDefinition, value: string)
    requires !WellFormedLengthRule(rule)
    ensures LengthErrors(a + [rule] + b, field, value) == LengthErrors(a + b, field, value)
  {
    IgnoredRuleAtEnd(a, rule, field, value);
    LengthErrorsAppend(a + [rule], b, field, value);
    LengthErrorsAppend(a, b, field, value);
  }

  /** No well-formed length rule, no length error. */
  lemma {:induction false} NoLengthRulesNoErrors(rules: seq<string>, field: FieldDefinition, value: string)
    requires forall k :: 0 <= k < |rules| ==> !WellFormedLengthRule(rules[k])
    decreases |rules|
    ensures LengthErrors(rules, field, value) == []
  {
    if rules != [] {
      IgnoredRuleNoErrors(rules[|rules| - 1], field, value);
      NoLengthRulesNoErrors(rules[..|rules| - 1], field, value);
    }
  }

  /** One token reports `TooShort(l, n)` exactly when it is `min_length` reading `n` and the value is shorter. */
  lemma TooShortInRule(rule: string, field: FieldDefinition, value: string, n: int)
    ensures TooShort(field.fieldLabel, n) in LengthRuleErrors(rule, field, value) <==>
      |value| < n && MinRuleReads(rule, n)
  {
    if MinLengthPrefix <= rule {
      PrefixColon(rule, MinLengthPrefix);
    }
  }

  /** One token reports `WrongLength(l, n)` exactly when it is `exact_length` reading `n` and the length differs. */
  lemma WrongLengthInRule(rule: string, field: FieldDefinition, value: string, n: int)
    ensures WrongLength(field.fieldLabel, n) in LengthRuleErrors(rule, field, value) <==>
      LengthToCheck(field, value) != n && ExactRuleReads(rule, n)
  {
    if ExactLengthPrefix <= rule {
      PrefixColon(rule, ExactLengthPrefix);
    }
  }

  /** The token is a `min_length` rule whose number reads `n`. */
  predicate MinRuleReads(rule: string, n: int) {
    MinLengthPrefix <= rule && ':' in rule && RuleArgument(rule) == Some(n)
  }

  /** The token is an `exact_length` rule whose number reads `n`. */
  predicate ExactRuleReads(rule: string, n: int) {
    ExactLengthPrefix <= rule && ':' in rule && RuleArgument(rule) == Some(n)
  }

  /** Some token of `rules` satisfies `p`. */
  predicate AnyRule(rules: seq<string>, p: string -> bool) {
    exists k :: 0 <= k < |rules| && p(rules[k])
  }

  /** Some token is a `min_length` rule reading `n`. */
  predicate HasMinRule(rules: seq<string>, n: int) {
    AnyRule(rules, rule => MinRuleReads(rule, n))
  }

  /** Some token is an `exact_length` rule reading `n`. */
  predicate HasExactRule(rules: seq<string>, n: int) {
    AnyRule(rules, rule => ExactRuleReads(rule, n))
  }

  lemma AnyRuleSplit(rules: seq<string>, p: string -> bool)
    requires rules != []
    ensures AnyRule(rules, p) <==> AnyRule(rules[..|rules| - 1], p) || p(rules[|rules| - 1])
  {
    var init := rules[..|rules| - 1];
    if AnyRule(rules, p) {
      var k :| 0 <= k < |rules| && p(rules[k]);
      if k < |init| {
        assert init[k] == rules[k];
      }
    }
    if AnyRule(init, p) {
      var k :| 0 <= k < |init| && p(init[k]);
      assert rules[k] == init[k];
    }
  }

  /** `TooShort(l, n)` comes from the loop exactly when some `min_length` token reads `n` and the value is shorter. */
  lemma {:induction false} TooShortInLengthErrors(rules: seq<string>, field: FieldDefinition, value: string, n: int)
    decreases |rules|
    ensures TooShort(field.fieldLabel, n) in LengthErrors(rules, field, value) <==>
      |value| < n && HasMinRule(rules, n)
  {
    if rules != [] {
      var init, last := rules[..|rules| - 1], rules[|rules| - 1];
      TooShortInLengthErrors(init, field, value, n);
      TooShortInRule(last, field, value, n);
      AnyRuleSplit(rules, rule => MinRuleReads(rule, n));
    }
  }

  /** `WrongLength(l, n)` comes from the loop exactly when some `exact_length` token reads `n` and the length differs. */
  lemma {:induction false} WrongLengthInLengthErrors(rules: seq<string>, field: FieldDefinition, value: string, n: int)
    decreases |rules|
    ensures WrongLength(field.fieldLabel, n) in LengthErrors(rules, field, value) <==>
      LengthToCheck(field, value) != n && HasExactRule(rules, n)
  {
    if rules != [] {
      var init, last := rules[..|rules| - 1], rules[|rules| - 1];
      WrongLengthInLengthErrors(init, field, value, n);
      WrongLengthInRule(last, field, value, n);
      AnyRuleSplit(rules, rule => ExactRuleReads(rule, n));
    }
  }

  /** A field's errors: the value checks for a non-empty value, else only the `required` check. */
  lemma FieldErrorsByValue(field: FieldDefinition, v: Option<string>)
    ensures StrValue(v) != "" ==> FieldErrors(field, v) == ValueErrors(Rules(field.validation), field, StrValue(v))
    ensures StrValue(v) == "" ==>
      FieldErrors(field, v) == if "required" in Rules(field.validation) then [Required(field.fieldLabel)] else []
  {
  }

  /**
   * An empty or missing value: a field whose rules contain `required` gets
   * exactly one error, and no other check runs; any other field gets none.
   */
  lemma EmptyValue(field: FieldDefinition, v: Option<string>)
    requires v.None? || AllSpace(v.value)
    ensures FieldErrors(field, v) ==
      if "required" in Rules(field.validation) then [Required(field.fieldLabel)] else []
  {
    FieldErrorsByValue(field, v);
  }

  /** The value checks report no `Required` error, an email error only first, and length errors between. */
  lemma ValueErrorsKinds(rules: seq<string>, field: FieldDefinition, value: string)
    ensures forall i :: 0 <= i < |ValueErrors(rules, field, value)| ==>
      !ValueErrors(rules, field, value)[i].Required? &&
      (ValueErrors(rules, field, value)[i].InvalidEmail? ==> i == 0)
  {
    var e, l, m := EmailErrors(rules, field, value), LengthErrors(rules, field, value), NumberErrors(rules, field, value);
    LengthErrorsKinds(rules, field, value);
    KindsInOrder(e, l, m);
  }

  /** An optional email error, then length errors, then an optional number error. */
  lemma KindsInOrder(e: seq<ValidationError>, l: seq<ValidationError>, m: seq<ValidationError>)
    requires |e| <= 1 && (forall i :: 0 <= i < |e| ==> e[i].InvalidEmail?)
    requires forall i :: 0 <= i < |l| ==> l[i].TooShort? || l[i].WrongLength?
    requires forall i :: 0 <= i < |m| ==> m[i].NotNumeric?
    ensures forall i :: 0 <= i < |e + l + m| ==> !(e + l + m)[i].Required? && ((e + l + m)[i].InvalidEmail? ==> i == 0)
  {
    var all := e + l + m;
    forall i | 0 <= i < |all|
      ensures !all[i].Required? && (all[i].InvalidEmail? ==> i == 0)
    {
      if i < |e| {
        assert all[i] == e[i];
      } else if i < |e| + |l| {
        assert all[i] == l[i - |e|];
      } else {
        assert all[i] == m[i - |e| - |l|];
      }
    }
  }

  /** Among the value checks, only the email check reports `InvalidEmail`. */
  lemma InvalidEmailInValue(rules: seq<string>, field: FieldDefinition, value: string)
    ensures InvalidEmail(field.fieldLabel) in ValueErrors(rules, field, value) <==>
      ("email_format" in rules || field.fieldType == "email") && !EmailFormatOk(value)
  {
    LengthErrorsKinds(rules, field, value);
  }

  /** Among the value checks, only the `number_only` check reports `NotNumeric`. */
  lemma NotNumericInValue(rules: seq<string>, field: FieldDefinition, value: string)
    ensures NotNumeric(field.fieldLabel) in ValueErrors(rules, field, value) <==>
      "number_only" in rules && !NumberOnlyOk(value)
  {
    LengthErrorsKinds(rules, field, value);
  }

  /** Among the value checks, only the loop over rules reports length errors. */
  lemma LengthErrorInValue(rules: seq<string>, field: FieldDefinition, value: string, x: ValidationError)
    requires x.TooShort? || x.WrongLength?
    ensures x in ValueErrors(rules, field, value) <==> x in LengthErrors(rules, field, value)
  {
  }

  /** A `Required` error is reported exactly for an empty value under `required`, and then alone. */
  lemma RequiredIff(field: FieldDefinition, v: Option<string>)
    ensures Required(field.fieldLabel) in FieldErrors(field, v) <==>
      "required" in Rules(field.validation) && StrValue(v) == ""
    ensures Required(field.fieldLabel) in FieldErrors(field, v) ==>
      FieldErrors(field, v) == [Required(field.fieldLabel)]
  {
    FieldErrorsByValue(field, v);
    ValueErrorsKinds(Rules(field.validation), field, StrValue(v));
  }

  /**
   * The email check reports an error exactly for a non-empty value, under
   * `email_format` or an `email` field, that the email pattern does not match.
   */
  lemma InvalidEmailIff(field: FieldDefinition, v: Option<string>)
    ensures InvalidEmail(field.fieldLabel) in FieldErrors(field, v) <==>
      StrValue(v) != "" &&
      ("email_format" in Rules(field.validation) || field.fieldType == "email") &&
      !EmailPattern(StrValue(v))
  {
    FieldErrorsByValue(field, v);
    InvalidEmailInValue(Rules(field.validation), field, StrValue(v));
    EmailFormatIff(StrValue(v));
  }

  /** A field gets at most one email error: only the first error can be one. */
  lemma AtMostOneEmailError(field: FieldDefinition, v: Option<string>)
    ensures forall i :: 0 <= i < |FieldErrors(field, v)| && FieldErrors(field, v)[i].InvalidEmail? ==> i == 0
  {
    FieldErrorsByValue(field, v);
    ValueErrorsKinds(Rules(field.validation), field, StrValue(v));
  }

  /**
   * `min_length:N`: an error carrying `n` exactly when the non-empty value is
   * shorter than `n` and some `min_length` token reads `n`.
   */
  lemma TooShortIff(field: FieldDefinition, v: Option<string>, n: int)
    ensures TooShort(field.fieldLabel, n) in FieldErrors(field, v) <==>
      StrValue(v) != "" && |StrValue(v)| < n && HasMinRule(Rules(field.validation), n)
  {
    var rules, value := Rules(field.validation), StrValue(v);
    FieldErrorsByValue(field, v);
    LengthErrorInValue(rules, field, value, TooShort(field.fieldLabel, n));
    TooShortInLengthErrors(rules, field, value, n);
  }

  /**
   * `exact_length:N`: an error carrying `n` exactly when the non-empty value's
   * checked length differs from `n` and some `exact_length` token reads `n`.
   */
  lemma WrongLengthIff(field: FieldDefinition, v: Option<string>, n: int)
    ensures WrongLength(field.fieldLabel, n) in FieldErrors(field, v) <==>
      StrValue(v) != "" && LengthToCheck(field, StrValue(v)) != n && HasExactRule(Rules(field.validation), n)
  {
    var rules, value := Rules(field.validation), StrValue(v);
    FieldErrorsByValue(field, v);
    LengthErrorInValue(rules, field, value, WrongLength(field.fieldLabel, n));
    WrongLengthInLengthErrors(rules, field, value, n);
  }

  lemma AllDigitsConcat(a: string, b: string)
    ensures AllDigits(a + b) <==> AllDigits(a) && AllDigits(b)
  {
    if AllDigits(a + b) {
      assert forall i :: 0 <= i < |a| ==> (a + b)[i] == a[i];
      assert forall i :: 0 <= i < |b| ==> (a + b)[|a| + i] == b[i];
    }
  }

  /** With the first `.` at `k`, numeric text is digits on both sides of it. */
  lemma NumericTextAt(s: string, k: nat)
    requires k < |s| && s[k] == '.' && '.' !in s[..k]
    ensures NumericText(s) <==> |s| >= 2 && AllDigits(s[..k]) && AllDigits(s[k + 1..])
  {
    assert !IsDigits(s) by {
      assert !IsDigit(s[k]);
    }
    if NumericText(s) {
      var k' :| 0 <= k' < |s| && s[k'] == '.' && AllDigits(s[..k']) && AllDigits(s[k' + 1..]) && |s| >= 2;
      assert forall i :: 0 <= i < k ==> s[..k][i] == s[i];
      assert forall i :: 0 <= i < k' ==> s[..k'][i] == s[i];
    }
  }

  /** Removing the first `.` leaves a non-empty digit string exactly for digits with at most one `.`. */
  lemma NumberOnlyIff(s: string)
    ensures NumberOnlyOk(s) <==> NumericText(s)
  {
    if '.' in s {
      var k := IndexOf(s, '.');
      assert RemoveFirst(s, '.') == s[..k] + s[k + 1..];
      AllDigitsConcat(s[..k], s[k + 1..]);
      NumericTextAt(s, k);
    } else {
      assert forall k :: 0 <= k < |s| ==> s[k] != '.';
    }
  }

  /** `number_only` reports an error exactly for a non-empty value that is not digits with at most one `.`. */
  lemma NotNumericIff(field: FieldDefinition, v: Option<string>)
    ensures NotNumeric(field.fieldLabel) in FieldErrors(field, v) <==>
      StrValue(v) != "" && "number_only" in Rules(field.validation) && !NumericText(StrValue(v))
  {
    FieldErrorsByValue(field, v);
    NotNumericInValue(Rules(field.validation), field, StrValue(v));
    NumberOnlyIff(StrValue(v));
  }

  /** Without `required`, `email_format`, `number_only` or a well-formed length rule, and not an `email` field, nothing is reported. */
  lemma UnrecognisedRulesNoErrors(field: FieldDefinition, v: Option<string>)
    requires field.fieldType != "email"
    requires forall k :: 0 <= k < |Rules(field.validation)| ==>
      Rules(field.validation)[k] != "required" && Rules(field.validation)[k] != "email_format" &&
      Rules(field.validation)[k] != "number_only" && !WellFormedLengthRule(Rules(field.validation)[k])
    ensures FieldErrors(field, v) == []
  {
    var rules := Rules(field.validation);
    assert "required" !in rules;
    FieldErrorsByValue(field, v);
    UnrecognisedValueErrors(rules, field, StrValue(v));
  }

  /** No value check fires when no token is recognised. */
  lemma UnrecognisedValueErrors(rules: seq<string>, field: FieldDefinition, value: string)
    requires field.fieldType != "email"
    requires forall k :: 0 <= k < |rules| ==>
      rules[k] != "email_format" && rules[k] != "number_only" && !WellFormedLengthRule(rules[k])
    ensures ValueErrors(rules, field, value) == []
  {
    NoLengthRulesNoErrors(rules, field, value);
    assert "email_format" !in rules && "number_only" !in rules;
  }

  /** The errors of a form are those of its fields, in field order. */
  lemma ErrorsOfAppend(a: seq<FieldDefinition>, b: seq<FieldDefinition>, submitted: map<string, Option<string>>)
    ensures ErrorsOf(a + b, submitted) == ErrorsOf(a, submitted) + ErrorsOf(b, submitted)
  {
    var build := fields => ErrorsOf(fields, submitted);
    var part := (field: FieldDefinition) => FieldErrors(field, Lookup(submitted, field.name));
    forall fields: seq<FieldDefinition>, field: FieldDefinition
      ensures build(fields + [field]) == build(fields) + part(field)
    {
      ErrorsOfSnoc(fields, field, submitted);
    }
    BuiltByLastAppend(build, part, a, b);
  }

  /** The field passes its own checks. */
  predicate FieldPasses(field: FieldDefinition, submitted: map<string, Option<string>>) {
    FieldErrors(field, Lookup(submitted, field.name)) == []
  }

  /** Every field satisfies `p`. */
  predicate AllFields(fields: seq<FieldDefinition>, p: FieldDefinition -> bool) {
    forall i :: 0 <= i < |fields| ==> p(fields[i])
  }

  lemma AllFieldsSplit(fields: seq<FieldDefinition>, p: FieldDefinition -> bool)
    requires fields != []
    ensures AllFields(fields, p) <==> AllFields(fields[..|fields| - 1], p) && p(fields[|fields| - 1])
  {
    var init := fields[..|fields| - 1];
    assert forall i :: 0 <= i < |init| ==> init[i] == fields[i];
  }

  lemma ErrorsOfStep(fields: seq<FieldDefinition>, submitted: map<string, Option<string>>)
    requires fields != []
    ensures ErrorsOf(fields, submitted) == [] <==>
      ErrorsOf(fields[..|fields| - 1], submitted) == [] && FieldPasses(fields[|fields| - 1], submitted)
  {
  }

  /** A submission is accepted exactly when every field passes its own checks. */
  lemma {:induction false} NoErrorsIff(fields: seq<FieldDefinition>, submitted: map<string, Option<string>>)
    decreases |fields|
    ensures ErrorsOf(fields, submitted) == [] <==>
      forall i :: 0 <= i < |fields| ==> FieldPasses(fields[i], submitted)
  {
    var p := f => FieldPasses(f, submitted);
    assert AllFields(fields, p) <==> forall i :: 0 <= i < |fields| ==> FieldPasses(fields[i], submitted);
    if fields != [] {
      var init := fields[..|fields| - 1];
      NoErrorsIff(init, submitted);
      assert AllFields(init, p) <==> forall i :: 0 <= i < |init| ==> FieldPasses(init[i], submitted);
      AllFieldsSplit(fields, p);
      ErrorsOfStep(fields, submitted);
    }
  }

  // ---------------------------------------------------------------- examples

  /** A validation text holding one stripped token without commas reads as that token. */
  lemma SingleRule(rule: string)
    requires rule != [] && ',' !in rule && !IsSpace(rule[0]) && !IsSpace(rule[|rule| - 1])
    ensures Rules(rule) == [rule]
  {
    assert Split(rule, ',') == [rule];
    TrimOfPadded([], rule, []);
    assert [] + rule + [] == rule;
  }

  /** The validation texts `required`, `email_format` and `number_only` are single tokens. */
  lemma NamedRuleTokens()
    ensures Rules("required") == ["required"]
    ensures Rules("email_format") == ["email_format"]
    ensures Rules("number_only") == ["number_only"]
  {
    SingleRule("required");
    SingleRule("email_format");
    SingleRule("number_only");
  }

  /** The value checks of a lone `required` token report nothing. */
  lemma OnlyRequiredRule(field: FieldDefinition, value: string)
    requires field.fieldType != "email"
    ensures ValueErrors(["required"], field, value) == []
  {
    SingletonLengthErrors("required", field, value);
    IgnoredRuleNoErrors("required", field, value);
  }

  /** `required` alone rejects a missing or whitespace-only value and accepts every other one. */
  lemma RequiredRuleOnly(field: FieldDefinition, v: Option<string>)
    requires Rules(field.validation) == ["required"] && field.fieldType != "email"
    ensures FieldErrors(field, v) == if StrValue(v) == "" then [Required(field.fieldLabel)] else []
  {
    FieldErrorsByValue(field, v);
    OnlyRequiredRule(field, StrValue(v));
  }

  /** The value checks of a lone `email_format` token. */
  lemma OnlyEmailRule(field: FieldDefinition, value: string)
    ensures ValueErrors(["email_format"], field, value) ==
      if !EmailPattern(value) then [InvalidEmail(field.fieldLabel)] else []
  {
    EmailFormatIff(value);
    SingletonLengthErrors("email_format", field, value);
    IgnoredRuleNoErrors("email_format", field, value);
  }

  /** `email_format` alone rejects exactly the non-empty values the email pattern does not match. */
  lemma EmailRuleOnly(field: FieldDefinition, v: Option<string>)
    requires Rules(field.validation) == ["email_format"]
    ensures FieldErrors(field, v) ==
      if StrValue(v) != "" && !EmailPattern(StrValue(v)) then [InvalidEmail(field.fieldLabel)] else []
  {
    FieldErrorsByValue(field, v);
    OnlyEmailRule(field, StrValue(v));
  }

  /** Splitting `min_length:D` on `:` gives the prefix's name and the digits. */
  lemma MinRuleSplit(d: string)
    requires IsDigits(d)
    ensures Split(MinLengthPrefix + d, ':') == ["min_length", d]
  {
    assert ':' !in d by {
      assert forall i :: 0 <= i < |d| ==> IsDigit(d[i]);
    }
    assert MinLengthPrefix + d == Join(["min_length", d], ':');
    SplitJoin(["min_length", d], ':');
  }

  /** `min_length:D` is a single stripped token. */
  lemma MinRuleChars(d: string)
    requires IsDigits(d)
    ensures var rule := MinLengthPrefix + d;
      rule[0] == 'm' && ',' !in rule && !IsSpace(rule[|rule| - 1])
  {
    var rule := MinLengthPrefix + d;
    assert forall i :: 0 <= i < |d| ==> IsDigit(d[i]);
    assert forall i :: |MinLengthPrefix| <= i < |rule| ==> rule[i] == d[i - |MinLengthPrefix|];
    assert forall i :: 0 <= i < |MinLengthPrefix| ==> rule[i] == MinLengthPrefix[i];
    DigitNotSpace(d[|d| - 1]);
  }

  /** The validation text `min_length:N` is that single token. */
  lemma MinRuleToken(n: nat)
    ensures Rules(MinLengthPrefix + NatToDecimal(n)) == [MinLengthPrefix + NatToDecimal(n)]
  {
    MinRuleChars(NatToDecimal(n));
    SingleRule(MinLengthPrefix + NatToDecimal(n));
  }

  /** `min_length:N` with `N` in decimal reads `N`. */
  lemma MinRuleText(n: nat)
    requires |NatToDecimal(n)| <= MaxStrDigits
    ensures MinRuleReads(MinLengthPrefix + NatToDecimal(n), n)
  {
    MinRuleSplit(NatToDecimal(n));
    ParseDecimal(n);
  }

  /** The value checks of a lone `min_length` token reading `n`. */
  lemma OnlyMinRule(rule: string, field: FieldDefinition, value: string, n: int)
    requires MinRuleReads(rule, n) && field.fieldType != "email"
    ensures ValueErrors([rule], field, value) == if |value| < n then [TooShort(field.fieldLabel, n)] else []
  {
    assert rule[0] == MinLengthPrefix[0];
    MinTokenIsNoOtherRule(rule);
    SingletonLengthErrors(rule, field, value);
    assert ExactLengthErrors(rule, field, value) == [];
  }

  /** A token starting with `m` is neither an `exact_length` token nor a named rule. */
  lemma MinTokenIsNoOtherRule(rule: string)
    requires rule != [] && rule[0] == 'm'
    ensures !(ExactLengthPrefix <= rule)
    ensures "email_format" !in [rule] && "number_only" !in [rule] && "required" !in [rule]
  {
    assert rule[0] != ExactLengthPrefix[0];
    assert rule[0] != "email_format"[0] && rule[0] != "number_only"[0] && rule[0] != "required"[0];
  }

  /** `min_length:N` alone, `N` written in decimal: an error exactly for a non-empty value shorter than `N`. */
  lemma MinLengthRuleOnly(field: FieldDefinition, v: Option<string>, n: nat)
    requires Rules(field.validation) == [MinLengthPrefix + NatToDecimal(n)]
    requires field.fieldType != "email" && |NatToDecimal(n)| <= MaxStrDigits
    ensures FieldErrors(field, v) ==
      if StrValue(v) != "" && |StrValue(v)| < n then [TooShort(field.fieldLabel, n)] else []
  {
    var rule := MinLengthPrefix + NatToDecimal(n);
    MinRuleChars(NatToDecimal(n));
    MinRuleText(n);
    MinTokenIsNoOtherRule(rule);
    LoneRuleField(field, v, rule);
    OnlyMinRule(rule, field, StrValue(v), n);
  }

  /** A field whose only rule is not `required` gets the value checks of that rule, or nothing for an empty value. */
  lemma LoneRuleField(field: FieldDefinition, v: Option<string>, rule: string)
    requires Rules(field.validation) == [rule] && "required" !in [rule]
    ensures FieldErrors(field, v) == if StrValue(v) == "" then [] else ValueErrors([rule], field, StrValue(v))
  {
    FieldErrorsByValue(field, v);
  }

  /** The email pattern accepts "a@b.com" and rejects "not-an-email", which has no `@`. */
  lemma EmailSamples()
    ensures EmailPattern("a@b.com")
    ensures !EmailPattern("not-an-email")
  {
    assert EmailSplitAt("a@b.com", 1, 3);
    var bad := "not-an-email";
    forall at: nat, dot: nat
      ensures !EmailSplitAt(bad, at, dot)
    {
      assert forall i :: 0 <= i < |bad| ==> bad[i] != '@';
    }
  }
}
