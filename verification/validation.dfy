/**
 * The rule-based field validator: a table from rule name to rule, and
 * `Validate`, which runs every named rule on every field and collects every
 * failure without stopping at the first one.
 */
module Validation {
  import opened Wrappers
  import Model

  /** A checked value. The validator receives `interface{}`; only strings are inspected. */
  datatype Value = Str(s: string) | NonString

  /** Why one rule rejected one field; together with the field name it fixes the message text. */
  datatype Violation =
    | Blank                 // "<field> must not be blank"
    | NotString             // "<field> is not a string"
    | TooLong(max: int)     // "<field> must be less than or equal to <max> characters"
    | NotEmail              // "<field> is not a vaild email address"
    | WeakPassword(min: int) // "<field> must contain one upper, lower, number, and special character ..."
    | NotRole               // "<field> is not a valid role"
    | Rejected(rule: string) // a rule whose definition is not part of this model

  datatype FieldError = FieldError(field: string, violation: Violation)

  /**
   * The built-in rules. `Custom` stands for a rule whose definition is not
   * part of this model (the astronaut status, date and gender rules): it
   * carries the predicate it checks.
   */
  datatype Rule =
    | Required
    | Length(max: int)
    | Email
    | Password(min: int)
    | Role
    | Custom(name: string, accepts: Value -> bool)

  type Rules = map<string, Rule>

  /** One field to validate: its value and the names of the rules to run on it, in order. */
  datatype Check = Check(value: Value, ruleKeys: seq<string>)

  /** A field label with its check; a sequence of entries is one iteration order of Go's map. */
  type Entry = (string, Check)

  // ---------------------------------------------------------------------------
  // Byte length (Go's `len` on a string counts UTF-8 bytes)

  function Utf8Width(c: char): nat {
    if c as int < 0x80 then 1
    else if c as int < 0x800 then 2
    else if c as int < 0x1_0000 then 3
    else 4
  }

  function ByteLen(s: string): nat {
    if |s| == 0 then 0 else ByteLen(s[..|s| - 1]) + Utf8Width(s[|s| - 1])
  }

  predicate IsAscii(s: string) {
    forall i | 0 <= i < |s| :: s[i] as int < 0x80
  }

  /** Every character takes at least one byte, and an ASCII string takes exactly one per character. */
  lemma {:induction false} ByteLenBounds(s: string)
    ensures ByteLen(s) >= |s|
    ensures ByteLen(s) == 0 <==> |s| == 0
    ensures IsAscii(s) ==> ByteLen(s) == |s|
  {
    if |s| > 0 {
      ByteLenBounds(s[..|s| - 1]);
    }
  }

  /** A prefix never takes more bytes than the whole string. */
  lemma {:induction false} ByteLenPrefix(s: string, n: nat)
    requires n <= |s|
    ensures ByteLen(s[..n]) <= ByteLen(s)
    decreases |s|
  {
    if n < |s| {
      assert s[..|s| - 1][..n] == s[..n];
      ByteLenPrefix(s[..|s| - 1], n);
    } else {
      assert s[..n] == s;
    }
  }

  // ---------------------------------------------------------------------------
  // Character classes (ASCII tables of Go's unicode.IsUpper, IsLower, IsNumber,
  // IsPunct and IsSymbol)

  predicate IsUpperChar(c: char) { 'A' <= c <= 'Z' }
  predicate IsLowerChar(c: char) { 'a' <= c <= 'z' }
  predicate IsNumberChar(c: char) { '0' <= c <= '9' }
  predicate IsPunctOrSymbolChar(c: char) {
    ('!' <= c <= '/') || (':' <= c <= '@') || ('[' <= c <= '`') || ('{' <= c <= '~')
  }

  datatype CharClass = Upper | Lower | Number | Special | Unclassified

  /** The first class that matches, tried in the order upper, lower, number, special. */
  function Classify(c: char): (k: CharClass)
    ensures k == Upper <==> IsUpperChar(c)
    ensures k == Lower <==> !IsUpperChar(c) && IsLowerChar(c)
    ensures k == Number <==> !IsUpperChar(c) && !IsLowerChar(c) && IsNumberChar(c)
    ensures k == Special <==>
      !IsUpperChar(c) && !IsLowerChar(c) && !IsNumberChar(c) && IsPunctOrSymbolChar(c)
  {
    if IsUpperChar(c) then Upper
    else if IsLowerChar(c) then Lower
    else if IsNumberChar(c) then Number
    else if IsPunctOrSymbolChar(c) then Special
    else Unclassified
  }

  predicate HasClass(s: string, k: CharClass) {
    exists i | 0 <= i < |s| :: Classify(s[i]) == k
  }

  /** What the password rule demands: enough bytes and one character of each class. */
  predicate StrongPassword(s: string, min: int) {
    && ByteLen(s) >= min
    && HasClass(s, Upper)
    && HasClass(s, Lower)
    && HasClass(s, Number)
    && HasClass(s, Special)
  }

  /**
   * The password rule's scan as the source writes it: one pass over the
   * characters setting a flag for the first class each one matches.
   */
  method ScanPassword(s: string, min: int) returns (ok: bool)
    ensures ok <==> StrongPassword(s, min)
  {
    var hasMinLen := ByteLen(s) >= min;
    var hasUpper, hasLower, hasNumber, hasSpecial := false, false, false, false;
    var i := 0;
    while i < |s|
      invariant 0 <= i <= |s|
      invariant hasUpper <==> HasClass(s[..i], Upper)
      invariant hasLower <==> HasClass(s[..i], Lower)
      invariant hasNumber <==> HasClass(s[..i], Number)
      invariant hasSpecial <==> HasClass(s[..i], Special)
    {
      assert s[..i + 1] == s[..i] + [s[i]];
      ClassOfExtended(s[..i], s[i]);
      match Classify(s[i]) {
        case Upper => hasUpper := true;
        case Lower => hasLower := true;
        case Number => hasNumber := true;
        case Special => hasSpecial := true;
        case Unclassified =>
      }
      i := i + 1;
    }
    assert s[..i] == s;
    ok := hasMinLen && hasUpper && hasLower && hasNumber && hasSpecial;
  }

  lemma ClassOfExtended(s: string, c: char)
    ensures forall k :: HasClass(s + [c], k) <==> HasClass(s, k) || Classify(c) == k
  {
    forall k
      ensures HasClass(s + [c], k) <==> HasClass(s, k) || Classify(c) == k
    {
      if HasClass(s, k) {
        var i :| 0 <= i < |s| && Classify(s[i]) == k;
        assert (s + [c])[i] == s[i];
      }
      if Classify(c) == k {
        assert (s + [c])[|s|] == c;
      }
      if HasClass(s + [c], k) {
        var i :| 0 <= i < |s + [c]| && Classify((s + [c])[i]) == k;
        if i < |s| {
          assert (s + [c])[i] == s[i];
        }
      }
    }
  }

  // ---------------------------------------------------------------------------
  // The email pattern `[\w-\.]+@([\w-]+\.)+[\w-]{2,4}`, searched anywhere in
  // the string (Go's MatchString is unanchored; `\w` is ASCII [0-9A-Za-z_]).
  // A substring matches iff some '@' has a local character just before it and
  // is followed by one or more "label ." groups and two label characters.

  predicate IsWordChar(c: char) {
    IsUpperChar(c) || IsLowerChar(c) || IsNumberChar(c) || c == '_'
  }

  /** A character of the class `[\w-\.]`. */
  predicate IsLocalChar(c: char) { IsWordChar(c) || c == '-' || c == '.' }

  /** A character of the class `[\w-]`. */
  predicate IsLabelChar(c: char) { IsWordChar(c) || c == '-' }

  /** The end of the run of label characters starting at `i`. */
  function LabelEnd(s: string, i: nat): (k: nat)
    requires i <= |s|
    ensures i <= k <= |s|
    ensures forall j | i <= j < k :: IsLabelChar(s[j])
    ensures k < |s| ==> !IsLabelChar(s[k])
    decreases |s| - i
  {
    if i < |s| && IsLabelChar(s[i]) then LabelEnd(s, i + 1) else i
  }

  /** Two label characters start at `j` (the `[\w-]{2,4}` tail; a longer run only extends the match). */
  predicate TldAt(s: string, j: nat) {
    j + 2 <= |s| && IsLabelChar(s[j]) && IsLabelChar(s[j + 1])
  }

  /** A prefix of `s[i..]` matches `([\w-]+\.)+[\w-]{2,4}`. */
  predicate DomainAt(s: string, i: nat)
    requires i <= |s|
    decreases |s| - i
  {
    var k := LabelEnd(s, i);
    i < k < |s| && s[k] == '.' && (TldAt(s, k + 1) || DomainAt(s, k + 1))
  }

  predicate EmailAt(s: string, a: int) {
    0 < a < |s| && s[a] == '@' && IsLocalChar(s[a - 1]) && DomainAt(s, a + 1)
  }

  predicate MatchesEmailPattern(s: string) {
    exists a | 0 < a < |s| :: EmailAt(s, a)
  }

  // ---------------------------------------------------------------------------
  // Rules

  /** Runs one rule on one field; `None` is a pass. */
  function Apply(rule: Rule, key: string, v: Value): (r: Option<FieldError>)
    ensures r.Some? ==> r.value.field == key
    ensures rule.Required? ==> (r.Some? <==> v == Str(""))
    ensures rule.Length? ==> (r.Some? <==> !v.Str? || ByteLen(v.s) > rule.max)
    ensures rule.Email? ==> (r.Some? <==> !v.Str? || !MatchesEmailPattern(v.s))
    ensures rule.Password? ==> (r.Some? <==> !v.Str? || !StrongPassword(v.s, rule.min))
    ensures rule.Role? ==> (r.Some? <==> v != Str(Model.Admin) && v != Str(Model.BaseUser))
    ensures rule.Custom? ==> (r.Some? <==> !rule.accepts(v))
  {
    match rule
    case Required =>
      if v == Str("") then Some(FieldError(key, Blank)) else None
    case Length(max) =>
      if !v.Str? then Some(FieldError(key, NotString))
      else if ByteLen(v.s) > max then Some(FieldError(key, TooLong(max)))
      else None
    case Email =>
      if !v.Str? then Some(FieldError(key, NotString))
      else if !MatchesEmailPattern(v.s) then Some(FieldError(key, NotEmail))
      else None
    case Password(min) =>
      if !v.Str? then Some(FieldError(key, NotString))
      else if !StrongPassword(v.s, min) then Some(FieldError(key, WeakPassword(min)))
      else None
    case Role =>
      if !v.Str? then Some(FieldError(key, NotString))
      else if v.s == Model.Admin || v.s == Model.BaseUser then None
      else Some(FieldError(key, NotRole))
    case Custom(name, accepts) =>
      if accepts(v) then None else Some(FieldError(key, Rejected(name)))
  }

  /** `Required` rejects exactly the empty string: a field with at least one byte, or a non-string, passes. */
  lemma RequiredMeansNonEmpty(key: string, v: Value)
    ensures Apply(Required, key, v).Some? <==> v.Str? && ByteLen(v.s) == 0
  {
    if v.Str? {
      ByteLenBounds(v.s);
    }
  }

  /**
   * `Length(max)` is a bound on bytes: a value of exactly `max` bytes passes,
   * one byte more fails, a looser bound still passes, and so does every prefix.
   */
  lemma {:induction false} LengthIsByteBound(key: string, s: string, max: int, looser: int, n: nat)
    requires max <= looser && n <= |s|
    ensures ByteLen(s) == max ==> Apply(Length(max), key, Str(s)).None?
    ensures ByteLen(s) == max + 1 ==> Apply(Length(max), key, Str(s)).Some?
    ensures Apply(Length(max), key, Str(s)).None? ==> Apply(Length(looser), key, Str(s)).None?
    ensures Apply(Length(max), key, Str(s)).None? ==> Apply(Length(max), key, Str(s[..n])).None?
  {
    ByteLenPrefix(s, n);
  }

  /** Every string that contains no '@' fails the email rule. */
  lemma EmailNeedsAt(key: string, s: string)
    requires forall i | 0 <= i < |s| :: s[i] != '@'
    ensures Apply(Email, key, Str(s)) == Some(FieldError(key, NotEmail))
  {
  }

  /** The role rule passes exactly the two role strings. */
  lemma RoleAcceptsOnlyKnownRoles(key: string, v: Value)
    ensures Apply(Role, key, v).None? <==> v == Str(Model.Admin) || v == Str(Model.BaseUser)
  {
  }

  // ---------------------------------------------------------------------------
  // Validate

  /** Every rule key named by a check is in the table (a missing key would call a nil rule). */
  predicate Covered(rules: Rules, entries: seq<Entry>) {
    forall i, j | 0 <= i < |entries| && 0 <= j < |entries[i].1.ruleKeys| ::
      entries[i].1.ruleKeys[j] in rules
  }

  predicate EntryCovered(rules: Rules, e: Entry) {
    forall j | 0 <= j < |e.1.ruleKeys| :: e.1.ruleKeys[j] in rules
  }

  /** The outcome of the `j`-th rule of one entry. */
  function RuleOutcome(rules: Rules, e: Entry, j: int): Option<FieldError>
    requires 0 <= j < |e.1.ruleKeys| && e.1.ruleKeys[j] in rules
  {
    Apply(rules[e.1.ruleKeys[j]], e.0, e.1.value)
  }

  /** The errors of the first `n` rules of one entry, in rule-key order. */
  function FieldErrors(rules: Rules, e: Entry, n: nat): (r: seq<FieldError>)
    requires n <= |e.1.ruleKeys| && EntryCovered(rules, e)
    ensures r == [] <==> forall j | 0 <= j < n :: RuleOutcome(rules, e, j).None?
    ensures forall x | x in r :: x.field == e.0
    ensures |r| <= n
  {
    if n == 0 then []
    else
      var before := FieldErrors(rules, e, n - 1);
      match RuleOutcome(rules, e, n - 1)
      case None => before
      case Some(err) => before + [err]
  }

  function AllFieldErrors(rules: Rules, e: Entry): seq<FieldError>
    requires EntryCovered(rules, e)
  {
    FieldErrors(rules, e, |e.1.ruleKeys|)
  }

  /**
   * Runs every rule of every entry and returns every failure; the empty
   * sequence stands for Go's nil, which is returned exactly when all pass.
   */
  function Validate(rules: Rules, entries: seq<Entry>): (errs: seq<FieldError>)
    requires Covered(rules, entries)
    ensures errs == [] <==>
      forall i, j | 0 <= i < |entries| && 0 <= j < |entries[i].1.ruleKeys| ::
        RuleOutcome(rules, entries[i], j).None?
  {
    if |entries| == 0 then []
    else
      var last := entries[|entries| - 1];
      assert EntryCovered(rules, last);
      Validate(rules, entries[..|entries| - 1]) + AllFieldErrors(rules, last)
  }

  /** Validating one more entry appends that entry's errors. */
  lemma ValidateStep(rules: Rules, entries: seq<Entry>, i: nat)
    requires Covered(rules, entries) && i < |entries|
    ensures EntryCovered(rules, entries[i])
    ensures Validate(rules, entries[..i + 1]) == Validate(rules, entries[..i]) + AllFieldErrors(rules, entries[i])
  {
    assert entries[..i + 1][..i] == entries[..i];
    assert entries[..i + 1][i] == entries[i];
  }

  /** Running one more rule appends its error, if any. */
  lemma FieldErrorsStep(rules: Rules, e: Entry, j: nat)
    requires j < |e.1.ruleKeys| && EntryCovered(rules, e)
    ensures var o := RuleOutcome(rules, e, j);
      FieldErrors(rules, e, j + 1) == FieldErrors(rules, e, j) + (if o.Some? then [o.value] else [])
  {
  }

  /** The source's nested loops, which append each failure as it is found. */
  method RunValidator(rules: Rules, entries: seq<Entry>) returns (errs: seq<FieldError>)
    requires Covered(rules, entries)
    ensures errs == Validate(rules, entries)
  {
    errs := [];
    var i := 0;
    while i < |entries|
      invariant 0 <= i <= |entries|
      invariant errs == Validate(rules, entries[..i])
    {
      var e := entries[i];
      var (key, check) := e;
      assert EntryCovered(rules, e);
      ghost var done := Validate(rules, entries[..i]);
      var j := 0;
      while j < |check.ruleKeys|
        invariant 0 <= j <= |check.ruleKeys|
        invariant errs == done + FieldErrors(rules, e, j)
      {
        var outcome := Apply(rules[check.ruleKeys[j]], key, check.value);
        if outcome.Some? {
          errs := errs + [outcome.value];
        }
        FieldErrorsStep(rules, e, j);
        j := j + 1;
      }
      ValidateStep(rules, entries, i);
      i := i + 1;
    }
    assert entries[..i] == entries;
  }

  // ---------------------------------------------------------------------------
  // Exactly one error per failing (field, rule) pair

  ghost function FailingRules(rules: Rules, e: Entry, n: nat): set<int>
    requires n <= |e.1.ruleKeys| && EntryCovered(rules, e)
  {
    set j | 0 <= j < n && RuleOutcome(rules, e, j).Some?
  }

  /** The number of failing (field, rule) pairs over all entries. */
  ghost function FailingPairs(rules: Rules, entries: seq<Entry>): nat
    requires Covered(rules, entries)
  {
    if |entries| == 0 then 0
    else
      var last := entries[|entries| - 1];
      assert EntryCovered(rules, last);
      FailingPairs(rules, entries[..|entries| - 1]) + |FailingRules(rules, last, |last.1.ruleKeys|)|
  }

  lemma {:induction false} FieldErrorsCount(rules: Rules, e: Entry, n: nat)
    requires n <= |e.1.ruleKeys| && EntryCovered(rules, e)
    ensures |FieldErrors(rules, e, n)| == |FailingRules(rules, e, n)|
  {
    if n > 0 {
      FieldErrorsCount(rules, e, n - 1);
      FailingRulesStep(rules, e, n);
    }
  }

  /** Looking at one more rule adds its index to the failing set exactly when it fails. */
  lemma FailingRulesStep(rules: Rules, e: Entry, n: nat)
    requires 0 < n <= |e.1.ruleKeys| && EntryCovered(rules, e)
    ensures RuleOutcome(rules, e, n - 1).Some? ==>
      |FailingRules(rules, e, n)| == |FailingRules(rules, e, n - 1)| + 1
    ensures RuleOutcome(rules, e, n - 1).None? ==>
      FailingRules(rules, e, n) == FailingRules(rules, e, n - 1)
  {
    var before := FailingRules(rules, e, n - 1);
    if RuleOutcome(rules, e, n - 1).Some? {
      assert n - 1 !in before;
      assert FailingRules(rules, e, n) == before + {n - 1};
    }
  }

  /** No short-circuit: the result holds one error for each failing (field, rule) pair. */
  lemma {:induction false} ValidateCount(rules: Rules, entries: seq<Entry>)
    requires Covered(rules, entries)
    ensures |Validate(rules, entries)| == FailingPairs(rules, entries)
  {
    if |entries| > 0 {
      var last := entries[|entries| - 1];
      ValidateCount(rules, entries[..|entries| - 1]);
      FieldErrorsCount(rules, last, |last.1.ruleKeys|);
    }
  }

  lemma {:induction false} FieldErrorsContains(rules: Rules, e: Entry, n: nat, j: nat)
    requires n <= |e.1.ruleKeys| && EntryCovered(rules, e)
    requires j < n && RuleOutcome(rules, e, j).Some?
    ensures RuleOutcome(rules, e, j).value in FieldErrors(rules, e, n)
  {
    if j < n - 1 {
      FieldErrorsContains(rules, e, n - 1, j);
    }
  }

  lemma {:induction false} FieldErrorsSound(rules: Rules, e: Entry, n: nat, x: FieldError)
    requires n <= |e.1.ruleKeys| && EntryCovered(rules, e)
    requires x in FieldErrors(rules, e, n)
    ensures exists j | 0 <= j < n :: RuleOutcome(rules, e, j) == Some(x)
  {
    var before := FieldErrors(rules, e, n - 1);
    if x in before {
      FieldErrorsSound(rules, e, n - 1, x);
    } else {
      assert RuleOutcome(rules, e, n - 1) == Some(x);
    }
  }

  /** Every failing (field, rule) pair is reported, and every reported error comes from one. */
  lemma ValidateReportsExactlyFailures(rules: Rules, entries: seq<Entry>, x: FieldError)
    requires Covered(rules, entries)
    ensures x in Validate(rules, entries) <==>
      exists i, j | 0 <= i < |entries| && 0 <= j < |entries[i].1.ruleKeys| ::
        RuleOutcome(rules, entries[i], j) == Some(x)
  {
    if x in Validate(rules, entries) {
      ValidateSound(rules, entries, x);
    }
    if exists i, j | 0 <= i < |entries| && 0 <= j < |entries[i].1.ruleKeys| ::
        RuleOutcome(rules, entries[i], j) == Some(x) {
      var i, j :| 0 <= i < |entries| && 0 <= j < |entries[i].1.ruleKeys| && RuleOutcome(rules, entries[i], j) == Some(x);
      ValidateComplete(rules, entries, i, j);
    }
  }

  /** Every reported error comes from some failing (field, rule) pair. */
  lemma {:induction false} ValidateSound(rules: Rules, entries: seq<Entry>, x: FieldError)
    requires Covered(rules, entries) && x in Validate(rules, entries)
    ensures exists i, j | 0 <= i < |entries| && 0 <= j < |entries[i].1.ruleKeys| ::
        RuleOutcome(rules, entries[i], j) == Some(x)
  {
    var init := entries[..|entries| - 1];
    var last := entries[|entries| - 1];
    assert EntryCovered(rules, last);
    if x !in Validate(rules, init) {
      FieldErrorsSound(rules, last, |last.1.ruleKeys|, x);
      var j :| 0 <= j < |last.1.ruleKeys| && RuleOutcome(rules, last, j) == Some(x);
      assert RuleOutcome(rules, entries[|entries| - 1], j) == Some(x);
    } else {
      ValidateSound(rules, init, x);
      var i, j :| 0 <= i < |init| && 0 <= j < |init[i].1.ruleKeys| && RuleOutcome(rules, init[i], j) == Some(x);
      assert init[i] == entries[i];
    }
  }

  /** Every failing (field, rule) pair is reported. */
  lemma {:induction false} ValidateComplete(rules: Rules, entries: seq<Entry>, i: nat, j: nat)
    requires Covered(rules, entries) && i < |entries| && j < |entries[i].1.ruleKeys|
    requires RuleOutcome(rules, entries[i], j).Some?
    ensures RuleOutcome(rules, entries[i], j).value in Validate(rules, entries)
  {
    var init := entries[..|entries| - 1];
    var last := entries[|entries| - 1];
    assert EntryCovered(rules, last);
    if i == |entries| - 1 {
      FieldErrorsContains(rules, last, |last.1.ruleKeys|, j);
    } else {
      assert init[i] == entries[i];
      ValidateComplete(rules, init, i, j);
    }
  }

  /** Entries are checked independently: validating two batches is validating each in turn. */
  lemma {:induction false} ValidateConcat(rules: Rules, a: seq<Entry>, b: seq<Entry>)
    requires Covered(rules, a) && Covered(rules, b)
    ensures Covered(rules, a + b)
    ensures Validate(rules, a + b) == Validate(rules, a) + Validate(rules, b)
  {
    assert Covered(rules, a + b) by {
      forall i, j | 0 <= i < |a + b| && 0 <= j < |(a + b)[i].1.ruleKeys|
        ensures (a + b)[i].1.ruleKeys[j] in rules
      {
        if i >= |a| {
          assert (a + b)[i] == b[i - |a|];
        }
      }
    }
    if |b| > 0 {
      var b' := b[..|b| - 1];
      assert (a + b)[..|a + b| - 1] == a + b';
      assert (a + b)[|a + b| - 1] == b[|b| - 1];
      ValidateConcat(rules, a, b');
    } else {
      assert a + b == a;
    }
  }

  // ---------------------------------------------------------------------------
  // The examples of the validator's own tests

  const TestRules: Rules := map[
    "require" := Required,
    "length" := Length(15),
    "email" := Email,
    "password" := Password(4)]

  lemma EmailExamples()
    ensures Apply(Email, "email", Str("test@email.com")).None?
    ensures Apply(Email, "email", Str("testemail.com")).Some?
  {
    var s := "test@email.com";
    assert LabelEnd(s, 14) == 14;
    assert LabelEnd(s, 11) == 14;
    assert LabelEnd(s, 10) == 10;
    assert LabelEnd(s, 5) == 10;
    assert TldAt(s, 11);
    assert DomainAt(s, 5);
    assert EmailAt(s, 4);
    EmailNeedsAt("email", "testemail.com");
  }

  lemma PasswordExamples()
    ensures Apply(Password(4), "password", Str("Test1_")).None?
    ensures Apply(Password(4), "password", Str("test")) == Some(FieldError("password", WeakPassword(4)))
    ensures Apply(Password(8), "password", Str("Str0ng!Pass")).None?
    ensures Apply(Password(4), "password", Str("Abc123!.")).None?
    ensures Apply(Password(8), "password", Str("password")).Some?
  {
    TestPasswordIsStrong();
    LowercaseOnlyIsWeak("test", 4);
    StrongExample("Str0ng!Pass", 8);
    StrongExample("Abc123!.", 4);
    LowercaseOnlyIsWeak("password", 8);
  }

  lemma TestPasswordIsStrong()
    ensures StrongPassword("Test1_", 4)
  {
    var t := "Test1_";
    ByteLenBounds(t);
    assert Classify(t[0]) == Upper && Classify(t[1]) == Lower;
    assert Classify(t[4]) == Number && Classify(t[5]) == Special;
  }

  /** Both longer examples have upper, lower and number at 0, 1, 3 and a special character at 6. */
  lemma StrongExample(p: string, min: int)
    requires p == "Str0ng!Pass" || p == "Abc123!."
    requires min <= 8
    ensures StrongPassword(p, min)
  {
    ByteLenBounds(p);
    assert Classify(p[0]) == Upper && Classify(p[1]) == Lower;
    assert Classify(p[3]) == Number && Classify(p[6]) == Special;
  }

  lemma LowercaseOnlyIsWeak(w: string, min: int)
    requires w == "test" || w == "password"
    ensures !StrongPassword(w, min)
  {
    assert forall i | 0 <= i < |w| :: Classify(w[i]) != Upper;
  }

  const ValidName: Entry := ("name", Check(Str("John"), ["require", "length"]))
  const ValidEmail: Entry := ("email", Check(Str("test@email.com"), ["require", "email", "length"]))
  const ValidPassword: Entry := ("password", Check(Str("Test1_"), ["require", "password"]))

  predicate ValidTestEntry(e: Entry) {
    e == ValidName || e == ValidEmail || e == ValidPassword
  }

  lemma ValidNamePasses()
    ensures forall j | 0 <= j < |ValidName.1.ruleKeys| :: RuleOutcome(TestRules, ValidName, j).None?
  {
    ByteLenBounds("John");
    assert RuleOutcome(TestRules, ValidName, 0).None?;
    assert RuleOutcome(TestRules, ValidName, 1).None?;
  }

  lemma ValidEmailPasses()
    ensures forall j | 0 <= j < |ValidEmail.1.ruleKeys| :: RuleOutcome(TestRules, ValidEmail, j).None?
  {
    ValidEmailIsEmail();
    ValidEmailIsShort();
    assert |ValidEmail.1.ruleKeys| == 3;
  }

  lemma ValidEmailIsEmail()
    ensures RuleOutcome(TestRules, ValidEmail, 1).None?
  {
    EmailExamples();
  }

  lemma ValidEmailIsShort()
    ensures RuleOutcome(TestRules, ValidEmail, 2).None?
  {
    ByteLenBounds("test@email.com");
  }

  lemma ValidPasswordPasses()
    ensures forall j | 0 <= j < |ValidPassword.1.ruleKeys| :: RuleOutcome(TestRules, ValidPassword, j).None?
  {
    PasswordExamples();
    assert RuleOutcome(TestRules, ValidPassword, 0).None?;
    assert RuleOutcome(TestRules, ValidPassword, 1).None?;
  }

  /** The passing fields of the first test, in any iteration order and any number, give nil. */
  lemma ValidTestDataPasses(entries: seq<Entry>)
    requires forall i | 0 <= i < |entries| :: ValidTestEntry(entries[i])
    ensures Covered(TestRules, entries)
    ensures Validate(TestRules, entries) == []
  {
    forall i | 0 <= i < |entries|
      ensures EntryCovered(TestRules, entries[i])
      ensures forall j | 0 <= j < |entries[i].1.ruleKeys| :: RuleOutcome(TestRules, entries[i], j).None?
    {
      ValidEntryPasses(entries[i]);
    }
  }

  lemma ValidEntryPasses(e: Entry)
    requires ValidTestEntry(e)
    ensures EntryCovered(TestRules, e)
    ensures forall j | 0 <= j < |e.1.ruleKeys| :: RuleOutcome(TestRules, e, j).None?
  {
    if e == ValidName {
      ValidNamePasses();
    } else if e == ValidEmail {
      ValidEmailPasses();
    } else {
      ValidPasswordPasses();
    }
  }

  /** Each failing field of the second test fails exactly one rule, so every order gives four errors. */
  lemma InvalidTestDataGivesFourErrors(entries: seq<Entry>)
    requires |entries| == 4
    requires forall i | 0 <= i < |entries| ::
      || entries[i] == ("name", Check(Str(""), ["require"]))
      || entries[i] == ("drink", Check(Str("someGoodIceCoffee"), ["length"]))
      || entries[i] == ("email", Check(Str("testemail.com"), ["email"]))
      || entries[i] == ("password", Check(Str("test"), ["password"]))
    ensures Covered(TestRules, entries)
    ensures |Validate(TestRules, entries)| == 4
  {
    forall i | 0 <= i < |entries|
      ensures |entries[i].1.ruleKeys| == 1 && EntryCovered(TestRules, entries[i])
      ensures FailingRules(TestRules, entries[i], 1) == {0}
    {
      InvalidEntryFailsOnce(entries[i]);
    }
    OneFailurePerEntry(TestRules, entries);
    ValidateCount(TestRules, entries);
  }

  lemma InvalidEntryFailsOnce(e: Entry)
    requires
      || e == ("name", Check(Str(""), ["require"]))
      || e == ("drink", Check(Str("someGoodIceCoffee"), ["length"]))
      || e == ("email", Check(Str("testemail.com"), ["email"]))
      || e == ("password", Check(Str("test"), ["password"]))
    ensures |e.1.ruleKeys| == 1 && EntryCovered(TestRules, e)
    ensures FailingRules(TestRules, e, 1) == {0}
  {
    if e.0 == "drink" {
      ByteLenBounds("someGoodIceCoffee");
    } else if e.0 == "email" {
      EmailExamples();
    } else if e.0 == "password" {
      PasswordExamples();
    }
    assert RuleOutcome(TestRules, e, 0).Some?;
  }

  lemma {:induction false} OneFailurePerEntry(rules: Rules, entries: seq<Entry>)
    requires Covered(rules, entries)
    requires forall i | 0 <= i < |entries| ::
      |entries[i].1.ruleKeys| == 1 && FailingRules(rules, entries[i], 1) == {0}
    ensures FailingPairs(rules, entries) == |entries|
  {
    if |entries| > 0 {
      OneFailurePerEntry(rules, entries[..|entries| - 1]);
    }
  }
}
