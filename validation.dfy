/**
 * Laravel's validator, reduced to the rules the backend's request classes use.
 * A rule table maps each attribute to its rules in order; validating a request
 * collects, per attribute, the rules that failed.  Checks the framework does
 * itself (the e-mail format, image MIME detection, the `users` lookup behind
 * `unique`) are parameters.
 */
module Validation {
  import opened Php

  /** An uploaded file: its bytes and its detected MIME type. */
  datatype UploadedFile = UploadedFile(bytes: seq<byte>, mime: string)

  /** A request value: JSON null, a string, or an uploaded file. */
  datatype Value = Null | Text(s: string) | File(file: UploadedFile)

  /** The request's input: attribute name to value; an absent key is a missing field. */
  type Input = map<string, Value>

  datatype Rule =
    | Required
    | Nullable
    | IsString
    | Max(limit: nat)
    | Min(limit: nat)
    | Email
    | Unique(table: string)
    | Confirmed
    | Image

  /** Framework checks the model leaves abstract. */
  datatype Checks = Checks(
    isEmail: string -> bool,
    isImage: UploadedFile -> bool,
    taken: string -> bool)

  type RuleTable = seq<(string, seq<Rule>)>

  /** The failed rules of each attribute that has any. */
  type Errors = map<string, seq<Rule>>

  /** `Arr::get($data, $attribute)`: a missing attribute reads as null. */
  function Lookup(input: Input, attr: string): Value {
    if attr in input then input[attr] else Null
  }

  /** Only `required` is an implicit rule among those used here. */
  predicate Implicit(r: Rule) {
    r.Required?
  }

  /**
   * Whether rule r is checked at all for attr (Laravel's isValidatable), given
   * whether an earlier rule of attr has already failed.
   */
  predicate Validatable(r: Rule, attr: string, rules: seq<Rule>, failedBefore: bool, input: Input) {
    var v := Lookup(input, attr);
    // presentOrRuleIsImplicit: a blank string counts as absent for non-implicit rules
    && (if v.Text? && Trim(v.s) == "" then Implicit(r) else attr in input || Implicit(r))
    // isNotNullIfMarkedAsNullable
    && (Implicit(r) || Nullable !in rules || !v.Null?)
    // hasNotFailedPreviousRuleIfPresenceRule: `unique` is skipped once the attribute has an error
    && !(r.Unique? && failedBefore)
  }

  /** Whether value v of attr satisfies rule r. */
  predicate Passes(r: Rule, attr: string, v: Value, input: Input, checks: Checks) {
    match r
    case Required =>
      (match v
       case Null => false
       case Text(s) => Trim(s) != ""
       case File(_) => true)
    case Nullable => true
    case IsString => v.Text?
    case Max(n) =>
      (match v
       case Null => true
       case Text(s) => |s| <= n
       case File(f) => |f.bytes| <= n * 1024)
    case Min(n) =>
      (match v
       case Null => n == 0
       case Text(s) => |s| >= n
       case File(f) => |f.bytes| >= n * 1024)
    case Email => v.Text? && checks.isEmail(v.s)
    case Unique(_) => !(v.Text? && checks.taken(v.s))
    case Confirmed => (v.Text? || v.Null?) && Lookup(input, attr + "_confirmation") == v
    case Image => v.File? && checks.isImage(v.file)
  }

  /**
   * The failed rules among rules[k..], in order, when `failedBefore` says
   * whether one of rules[..k] failed; validation of the attribute stops after
   * a failed implicit rule.
   */
  function FailedFrom(attr: string, rules: seq<Rule>, k: nat, failedBefore: bool, input: Input, checks: Checks)
    : (failed: seq<Rule>)
    requires k <= |rules|
    ensures forall i :: 0 <= i < |failed| ==> failed[i] in rules[k..]
    decreases |rules| - k
  {
    if k == |rules| then []
    else
      var r := rules[k];
      if Validatable(r, attr, rules, failedBefore, input) && !Passes(r, attr, Lookup(input, attr), input, checks) then
        if Implicit(r) then [r] else [r] + FailedFrom(attr, rules, k + 1, true, input, checks)
      else FailedFrom(attr, rules, k + 1, failedBefore, input, checks)
  }

  /** The failed rules of one attribute. */
  function FailedRules(attr: string, rules: seq<Rule>, input: Input, checks: Checks): seq<Rule> {
    FailedFrom(attr, rules, 0, false, input, checks)
  }

  /** The attributes a rule table names. */
  function Attributes(table: RuleTable): set<string> {
    if table == [] then {} else {table[0].0} + Attributes(table[1..])
  }

  /** An attribute is in the table exactly when some entry names it. */
  lemma {:induction false} AttributesNamed(table: RuleTable, a: string)
    ensures a in Attributes(table) <==> exists j :: 0 <= j < |table| && table[j].0 == a
  {
    if table != [] {
      AttributesNamed(table[1..], a);
      if a in Attributes(table[1..]) {
        var j :| 0 <= j < |table[1..]| && table[1..][j].0 == a;
        assert table[j + 1].0 == a;
      }
      if exists j :: 0 <= j < |table| && table[j].0 == a {
        var j :| 0 <= j < |table| && table[j].0 == a;
        if j > 0 { assert table[1..][j - 1].0 == a; }
      }
    }
  }

  /** The errors of a whole table. */
  function ErrorsOf(table: RuleTable, input: Input, checks: Checks): (errors: Errors)
    ensures errors.Keys <= Attributes(table)
    ensures forall a :: a in errors ==> errors[a] != []
  {
    if table == [] then map[]
    else
      var rest := ErrorsOf(table[1..], input, checks);
      var failed := FailedRules(table[0].0, table[0].1, input, checks);
      if failed == [] then rest else rest[table[0].0 := failed]
  }

  /** `$request->validated()`: the input restricted to the attributes that have rules. */
  function Validated(table: RuleTable, input: Input): (v: Input)
    ensures v.Keys == input.Keys * Attributes(table)
    ensures forall a :: a in v ==> v[a] == input[a]
  {
    map a | a in input && a in Attributes(table) :: input[a]
  }

  datatype Outcome = Passed(validated: Input) | Failed(errors: Errors)

  /** Runs the validator over a rule table. */
  function Validate(table: RuleTable, input: Input, checks: Checks): (o: Outcome)
    ensures o.Failed? ==> o.errors != map[] && o.errors.Keys <= Attributes(table)
    ensures o.Passed? ==> o.validated.Keys <= Attributes(table)
  {
    var errors := ErrorsOf(table, input, checks);
    if errors == map[] then Passed(Validated(table, input)) else Failed(errors)
  }

  /** An attribute whose value fails its own rules makes the whole table fail, and is named. */
  lemma {:induction false} FailedAttributeIsReported(table: RuleTable, i: nat, input: Input, checks: Checks)
    requires i < |table|
    requires forall j :: 0 <= j < |table| && j != i ==> table[j].0 != table[i].0
    requires FailedRules(table[i].0, table[i].1, input, checks) != []
    ensures table[i].0 in ErrorsOf(table, input, checks)
    ensures ErrorsOf(table, input, checks)[table[i].0] == FailedRules(table[i].0, table[i].1, input, checks)
  {
    if i > 0 {
      assert table[1..][i - 1] == table[i];
      FailedAttributeIsReported(table[1..], i - 1, input, checks);
    } else {
      AttributesNamed(table[1..], table[0].0);
    }
  }

  /** A table passes exactly when every attribute passes its own rules. */
  lemma {:induction false} PassesIffEveryAttributePasses(table: RuleTable, input: Input, checks: Checks)
    ensures ErrorsOf(table, input, checks) == map[]
            <==> forall i :: 0 <= i < |table| ==> FailedRules(table[i].0, table[i].1, input, checks) == []
  {
    if table != [] {
      PassesIffEveryAttributePasses(table[1..], input, checks);
      var failed := FailedRules(table[0].0, table[0].1, input, checks);
      if failed != [] {
        assert table[0].0 in ErrorsOf(table, input, checks);
      }
      if ErrorsOf(table, input, checks) == map[] {
        assert failed == [];
        forall i | 0 <= i < |table| ensures FailedRules(table[i].0, table[i].1, input, checks) == [] {
          if i > 0 { assert table[i] == table[1..][i - 1]; }
        }
      }
    }
  }
}
