/**
 The condition operators of a policy (control_plane/policy/operators.py).

 Values are JSON with integers for numbers. Regular expressions and globs are library
 work and are parameters.
 */
module Operators {
  import opened Wrappers
  import opened Strings

  datatype Entry = Entry(key: string, value: Value)

  datatype Value =
    | Null
    | Bool(b: bool)
    | Num(n: int)
    | Str(s: string)
    | Arr(items: seq<Value>)
    | Obj(entries: seq<Entry>)

  /** What evaluation may raise: the policy's own error, which the engine catches, or the
      ValueError of a failed integer conversion, which it does not. */
  datatype Raise = PolicyError(message: string) | ValueError

  datatype Patterns = Patterns(
    compiles: string -> bool,
    search: (string, string) -> bool,
    fnmatch: (string, string) -> bool
  )

  const MAX_REGEX_LENGTH := 512

  // --- values ------------------------------------------------------------------------

  function Find(entries: seq<Entry>, key: string): Option<Value> {
    if entries == [] then None
    else if entries[0].key == key then Some(entries[0].value) else Find(entries[1..], key)
  }

  function AsNumber(v: Value): Option<int> {
    match v
    case Num(n) => Some(n)
    case Bool(b) => Some(if b then 1 else 0)
    case _ => None
  }

  /** The source language's equality: True equals 1, and objects ignore key order. */
  predicate Equal(a: Value, b: Value)
    decreases a
  {
    if AsNumber(a).Some? then AsNumber(a) == AsNumber(b)
    else
      match a
      case Null => b.Null?
      case Str(s) => b == a
      case Arr(items) => b.Arr? && |b.items| == |items| && forall i | 0 <= i < |items| :: Equal(items[i], b.items[i])
      case Obj(entries) =>
        && b.Obj? && |b.entries| == |entries|
        && forall i | 0 <= i < |entries| ::
             var other := Find(b.entries, entries[i].key);
             other.Some? && Equal(entries[i].value, other.value)
      case _ => false
  }

  function Keys(entries: seq<Entry>): seq<Value> {
    if entries == [] then [] else [Str(entries[0].key)] + Keys(entries[1..])
  }

  function AsSequence(operand: Value): seq<Value> {
    match operand case Arr(items) => items case Obj(entries) => Keys(entries) case _ => [operand]
  }

  /** An absent value has no elements; a list has its own; anything else is one element. */
  function ValuesOf(observed: Option<Value>): seq<Value> {
    match observed case None => [] case Some(Arr(items)) => items case Some(v) => [v]
  }

  /** Equality, extended so that a dotted ancestor matches its descendants. */
  predicate TokenMatches(value: Value, pattern: Value) {
    Equal(value, pattern) || (value.Str? && pattern.Str? && pattern.s + "." <= value.s)
  }

  // --- operators ---------------------------------------------------------------------

  datatype Op =
    | OpEq | OpNeq | OpIn | OpNotIn | OpAllOf | OpGlob | OpNotGlob | OpRegex | OpExists | OpContains
    | OpStartsWith | OpEndsWith | OpGt | OpGte | OpLt | OpLte | OpCountGte | OpCountLte | OpEmpty

  /** any_of is in under another name, and none_of is not_in. */
  function Lookup(name: string): Option<Op> {
    match name
    case "eq" => Some(OpEq)
    case "neq" => Some(OpNeq)
    case "in" => Some(OpIn)
    case "not_in" => Some(OpNotIn)
    case "any_of" => Some(OpIn)
    case "all_of" => Some(OpAllOf)
    case "none_of" => Some(OpNotIn)
    case "glob" => Some(OpGlob)
    case "not_glob" => Some(OpNotGlob)
    case "regex" => Some(OpRegex)
    case "exists" => Some(OpExists)
    case "contains" => Some(OpContains)
    case "startswith" => Some(OpStartsWith)
    case "endswith" => Some(OpEndsWith)
    case "gt" => Some(OpGt)
    case "gte" => Some(OpGte)
    case "lt" => Some(OpLt)
    case "lte" => Some(OpLte)
    case "count_gte" => Some(OpCountGte)
    case "count_lte" => Some(OpCountLte)
    case "empty" => Some(OpEmpty)
    case _ => None
  }

  predicate InOp(observed: Option<Value>, operand: Value) {
    exists v, p :: v in ValuesOf(observed) && p in AsSequence(operand) && TokenMatches(v, p)
  }

  predicate AllOfOp(observed: Option<Value>, operand: Value) {
    && ValuesOf(observed) != []
    && forall p :: p in AsSequence(operand) ==> exists v :: v in ValuesOf(observed) && TokenMatches(v, p)
  }

  predicate GlobOp(e: Patterns, observed: Option<Value>, operand: Value) {
    exists v, p :: v in ValuesOf(observed) && p in AsSequence(operand) && v.Str? && p.Str? && e.fnmatch(v.s, p.s)
  }

  predicate Substring(needle: string, s: string) {
    exists i :: 0 <= i <= |s| && needle <= s[i..]
  }

  predicate Prefix(prefix: string, s: string) {
    prefix <= s
  }

  predicate Suffix(suffix: string, s: string) {
    |suffix| <= |s| && s[|s| - |suffix|..] == suffix
  }

  /** Some string element stands in the relation to some string of the operand. */
  predicate SomeStrings(observed: Option<Value>, operand: Value, related: (string, string) -> bool) {
    exists v, p :: v in ValuesOf(observed) && p in AsSequence(operand) && v.Str? && p.Str? && related(p.s, v.s)
  }

  function Compile(e: Patterns, operand: Value): Result<string, Raise> {
    if !operand.Str? then Err(PolicyError("needs a string pattern"))
    else if |operand.s| > MAX_REGEX_LENGTH then Err(PolicyError("pattern too long"))
    else if !e.compiles(operand.s) then Err(PolicyError("invalid regex"))
    else Ok(operand.s)
  }

  function Numeric(operand: Value): Result<int, Raise> {
    if operand.Num? then Ok(operand.n) else Err(PolicyError("needs a number"))
  }

  predicate AnyNumber(values: seq<Value>, threshold: int, test: (int, int) -> bool) {
    exists v :: v in values && v.Num? && test(v.n, threshold)
  }

  /** Elements that are no numbers are skipped; a missing value is never compared. */
  function Compare(observed: Option<Value>, operand: Value, test: (int, int) -> bool): Result<bool, Raise> {
    if observed == None then Ok(false)
    else
      var threshold :- Numeric(operand);
      Ok(AnyNumber(ValuesOf(observed), threshold, test))
  }

  method CompareLoop(observed: Option<Value>, operand: Value, test: (int, int) -> bool) returns (r: Result<bool, Raise>)
    ensures r == Compare(observed, operand, test)
  {
    if observed == None {
      return Ok(false);
    }
    var threshold := Numeric(operand);
    if threshold.Err? {
      return Err(threshold.error);
    }
    var values := ValuesOf(observed);
    for i := 0 to |values|
      invariant !AnyNumber(values[..i], threshold.value, test)
    {
      var item := Numeric(values[i]);
      assert values[..i + 1] == values[..i] + [values[i]];
      if item.Ok? && test(item.value, threshold.value) {
        assert values[i] in values;
        return Ok(true);
      }
    }
    assert values[..|values|] == values;
    r := Ok(false);
  }

  predicate Above(a: int, b: int) {
    a > b
  }

  predicate AtLeast(a: int, b: int) {
    a >= b
  }

  predicate Below(a: int, b: int) {
    a < b
  }

  predicate AtMost(a: int, b: int) {
    a <= b
  }

  function Apply(e: Patterns, op: Op, observed: Option<Value>, operand: Value): Result<bool, Raise> {
    match op
    case OpEq => Ok(observed.Some? && Equal(observed.value, operand))
    case OpNeq => Ok(observed == None || !Equal(observed.value, operand))
    case OpIn => Ok(InOp(observed, operand))
    case OpNotIn => Ok(!InOp(observed, operand))
    case OpAllOf => Ok(AllOfOp(observed, operand))
    case OpGlob => Ok(GlobOp(e, observed, operand))
    case OpNotGlob => Ok(!GlobOp(e, observed, operand))
    case OpRegex =>
      var pattern :- Compile(e, operand);
      Ok(exists v :: v in ValuesOf(observed) && v.Str? && e.search(pattern, v.s))
    case OpExists =>
      if !operand.Bool? then Err(PolicyError("needs a boolean"))
      else Ok((observed.Some? && observed.value != Null) == operand.b)
    case OpContains => Ok(SomeStrings(observed, operand, Substring))
    case OpStartsWith => Ok(SomeStrings(observed, operand, Prefix))
    case OpEndsWith => Ok(SomeStrings(observed, operand, Suffix))
    case OpGt => Compare(observed, operand, Above)
    case OpGte => Compare(observed, operand, AtLeast)
    case OpLt => Compare(observed, operand, Below)
    case OpLte => Compare(observed, operand, AtMost)
    case OpCountGte =>
      var n :- Numeric(operand);
      Ok(|ValuesOf(observed)| >= n)
    case OpCountLte =>
      var n :- Numeric(operand);
      Ok(|ValuesOf(observed)| <= n)
    case OpEmpty =>
      if !operand.Bool? then Err(PolicyError("needs a boolean")) else Ok((ValuesOf(observed) == []) == operand.b)
  }

  function ApplyOperator(e: Patterns, name: string, observed: Option<Value>, operand: Value): Result<bool, Raise> {
    match Lookup(name)
    case None => Err(PolicyError("unknown operator " + name))
    case Some(op) => Apply(e, op, observed, operand)
  }

  // --- validation ----------------------------------------------------------------------

  datatype Test = Test(operator: string, operand: Value)

  /** What authoring checks of one operator and its operand. */
  function CheckTest(e: Patterns, t: Test): Result<(), Raise> {
    var op := Lookup(t.operator);
    if op == None then Err(PolicyError("unknown operator " + t.operator))
    else if op.value.OpRegex? then
      var _ :- Compile(e, t.operand);
      Ok(())
    else if (op.value.OpExists? || op.value.OpEmpty?) && !t.operand.Bool? then Err(PolicyError("needs a boolean operand"))
    else if op.value in {OpGt, OpGte, OpLt, OpLte, OpCountGte, OpCountLte} then
      var _ :- Numeric(t.operand);
      Ok(())
    else Ok(())
  }

  /** A condition is a non-empty list of tests that all check. */
  function CheckTests(e: Patterns, tests: seq<Test>): Result<(), Raise> {
    if tests == [] then Ok(())
    else
      var _ :- CheckTest(e, tests[0]);
      CheckTests(e, tests[1..])
  }

  function ValidateCondition(e: Patterns, tests: seq<Test>): Result<(), Raise> {
    if tests == [] then Err(PolicyError("must be a non-empty object")) else CheckTests(e, tests)
  }

  method ValidateConditionLoop(e: Patterns, tests: seq<Test>) returns (r: Result<(), Raise>)
    ensures r == ValidateCondition(e, tests)
  {
    if tests == [] {
      return Err(PolicyError("must be a non-empty object"));
    }
    for i := 0 to |tests|
      invariant CheckTests(e, tests) == CheckTests(e, tests[i..])
    {
      assert tests[i..][1..] == tests[i + 1..];
      var checked := CheckTest(e, tests[i]);
      if checked.Err? {
        return checked;
      }
    }
    r := Ok(());
  }

  /** What authoring accepts never raises at decision time; and an operand authoring
      rejects does raise, for any value that is present. */
  lemma CheckedTestsNeverRaise(e: Patterns, t: Test)
    ensures CheckTest(e, t).Ok? ==> forall observed :: ApplyOperator(e, t.operator, observed, t.operand).Ok?
    ensures CheckTest(e, t).Err? ==>
              forall observed: Option<Value> | observed.Some? :: ApplyOperator(e, t.operator, observed, t.operand).Err?
  {}

  // --- what the operators mean -------------------------------------------------------------

  /** One of the observed value's elements: a list's own, or the value itself. */
  ghost predicate Element(observed: Option<Value>, v: Value) {
    observed.Some? && match observed.value case Arr(items) => v in items case whole => v == whole
  }

  /** One of the alternatives an operand lists; an object lists its keys. */
  ghost predicate Alternative(operand: Value, p: Value) {
    match operand
    case Arr(items) => p in items
    case Obj(entries) => exists x :: x in entries && p == Str(x.key)
    case whole => p == whole
  }

  /** Equal, or a label beneath: the pattern, a dot, and more. */
  ghost predicate EqualOrBeneath(v: Value, p: Value) {
    Equal(v, p) || (v.Str? && p.Str? && exists more: string :: v.s == p.s + "." + more)
  }

  ghost predicate SomeAmong(observed: Option<Value>, operand: Value) {
    exists v, p :: Element(observed, v) && Alternative(operand, p) && EqualOrBeneath(v, p)
  }

  ghost predicate AllCovered(observed: Option<Value>, operand: Value) {
    && (exists v :: Element(observed, v))
    && forall p | Alternative(operand, p) :: exists v :: Element(observed, v) && EqualOrBeneath(v, p)
  }

  ghost predicate SomeGlobbed(e: Patterns, observed: Option<Value>, operand: Value) {
    exists v: string, p: string :: Element(observed, Str(v)) && Alternative(operand, Str(p)) && e.fnmatch(v, p)
  }

  /** Some string element is one of the operand's strings between these two texts. */
  ghost predicate SomeSpells(observed: Option<Value>, operand: Value, before: bool, after: bool) {
    exists a: string, p: string, b: string ::
      Alternative(operand, Str(p)) && Element(observed, Str(a + p + b)) && (a == "" || before) && (b == "" || after)
  }

  ghost predicate SomeNumber(observed: Option<Value>, low: Option<int>, high: Option<int>) {
    exists n :: Element(observed, Num(n)) && (low.Some? ==> low.value <= n) && (high.Some? ==> n <= high.value)
  }

  function Size(observed: Option<Value>): nat {
    if observed == None then 0 else if observed.value.Arr? then |observed.value.items| else 1
  }

  const ANY_OPERAND := {"eq", "neq", "in", "not_in", "any_of", "all_of", "none_of", "glob", "not_glob",
                        "contains", "startswith", "endswith"}
  const NUMBER_OPERAND := {"gt", "gte", "lt", "lte", "count_gte", "count_lte"}

  /** The operators there are, and the operands each of them takes. */
  ghost predicate TakesOperand(e: Patterns, name: string, operand: Value) {
    || name in ANY_OPERAND
    || (name in NUMBER_OPERAND && operand.Num?)
    || ((name == "exists" || name == "empty") && operand.Bool?)
    || (name == "regex" && operand.Str? && |operand.s| <= 512 && e.compiles(operand.s))
  }

  /** What each operator says of the value observed. */
  ghost predicate Asserts(e: Patterns, name: string, observed: Option<Value>, operand: Value) {
    if name == "eq" then observed.Some? && Equal(observed.value, operand)
    else if name == "neq" then !(observed.Some? && Equal(observed.value, operand))
    else if name == "in" || name == "any_of" then SomeAmong(observed, operand)
    else if name == "not_in" || name == "none_of" then !SomeAmong(observed, operand)
    else if name == "all_of" then AllCovered(observed, operand)
    else if name == "glob" then SomeGlobbed(e, observed, operand)
    else if name == "not_glob" then !SomeGlobbed(e, observed, operand)
    else if name == "contains" then SomeSpells(observed, operand, true, true)
    else if name == "startswith" then SomeSpells(observed, operand, false, true)
    else if name == "endswith" then SomeSpells(observed, operand, true, false)
    else if name == "regex" then operand.Str? && exists v: string :: Element(observed, Str(v)) && e.search(operand.s, v)
    else if name == "exists" then operand.Bool? && ((observed.Some? && observed.value != Null) <==> operand.b)
    else if name == "empty" then operand.Bool? && (!(exists v :: Element(observed, v)) <==> operand.b)
    else if name == "gt" then operand.Num? && SomeNumber(observed, Some(operand.n + 1), None)
    else if name == "gte" then operand.Num? && SomeNumber(observed, Some(operand.n), None)
    else if name == "lt" then operand.Num? && SomeNumber(observed, None, Some(operand.n - 1))
    else if name == "lte" then operand.Num? && SomeNumber(observed, None, Some(operand.n))
    else if name == "count_gte" then operand.Num? && Size(observed) >= operand.n
    else if name == "count_lte" then operand.Num? && Size(observed) <= operand.n
    else false
  }

  /** Authoring accepts exactly the operators there are, on the operands they take. */
  lemma CheckedIff(e: Patterns, t: Test)
    ensures CheckTest(e, t).Ok? <==> TakesOperand(e, t.operator, t.operand)
  {}

  lemma ElementsAre(observed: Option<Value>)
    ensures forall v :: v in ValuesOf(observed) <==> Element(observed, v)
    ensures |ValuesOf(observed)| == Size(observed)
  {}

  lemma {:induction false} KeysAre(entries: seq<Entry>)
    ensures forall p :: p in Keys(entries) <==> exists x :: x in entries && p == Str(x.key)
  {
    if entries != [] {
      KeysAre(entries[1..]);
      assert forall x :: x in entries <==> x == entries[0] || x in entries[1..];
    }
  }

  lemma AlternativesAre(operand: Value)
    ensures forall p :: p in AsSequence(operand) <==> Alternative(operand, p)
  {
    if operand.Obj? {
      KeysAre(operand.entries);
    }
  }

  lemma TokenMeans(v: Value, p: Value)
    ensures TokenMatches(v, p) <==> EqualOrBeneath(v, p)
  {
    hide Equal;
    if v.Str? && p.Str? && p.s + "." <= v.s {
      assert v.s == p.s + "." + v.s[|p.s| + 1..];
    }
  }

  ghost predicate Spelled(s: string, a: string, p: string, b: string) {
    s == a + p + b
  }

  lemma SubstringMeans(p: string, s: string)
    ensures Substring(p, s) <==> exists a, b :: Spelled(s, a, p, b)
  {
    if i :| 0 <= i <= |s| && p <= s[i..] {
      assert Spelled(s, s[..i], p, s[i + |p|..]);
    }
    forall a, b | Spelled(s, a, p, b) ensures Substring(p, s) {
      assert s[|a|..] == p + b;
    }
  }

  lemma PrefixMeans(p: string, s: string)
    ensures Prefix(p, s) <==> exists b :: Spelled(s, "", p, b)
  {
    if p <= s {
      assert Spelled(s, "", p, s[|p|..]);
    }
  }

  lemma SuffixMeans(p: string, s: string)
    ensures Suffix(p, s) <==> exists a :: Spelled(s, a, p, "")
  {
    if Suffix(p, s) {
      assert Spelled(s, s[..|s| - |p|], p, "");
    }
  }

  lemma InMeans(observed: Option<Value>, operand: Value)
    ensures InOp(observed, operand) <==> SomeAmong(observed, operand)
    ensures AllOfOp(observed, operand) <==> AllCovered(observed, operand)
  {
    hide TokenMatches, ValuesOf, AsSequence, Element, Alternative, EqualOrBeneath;
    ElementsAre(observed);
    AlternativesAre(operand);
    forall v, p ensures TokenMatches(v, p) <==> EqualOrBeneath(v, p) {
      TokenMeans(v, p);
    }
    if ValuesOf(observed) != [] {
      assert Element(observed, ValuesOf(observed)[0]);
    }
  }

  lemma GlobMeans(e: Patterns, observed: Option<Value>, operand: Value)
    ensures GlobOp(e, observed, operand) <==> SomeGlobbed(e, observed, operand)
  {
    hide ValuesOf, AsSequence, Element, Alternative;
    ElementsAre(observed);
    AlternativesAre(operand);
    if v, p :| v in ValuesOf(observed) && p in AsSequence(operand) && v.Str? && p.Str? && e.fnmatch(v.s, p.s) {
      assert Element(observed, Str(v.s)) && Alternative(operand, Str(p.s));
    }
  }

  /** The relation between a string of the operand and a string element, spelled out. */
  lemma StringsMean(observed: Option<Value>, operand: Value, related: (string, string) -> bool, before: bool, after: bool)
    requires forall p, s :: related(p, s) <==>
               exists a, b :: Spelled(s, a, p, b) && (a == "" || before) && (b == "" || after)
    ensures SomeStrings(observed, operand, related) <==> SomeSpells(observed, operand, before, after)
  {
    hide ValuesOf, AsSequence, Element, Alternative;
    ElementsAre(observed);
    AlternativesAre(operand);
    if v, p :| v in ValuesOf(observed) && p in AsSequence(operand) && v.Str? && p.Str? && related(p.s, v.s) {
      var a, b :| Spelled(v.s, a, p.s, b) && (a == "" || before) && (b == "" || after);
      assert Alternative(operand, Str(p.s)) && Element(observed, Str(a + p.s + b));
    }
    if a, p, b :| Alternative(operand, Str(p)) && Element(observed, Str(a + p + b)) && (a == "" || before) && (b == "" || after) {
      assert Spelled(a + p + b, a, p, b) && related(p, a + p + b);
      assert Str(a + p + b) in ValuesOf(observed) && Str(p) in AsSequence(operand);
    }
  }

  lemma NumbersMean(observed: Option<Value>, operand: Value, test: (int, int) -> bool, low: Option<int>, high: Option<int>)
    requires operand.Num?
    requires forall n :: test(n, operand.n) <==> (low.Some? ==> low.value <= n) && (high.Some? ==> n <= high.value)
    ensures Compare(observed, operand, test) == Ok(SomeNumber(observed, low, high))
  {
    hide Element;
    ElementsAre(observed);
    assert observed == None ==> ValuesOf(observed) == [];
    if v :| v in ValuesOf(observed) && v.Num? && test(v.n, operand.n) {
      assert Element(observed, Num(v.n));
    }
    if n :| Element(observed, Num(n)) && (low.Some? ==> low.value <= n) && (high.Some? ==> n <= high.value) {
      assert Num(n) in ValuesOf(observed);
    }
  }

  ghost predicate Means(e: Patterns, name: string, observed: Option<Value>, operand: Value) {
    ApplyOperator(e, name, observed, operand) == Ok(Asserts(e, name, observed, operand))
  }

  lemma MembershipMeans(e: Patterns, name: string, observed: Option<Value>, operand: Value)
    requires name in {"eq", "neq", "in", "not_in", "any_of", "all_of", "none_of"}
    ensures Means(e, name, observed, operand)
  {
    hide InOp, AllOfOp, SomeAmong, AllCovered, Equal;
    InMeans(observed, operand);
  }

  lemma TextMeans(e: Patterns, name: string, observed: Option<Value>, operand: Value)
    requires name in {"glob", "not_glob", "contains", "startswith", "endswith"}
    ensures Means(e, name, observed, operand)
  {
    hide GlobOp, SomeStrings, SomeGlobbed, SomeSpells, Prefix, Substring, Suffix;
    GlobMeans(e, observed, operand);
    StringOperatorsMean(observed, operand);
  }

  lemma OrderMeans(e: Patterns, name: string, observed: Option<Value>, operand: Value)
    requires name in {"gt", "gte", "lt", "lte"} && operand.Num?
    ensures Means(e, name, observed, operand)
  {
    hide Compare, SomeNumber, Above, AtLeast, Below, AtMost;
    ComparisonsMean(observed, operand);
  }

  lemma PatternMeans(e: Patterns, name: string, observed: Option<Value>, operand: Value)
    requires name in {"regex"} && operand.Str? && |operand.s| <= MAX_REGEX_LENGTH && e.compiles(operand.s)
    ensures Means(e, name, observed, operand)
  {
    hide Element, ValuesOf;
    RegexMeans(e, observed, operand);
  }

  lemma PresenceMeans(e: Patterns, name: string, observed: Option<Value>, operand: Value)
    requires name in {"exists", "empty"} && operand.Bool?
    ensures Means(e, name, observed, operand)
  {
    hide Element, ValuesOf;
    ElementsAre(observed);
    assert ValuesOf(observed) != [] ==> Element(observed, ValuesOf(observed)[0]);
  }

  lemma CountMeans(e: Patterns, name: string, observed: Option<Value>, operand: Value)
    requires name in {"count_gte", "count_lte"} && operand.Num?
    ensures Means(e, name, observed, operand)
  {
    hide ValuesOf, Size;
    ElementsAre(observed);
  }

  /** Every operator there is, on every value and every operand it takes. */
  lemma OperatorsMean(e: Patterns, name: string, observed: Option<Value>, operand: Value)
    requires TakesOperand(e, name, operand)
    ensures ApplyOperator(e, name, observed, operand) == Ok(Asserts(e, name, observed, operand))
  {
    hide ApplyOperator, Asserts;
    if name in {"eq", "neq", "in", "not_in", "any_of", "all_of", "none_of"} {
      MembershipMeans(e, name, observed, operand);
    } else if name in ANY_OPERAND {
      TextMeans(e, name, observed, operand);
    } else if name in {"gt", "gte", "lt", "lte"} {
      OrderMeans(e, name, observed, operand);
    } else if name == "regex" {
      PatternMeans(e, name, observed, operand);
    } else if name in {"exists", "empty"} {
      PresenceMeans(e, name, observed, operand);
    } else {
      CountMeans(e, name, observed, operand);
    }
  }

  lemma ComparisonsMean(observed: Option<Value>, operand: Value)
    requires operand.Num?
    ensures Compare(observed, operand, Above) == Ok(SomeNumber(observed, Some(operand.n + 1), None))
    ensures Compare(observed, operand, AtLeast) == Ok(SomeNumber(observed, Some(operand.n), None))
    ensures Compare(observed, operand, Below) == Ok(SomeNumber(observed, None, Some(operand.n - 1)))
    ensures Compare(observed, operand, AtMost) == Ok(SomeNumber(observed, None, Some(operand.n)))
  {
    hide Compare, SomeNumber;
    NumbersMean(observed, operand, Above, Some(operand.n + 1), None);
    NumbersMean(observed, operand, AtLeast, Some(operand.n), None);
    NumbersMean(observed, operand, Below, None, Some(operand.n - 1));
    NumbersMean(observed, operand, AtMost, None, Some(operand.n));
  }

  lemma StringOperatorsMean(observed: Option<Value>, operand: Value)
    ensures SomeStrings(observed, operand, Substring) <==> SomeSpells(observed, operand, true, true)
    ensures SomeStrings(observed, operand, Prefix) <==> SomeSpells(observed, operand, false, true)
    ensures SomeStrings(observed, operand, Suffix) <==> SomeSpells(observed, operand, true, false)
  {
    hide SomeStrings, SomeSpells, Substring, Prefix, Suffix, Spelled;
    forall p, s
      ensures Substring(p, s) <==> exists a, b :: Spelled(s, a, p, b)
      ensures Prefix(p, s) <==> exists b :: Spelled(s, "", p, b)
      ensures Suffix(p, s) <==> exists a :: Spelled(s, a, p, "")
    {
      SubstringMeans(p, s);
      PrefixMeans(p, s);
      SuffixMeans(p, s);
    }
    StringsMean(observed, operand, Substring, true, true);
    StringsMean(observed, operand, Prefix, false, true);
    StringsMean(observed, operand, Suffix, true, false);
  }

  lemma RegexMeans(e: Patterns, observed: Option<Value>, operand: Value)
    requires operand.Str?
    ensures (exists v :: v in ValuesOf(observed) && v.Str? && e.search(operand.s, v.s)) <==>
            exists v: string :: Element(observed, Str(v)) && e.search(operand.s, v)
  {
    hide Element, ValuesOf;
    ElementsAre(observed);
    if v :| v in ValuesOf(observed) && v.Str? && e.search(operand.s, v.s) {
      assert Element(observed, Str(v.s));
    }
  }

  // --- selectors -------------------------------------------------------------------------

  /** A dotted path's segments. */
  function Segments(path: string): (r: seq<string>)
    ensures r != []
  {
    if path == "" then [""]
    else
      var rest := Segments(path[1..]);
      if path[0] == '.' then [""] + rest else [[path[0]] + rest[0]] + rest[1..]
  }

  function StripDashes(s: string): string {
    if s != "" && s[0] == '-' then StripDashes(s[1..]) else s
  }

  predicate Digits(s: string) {
    s != "" && forall c | c in s :: IsDigit(c)
  }

  /** A list index: digits after any number of dashes, although at most one converts. */
  predicate LooksLikeIndex(segment: string) {
    Digits(StripDashes(segment))
  }

  predicate DoubleDashed(segment: string) {
    LooksLikeIndex(segment) && |segment| >= 2 && segment[0] == '-' && segment[1] == '-'
  }

  function ToInt(segment: string): Result<int, Raise>
    requires LooksLikeIndex(segment)
  {
    if DoubleDashed(segment) then Err(ValueError)
    else if segment[0] == '-' then
      assert StripDashes(segment) == segment[1..];
      var n: int := Strings.Value(segment[1..]);
      Ok(-n)
    else Ok(Strings.Value(segment))
  }

  function Step(current: Value, segment: string): Result<Option<Value>, Raise> {
    match current
    case Obj(entries) => Ok(Find(entries, segment))
    case Arr(items) =>
      if !LooksLikeIndex(segment) then Ok(None)
      else
        var index :- ToInt(segment);
        if !(-|items| <= index < |items|) then Ok(None)
        else Ok(Some(items[if index < 0 then index + |items| else index]))
    case _ => Ok(None)
  }

  function Walk(current: Option<Value>, segments: seq<string>): Result<Option<Value>, Raise>
    decreases |segments|
  {
    if segments == [] then Ok(current)
    else if current == None || current.value.Null? then Ok(None)
    else
      var next :- Step(current.value, segments[0]);
      if next == None then Ok(None) else Walk(next, segments[1..])
  }

  function ResolvePath(root: Value, path: string): Result<Option<Value>, Raise> {
    Walk(Some(root), Segments(path))
  }

  method ResolvePathLoop(root: Value, path: string) returns (r: Result<Option<Value>, Raise>)
    ensures r == ResolvePath(root, path)
  {
    var current, segments := Some(root), Segments(path);
    for i := 0 to |segments|
      invariant current.Some? && Walk(current, segments[i..]) == ResolvePath(root, path)
    {
      assert segments[i..][1..] == segments[i + 1..];
      if current.value.Null? {
        return Ok(None);
      }
      var next := Step(current.value, segments[i]);
      if next.Err? {
        return Err(next.error);
      }
      if next.value == None {
        return Ok(None);
      }
      current := next.value;
    }
    r := Ok(current);
  }

  // --- what a selector reads -------------------------------------------------------------

  function Joined(segments: seq<string>): string
    requires segments != []
  {
    if |segments| == 1 then segments[0] else segments[0] + "." + Joined(segments[1..])
  }

  lemma SegmentsCons(c: char, path: string)
    ensures Segments([c] + path) ==
            if c == '.' then [""] + Segments(path) else [[c] + Segments(path)[0]] + Segments(path)[1..]
  {
    assert ([c] + path)[1..] == path;
  }

  lemma {:induction false} SegmentsAfter(name: string, path: string)
    requires '.' !in name
    ensures Segments(name) == [name] && Segments(name + "." + path) == [name] + Segments(path)
    decreases |name|
  {
    hide Segments;
    if name == "" {
      SegmentsCons('.', path);
      assert "" + "." + path == ['.'] + path;
      assert Segments("") == [""] by {
        SegmentsOfEmpty();
      }
    } else {
      assert name[0] in name;
      SegmentsAfter(name[1..], path);
      SegmentsCons(name[0], name[1..]);
      SegmentsCons(name[0], name[1..] + "." + path);
      assert name == [name[0]] + name[1..] && name + "." + path == [name[0]] + (name[1..] + "." + path);
      assert [name[1..]][1..] == [] && ([name[1..]] + Segments(path))[1..] == Segments(path);
    }
  }

  lemma SegmentsOfEmpty()
    ensures Segments("") == [""]
  {}

  /** A selector's segments are the names between its dots. */
  lemma {:induction false} SegmentsAreTheNames(names: seq<string>)
    requires names != [] && forall name | name in names :: '.' !in name
    ensures Segments(Joined(names)) == names
  {
    assert names[0] in names;
    if |names| == 1 {
      SegmentsAfter(names[0], "");
    } else {
      SegmentsAfter(names[0], Joined(names[1..]));
      SegmentsAreTheNames(names[1..]);
    }
  }

  lemma {:induction false} NamesJoined(path: string)
    ensures Joined(Segments(path)) == path
  {
    if path != "" {
      NamesJoined(path[1..]);
      var rest := Segments(path[1..]);
      assert path == [path[0]] + path[1..];
      if path[0] == '.' {
        assert ([""] + rest)[1..] == rest;
      } else {
        assert ([[path[0]] + rest[0]] + rest[1..])[1..] == rest[1..];
      }
    }
  }

  lemma {:induction false} SegmentsConcat(p: string, more: string)
    ensures Segments(p + "." + more) == Segments(p) + Segments(more)
  {
    hide Segments;
    if p == "" {
      SegmentsOfEmpty();
      SegmentsCons('.', more);
      assert "" + "." + more == ['.'] + more;
    } else {
      SegmentsConcat(p[1..], more);
      SegmentsCons(p[0], p[1..]);
      SegmentsCons(p[0], p[1..] + "." + more);
      assert p == [p[0]] + p[1..] && p + "." + more == [p[0]] + (p[1..] + "." + more);
      var head, rest := Segments(p[1..]), Segments(more);
      assert (head + rest)[0] == head[0] && (head + rest)[1..] == head[1..] + rest;
    }
  }

  lemma {:induction false} JoinedConcat(a: seq<string>, b: seq<string>)
    requires a != [] && b != []
    ensures Joined(a + b) == Joined(a) + "." + Joined(b)
  {
    assert (a + b)[0] == a[0] && (a + b)[1..] == a[1..] + b;
    if |a| > 1 {
      JoinedConcat(a[1..], b);
    } else {
      assert a[1..] + b == b;
    }
  }

  /** Labels form a tree by their dotted names: equal or beneath is being a prefix of names. */
  lemma BeneathIsPrefix(p: string, s: string)
    ensures s == p || p + "." <= s <==> Segments(p) <= Segments(s)
  {
    hide Segments, Joined;
    NamesJoined(p);
    NamesJoined(s);
    if p + "." <= s {
      var more := s[|p| + 1..];
      assert s == p + "." + more;
      SegmentsConcat(p, more);
    }
    if Segments(p) < Segments(s) {
      var more := Segments(s)[|Segments(p)|..];
      assert Segments(s) == Segments(p) + more;
      JoinedConcat(Segments(p), more);
      assert s[..|p| + 1] == p + ".";
    } else if Segments(p) == Segments(s) {
      assert s == p;
    }
  }

  /** Under a key stands its first entry's value; under a number the item of that index, from
      the front or, with a dash, from the end. */
  ghost predicate StandsUnder(v: Value, name: string, w: Value) {
    match v
    case Obj(entries) =>
      exists i :: 0 <= i < |entries| && entries[i] == Entry(name, w) && forall j | 0 <= j < i :: entries[j].key != name
    case Arr(items) =>
      exists i :: 0 <= i < |items| && items[i] == w && (name == Decimal(i) || name == "-" + Decimal(|items| - i))
    case _ => false
  }

  lemma {:induction false} FindReads(entries: seq<Entry>, i: nat)
    requires i < |entries| && forall j | 0 <= j < i :: entries[j].key != entries[i].key
    ensures Find(entries, entries[i].key) == Some(entries[i].value)
  {
    if i > 0 {
      FindReads(entries[1..], i - 1);
    }
  }

  lemma {:induction false} FindMisses(entries: seq<Entry>, key: string)
    ensures Find(entries, key) == None <==> forall i | 0 <= i < |entries| :: entries[i].key != key
  {
    if entries != [] {
      FindMisses(entries[1..], key);
      assert forall i | 1 <= i < |entries| :: entries[i] == entries[1..][i - 1];
    }
  }

  lemma {:induction false} DigitsStay(s: string)
    requires s != "" && IsDigit(s[0])
    ensures StripDashes(s) == s
  {}

  lemma IndexReads(n: nat)
    ensures LooksLikeIndex(Decimal(n)) && ToInt(Decimal(n)) == Ok(n)
    ensures var below: int := n; LooksLikeIndex("-" + Decimal(n)) && ToInt("-" + Decimal(n)) == Ok(-below)
  {
    var d := Decimal(n);
    assert d[0] in d;
    DigitsStay(d);
    DecimalRoundTrip(n);
    assert ("-" + d)[1..] == d && ("-" + d)[1] == d[0];
    assert StripDashes("-" + d) == StripDashes(d);
  }

  lemma ItemReads(items: seq<Value>, i: nat, name: string)
    requires i < |items| && (name == Decimal(i) || name == "-" + Decimal(|items| - i))
    ensures Step(Arr(items), name) == Ok(Some(items[i]))
  {
    hide LooksLikeIndex, ToInt;
    IndexReads(i);
    IndexReads(|items| - i);
  }

  lemma StepReads(v: Value, name: string, w: Value)
    requires StandsUnder(v, name, w)
    ensures Step(v, name) == Ok(Some(w))
  {
    hide LooksLikeIndex, ToInt, Find;
    match v {
      case Obj(entries) =>
        var i :| 0 <= i < |entries| && entries[i] == Entry(name, w) && forall j | 0 <= j < i :: entries[j].key != name;
        FindReads(entries, i);
      case Arr(items) =>
        var i :| 0 <= i < |items| && items[i] == w && (name == Decimal(i) || name == "-" + Decimal(|items| - i));
        ItemReads(items, i, name);
    }
  }

  /** A selector reads what stands, name under name, beneath the root. */
  lemma {:induction false} SelectorReads(names: seq<string>, values: seq<Value>)
    requires names != [] && (forall name | name in names :: '.' !in name) && |values| == |names| + 1
    requires forall i | 0 <= i < |names| :: StandsUnder(values[i], names[i], values[i + 1])
    ensures ResolvePath(values[0], Joined(names)) == Ok(Some(values[|names|]))
  {
    SegmentsAreTheNames(names);
    WalkReads(names, values);
  }

  lemma {:induction false} WalkReads(names: seq<string>, values: seq<Value>)
    requires |values| == |names| + 1
    requires forall i | 0 <= i < |names| :: StandsUnder(values[i], names[i], values[i + 1])
    ensures Walk(Some(values[0]), names) == Ok(Some(values[|names|]))
  {
    hide Step;
    if names != [] {
      StepReads(values[0], names[0], values[1]);
      WalkReads(names[1..], values[1..]);
    }
  }

  /** And nothing where there is no such name: under a scalar, in an object without it, or
      past a list's ends. */
  lemma {:induction false} SelectorMisses(names: seq<string>, values: seq<Value>)
    requires names != [] && (forall name | name in names :: '.' !in name) && 0 < |values| <= |names|
    requires forall i | 0 <= i < |values| - 1 :: StandsUnder(values[i], names[i], values[i + 1])
    requires var last, name := values[|values| - 1], names[|values| - 1];
      match last
      case Obj(entries) => forall x | x in entries :: x.key != name
      case Arr(items) =>
        !LooksLikeIndex(name) || exists n: nat :: (n >= |items| && name == Decimal(n)) || (n > |items| && name == "-" + Decimal(n))
      case _ => true
    ensures ResolvePath(values[0], Joined(names)) == Ok(None)
  {
    SegmentsAreTheNames(names);
    WalkMisses(names, values);
  }

  lemma {:induction false} WalkMisses(names: seq<string>, values: seq<Value>)
    requires 0 < |values| <= |names|
    requires forall i | 0 <= i < |values| - 1 :: StandsUnder(values[i], names[i], values[i + 1])
    requires var last, name := values[|values| - 1], names[|values| - 1];
      match last
      case Obj(entries) => forall x | x in entries :: x.key != name
      case Arr(items) =>
        !LooksLikeIndex(name) || exists n: nat :: (n >= |items| && name == Decimal(n)) || (n > |items| && name == "-" + Decimal(n))
      case _ => true
    ensures Walk(Some(values[0]), names) == Ok(None)
  {
    hide LooksLikeIndex, Find;
    if |values| > 1 {
      StepReads(values[0], names[0], values[1]);
      WalkMisses(names[1..], values[1..]);
    } else {
      match values[0] {
        case Obj(entries) => FindMisses(entries, names[0]);
        case Arr(items) =>
          if LooksLikeIndex(names[0]) {
            var n: nat :| (n >= |items| && names[0] == Decimal(n)) || (n > |items| && names[0] == "-" + Decimal(n));
            IndexReads(n);
          }
        case _ =>
      }
    }
  }

  /** A selector no root can make raise: no segment is digits after two dashes. */
  predicate SafeSelector(path: string) {
    forall segment | segment in Segments(path) :: !DoubleDashed(segment)
  }

  lemma {:induction false} WalkNeverRaises(current: Option<Value>, segments: seq<string>)
    requires forall segment | segment in segments :: !DoubleDashed(segment)
    ensures Walk(current, segments).Ok?
    decreases |segments|
  {
    if segments != [] && current.Some? && !current.value.Null? {
      assert segments[0] in segments;
      var next := Step(current.value, segments[0]);
      assert next.Ok? by {
        if current.value.Arr? && LooksLikeIndex(segments[0]) {
          assert ToInt(segments[0]).Ok?;
        }
      }
      WalkNeverRaises(next.value, segments[1..]);
    }
  }

  lemma {:induction false} WalkRaisesOnlyValueError(current: Option<Value>, segments: seq<string>)
    ensures Walk(current, segments).Err? ==> Walk(current, segments).error == ValueError
    decreases |segments|
  {
    if segments != [] && current.Some? && !current.value.Null? {
      var next := Step(current.value, segments[0]);
      if next.Ok? && next.value.Some? {
        WalkRaisesOnlyValueError(next.value, segments[1..]);
      }
    }
  }

  /** A value on which these segments raise, if one of them is double-dashed. */
  ghost function Trap(segments: seq<string>): Value {
    if segments == [] then Null
    else if DoubleDashed(segments[0]) then Arr([])
    else Obj([Entry(segments[0], Trap(segments[1..]))])
  }

  lemma {:induction false} TrapRaises(segments: seq<string>)
    requires exists i :: 0 <= i < |segments| && DoubleDashed(segments[i])
    ensures Walk(Some(Trap(segments)), segments) == Err(ValueError)
  {
    if !DoubleDashed(segments[0]) {
      var i :| 0 <= i < |segments| && DoubleDashed(segments[i]);
      assert segments[1..][i - 1] == segments[i];
      TrapRaises(segments[1..]);
      assert Find([Entry(segments[0], Trap(segments[1..]))], segments[0]) == Some(Trap(segments[1..]));
    }
  }

  /** Resolution is safe on every root exactly when the selector is. */
  lemma ResolutionSafeIff(path: string)
    ensures SafeSelector(path) <==> forall root :: ResolvePath(root, path).Ok?
    ensures forall root :: ResolvePath(root, path).Err? ==> ResolvePath(root, path).error == ValueError
  {
    var segments := Segments(path);
    forall root ensures SafeSelector(path) ==> ResolvePath(root, path).Ok?
                ensures ResolvePath(root, path).Err? ==> ResolvePath(root, path).error == ValueError {
      WalkRaisesOnlyValueError(Some(root), segments);
      if SafeSelector(path) {
        WalkNeverRaises(Some(root), segments);
      }
    }
    if !SafeSelector(path) {
      var segment :| segment in segments && DoubleDashed(segment);
      var i :| 0 <= i < |segments| && segments[i] == segment;
      TrapRaises(segments);
      assert ResolvePath(Trap(segments), path).Err?;
    }
  }
}
