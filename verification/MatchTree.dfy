/**
 Policy match trees: from the sugared document an author writes to a canonical tree
 (control_plane/policy/model.py), and its evaluation with or without stopping at the
 first answer (control_plane/policy/engine.py).
 */
module MatchTree {
  import opened Wrappers
  import opened Operators

  datatype Condition = Condition(selector: string, tests: seq<Test>)

  datatype Match =
    | Conditions(conditions: seq<Condition>)
    | All(kids: seq<Match>)
    | Any(kids: seq<Match>)
    | Not(kid: Match)
    | Blank

  // --- normalising -----------------------------------------------------------------

  const ROOT_SELECTORS := {"principal", "action", "resource", "context", "findings", "classifications", "env"}

  predicate Structural(key: string) {
    key == "all" || key == "any" || key == "not" || key == "conditions"
  }

  function TestsOf(entries: seq<Entry>): (r: seq<Test>)
    ensures |r| == |entries|
  {
    if entries == [] then [] else [Test(entries[0].key, entries[0].value)] + TestsOf(entries[1..])
  }

  /** The sugar: a list means in, a scalar means eq. */
  function NormaliseCondition(raw: Value): seq<Test> {
    match raw
    case Obj(entries) => TestsOf(entries)
    case Arr(_) => [Test("in", raw)]
    case _ => [Test("eq", raw)]
  }

  predicate KnownRoot(selector: string) {
    Segments(selector)[0] in ROOT_SELECTORS
  }

  function ValidateConditions(e: Patterns, entries: seq<Entry>): Result<seq<Condition>, Raise> {
    if entries == [] then Ok([])
    else if !KnownRoot(entries[0].key) then Err(PolicyError("unknown selector root"))
    else
      var tests := NormaliseCondition(entries[0].value);
      var _ :- ValidateCondition(e, tests);
      var rest :- ValidateConditions(e, entries[1..]);
      Ok([Condition(entries[0].key, tests)] + rest)
  }

  /** The first entry whose key is, or is not, structural. */
  function FirstKey(entries: seq<Entry>, structural: bool): (r: Option<nat>)
    ensures r.Some? ==> r.value < |entries| && Structural(entries[r.value].key) == structural
    ensures r.None? ==> forall i | 0 <= i < |entries| :: Structural(entries[i].key) != structural
  {
    if entries == [] then None
    else if Structural(entries[0].key) == structural then Some(0)
    else match FirstKey(entries[1..], structural) case None => None case Some(i) => Some(i + 1)
  }

  function Normalise(e: Patterns, doc: Value): Result<Match, Raise>
    decreases doc, 0
  {
    match doc
    case Null => Ok(All([]))
    case Obj(entries) =>
      var raw := Find(entries, "conditions");
      if raw.Some? then
        if |entries| > 1 then Err(PolicyError("sets conditions alongside something else"))
        else if !raw.value.Obj? then Err(PolicyError("conditions must be an object"))
        else
          var conditions :- ValidateConditions(e, raw.value.entries);
          Ok(Conditions(conditions))
      else
        var combinator := FirstKey(entries, true);
        if combinator == None then
          var conditions :- ValidateConditions(e, entries);
          Ok(Conditions(conditions))
        else if FirstKey(entries, false).Some? then Err(PolicyError("mixes combinators with selectors"))
        else if |entries| > 1 then Err(PolicyError("sets more than one combinator"))
        else
          var value := entries[0].value;
          if entries[0].key == "not" then
            var kid :- Normalise(e, value);
            Ok(Not(kid))
          else if !value.Arr? then Err(PolicyError("must be a list of match nodes"))
          else
            var kids :- NormaliseAll(e, value.items);
            Ok(if entries[0].key == "all" then All(kids) else Any(kids))
    case _ => Err(PolicyError("must be an object"))
  }

  function NormaliseAll(e: Patterns, docs: seq<Value>): Result<seq<Match>, Raise>
    decreases docs, 0
  {
    if docs == [] then Ok([])
    else
      var first :- Normalise(e, docs[0]);
      var rest :- NormaliseAll(e, docs[1..]);
      Ok([first] + rest)
  }

  // --- canonical trees ----------------------------------------------------------------

  /** Every condition is validated, under a known root; no blank nodes. */
  predicate Canonical(e: Patterns, node: Match) {
    match node
    case Conditions(conditions) =>
      forall c | c in conditions :: KnownRoot(c.selector) && ValidateCondition(e, c.tests).Ok?
    case All(kids) => forall kid | kid in kids :: Canonical(e, kid)
    case Any(kids) => forall kid | kid in kids :: Canonical(e, kid)
    case Not(kid) => Canonical(e, kid)
    case Blank => false
  }

  function TestDocs(tests: seq<Test>): (r: seq<Entry>)
    ensures |r| == |tests|
  {
    if tests == [] then [] else [Entry(tests[0].operator, tests[0].operand)] + TestDocs(tests[1..])
  }

  function ConditionDocs(conditions: seq<Condition>): seq<Entry> {
    if conditions == [] then []
    else [Entry(conditions[0].selector, Obj(TestDocs(conditions[0].tests)))] + ConditionDocs(conditions[1..])
  }

  /** The document a tree is stored as: one structural key per node. */
  function Doc(node: Match): Value
    decreases node, 0
  {
    match node
    case Conditions(conditions) => Obj([Entry("conditions", Obj(ConditionDocs(conditions)))])
    case All(kids) => Obj([Entry("all", Arr(Docs(kids)))])
    case Any(kids) => Obj([Entry("any", Arr(Docs(kids)))])
    case Not(kid) => Obj([Entry("not", Doc(kid))])
    case Blank => Obj([])
  }

  function Docs(nodes: seq<Match>): (r: seq<Value>)
    ensures |r| == |nodes|
    decreases nodes, 0
  {
    if nodes == [] then [] else [Doc(nodes[0])] + Docs(nodes[1..])
  }

  lemma {:induction false} ValidatedIsCanonical(e: Patterns, entries: seq<Entry>)
    requires ValidateConditions(e, entries).Ok?
    ensures Canonical(e, Conditions(ValidateConditions(e, entries).value))
  {
    if entries != [] {
      ValidatedIsCanonical(e, entries[1..]);
    }
  }

  lemma {:induction false} NormalisedIsCanonical(e: Patterns, doc: Value)
    ensures Normalise(e, doc).Ok? ==> Canonical(e, Normalise(e, doc).value)
    decreases doc, 0
  {
    hide ValidateConditions;
    if Normalise(e, doc).Ok? && doc.Obj? {
      var entries := doc.entries;
      var raw := Find(entries, "conditions");
      if raw.Some? {
        ValidatedIsCanonical(e, raw.value.entries);
      } else if FirstKey(entries, true) == None {
        ValidatedIsCanonical(e, entries);
      } else if entries[0].key == "not" {
        NormalisedIsCanonical(e, entries[0].value);
      } else {
        AllNormalisedAreCanonical(e, entries[0].value.items);
      }
    }
  }

  lemma {:induction false} AllNormalisedAreCanonical(e: Patterns, docs: seq<Value>)
    ensures NormaliseAll(e, docs).Ok? ==> forall kid | kid in NormaliseAll(e, docs).value :: Canonical(e, kid)
    decreases docs, 0
  {
    if docs != [] {
      NormalisedIsCanonical(e, docs[0]);
      AllNormalisedAreCanonical(e, docs[1..]);
    }
  }

  lemma {:induction false} TestsRoundTrip(tests: seq<Test>)
    ensures TestsOf(TestDocs(tests)) == tests
  {
    if tests != [] {
      TestsRoundTrip(tests[1..]);
      assert TestDocs(tests)[1..] == TestDocs(tests[1..]);
    }
  }

  lemma WrittenCondition(tests: seq<Test>)
    ensures NormaliseCondition(Obj(TestDocs(tests))) == tests
  {
    TestsRoundTrip(tests);
  }

  lemma {:induction false} ConditionsRoundTrip(e: Patterns, conditions: seq<Condition>)
    requires Canonical(e, Conditions(conditions))
    ensures ValidateConditions(e, ConditionDocs(conditions)) == Ok(conditions)
  {
    hide ValidateCondition, KnownRoot, TestDocs, NormaliseCondition;
    if conditions != [] {
      var c := conditions[0];
      assert c in conditions;
      WrittenCondition(c.tests);
      ConditionsRoundTrip(e, conditions[1..]);
      assert ConditionDocs(conditions)[1..] == ConditionDocs(conditions[1..]);
      assert conditions == [c] + conditions[1..];
    }
  }

  /** A stored canonical tree is read back unchanged. */
  lemma {:induction false} CanonicalIsFixed(e: Patterns, node: Match)
    requires Canonical(e, node)
    ensures Normalise(e, Doc(node)) == Ok(node)
    decreases node, 0
  {
    hide ValidateConditions, ValidateCondition, KnownRoot;
    match node {
      case Conditions(conditions) =>
        ConditionsRoundTrip(e, conditions);
        assert Find([Entry("conditions", Obj(ConditionDocs(conditions)))], "conditions") == Some(Obj(ConditionDocs(conditions)));
      case All(kids) =>
        AllCanonicalAreFixed(e, kids);
        OneCombinator(Entry("all", Arr(Docs(kids))));
      case Any(kids) =>
        AllCanonicalAreFixed(e, kids);
        OneCombinator(Entry("any", Arr(Docs(kids))));
      case Not(kid) =>
        CanonicalIsFixed(e, kid);
        OneCombinator(Entry("not", Doc(kid)));
    }
  }

  lemma OneCombinator(entry: Entry)
    requires Structural(entry.key) && entry.key != "conditions"
    ensures Find([entry], "conditions") == None
    ensures FirstKey([entry], true) == Some(0) && FirstKey([entry], false) == None
  {}

  lemma NormaliseAllCons(e: Patterns, doc: Value, docs: seq<Value>)
    requires Normalise(e, doc).Ok? && NormaliseAll(e, docs).Ok?
    ensures NormaliseAll(e, [doc] + docs) == Ok([Normalise(e, doc).value] + NormaliseAll(e, docs).value)
  {
    hide Normalise;
    assert ([doc] + docs)[1..] == docs;
  }

  lemma {:induction false} AllCanonicalAreFixed(e: Patterns, nodes: seq<Match>)
    requires forall node | node in nodes :: Canonical(e, node)
    ensures NormaliseAll(e, Docs(nodes)) == Ok(nodes)
    decreases nodes, 0
  {
    hide Canonical, Normalise, Doc;
    if nodes != [] {
      var first, rest := nodes[0], nodes[1..];
      assert first in nodes && nodes == [first] + rest;
      CanonicalIsFixed(e, first);
      AllCanonicalAreFixed(e, rest);
      NormaliseAllCons(e, Doc(first), Docs(rest));
    }
  }

  /** What normalising accepts comes out canonical, and is a fixed point: a policy reloads
      as what was stored. And every canonical tree is some document's normal form. */
  lemma NormaliseIsIdempotent(e: Patterns, doc: Value, node: Match)
    ensures Normalise(e, doc) == Ok(node) ==> Canonical(e, node) && Normalise(e, Doc(node)) == Ok(node)
    ensures Canonical(e, node) <==> exists d :: Normalise(e, d) == Ok(node)
  {
    hide Normalise;
    NormalisedIsCanonical(e, doc);
    if Canonical(e, node) {
      CanonicalIsFixed(e, node);
    }
    forall d | Normalise(e, d) == Ok(node) ensures Canonical(e, node) {
      NormalisedIsCanonical(e, d);
    }
  }

  // --- which documents are accepted ---------------------------------------------------------

  /** The selector is under a known root, and its operators exist and take their operands. */
  ghost predicate GoodSelector(e: Patterns, x: Entry) {
    && Segments(x.key)[0] in {"principal", "action", "resource", "context", "findings", "classifications", "env"}
    && (x.value.Obj? ==> x.value.entries != [] && forall t | t in x.value.entries :: TakesOperand(e, t.key, t.value))
  }

  ghost predicate HasKey(entries: seq<Entry>, key: string) {
    exists x :: x in entries && x.key == key
  }

  /** Nothing at all; one list of conditions, under its name or bare; or one combinator over
      acceptable documents. */
  ghost predicate Acceptable(e: Patterns, doc: Value)
    decreases doc
  {
    match doc
    case Null => true
    case Obj(entries) =>
      if HasKey(entries, "conditions") then
        |entries| == 1 && entries[0].value.Obj? && forall x | x in entries[0].value.entries :: GoodSelector(e, x)
      else if HasKey(entries, "all") || HasKey(entries, "any") then
        |entries| == 1 && entries[0].value.Arr? && forall kid | kid in entries[0].value.items :: Acceptable(e, kid)
      else if HasKey(entries, "not") then |entries| == 1 && Acceptable(e, entries[0].value)
      else forall x | x in entries :: GoodSelector(e, x)
    case _ => false
  }

  lemma {:induction false} CheckTestsIff(e: Patterns, entries: seq<Entry>)
    ensures CheckTests(e, TestsOf(entries)).Ok? <==> forall t | t in entries :: TakesOperand(e, t.key, t.value)
  {
    hide CheckTest, TakesOperand;
    if entries != [] {
      CheckedIff(e, Test(entries[0].key, entries[0].value));
      CheckTestsIff(e, entries[1..]);
      assert forall t :: t in entries <==> t == entries[0] || t in entries[1..];
      assert TestsOf(entries)[1..] == TestsOf(entries[1..]);
    }
  }

  lemma SelectorAccepted(e: Patterns, x: Entry)
    ensures KnownRoot(x.key) && ValidateCondition(e, NormaliseCondition(x.value)).Ok? <==> GoodSelector(e, x)
  {
    hide CheckTest, TakesOperand;
    match x.value {
      case Obj(entries) =>
        CheckTestsIff(e, entries);
      case Arr(_) =>
        OneTest(e, Test("in", x.value));
      case _ =>
        OneTest(e, Test("eq", x.value));
    }
  }

  lemma OneTest(e: Patterns, t: Test)
    requires t.operator == "in" || t.operator == "eq"
    ensures ValidateCondition(e, [t]).Ok?
  {
    hide CheckTest;
    CheckedIff(e, t);
    assert [t][1..] == [] && CheckTests(e, []).Ok? && CheckTest(e, t).Ok?;
    assert CheckTests(e, [t]) == CheckTests(e, []);
  }

  lemma {:induction false} SelectorsAccepted(e: Patterns, entries: seq<Entry>)
    ensures ValidateConditions(e, entries).Ok? <==> forall x | x in entries :: GoodSelector(e, x)
  {
    hide KnownRoot, ValidateCondition, NormaliseCondition, GoodSelector;
    if entries != [] {
      SelectorAccepted(e, entries[0]);
      SelectorsAccepted(e, entries[1..]);
      assert forall x :: x in entries <==> x == entries[0] || x in entries[1..];
    }
  }

  lemma {:induction false} FindIff(entries: seq<Entry>, key: string)
    ensures Find(entries, key).Some? <==> HasKey(entries, key)
    ensures |entries| == 1 && HasKey(entries, key) ==> entries[0].key == key && Find(entries, key) == Some(entries[0].value)
  {
    if entries != [] {
      FindIff(entries[1..], key);
      assert forall x :: x in entries <==> x == entries[0] || x in entries[1..];
    }
  }

  lemma StructuralIff(entries: seq<Entry>)
    ensures FirstKey(entries, true).Some? <==>
              HasKey(entries, "conditions") || HasKey(entries, "all") || HasKey(entries, "any") || HasKey(entries, "not")
    ensures FirstKey(entries, true).Some? && FirstKey(entries, false) == None && |entries| == 1 ==> Structural(entries[0].key)
    ensures |entries| == 1 ==> FirstKey(entries, true).Some? || FirstKey(entries, false).Some?
    ensures |entries| == 1 && FirstKey(entries, true).Some? ==> FirstKey(entries, false) == None
  {
    var first := FirstKey(entries, true);
    if first.Some? {
      assert entries[first.value] in entries;
    }
    if x :| x in entries && Structural(x.key) {
      var i :| 0 <= i < |entries| && entries[i] == x;
    }
  }

  /** Exactly the documents that authoring accepts. */
  lemma {:induction false} AcceptedIff(e: Patterns, doc: Value)
    ensures Normalise(e, doc).Ok? <==> Acceptable(e, doc)
    ensures doc == Null ==> Normalise(e, doc) == Ok(All([]))
    decreases doc, 0
  {
    hide ValidateConditions, GoodSelector, HasKey, Structural;
    if doc.Obj? {
      var entries := doc.entries;
      FindIff(entries, "conditions");
      FindIff(entries, "all");
      FindIff(entries, "any");
      FindIff(entries, "not");
      StructuralIff(entries);
      if Find(entries, "conditions").Some? {
        if Find(entries, "conditions").value.Obj? {
          SelectorsAccepted(e, Find(entries, "conditions").value.entries);
        }
      } else if FirstKey(entries, true) == None {
        SelectorsAccepted(e, entries);
      } else if |entries| == 1 {
        if entries[0].value.Arr? {
          AllAcceptedIff(e, entries[0].value.items);
        }
        AcceptedIff(e, entries[0].value);
      }
    }
  }

  lemma {:induction false} AllAcceptedIff(e: Patterns, docs: seq<Value>)
    ensures NormaliseAll(e, docs).Ok? <==> forall doc | doc in docs :: Acceptable(e, doc)
    decreases docs, 0
  {
    hide Normalise, Acceptable;
    if docs != [] {
      AcceptedIff(e, docs[0]);
      AllAcceptedIff(e, docs[1..]);
      assert forall doc :: doc in docs <==> doc == docs[0] || doc in docs[1..];
    }
  }

  // --- evaluating ------------------------------------------------------------------------

  datatype Trace = Trace(selector: string, operator: string, operand: Value, observed: Option<Value>, passed: bool)

  datatype NodeResult = NodeResult(passed: bool, conditions: seq<Trace>, failure: Option<Trace>)

  const PASS := NodeResult(true, [], None)
  const NEGATED := Trace("not", "not", Null, None, false)

  type Check = Result<Trace, Raise>

  function TestChecks(e: Patterns, selector: string, observed: Option<Value>, tests: seq<Test>): seq<Check> {
    if tests == [] then []
    else
      [match ApplyOperator(e, tests[0].operator, observed, tests[0].operand)
       case Err(error) => Err(error)
       case Ok(passed) => Ok(Trace(selector, tests[0].operator, tests[0].operand, observed, passed))]
      + TestChecks(e, selector, observed, tests[1..])
  }

  /** Everything a condition node may check, in order. */
  function Checks(e: Patterns, conditions: seq<Condition>, root: Value): seq<Check> {
    if conditions == [] then []
    else
      (match ResolvePath(root, conditions[0].selector)
       case Err(error) => [Err(error)]
       case Ok(observed) => TestChecks(e, conditions[0].selector, observed, conditions[0].tests))
      + Checks(e, conditions[1..], root)
  }

  function Note(acc: NodeResult, trace: Trace, explain: bool): NodeResult {
    NodeResult(acc.passed && trace.passed,
               if explain then acc.conditions + [trace] else acc.conditions,
               if !trace.passed && acc.failure == None then Some(trace) else acc.failure)
  }

  /** Runs checks until one raises or, unless explaining, fails. */
  function Fold(checks: seq<Check>, explain: bool, acc: NodeResult): Result<NodeResult, Raise>
    decreases |checks|
  {
    if checks == [] then Ok(acc)
    else
      var trace :- checks[0];
      var noted := Note(acc, trace, explain);
      if !trace.passed && !explain then Ok(noted) else Fold(checks[1..], explain, noted)
  }

  method EvalConditions(e: Patterns, conditions: seq<Condition>, root: Value, explain: bool)
    returns (r: Result<NodeResult, Raise>)
    ensures r == Fold(Checks(e, conditions, root), explain, PASS)
  {
    var result := PASS;
    ghost var whole := Fold(Checks(e, conditions, root), explain, PASS);
    for i := 0 to |conditions|
      invariant Fold(Checks(e, conditions[i..], root), explain, result) == whole
    {
      var c := conditions[i];
      assert conditions[i..][1..] == conditions[i + 1..];
      var observed := ResolvePathLoop(root, c.selector);
      if observed.Err? {
        return Err(observed.error);
      }
      ghost var rest := Checks(e, conditions[i + 1..], root);
      for j := 0 to |c.tests|
        invariant Fold(TestChecks(e, c.selector, observed.value, c.tests[j..]) + rest, explain, result) == whole
      {
        var t := c.tests[j];
        assert c.tests[j..][1..] == c.tests[j + 1..];
        TestChecksFirst(e, c.selector, observed.value, c.tests[j..], rest);
        var passed := ApplyOperator(e, t.operator, observed.value, t.operand);
        if passed.Err? {
          return Err(passed.error);
        }
        var trace := Trace(c.selector, t.operator, t.operand, observed.value, passed.value);
        result := Note(result, trace, explain);
        if !passed.value && !explain {
          return Ok(result);
        }
      }
      assert TestChecks(e, c.selector, observed.value, c.tests[|c.tests|..]) + rest == rest;
    }
    r := Ok(result);
  }

  lemma TestChecksFirst(e: Patterns, selector: string, observed: Option<Value>, tests: seq<Test>, rest: seq<Check>)
    requires tests != []
    ensures var all := TestChecks(e, selector, observed, tests) + rest;
      && all[0] == TestChecks(e, selector, observed, tests)[0]
      && all[1..] == TestChecks(e, selector, observed, tests[1..]) + rest
  {
    hide ApplyOperator;
  }

  function EvalNode(e: Patterns, node: Match, root: Value, explain: bool): Result<NodeResult, Raise>
    decreases node
  {
    match node
    case Conditions(conditions) => Fold(Checks(e, conditions, root), explain, PASS)
    case All(kids) => EvalAll(e, kids, 0, root, explain, PASS)
    case Any(kids) =>
      var r :- EvalAny(e, kids, 0, root, explain, NodeResult(kids == [], [], None));
      Ok(if r.passed then r.(failure := None) else r)
    case Not(kid) =>
      var inner :- EvalNode(e, kid, root, explain);
      Ok(NodeResult(!inner.passed, inner.conditions, if inner.passed then Some(NEGATED) else None))
    case Blank => Ok(PASS)
  }

  function JoinAll(acc: NodeResult, kid: NodeResult): NodeResult {
    NodeResult(acc.passed && kid.passed, acc.conditions + kid.conditions,
               if !kid.passed && acc.failure == None then kid.failure else acc.failure)
  }

  function JoinAny(acc: NodeResult, kid: NodeResult): NodeResult {
    NodeResult(acc.passed || kid.passed, acc.conditions + kid.conditions,
               if kid.passed then None else if acc.failure == None then kid.failure else acc.failure)
  }

  function EvalAll(e: Patterns, kids: seq<Match>, i: nat, root: Value, explain: bool, acc: NodeResult)
    : Result<NodeResult, Raise>
    requires i <= |kids|
    decreases kids, |kids| - i
  {
    if i == |kids| then Ok(acc)
    else
      var kid :- EvalNode(e, kids[i], root, explain);
      if !kid.passed && !explain then Ok(JoinAll(acc, kid))
      else EvalAll(e, kids, i + 1, root, explain, JoinAll(acc, kid))
  }

  function EvalAny(e: Patterns, kids: seq<Match>, i: nat, root: Value, explain: bool, acc: NodeResult)
    : Result<NodeResult, Raise>
    requires i <= |kids|
    decreases kids, |kids| - i
  {
    if i == |kids| then Ok(acc)
    else
      var kid :- EvalNode(e, kids[i], root, explain);
      if kid.passed && !explain then Ok(JoinAny(acc, kid))
      else EvalAny(e, kids, i + 1, root, explain, JoinAny(acc, kid))
  }

  method Evaluate(e: Patterns, node: Match, root: Value, explain: bool) returns (r: Result<NodeResult, Raise>)
    ensures r == EvalNode(e, node, root, explain)
    decreases node
  {
    match node {
      case Conditions(conditions) =>
        r := EvalConditions(e, conditions, root, explain);
      case All(kids) =>
        var combined := PASS;
        for i := 0 to |kids|
          invariant EvalAll(e, kids, i, root, explain, combined) == EvalNode(e, node, root, explain)
        {
          var child := Evaluate(e, kids[i], root, explain);
          if child.Err? {
            return child;
          }
          combined := JoinAll(combined, child.value);
          if !child.value.passed && !explain {
            return Ok(combined);
          }
        }
        r := Ok(combined);
      case Any(kids) =>
        var combined := NodeResult(kids == [], [], None);
        ghost var whole := EvalAny(e, kids, 0, root, explain, combined);
        for i := 0 to |kids|
          invariant EvalAny(e, kids, i, root, explain, combined) == whole
        {
          var child := Evaluate(e, kids[i], root, explain);
          if child.Err? {
            return child;
          }
          combined := JoinAny(combined, child.value);
          if child.value.passed && !explain {
            return Ok(combined);
          }
        }
        r := Ok(if combined.passed then combined.(failure := None) else combined);
      case Not(kid) =>
        var inner := Evaluate(e, kid, root, explain);
        if inner.Err? {
          return inner;
        }
        r := Ok(NodeResult(!inner.value.passed, inner.value.conditions,
                           if inner.value.passed then Some(NEGATED) else None));
      case Blank =>
        r := Ok(PASS);
    }
  }

  // --- what evaluation means ----------------------------------------------------------------

  /** The selector resolves, and what its operator says of the value there is so. */
  ghost predicate Passes(e: Patterns, selector: string, t: Test, root: Value) {
    var observed := ResolvePath(root, selector);
    observed.Ok? && Asserts(e, t.operator, observed.value, t.operand)
  }

  /** The tree read as a proposition. */
  ghost predicate Holds(e: Patterns, node: Match, root: Value) {
    match node
    case Conditions(conditions) => forall c, t | c in conditions && t in c.tests :: Passes(e, c.selector, t, root)
    case All(kids) => forall kid | kid in kids :: Holds(e, kid, root)
    case Any(kids) => kids == [] || exists kid | kid in kids :: Holds(e, kid, root)
    case Not(kid) => !Holds(e, kid, root)
    case Blank => true
  }

  function FirstFailing(checks: seq<Check>): Option<Trace> {
    if checks == [] then None
    else if checks[0].Ok? && !checks[0].value.passed then Some(checks[0].value)
    else FirstFailing(checks[1..])
  }

  /** Why the tree fails: its first failing condition, in document order. */
  ghost function Failure(e: Patterns, node: Match, root: Value): Option<Trace>
    decreases node
  {
    match node
    case Conditions(conditions) => FirstFailing(Checks(e, conditions, root))
    case All(kids) => FailureFrom(e, kids, 0, root)
    case Any(kids) => if Holds(e, node, root) || kids == [] then None else Failure(e, kids[0], root)
    case Not(kid) => if Holds(e, kid, root) then Some(NEGATED) else None
    case Blank => None
  }

  ghost function FailureFrom(e: Patterns, kids: seq<Match>, i: nat, root: Value): Option<Trace>
    requires i <= |kids|
    decreases kids, |kids| - i
  {
    if i == |kids| then None
    else
      var failure := Failure(e, kids[i], root);
      if failure.Some? then failure else FailureFrom(e, kids, i + 1, root)
  }

  ghost predicate Safe(node: Match) {
    match node
    case Conditions(conditions) => forall c | c in conditions :: SafeSelector(c.selector)
    case All(kids) => forall kid | kid in kids :: Safe(kid)
    case Any(kids) => forall kid | kid in kids :: Safe(kid)
    case Not(kid) => Safe(kid)
    case Blank => true
  }

  /** Every selector of the tree resolves on this root. */
  ghost predicate Resolves(node: Match, root: Value) {
    match node
    case Conditions(conditions) => forall c | c in conditions :: ResolvePath(root, c.selector).Ok?
    case All(kids) => forall kid | kid in kids :: Resolves(kid, root)
    case Any(kids) => forall kid | kid in kids :: Resolves(kid, root)
    case Not(kid) => Resolves(kid, root)
    case Blank => true
  }

  lemma {:induction false} CheckedEach(e: Patterns, tests: seq<Test>, t: Test)
    requires CheckTests(e, tests).Ok? && t in tests
    ensures forall observed :: ApplyOperator(e, t.operator, observed, t.operand) == Ok(Asserts(e, t.operator, observed, t.operand))
  {
    hide CheckTest, TakesOperand, ApplyOperator, Asserts;
    CheckedIff(e, tests[0]);
    if t != tests[0] {
      CheckedEach(e, tests[1..], t);
    } else {
      forall observed ensures ApplyOperator(e, t.operator, observed, t.operand) == Ok(Asserts(e, t.operator, observed, t.operand)) {
        OperatorsMean(e, t.operator, observed, t.operand);
      }
    }
  }

  lemma {:induction false} TestChecksAre(e: Patterns, selector: string, observed: Option<Value>, tests: seq<Test>)
    requires forall t | t in tests :: ApplyOperator(e, t.operator, observed, t.operand).Ok?
    ensures var checks := TestChecks(e, selector, observed, tests);
      && (forall check | check in checks :: check.Ok?)
      && ((forall check | check in checks :: check.value.passed) <==>
          forall t | t in tests :: ApplyOperator(e, t.operator, observed, t.operand).value)
  {
    hide ApplyOperator;
    if tests != [] {
      assert tests[0] in tests;
      TestChecksAre(e, selector, observed, tests[1..]);
      var rest := TestChecks(e, selector, observed, tests[1..]);
      var first := TestChecks(e, selector, observed, tests)[0];
      assert forall check :: check in TestChecks(e, selector, observed, tests) <==> check == first || check in rest;
      assert forall t :: t in tests <==> t == tests[0] || t in tests[1..];
    }
  }

  lemma {:induction false} ChecksAre(e: Patterns, conditions: seq<Condition>, root: Value)
    requires Canonical(e, Conditions(conditions))
    requires forall c | c in conditions :: ResolvePath(root, c.selector).Ok?
    ensures var checks := Checks(e, conditions, root);
      && (forall check | check in checks :: check.Ok?)
      && ((forall check | check in checks :: check.value.passed) <==> Holds(e, Conditions(conditions), root))
  {
    hide ApplyOperator, Asserts, ResolvePath, KnownRoot, CheckTests;
    if conditions != [] {
      var c, rest := conditions[0], conditions[1..];
      assert c in conditions && forall x :: x in conditions <==> x == c || x in rest;
      var observed := ResolvePath(root, c.selector).value;
      forall t | t in c.tests
        ensures ApplyOperator(e, t.operator, observed, t.operand) == Ok(Asserts(e, t.operator, observed, t.operand))
      {
        CheckedEach(e, c.tests, t);
      }
      TestChecksAre(e, c.selector, observed, c.tests);
      ChecksAre(e, rest, root);
      assert forall t | t in c.tests ::
          Passes(e, c.selector, t, root) == ApplyOperator(e, t.operator, observed, t.operand).value;
      var own := TestChecks(e, c.selector, observed, c.tests);
      assert Checks(e, conditions, root) == own + Checks(e, rest, root);
    }
  }

  /** A node's result so far: it carries a failure exactly when it fails. */
  predicate Explained(r: NodeResult) {
    r.passed <==> r.failure == None
  }

  lemma {:induction false} FoldMeans(checks: seq<Check>, explain: bool, acc: NodeResult)
    requires forall check | check in checks :: check.Ok?
    requires Explained(acc)
    ensures Fold(checks, explain, acc).Ok?
    ensures var r := Fold(checks, explain, acc).value;
      && (r.passed <==> acc.passed && forall check | check in checks :: check.value.passed)
      && (acc.passed ==> r.failure == FirstFailing(checks))
      && (!acc.passed ==> r.failure == acc.failure)
      && Explained(r)
    decreases |checks|
  {
    if checks != [] {
      var first, rest := checks[0], checks[1..];
      assert first in checks && forall check :: check in checks <==> check == first || check in rest;
      FoldMeans(rest, explain, Note(acc, first.value, explain));
    }
  }

  ghost predicate Means(e: Patterns, node: Match, root: Value, r: Result<NodeResult, Raise>) {
    && r.Ok?
    && (r.value.passed <==> Holds(e, node, root))
    && r.value.failure == Failure(e, node, root)
    && Explained(r.value)
  }

  /** Whether or not it stops early, evaluation decides the proposition and blames its
      first failing condition. */
  lemma {:induction false} EvalMeans(e: Patterns, node: Match, root: Value, explain: bool)
    requires Canonical(e, node) && Resolves(node, root)
    ensures Means(e, node, root, EvalNode(e, node, root, explain))
    decreases node
  {
    hide KnownRoot, ValidateCondition, ResolvePath, Checks, Fold;
    match node {
      case Conditions(conditions) =>
        ConditionsMean(e, conditions, root, explain);
      case All(kids) =>
        assert kids[0..] == kids;
        AllMeans(e, kids, 0, root, explain, PASS);
      case Any(kids) =>
        assert kids[0..] == kids;
        AnyMeans(e, kids, 0, root, explain, NodeResult(kids == [], [], None));
      case Not(kid) =>
        EvalMeans(e, kid, root, explain);
    }
  }

  lemma ConditionsMean(e: Patterns, conditions: seq<Condition>, root: Value, explain: bool)
    requires Canonical(e, Conditions(conditions)) && Resolves(Conditions(conditions), root)
    ensures Means(e, Conditions(conditions), root, EvalNode(e, Conditions(conditions), root, explain))
  {
    hide KnownRoot, ValidateCondition, ResolvePath, Passes;
    ChecksAre(e, conditions, root);
    FoldMeans(Checks(e, conditions, root), explain, PASS);
  }

  lemma {:induction false} AllMeans(e: Patterns, kids: seq<Match>, i: nat, root: Value, explain: bool, acc: NodeResult)
    requires i <= |kids| && Explained(acc)
    requires forall kid | kid in kids :: Canonical(e, kid) && Resolves(kid, root)
    ensures var r := EvalAll(e, kids, i, root, explain, acc);
      && r.Ok? && Explained(r.value)
      && (r.value.passed <==> acc.passed && forall kid | kid in kids[i..] :: Holds(e, kid, root))
      && r.value.failure == if acc.passed then FailureFrom(e, kids, i, root) else acc.failure
    decreases kids, |kids| - i
  {
    hide EvalNode, Canonical, Resolves, Holds, Failure;
    if i < |kids| {
      var kid := kids[i];
      assert kid in kids && kids[i..] == [kid] + kids[i + 1..] && kid in kids[i..];
      EvalMeans(e, kid, root, explain);
      var result := EvalNode(e, kid, root, explain).value;
      AllMeans(e, kids, i + 1, root, explain, JoinAll(acc, result));
    }
  }

  lemma {:induction false} AnyMeans(e: Patterns, kids: seq<Match>, i: nat, root: Value, explain: bool, acc: NodeResult)
    requires i <= |kids| && (acc.passed && acc.failure.Some? ==> explain) && (!acc.passed ==> (acc.failure == None <==> i == 0))
    requires acc.passed ==> explain || kids == []
    requires forall kid | kid in kids :: Canonical(e, kid) && Resolves(kid, root)
    ensures var r := EvalAny(e, kids, i, root, explain, acc);
      && r.Ok?
      && (r.value.passed <==> acc.passed || exists kid | kid in kids[i..] :: Holds(e, kid, root))
      && (!r.value.passed ==>
            r.value.failure == (if acc.failure.Some? then acc.failure
                                else if i < |kids| then Failure(e, kids[i], root) else None))
      && (!r.value.passed && i < |kids| ==> r.value.failure.Some?)
    decreases kids, |kids| - i
  {
    hide EvalNode, Canonical, Resolves, Holds, Failure;
    if i < |kids| {
      var kid := kids[i];
      assert kid in kids && kids[i..] == [kid] + kids[i + 1..] && kid in kids[i..];
      EvalMeans(e, kid, root, explain);
      var result := EvalNode(e, kid, root, explain).value;
      if !result.passed || explain {
        AnyMeans(e, kids, i + 1, root, explain, JoinAny(acc, result));
      }
    }
  }

  /** Explaining changes neither the outcome nor the reason given for it, where the selectors
      resolve. */
  lemma ExplainingChangesNothing(e: Patterns, node: Match, root: Value)
    requires Canonical(e, node) && Resolves(node, root)
    ensures Agreed(EvalNode(e, node, root, false), EvalNode(e, node, root, true))
    ensures EvalNode(e, node, root, false).Ok?
  {
    hide EvalNode, Holds, Failure;
    EvalMeans(e, node, root, false);
    EvalMeans(e, node, root, true);
  }

  /** The same answer: both raise alike, or both pass or fail alike and for the same reason. */
  ghost predicate Agreed(quick: Result<NodeResult, Raise>, full: Result<NodeResult, Raise>) {
    match quick
    case Err(error) => full == Err(error)
    case Ok(r) => full.Ok? && full.value.passed == r.passed && full.value.failure == r.failure
  }

  // --- when evaluation raises -----------------------------------------------------------------

  ghost predicate NotPolicyError<T>(r: Result<T, Raise>) {
    r.Err? ==> r.error == ValueError
  }

  lemma {:induction false} FoldRaises(checks: seq<Check>, explain: bool, acc: NodeResult)
    requires forall check | check in checks :: NotPolicyError(check)
    ensures NotPolicyError(Fold(checks, explain, acc))
    ensures explain && Fold(checks, explain, acc).Ok? ==> forall check | check in checks :: check.Ok?
    decreases |checks|
  {
    if checks != [] {
      assert checks[0] in checks && forall check :: check in checks <==> check == checks[0] || check in checks[1..];
      if checks[0].Ok? {
        FoldRaises(checks[1..], explain, Note(acc, checks[0].value, explain));
      }
    }
  }

  lemma {:induction false} ChecksRaise(e: Patterns, conditions: seq<Condition>, root: Value)
    requires Canonical(e, Conditions(conditions))
    ensures forall check | check in Checks(e, conditions, root) :: NotPolicyError(check)
    ensures (forall check | check in Checks(e, conditions, root) :: check.Ok?) ==>
              forall c | c in conditions :: ResolvePath(root, c.selector).Ok?
  {
    hide ApplyOperator, Asserts, KnownRoot, CheckTests, ResolvePath;
    if conditions != [] {
      var c, rest := conditions[0], conditions[1..];
      assert c in conditions && forall x :: x in conditions <==> x == c || x in rest;
      ChecksRaise(e, rest, root);
      ResolutionSafeIff(c.selector);
      var observed := ResolvePath(root, c.selector);
      var own := match observed case Err(error) => [Err(error)] case Ok(o) => TestChecks(e, c.selector, o, c.tests);
      if observed.Ok? {
        forall t | t in c.tests ensures ApplyOperator(e, t.operator, observed.value, t.operand).Ok? {
          CheckedEach(e, c.tests, t);
        }
        TestChecksAre(e, c.selector, observed.value, c.tests);
      } else {
        assert own[0] in own;
      }
      assert Checks(e, conditions, root) == own + Checks(e, rest, root);
    }
  }

  /** An accepted tree never raises the policy error; and explaining visits everything. */
  lemma {:induction false} EvalRaises(e: Patterns, node: Match, root: Value, explain: bool)
    requires Canonical(e, node)
    ensures NotPolicyError(EvalNode(e, node, root, explain))
    ensures explain && EvalNode(e, node, root, explain).Ok? ==> Resolves(node, root)
    decreases node
  {
    hide KnownRoot, ValidateCondition, ResolvePath, Checks, Fold;
    match node {
      case Conditions(conditions) =>
        ChecksRaise(e, conditions, root);
        FoldRaises(Checks(e, conditions, root), explain, PASS);
      case All(kids) =>
        assert kids[0..] == kids;
        AllRaises(e, kids, 0, root, explain, PASS);
      case Any(kids) =>
        assert kids[0..] == kids;
        AnyRaises(e, kids, 0, root, explain, NodeResult(kids == [], [], None));
      case Not(kid) =>
        EvalRaises(e, kid, root, explain);
    }
  }

  lemma {:induction false} AllRaises(e: Patterns, kids: seq<Match>, i: nat, root: Value, explain: bool, acc: NodeResult)
    requires i <= |kids| && forall kid | kid in kids :: Canonical(e, kid)
    ensures var r := EvalAll(e, kids, i, root, explain, acc);
      NotPolicyError(r) && (explain && r.Ok? ==> forall kid | kid in kids[i..] :: Resolves(kid, root))
    decreases kids, |kids| - i
  {
    hide EvalNode, Canonical, Resolves;
    if i < |kids| {
      assert kids[i] in kids && kids[i..] == [kids[i]] + kids[i + 1..];
      EvalRaises(e, kids[i], root, explain);
      var kid := EvalNode(e, kids[i], root, explain);
      if kid.Ok? {
        AllRaises(e, kids, i + 1, root, explain, JoinAll(acc, kid.value));
      }
    }
  }

  lemma {:induction false} AnyRaises(e: Patterns, kids: seq<Match>, i: nat, root: Value, explain: bool, acc: NodeResult)
    requires i <= |kids| && forall kid | kid in kids :: Canonical(e, kid)
    ensures var r := EvalAny(e, kids, i, root, explain, acc);
      NotPolicyError(r) && (explain && r.Ok? ==> forall kid | kid in kids[i..] :: Resolves(kid, root))
    decreases kids, |kids| - i
  {
    hide EvalNode, Canonical, Resolves;
    if i < |kids| {
      assert kids[i] in kids && kids[i..] == [kids[i]] + kids[i + 1..];
      EvalRaises(e, kids[i], root, explain);
      var kid := EvalNode(e, kids[i], root, explain);
      if kid.Ok? {
        AnyRaises(e, kids, i + 1, root, explain, JoinAny(acc, kid.value));
      }
    }
  }

  lemma {:induction false} SafeIfAlwaysResolves(node: Match)
    requires forall root :: Resolves(node, root)
    ensures Safe(node)
    decreases node
  {
    match node {
      case Conditions(conditions) =>
        forall c | c in conditions ensures SafeSelector(c.selector) {
          forall root ensures ResolvePath(root, c.selector).Ok? {
            assert Resolves(node, root);
          }
          ResolutionSafeIff(c.selector);
        }
      case All(kids) =>
        forall kid | kid in kids ensures Safe(kid) {
          forall root ensures Resolves(kid, root) {
            assert Resolves(node, root);
          }
          SafeIfAlwaysResolves(kid);
        }
      case Any(kids) =>
        forall kid | kid in kids ensures Safe(kid) {
          forall root ensures Resolves(kid, root) {
            assert Resolves(node, root);
          }
          SafeIfAlwaysResolves(kid);
        }
      case Not(kid) =>
        forall root ensures Resolves(kid, root) {
          assert Resolves(node, root);
        }
        SafeIfAlwaysResolves(kid);
      case Blank =>
    }
  }

  ghost predicate NeverRaises(e: Patterns, node: Match) {
    forall root, explain :: EvalNode(e, node, root, explain).Ok?
  }

  lemma SafeNeverRaises(e: Patterns, node: Match)
    requires Canonical(e, node) && Safe(node)
    ensures NeverRaises(e, node)
  {
    hide EvalNode, Canonical, Safe, Holds, Failure, Resolves;
    forall root, explain ensures EvalNode(e, node, root, explain).Ok? {
      SafeResolves(node, root);
      EvalMeans(e, node, root, explain);
    }
  }

  lemma {:induction false} SafeResolves(node: Match, root: Value)
    requires Safe(node)
    ensures Resolves(node, root)
    decreases node
  {
    match node {
      case Conditions(conditions) =>
        forall c | c in conditions ensures ResolvePath(root, c.selector).Ok? {
          ResolutionSafeIff(c.selector);
        }
      case All(kids) =>
        forall kid | kid in kids ensures Resolves(kid, root) {
          SafeResolves(kid, root);
        }
      case Any(kids) =>
        forall kid | kid in kids ensures Resolves(kid, root) {
          SafeResolves(kid, root);
        }
      case Not(kid) => SafeResolves(kid, root);
      case Blank =>
    }
  }

  lemma NeverRaisingIsSafe(e: Patterns, node: Match)
    requires Canonical(e, node) && NeverRaises(e, node)
    ensures Safe(node)
  {
    hide EvalNode, Canonical, Safe, Resolves;
    forall root ensures Resolves(node, root) {
      var explain := true;
      assert EvalNode(e, node, root, explain).Ok?;
      EvalRaises(e, node, root, explain);
    }
    SafeIfAlwaysResolves(node);
  }

  /** An accepted tree evaluates without raising, on every JSON value, exactly when none of its
      selectors has a segment of digits after two dashes. Validation does not look for one. */
  lemma NeverRaisesIffSafe(e: Patterns, node: Match)
    requires Canonical(e, node)
    ensures NeverRaises(e, node) <==> Safe(node)
  {
    if Safe(node) {
      SafeNeverRaises(e, node);
    }
    if NeverRaises(e, node) {
      NeverRaisingIsSafe(e, node);
    }
  }

  // --- when explaining changes the answer -------------------------------------------------------

  /** The condition holds, its selector having resolved. */
  ghost predicate ConditionHolds(e: Patterns, c: Condition, root: Value) {
    forall t | t in c.tests :: Passes(e, c.selector, t, root)
  }

  ghost predicate ReachedConditions(e: Patterns, conditions: seq<Condition>, root: Value) {
    conditions != [] ==>
      && ResolvePath(root, conditions[0].selector).Ok?
      && (ConditionHolds(e, conditions[0], root) ==> ReachedConditions(e, conditions[1..], root))
  }

  /** Every selector resolves that has to be read before the tree is decided. */
  ghost predicate ReachedResolve(e: Patterns, node: Match, root: Value)
    decreases node
  {
    match node
    case Conditions(conditions) => ReachedConditions(e, conditions, root)
    case All(kids) => ReachedUntil(e, kids, 0, root, false)
    case Any(kids) => ReachedUntil(e, kids, 0, root, true)
    case Not(kid) => ReachedResolve(e, kid, root)
    case Blank => true
  }

  /** So of the kids from i on, up to the first whose truth is this. */
  ghost predicate ReachedUntil(e: Patterns, kids: seq<Match>, i: nat, root: Value, truth: bool)
    requires i <= |kids|
    decreases kids, |kids| - i
  {
    i < |kids| ==>
      ReachedResolve(e, kids[i], root) && (Holds(e, kids[i], root) != truth ==> ReachedUntil(e, kids, i + 1, root, truth))
  }

  /** What stopping early decides: it raises, or answers as the tree read as a proposition. */
  ghost predicate Decides(reached: bool, holds: bool, r: Result<NodeResult, Raise>) {
    && (r.Ok? <==> reached)
    && (r.Err? ==> r.error == ValueError)
    && (r.Ok? ==> (r.value.passed <==> holds))
  }

  lemma {:induction false} FoldTests(checks: seq<Check>, rest: seq<Check>, acc: NodeResult)
    requires forall check | check in checks :: check.Ok?
    requires acc.passed
    ensures var whole := Fold(checks + rest, false, acc);
      if forall check | check in checks :: check.value.passed then whole == Fold(rest, false, acc)
      else whole.Ok? && !whole.value.passed
    decreases |checks|
  {
    if checks == [] {
      assert checks + rest == rest;
    } else {
      var first := checks[0];
      assert (checks + rest)[0] == first && (checks + rest)[1..] == checks[1..] + rest;
      assert first in checks && forall check :: check in checks <==> check == first || check in checks[1..];
      if first.value.passed {
        assert Note(acc, first.value, false) == acc;
        FoldTests(checks[1..], rest, acc);
      }
    }
  }

  lemma {:induction false} QuickConditions(e: Patterns, conditions: seq<Condition>, root: Value)
    requires Canonical(e, Conditions(conditions))
    ensures Decides(ReachedConditions(e, conditions, root),
                    forall c | c in conditions :: ConditionHolds(e, c, root),
                    Fold(Checks(e, conditions, root), false, PASS))
  {
    hide ApplyOperator, ResolvePath, KnownRoot, CheckTests, Passes, Fold;
    if conditions == [] {
      FoldNothing(PASS);
    } else {
      var c, rest := conditions[0], conditions[1..];
      assert c in conditions && forall x :: x in conditions <==> x == c || x in rest;
      var observed := ResolvePath(root, c.selector);
      if observed.Err? {
        ResolutionSafeIff(c.selector);
        FoldRaisesFirst(observed.error, Checks(e, rest, root));
        UnresolvedFails(e, c, root);
      } else {
        QuickConditions(e, rest, root);
        OneCondition(e, c, root);
        FoldTests(TestChecks(e, c.selector, observed.value, c.tests), Checks(e, rest, root), PASS);
      }
    }
  }

  lemma FoldNothing(acc: NodeResult)
    ensures Fold([], false, acc) == Ok(acc)
  {}

  lemma FoldRaisesFirst(error: Raise, rest: seq<Check>)
    ensures Fold([Err(error)] + rest, false, PASS) == Err(error)
  {}

  lemma UnresolvedFails(e: Patterns, c: Condition, root: Value)
    requires ResolvePath(root, c.selector).Err? && ValidateCondition(e, c.tests).Ok?
    ensures !ConditionHolds(e, c, root)
  {
    hide ResolvePath, CheckTests;
    assert c.tests[0] in c.tests && !Passes(e, c.selector, c.tests[0], root);
  }

  lemma OneCondition(e: Patterns, c: Condition, root: Value)
    requires ResolvePath(root, c.selector).Ok? && ValidateCondition(e, c.tests).Ok?
    ensures var checks := TestChecks(e, c.selector, ResolvePath(root, c.selector).value, c.tests);
      && (forall check | check in checks :: check.Ok?)
      && ((forall check | check in checks :: check.value.passed) <==> ConditionHolds(e, c, root))
  {
    hide ApplyOperator, Asserts, ResolvePath, CheckTests;
    var observed := ResolvePath(root, c.selector).value;
    forall t | t in c.tests ensures ApplyOperator(e, t.operator, observed, t.operand) == Ok(Asserts(e, t.operator, observed, t.operand)) {
      CheckedEach(e, c.tests, t);
    }
    TestChecksAre(e, c.selector, observed, c.tests);
  }

  /** Stopping early raises exactly when some selector that had to be read does not resolve;
      otherwise it decides the proposition, resolve the others or not. */
  lemma {:induction false} QuickDecides(e: Patterns, node: Match, root: Value)
    requires Canonical(e, node)
    ensures Decides(ReachedResolve(e, node, root), Holds(e, node, root), EvalNode(e, node, root, false))
    decreases node
  {
    hide KnownRoot, ValidateCondition, Passes, Checks, Fold;
    match node {
      case Conditions(conditions) =>
        QuickConditions(e, conditions, root);
        assert Holds(e, node, root) <==> forall c | c in conditions :: ConditionHolds(e, c, root);
      case All(kids) =>
        assert kids[0..] == kids;
        QuickAll(e, kids, 0, root, PASS);
      case Any(kids) =>
        assert kids[0..] == kids;
        QuickAny(e, kids, 0, root, NodeResult(kids == [], [], None));
      case Not(kid) =>
        QuickDecides(e, kid, root);
      case Blank =>
    }
  }

  lemma {:induction false} QuickAll(e: Patterns, kids: seq<Match>, i: nat, root: Value, acc: NodeResult)
    requires i <= |kids| && acc.passed && forall kid | kid in kids :: Canonical(e, kid)
    ensures Decides(ReachedUntil(e, kids, i, root, false), forall kid | kid in kids[i..] :: Holds(e, kid, root),
                    EvalAll(e, kids, i, root, false, acc))
    decreases kids, |kids| - i
  {
    hide EvalNode, Canonical, Holds, ReachedResolve;
    if i < |kids| {
      var kid := kids[i];
      assert kid in kids && kids[i..] == [kid] + kids[i + 1..] && kid in kids[i..];
      QuickDecides(e, kid, root);
      var r := EvalNode(e, kid, root, false);
      if r.Err? {
        UnreachedFails(e, kids, i, root);
      } else if r.value.passed {
        QuickAll(e, kids, i + 1, root, JoinAll(acc, r.value));
      }
    }
  }

  lemma UnreachedFails(e: Patterns, kids: seq<Match>, i: nat, root: Value)
    requires i < |kids| && !ReachedResolve(e, kids[i], root)
    ensures !ReachedUntil(e, kids, i, root, false) && !ReachedUntil(e, kids, i, root, true)
  {
    hide ReachedResolve;
  }

  lemma {:induction false} QuickAny(e: Patterns, kids: seq<Match>, i: nat, root: Value, acc: NodeResult)
    requires i <= |kids| && (acc.passed <==> kids == []) && forall kid | kid in kids :: Canonical(e, kid)
    ensures Decides(ReachedUntil(e, kids, i, root, true),
                    kids == [] || exists kid | kid in kids[i..] :: Holds(e, kid, root),
                    EvalAny(e, kids, i, root, false, acc))
    decreases kids, |kids| - i
  {
    hide EvalNode, Canonical, Holds, ReachedResolve;
    if i < |kids| {
      var kid := kids[i];
      assert kid in kids && kids[i..] == [kid] + kids[i + 1..] && kid in kids[i..];
      QuickDecides(e, kid, root);
      var r := EvalNode(e, kid, root, false);
      if r.Err? {
        UnreachedFails(e, kids, i, root);
      } else if !r.value.passed {
        QuickAny(e, kids, i + 1, root, JoinAny(acc, r.value));
      }
    }
  }

  /** Explaining reads every selector, so on an accepted tree it raises exactly when one does
      not resolve; and it changes the answer exactly when such a selector lies behind what
      decided the tree without it. */
  lemma ExplainingChangesTheAnswerIff(e: Patterns, node: Match, root: Value)
    requires Canonical(e, node)
    ensures EvalNode(e, node, root, true).Ok? <==> Resolves(node, root)
    ensures EvalNode(e, node, root, false).Ok? <==> ReachedResolve(e, node, root)
    ensures !Agreed(EvalNode(e, node, root, false), EvalNode(e, node, root, true)) <==>
              ReachedResolve(e, node, root) && !Resolves(node, root)
  {
    hide EvalNode, Holds, Resolves, ReachedResolve, Failure;
    EvalRaises(e, node, root, true);
    QuickDecides(e, node, root);
    if Resolves(node, root) {
      ExplainingChangesNothing(e, node, root);
    }
  }

  // --- what the sugar means -----------------------------------------------------------------------

  /** One selector's condition as written: operators, a list of alternatives, or a value. */
  ghost predicate SugarCondition(e: Patterns, selector: string, raw: Value, root: Value) {
    var observed := ResolvePath(root, selector);
    match raw
    case Obj(entries) => forall x | x in entries :: Passes(e, selector, Test(x.key, x.value), root)
    case Arr(items) =>
      observed.Ok? && exists v, p :: Element(observed.value, v) && p in items && EqualOrBeneath(v, p)
    case _ => observed.Ok? && observed.value.Some? && Equal(observed.value.value, raw)
  }

  ghost predicate SugarSelectors(e: Patterns, entries: seq<Entry>, root: Value) {
    forall x | x in entries :: SugarCondition(e, x.key, x.value, root)
  }

  /** The document read as a proposition, without normalising it. */
  ghost predicate SugarHolds(e: Patterns, doc: Value, root: Value)
    decreases doc, 0
  {
    match doc
    case Obj(entries) =>
      var raw := Find(entries, "conditions");
      if raw.Some? then raw.value.Obj? && SugarSelectors(e, raw.value.entries, root)
      else if FirstKey(entries, true) == None then SugarSelectors(e, entries, root)
      else
        var value := entries[0].value;
        if entries[0].key == "not" then !SugarHolds(e, value, root)
        else if !value.Arr? then false
        else if entries[0].key == "all" then forall kid | kid in value.items :: SugarHolds(e, kid, root)
        else value.items == [] || exists kid | kid in value.items :: SugarHolds(e, kid, root)
    case _ => doc.Null?
  }

  lemma {:induction false} TestsOfAre(entries: seq<Entry>)
    ensures forall t :: t in TestsOf(entries) <==> exists x | x in entries :: t == Test(x.key, x.value)
  {
    if entries != [] {
      TestsOfAre(entries[1..]);
      assert forall x :: x in entries <==> x == entries[0] || x in entries[1..];
      assert forall t :: t in TestsOf(entries) <==> t == Test(entries[0].key, entries[0].value) || t in TestsOf(entries[1..]);
    }
  }

  lemma ConditionMeansSugar(e: Patterns, selector: string, raw: Value, root: Value)
    ensures (forall t | t in NormaliseCondition(raw) :: Passes(e, selector, t, root))
            <==> SugarCondition(e, selector, raw, root)
  {
    match raw {
      case Obj(entries) =>
        hide Passes;
        TestsOfAre(entries);
        if forall t | t in TestsOf(entries) :: Passes(e, selector, t, root) {
          forall x | x in entries ensures Passes(e, selector, Test(x.key, x.value), root) {
            assert Test(x.key, x.value) in TestsOf(entries);
          }
        }
      case Arr(_) =>
        assert Test("in", raw) in NormaliseCondition(raw);
      case _ =>
        assert Test("eq", raw) in NormaliseCondition(raw);
    }
  }

  lemma {:induction false} ConditionsMeanSugar(e: Patterns, entries: seq<Entry>, root: Value)
    requires ValidateConditions(e, entries).Ok?
    ensures Holds(e, Conditions(ValidateConditions(e, entries).value), root) <==> SugarSelectors(e, entries, root)
  {
    hide SugarCondition, NormaliseCondition, ValidateCondition, KnownRoot, Passes;
    if entries != [] {
      var x, rest := entries[0], entries[1..];
      ConditionMeansSugar(e, x.key, x.value, root);
      ConditionsMeanSugar(e, rest, root);
      var own, others := Condition(x.key, NormaliseCondition(x.value)), ValidateConditions(e, rest).value;
      assert ValidateConditions(e, entries).value == [own] + others;
      assert forall c :: c in [own] + others <==> c == own || c in others;
      assert forall y :: y in entries <==> y == x || y in rest;
    }
  }

  /** Normalising changes how a policy is written, not what it says. */
  lemma {:induction false} NormalisingKeepsMeaning(e: Patterns, doc: Value, root: Value)
    requires Normalise(e, doc).Ok?
    ensures Holds(e, Normalise(e, doc).value, root) <==> SugarHolds(e, doc, root)
    decreases doc, 0
  {
    hide ValidateConditions, SugarSelectors;
    if doc.Obj? {
      var entries := doc.entries;
      var raw := Find(entries, "conditions");
      if raw.Some? {
        ConditionsMeanSugar(e, raw.value.entries, root);
      } else if FirstKey(entries, true) == None {
        ConditionsMeanSugar(e, entries, root);
      } else if entries[0].key == "not" {
        NormalisingKeepsMeaning(e, entries[0].value, root);
      } else {
        NormalisingAllKeepsMeaning(e, entries[0].value.items, root);
      }
    }
  }

  lemma {:induction false} NormalisingAllKeepsMeaning(e: Patterns, docs: seq<Value>, root: Value)
    requires NormaliseAll(e, docs).Ok?
    ensures var nodes := NormaliseAll(e, docs).value;
      && |nodes| == |docs|
      && ((forall kid | kid in nodes :: Holds(e, kid, root)) <==> forall d | d in docs :: SugarHolds(e, d, root))
      && ((exists kid | kid in nodes :: Holds(e, kid, root)) <==> exists d | d in docs :: SugarHolds(e, d, root))
    decreases docs, 0
  {
    hide Normalise, Holds, SugarHolds;
    if docs != [] {
      NormalisingKeepsMeaning(e, docs[0], root);
      NormalisingAllKeepsMeaning(e, docs[1..], root);
      var node, nodes := Normalise(e, docs[0]).value, NormaliseAll(e, docs[1..]).value;
      assert forall n :: n in [node] + nodes <==> n == node || n in nodes;
      assert forall d :: d in docs <==> d == docs[0] || d in docs[1..];
    }
  }

  /** Evaluating a normalised document decides what the author wrote. */
  lemma EvaluationDecidesSugar(e: Patterns, doc: Value, root: Value, explain: bool)
    requires Normalise(e, doc).Ok? && Resolves(Normalise(e, doc).value, root)
    ensures var r := EvalNode(e, Normalise(e, doc).value, root, explain);
      r.Ok? && (r.value.passed <==> SugarHolds(e, doc, root))
  {
    hide Normalise, Holds, SugarHolds, EvalNode, Resolves;
    NormalisedIsCanonical(e, doc);
    EvalMeans(e, Normalise(e, doc).value, root, explain);
    NormalisingKeepsMeaning(e, doc, root);
  }

  // --- what a condition's trace says ----------------------------------------------------------------

  /** The trace is that of one of these conditions' tests: with what was read, and whether what
      the operator says of it is so. */
  ghost predicate Traces(e: Patterns, conditions: seq<Condition>, root: Value, trace: Trace) {
    exists c, t ::
      && c in conditions && t in c.tests
      && trace.selector == c.selector && trace.operator == t.operator && trace.operand == t.operand
      && ResolvePath(root, c.selector) == Ok(trace.observed)
      && (trace.passed <==> Asserts(e, t.operator, trace.observed, t.operand))
  }

  lemma {:induction false} TestsTrace(e: Patterns, c: Condition, observed: Option<Value>, tests: seq<Test>, root: Value)
    requires ResolvePath(root, c.selector) == Ok(observed) && forall t | t in tests :: t in c.tests
    requires forall t | t in tests :: ApplyOperator(e, t.operator, observed, t.operand) == Ok(Asserts(e, t.operator, observed, t.operand))
    ensures forall check | check in TestChecks(e, c.selector, observed, tests) :: check.Ok? && Traces(e, [c], root, check.value)
  {
    hide ApplyOperator, Asserts, ResolvePath;
    if tests != [] {
      var t := tests[0];
      TestsTrace(e, c, observed, tests[1..], root);
      var trace := Trace(c.selector, t.operator, t.operand, observed, Asserts(e, t.operator, observed, t.operand));
      assert c in [c] && t in c.tests && Traces(e, [c], root, trace);
      assert TestChecks(e, c.selector, observed, tests) == [Ok(trace)] + TestChecks(e, c.selector, observed, tests[1..]);
    }
  }

  /** Every check that evaluation can report, the failure it gives for a reason among them, is
      of a condition of the tree. */
  lemma {:induction false} ChecksTrace(e: Patterns, conditions: seq<Condition>, root: Value)
    requires Canonical(e, Conditions(conditions))
    ensures forall check | check in Checks(e, conditions, root) && check.Ok? :: Traces(e, conditions, root, check.value)
    ensures FirstFailing(Checks(e, conditions, root)).Some? ==>
              var trace := FirstFailing(Checks(e, conditions, root)).value; !trace.passed && Traces(e, conditions, root, trace)
  {
    hide ApplyOperator, Asserts, ResolvePath, KnownRoot, CheckTests, Traces;
    FirstFailingIsOne(Checks(e, conditions, root));
    if conditions != [] {
      var c, rest := conditions[0], conditions[1..];
      ChecksTrace(e, rest, root);
      assert c in conditions;
      var observed := ResolvePath(root, c.selector);
      if observed.Ok? {
        forall t | t in c.tests
          ensures ApplyOperator(e, t.operator, observed.value, t.operand) == Ok(Asserts(e, t.operator, observed.value, t.operand))
        {
          CheckedEach(e, c.tests, t);
        }
        TestsTrace(e, c, observed.value, c.tests, root);
      }
      forall trace
        ensures Traces(e, [c], root, trace) ==> Traces(e, conditions, root, trace)
        ensures Traces(e, rest, root, trace) ==> Traces(e, conditions, root, trace)
      {
        TracesAmong(e, [c], conditions, root, trace);
        TracesAmong(e, rest, conditions, root, trace);
      }
    }
  }

  lemma TracesAmong(e: Patterns, some: seq<Condition>, all: seq<Condition>, root: Value, trace: Trace)
    requires forall c | c in some :: c in all
    ensures Traces(e, some, root, trace) ==> Traces(e, all, root, trace)
  {
    hide Asserts, ResolvePath;
  }

  lemma {:induction false} FirstFailingIsOne(checks: seq<Check>)
    ensures FirstFailing(checks).Some? ==> Ok(FirstFailing(checks).value) in checks && !FirstFailing(checks).value.passed
  {
    if checks != [] {
      FirstFailingIsOne(checks[1..]);
    }
  }
}
