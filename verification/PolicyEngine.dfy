/**
 Deciding a request against a policy set: which policies match, the algorithm that combines
 them, and the union of their obligations (control_plane/policy/engine.py).
 */
module PolicyEngine {
  import opened Wrappers
  import opened Ordering
  import opened Operators
  import opened MatchTree
  import opened Obligations
  import Redaction

  datatype Effect = Allow | RequireApproval | Deny

  datatype Algorithm = DenyOverrides | PermitOverrides | PriorityOrdered

  datatype Policy = Policy(
    key: string, priority: int, effect: Effect, enabled: bool, rule: Match, obligations: seq<Obligation>)

  datatype Decision = Decision(
    effect: Effect,
    obligations: seq<Obligation>,
    matched: seq<string>,
    determining: Option<string>,
    errors: seq<string>
  )

  function Rank(effect: Effect): int {
    match effect case Allow => 0 case RequireApproval => 1 case Deny => 2
  }

  // --- orders --------------------------------------------------------------------------

  /** Highest priority first, then by key. */
  predicate ByPriority(a: Policy, b: Policy) {
    a.priority > b.priority || (a.priority == b.priority && StringLe(a.key, b.key))
  }

  /** (priority, key), smallest first. */
  predicate Weaker(a: Policy, b: Policy) {
    a.priority < b.priority || (a.priority == b.priority && StringLe(a.key, b.key))
  }

  /** (priority, rank of the effect, key), smallest first. */
  predicate WeakerRanked(a: Policy, b: Policy) {
    a.priority < b.priority
    || (a.priority == b.priority &&
        (Rank(a.effect) < Rank(b.effect) || (a.effect == b.effect && StringLe(a.key, b.key))))
  }

  lemma PolicyOrders()
    ensures TotalPreorder(ByPriority) && TotalPreorder(Weaker) && TotalPreorder(WeakerRanked)
  {
    StringLeOrders();
  }

  /** No two policies share a key, as a policy set ensures. */
  ghost predicate UniqueKeys(ps: seq<Policy>) {
    forall i, j | 0 <= i < j < |ps| :: ps[i].key != ps[j].key
  }

  lemma KeysBreakTies(ps: seq<Policy>)
    requires UniqueKeys(ps)
    ensures NoTies(ByPriority, ps) && NoTies(Weaker, ps) && NoTies(WeakerRanked, ps)
  {
    StringLeOrders();
    forall a, b | a in ps && b in ps && a.key == b.key ensures a == b {
      var i :| 0 <= i < |ps| && ps[i] == a;
      var j :| 0 <= j < |ps| && ps[j] == b;
    }
  }

  /** The first largest element, as the source's max. */
  function Largest(le: (Policy, Policy) -> bool, ps: seq<Policy>): (r: Policy)
    requires ps != []
    ensures r in ps
  {
    if |ps| == 1 then ps[0]
    else
      var rest := Largest(le, ps[..|ps| - 1]);
      if le(ps[|ps| - 1], rest) then rest else ps[|ps| - 1]
  }

  lemma {:induction false} LargestIsLargest(le: (Policy, Policy) -> bool, ps: seq<Policy>)
    requires TotalPreorder(le) && ps != []
    ensures forall p | p in ps :: le(p, Largest(le, ps))
  {
    var init, last := ps[..|ps| - 1], ps[|ps| - 1];
    assert ps == init + [last];
    if |ps| > 1 {
      LargestIsLargest(le, init);
    }
  }

  // --- matching ------------------------------------------------------------------------

  function Enabled(ps: seq<Policy>): seq<Policy> {
    if ps == [] then [] else (if ps[0].enabled then [ps[0]] else []) + Enabled(ps[1..])
  }

  datatype Matching = Matching(matched: seq<Policy>, errors: seq<string>)

  /** Policies taken in order: the matching ones, and the keys of those that fail to
      evaluate. A conversion error is not caught, and ends the evaluation. */
  function MatchAll(e: Patterns, ps: seq<Policy>, root: Value, explain: bool): Result<Matching, Raise> {
    if ps == [] then Ok(Matching([], []))
    else
      var before :- MatchAll(e, ps[..|ps| - 1], root, explain);
      var p := ps[|ps| - 1];
      match EvalNode(e, p.rule, root, explain)
      case Err(ValueError) => Err(ValueError)
      case Err(PolicyError(_)) => Ok(before.(errors := before.errors + [p.key]))
      case Ok(r) => Ok(if r.passed then before.(matched := before.matched + [p]) else before)
  }

  // --- combining -----------------------------------------------------------------------

  function WithEffect(ps: seq<Policy>, effect: Effect): (r: seq<Policy>)
    ensures forall p :: p in r <==> p in ps && p.effect == effect
  {
    if ps == [] then [] else (if ps[0].effect == effect then [ps[0]] else []) + WithEffect(ps[1..], effect)
  }

  function Strongest(matched: seq<Policy>, effect: Effect): Option<Policy> {
    var candidates := WithEffect(matched, effect);
    if candidates == [] then None else Some(Largest(Weaker, candidates))
  }

  function FirstFound(matched: seq<Policy>, order: seq<Effect>, default: Effect): (Effect, Option<Policy>) {
    if order == [] then (default, None)
    else
      var found := Strongest(matched, order[0]);
      if found.Some? then (order[0], found) else FirstFound(matched, order[1..], default)
  }

  function Combine(algorithm: Algorithm, default: Effect, matched: seq<Policy>): (Effect, Option<Policy>) {
    if matched == [] then (default, None)
    else
      match algorithm
      case DenyOverrides => FirstFound(matched, [Deny, RequireApproval, Allow], default)
      case PermitOverrides => FirstFound(matched, [Allow, RequireApproval, Deny], default)
      case PriorityOrdered =>
        var winner := Largest(WeakerRanked, matched);
        (winner.effect, Some(winner))
  }

  // --- obligations -----------------------------------------------------------------------

  function AddNew(collected: seq<Obligation>, os: seq<Obligation>): seq<Obligation>
    decreases |os|
  {
    if os == [] then collected
    else AddNew(if os[0] in collected then collected else collected + [os[0]], os[1..])
  }

  function AddAll(collected: seq<Obligation>, ps: seq<Policy>): seq<Obligation>
    decreases |ps|
  {
    if ps == [] then collected else AddAll(AddNew(collected, ps[0].obligations), ps[1..])
  }

  /** Deduplicated obligations of a set of policies, strongest first. */
  function Union(ps: seq<Policy>): seq<Obligation> {
    AddAll([], SortBy(ByPriority, ps))
  }

  method UnionObligations(policies: seq<Policy>) returns (collected: seq<Obligation>)
    ensures collected == Union(policies)
  {
    collected := [];
    var seen: set<Obligation> := {};
    var ordered := SortBy(ByPriority, policies);
    for i := 0 to |ordered|
      invariant AddAll(collected, ordered[i..]) == Union(policies)
      invariant forall o :: o in seen <==> o in collected
    {
      assert ordered[i..][1..] == ordered[i + 1..];
      var os := ordered[i].obligations;
      for j := 0 to |os|
        invariant AddAll(AddNew(collected, os[j..]), ordered[i + 1..]) == Union(policies)
        invariant forall o :: o in seen <==> o in collected
      {
        assert os[j..][1..] == os[j + 1..];
        if os[j] !in seen {
          seen := seen + {os[j]};
          collected := collected + [os[j]];
        }
      }
    }
  }

  function CollectObligations(matched: seq<Policy>, effect: Effect): seq<Obligation> {
    if effect == Deny then [] else Union(WithEffect(matched, effect))
  }

  function Named(ps: seq<Policy>, keys: seq<string>, effects: set<Effect>): (r: seq<Policy>)
    ensures forall p :: p in r <==> p in ps && p.key in keys && p.effect in effects
  {
    if ps == [] then []
    else (if ps[0].key in keys && ps[0].effect in effects then [ps[0]] else []) + Named(ps[1..], keys, effects)
  }

  function KeysOf(ps: seq<Policy>): (r: seq<string>)
    ensures |r| == |ps| && forall i | 0 <= i < |ps| :: r[i] == ps[i].key
  {
    if ps == [] then [] else [ps[0].key] + KeysOf(ps[1..])
  }

  // --- the engine ---------------------------------------------------------------------------

  datatype Engine = Engine(policies: seq<Policy>, algorithm: Algorithm, default: Effect, loadErrors: seq<string>) {
    /** Construction keeps the enabled policies, highest priority first. */
    function Loaded(): seq<Policy> {
      SortBy(ByPriority, Enabled(policies))
    }

    function Decide(e: Patterns, root: Value, explain: bool): Result<Decision, Raise> {
      var m :- MatchAll(e, Loaded(), root, explain);
      var (effect, determining) := Combine(algorithm, default, m.matched);
      Ok(Decision(effect, CollectObligations(m.matched, effect), KeysOf(m.matched),
                  if determining.Some? then Some(determining.value.key) else None, loadErrors + m.errors))
    }

    /** The obligations of named policies whose effect is among these. */
    function ObligationsFor(keys: seq<string>, effects: set<Effect>): seq<Obligation> {
      Union(Named(Loaded(), keys, effects))
    }
  }

  method EvaluateRequest(engine: Engine, e: Patterns, root: Value, explain: bool) returns (r: Result<Decision, Raise>)
    ensures r == engine.Decide(e, root, explain)
  {
    hide EvalNode, Combine, WithEffect, Union, Engine.Loaded, MatchAll, KeysOf;
    MatchNone(e, root, explain);
    var matched: seq<Policy>, errors: seq<string> := [], engine.loadErrors;
    ghost var raised: seq<string> := [];
    var policies := engine.Loaded();
    for i := 0 to |policies|
      invariant MatchAll(e, policies[..i], root, explain) == Ok(Matching(matched, raised))
      invariant errors == engine.loadErrors + raised
    {
      MatchOne(e, policies, i, root, explain);
      var node := Evaluate(e, policies[i].rule, root, explain);
      match node {
        case Err(ValueError) =>
          MatchRaises(e, policies, i, root, explain);
          return Err(ValueError);
        case Err(PolicyError(_)) =>
          errors := errors + [policies[i].key];
          raised := raised + [policies[i].key];
        case Ok(result) =>
          if result.passed {
            matched := matched + [policies[i]];
          }
      }
    }
    assert policies[..|policies|] == policies;
    var (effect, determining) := Combine(engine.algorithm, engine.default, matched);
    var obligations := [];
    if effect != Deny {
      obligations := UnionObligations(WithEffect(matched, effect));
    }
    r := Ok(Decision(effect, obligations, KeysOf(matched),
                     if determining.Some? then Some(determining.value.key) else None, errors));
  }

  lemma MatchNone(e: Patterns, root: Value, explain: bool)
    ensures MatchAll(e, [], root, explain) == Ok(Matching([], []))
  {}

  lemma MatchOne(e: Patterns, ps: seq<Policy>, i: nat, root: Value, explain: bool)
    requires i < |ps| && MatchAll(e, ps[..i], root, explain).Ok?
    ensures var before := MatchAll(e, ps[..i], root, explain).value;
      MatchAll(e, ps[..i + 1], root, explain) ==
      match EvalNode(e, ps[i].rule, root, explain)
      case Err(ValueError) => Err(ValueError)
      case Err(PolicyError(_)) => Ok(before.(errors := before.errors + [ps[i].key]))
      case Ok(r) => Ok(if r.passed then before.(matched := before.matched + [ps[i]]) else before)
  {
    hide EvalNode;
    assert ps[..i + 1][..i] == ps[..i];
  }

  lemma {:induction false} MatchRaises(e: Patterns, ps: seq<Policy>, i: nat, root: Value, explain: bool)
    requires i < |ps| && MatchAll(e, ps[..i], root, explain).Ok?
    requires EvalNode(e, ps[i].rule, root, explain) == Err(ValueError)
    ensures MatchAll(e, ps, root, explain) == Err(ValueError)
  {
    hide EvalNode;
    var n := |ps|;
    if i < n - 1 {
      assert ps[..n - 1][..i] == ps[..i] && ps[..n - 1][i] == ps[i];
      MatchRaises(e, ps[..n - 1], i, root, explain);
    }
  }

  // --- the decision does not depend on the order of policies --------------------------------

  lemma {:induction false} EnabledMembers(ps: seq<Policy>)
    ensures forall x :: multiset(Enabled(ps))[x] == if x.enabled then multiset(ps)[x] else 0
  {
    if ps != [] {
      EnabledMembers(ps[1..]);
      assert ps == [ps[0]] + ps[1..];
    }
  }

  lemma {:induction false} EnabledUnique(ps: seq<Policy>)
    requires UniqueKeys(ps)
    ensures UniqueKeys(Enabled(ps))
    ensures forall p :: p in Enabled(ps) <==> p in ps && p.enabled
  {
    if ps != [] {
      var rest := Enabled(ps[1..]);
      EnabledUnique(ps[1..]);
      assert forall p :: p in ps <==> p == ps[0] || p in ps[1..];
      forall p | p in rest ensures p.key != ps[0].key {
        var i :| 0 <= i < |ps[1..]| && ps[1..][i] == p;
      }
      UniqueCons(ps[0], rest);
      assert [] + rest == rest;
    }
  }

  lemma UniqueCons(p: Policy, rest: seq<Policy>)
    requires UniqueKeys(rest) && forall q | q in rest :: q.key != p.key
    ensures UniqueKeys([p] + rest)
  {
    var all := [p] + rest;
    forall i, j | 0 <= i < j < |all| ensures all[i].key != all[j].key {
      assert all[j] == rest[j - 1] && rest[j - 1] in rest;
    }
  }

  /** A permuted policy set is loaded, and so decides, the same. */
  lemma OrderOfPoliciesIsIrrelevant(a: Engine, b: Engine, e: Patterns, root: Value, explain: bool)
    requires multiset(a.policies) == multiset(b.policies) && UniqueKeys(a.policies)
    requires a.algorithm == b.algorithm && a.default == b.default && a.loadErrors == b.loadErrors
    ensures a.Loaded() == b.Loaded() && a.Decide(e, root, explain) == b.Decide(e, root, explain)
  {
    hide MatchAll, Combine, CollectObligations, KeysOf, SortBy;
    EnabledMembers(a.policies);
    EnabledMembers(b.policies);
    assert multiset(Enabled(a.policies)) == multiset(Enabled(b.policies));
    EnabledUnique(a.policies);
    PolicyOrders();
    KeysBreakTies(Enabled(a.policies));
    SortUnique(ByPriority, Enabled(a.policies), Enabled(b.policies));
  }

  // --- what each algorithm decides -----------------------------------------------------------

  ghost predicate SomeEffect(matched: seq<Policy>, effect: Effect) {
    exists p :: p in matched && p.effect == effect
  }

  /** A lower priority, or the same and an earlier key. */
  ghost predicate Below(p: Policy, q: Policy) {
    p.priority <= q.priority && (p.priority == q.priority ==> StringLe(p.key, q.key))
  }

  /** A higher priority, or the same and an earlier key: the order obligations are taken in. */
  ghost predicate Ahead(p: Policy, q: Policy) {
    q.priority <= p.priority && (p.priority == q.priority ==> StringLe(p.key, q.key))
  }

  /** The winner is a matched policy with the winning effect, and the strongest of those. */
  ghost predicate Determines(matched: seq<Policy>, effect: Effect, determining: Option<Policy>) {
    && determining.Some? && determining.value in matched && determining.value.effect == effect
    && forall p | p in matched && p.effect == effect :: Below(p, determining.value)
  }

  lemma StrongestIs(matched: seq<Policy>, effect: Effect)
    ensures Strongest(matched, effect).Some? <==> SomeEffect(matched, effect)
    ensures Strongest(matched, effect).Some? ==> Determines(matched, effect, Strongest(matched, effect))
  {
    PolicyOrders();
    var candidates := WithEffect(matched, effect);
    if candidates != [] {
      LargestIsLargest(Weaker, candidates);
      assert candidates[0] in candidates;
    }
  }

  lemma FirstOfThree(matched: seq<Policy>, a: Effect, b: Effect, c: Effect, default: Effect)
    ensures FirstFound(matched, [a, b, c], default) ==
            if Strongest(matched, a).Some? then (a, Strongest(matched, a))
            else if Strongest(matched, b).Some? then (b, Strongest(matched, b))
            else if Strongest(matched, c).Some? then (c, Strongest(matched, c)) else (default, None)
  {
    hide Strongest;
    assert [a, b, c][1..] == [b, c] && [b, c][1..] == [c] && [c][1..] == [];
    assert FirstFound(matched, [c], default) ==
        if Strongest(matched, c).Some? then (c, Strongest(matched, c)) else (default, None);
  }

  /** Each algorithm, as its documentation puts it. */
  lemma CombineDecides(algorithm: Algorithm, default: Effect, matched: seq<Policy>)
    ensures var (effect, determining) := Combine(algorithm, default, matched);
      && (matched == [] ==> effect == default && determining == None)
      && (matched != [] ==> Determines(matched, effect, determining))
      && (matched != [] && algorithm.DenyOverrides? ==> forall p | p in matched :: Rank(p.effect) <= Rank(effect))
      && (matched != [] && algorithm.PermitOverrides? ==> forall p | p in matched :: Rank(p.effect) >= Rank(effect))
      && (matched != [] && algorithm.PriorityOrdered? ==>
            forall p | p in matched :: p.priority < determining.value.priority
              || (p.priority == determining.value.priority && Rank(p.effect) <= Rank(effect)))
  {
    hide Strongest, FirstFound;
    StrongestIs(matched, Deny);
    StrongestIs(matched, RequireApproval);
    StrongestIs(matched, Allow);
    if matched != [] {
      assert matched[0] in matched;
      FirstOfThree(matched, Deny, RequireApproval, Allow, default);
      FirstOfThree(matched, Allow, RequireApproval, Deny, default);
      if algorithm.PriorityOrdered? {
        PolicyOrders();
        LargestIsLargest(WeakerRanked, matched);
      }
    }
  }

  /** Under deny-overrides, matching more can only make the effect stricter. */
  lemma MoreMatchesNeverLoosen(default: Effect, matched: seq<Policy>, more: seq<Policy>)
    requires matched != [] && forall p | p in matched :: p in more
    ensures Rank(Combine(DenyOverrides, default, matched).0) <= Rank(Combine(DenyOverrides, default, more).0)
  {
    assert matched[0] in more;
    CombineDecides(DenyOverrides, default, matched);
    CombineDecides(DenyOverrides, default, more);
    var determining := Combine(DenyOverrides, default, matched).1;
    assert determining.value in more;
  }

  // --- what the obligations are ---------------------------------------------------------------

  lemma {:induction false} AddNewIs(collected: seq<Obligation>, os: seq<Obligation>)
    requires Distinct(collected)
    ensures Distinct(AddNew(collected, os))
    ensures forall o :: o in AddNew(collected, os) <==> o in collected || o in os
    decreases |os|
  {
    if os != [] {
      AddNewIs(if os[0] in collected then collected else collected + [os[0]], os[1..]);
      assert forall o :: o in os <==> o == os[0] || o in os[1..];
    }
  }

  ghost predicate Owed(ps: seq<Policy>, o: Obligation) {
    exists p :: p in ps && o in p.obligations
  }

  lemma {:induction false} AddAllIs(collected: seq<Obligation>, ps: seq<Policy>)
    requires Distinct(collected)
    ensures Distinct(AddAll(collected, ps))
    ensures forall o :: o in AddAll(collected, ps) <==> o in collected || Owed(ps, o)
    decreases |ps|
  {
    if ps != [] {
      AddNewIs(collected, ps[0].obligations);
      AddAllIs(AddNew(collected, ps[0].obligations), ps[1..]);
      assert forall p :: p in ps <==> p == ps[0] || p in ps[1..];
      forall o ensures Owed(ps, o) <==> o in ps[0].obligations || Owed(ps[1..], o) {}
    }
  }

  /** The union holds each obligation any of the policies owes, once. */
  lemma UnionIs(ps: seq<Policy>)
    ensures Distinct(Union(ps))
    ensures forall o :: o in Union(ps) <==> Owed(ps, o)
  {
    var ordered := SortBy(ByPriority, ps);
    AddAllIs([], ordered);
    SameMembers(ps, ordered);
    forall o ensures Owed(ps, o) <==> Owed(ordered, o) {}
  }

  /** While the effect stays, matching more only adds obligations. */
  lemma MoreMatchesOnlyAddObligations(matched: seq<Policy>, more: seq<Policy>, effect: Effect, o: Obligation)
    requires forall p | p in matched :: p in more
    requires o in CollectObligations(matched, effect)
    ensures o in CollectObligations(more, effect)
  {
    UnionIs(WithEffect(matched, effect));
    UnionIs(WithEffect(more, effect));
    var p :| p in WithEffect(matched, effect) && o in p.obligations;
    assert p in WithEffect(more, effect);
  }

  // --- whose redaction rule applies ---------------------------------------------------------

  lemma {:induction false} RedactingConcat(a: seq<Obligation>, b: seq<Obligation>, tag: string)
    ensures Redacting(a + b, tag) == if Redacting(a, tag).Some? then Redacting(a, tag) else Redacting(b, tag)
    ensures forall o | o in a && Redacting([o], tag).Some? :: Redacting(a, tag).Some?
  {
    hide Redaction.LabelsCover;
    if a == [] {
      assert a + b == b;
    } else {
      RedactingConcat(a[1..], b, tag);
      assert (a + b)[0] == a[0] && (a + b)[1..] == a[1..] + b;
      assert [a[0]][1..] == [];
    }
  }

  lemma {:induction false} RedactingAfterAddNew(collected: seq<Obligation>, os: seq<Obligation>, tag: string)
    ensures Redacting(AddNew(collected, os), tag) ==
            if Redacting(collected, tag).Some? then Redacting(collected, tag) else Redacting(os, tag)
    decreases |os|
  {
    hide Redacting;
    if os == [] {
      NoneRedacting(tag);
    } else {
      RedactingAfterAddNew(if os[0] in collected then collected else collected + [os[0]], os[1..], tag);
      RedactingConcat(collected, [os[0]], tag);
      RedactingConcat([os[0]], os[1..], tag);
      assert os == [os[0]] + os[1..];
    }
  }

  lemma NoneRedacting(tag: string)
    ensures Redacting([], tag) == None
  {}

  /** The redaction of the first of these policies that has one for the label. */
  function FirstRedacting(ps: seq<Policy>, tag: string): Option<Obligation> {
    if ps == [] then None
    else if Redacting(ps[0].obligations, tag).Some? then Redacting(ps[0].obligations, tag)
    else FirstRedacting(ps[1..], tag)
  }

  lemma {:induction false} RedactingAfterAddAll(collected: seq<Obligation>, ps: seq<Policy>, tag: string)
    ensures Redacting(AddAll(collected, ps), tag) ==
            if Redacting(collected, tag).Some? then Redacting(collected, tag) else FirstRedacting(ps, tag)
    decreases |ps|
  {
    hide Redacting;
    if ps != [] {
      RedactingAfterAddNew(collected, ps[0].obligations, tag);
      RedactingAfterAddAll(AddNew(collected, ps[0].obligations), ps[1..], tag);
    }
  }

  /** p redacts the label, and no policy that does is stronger. */
  ghost predicate StrongestRedacting(ps: seq<Policy>, p: Policy, tag: string) {
    p in ps && Redacting(p.obligations, tag).Some?
    && forall q | q in ps && Redacting(q.obligations, tag).Some? :: Ahead(p, q)
  }

  lemma {:induction false} FirstIsStrongest(ps: seq<Policy>, tag: string)
    requires SortedBy(ByPriority, ps) && forall p | p in ps :: ByPriority(p, p)
    ensures FirstRedacting(ps, tag).Some? ==>
              exists p :: StrongestRedacting(ps, p, tag) && Redacting(p.obligations, tag) == FirstRedacting(ps, tag)
    ensures FirstRedacting(ps, tag) == None ==> forall p | p in ps :: Redacting(p.obligations, tag) == None
  {
    hide Redacting;
    if ps != [] {
      assert ps[0] in ps;
      FirstIsStrongest(ps[1..], tag);
      if Redacting(ps[0].obligations, tag).Some? {
        assert StrongestRedacting(ps, ps[0], tag);
      } else if FirstRedacting(ps, tag).Some? {
        var p :| StrongestRedacting(ps[1..], p, tag) && Redacting(p.obligations, tag) == FirstRedacting(ps, tag);
        assert StrongestRedacting(ps, p, tag);
      }
    }
  }

  /** The union is in order of strength, and that settles conflicts: a label is redacted as
      the strongest policy that redacts it says, whatever weaker ones say. */
  lemma StrongestPolicyRedacts(ps: seq<Policy>, tag: string)
    ensures Redacting(Union(ps), tag).Some? ==>
              exists p :: StrongestRedacting(ps, p, tag) && Redacting(p.obligations, tag) == Redacting(Union(ps), tag)
    ensures Redacting(Union(ps), tag) == None ==> forall p | p in ps :: Redacting(p.obligations, tag) == None
  {
    hide Redacting, ByPriority, SortBy;
    var ordered := SortBy(ByPriority, ps);
    PolicyOrders();
    SortSorted(ByPriority, ps);
    SameMembers(ps, ordered);
    assert forall p | p in ordered :: ByPriority(p, p);
    FirstIsStrongest(ordered, tag);
    RedactingAfterAddAll([], ordered, tag);
    NoneRedacting(tag);
    if Redacting(Union(ps), tag).Some? {
      var p :| StrongestRedacting(ordered, p, tag) && Redacting(p.obligations, tag) == FirstRedacting(ordered, tag);
      assert StrongestRedacting(ps, p, tag);
    }
  }

  lemma {:induction false} MatchedAreLoaded(e: Patterns, ps: seq<Policy>, root: Value, explain: bool)
    requires MatchAll(e, ps, root, explain).Ok?
    ensures forall p | p in MatchAll(e, ps, root, explain).value.matched :: p in ps
  {
    hide EvalNode;
    if ps != [] {
      assert ps == ps[..|ps| - 1] + [ps[|ps| - 1]];
      MatchedAreLoaded(e, ps[..|ps| - 1], root, explain);
    }
  }

  lemma {:induction false} LoadedUnique(engine: Engine)
    requires UniqueKeys(engine.policies)
    ensures forall p, q | p in engine.Loaded() && q in engine.Loaded() && p.key == q.key :: p == q
  {
    EnabledUnique(engine.policies);
    SameMembers(Enabled(engine.policies), engine.Loaded());
    KeysBreakTies(Enabled(engine.policies));
    forall p, q | p in engine.Loaded() && q in engine.Loaded() && p.key == q.key ensures p == q {
      var ps := Enabled(engine.policies);
      var i :| 0 <= i < |ps| && ps[i] == p;
      var j :| 0 <= j < |ps| && ps[j] == q;
    }
  }

  /** The matched policies whose effect is among these are the named ones. */
  lemma NamedAreMatched(engine: Engine, e: Patterns, root: Value, explain: bool, effects: set<Effect>)
    requires UniqueKeys(engine.policies) && MatchAll(e, engine.Loaded(), root, explain).Ok?
    ensures var matched := MatchAll(e, engine.Loaded(), root, explain).value.matched;
      forall p :: p in Named(engine.Loaded(), KeysOf(matched), effects) <==> p in matched && p.effect in effects
  {
    hide MatchAll, SortBy;
    var matched := MatchAll(e, engine.Loaded(), root, explain).value.matched;
    MatchedAreLoaded(e, engine.Loaded(), root, explain);
    LoadedUnique(engine);
    forall p | p in matched ensures p.key in KeysOf(matched) {
      var i :| 0 <= i < |matched| && matched[i] == p;
      assert KeysOf(matched)[i] == p.key;
    }
    forall p | p in engine.Loaded() && p.key in KeysOf(matched) ensures p in matched {
      var i :| 0 <= i < |matched| && KeysOf(matched)[i] == p.key;
      assert matched[i] in matched;
    }
  }

  /** The policies this evaluation matched with an effect. */
  function MatchedWith(engine: Engine, e: Patterns, root: Value, explain: bool, effect: Effect): seq<Policy>
    requires MatchAll(e, engine.Loaded(), root, explain).Ok?
  {
    WithEffect(MatchAll(e, engine.Loaded(), root, explain).value.matched, effect)
  }

  /** Redeeming an approval sheds no duty and invents none: what is collected again is every
      obligation of the parked decision and every one a matched allow would have imposed. */
  lemma RedeemingKeepsObligations(engine: Engine, e: Patterns, root: Value, explain: bool)
    requires UniqueKeys(engine.policies)
    requires engine.Decide(e, root, explain).Ok? && engine.Decide(e, root, explain).value.effect == RequireApproval
    ensures var d := engine.Decide(e, root, explain).value;
      forall o :: o in engine.ObligationsFor(d.matched, {Allow, RequireApproval}) <==>
                  o in d.obligations || Owed(MatchedWith(engine, e, root, explain, Allow), o)
  {
    hide Union, MatchAll, Combine, UniqueKeys, SortBy, KeysOf;
    var d := engine.Decide(e, root, explain).value;
    var matched := MatchAll(e, engine.Loaded(), root, explain).value.matched;
    var named := Named(engine.Loaded(), d.matched, {Allow, RequireApproval});
    NamedAreMatched(engine, e, root, explain, {Allow, RequireApproval});
    UnionIs(WithEffect(matched, RequireApproval));
    UnionIs(named);
    forall o ensures Owed(named, o) <==> Owed(WithEffect(matched, RequireApproval), o) || Owed(WithEffect(matched, Allow), o) {
      SplitOwed(named, WithEffect(matched, Allow), WithEffect(matched, RequireApproval), o);
    }
  }

  lemma SplitOwed(all: seq<Policy>, a: seq<Policy>, b: seq<Policy>, o: Obligation)
    requires forall p :: p in all <==> p in a || p in b
    ensures Owed(all, o) <==> Owed(a, o) || Owed(b, o)
  {}

  // --- explaining ---------------------------------------------------------------------------------

  /** Every policy was accepted, and all its selectors resolve on this request. */
  ghost predicate SoundOn(e: Patterns, ps: seq<Policy>, root: Value) {
    forall p | p in ps :: Canonical(e, p.rule) && Resolves(p.rule, root)
  }

  lemma {:induction false} MatchAllIgnoresExplain(e: Patterns, ps: seq<Policy>, root: Value)
    requires SoundOn(e, ps, root)
    ensures MatchAll(e, ps, root, false).Ok? && MatchAll(e, ps, root, false) == MatchAll(e, ps, root, true)
    ensures MatchAll(e, ps, root, true).value.errors == []
  {
    hide EvalNode, Canonical, Resolves;
    if ps != [] {
      var p := ps[|ps| - 1];
      assert p in ps && forall q | q in ps[..|ps| - 1] :: q in ps;
      MatchAllIgnoresExplain(e, ps[..|ps| - 1], root);
      ExplainingChangesNothing(e, p.rule, root);
    }
  }

  /** With accepted policies whose selectors resolve, asking for the explanation changes
      nothing about the decision, and no error is added to those of loading. */
  lemma DecisionIgnoresExplain(engine: Engine, e: Patterns, root: Value)
    requires SoundOn(e, engine.policies, root)
    ensures engine.Decide(e, root, false).Ok? && engine.Decide(e, root, false) == engine.Decide(e, root, true)
    ensures engine.Decide(e, root, true).value.errors == engine.loadErrors
  {
    hide Canonical, Resolves, MatchAll;
    EnabledMembers(engine.policies);
    SameMembers(Enabled(engine.policies), engine.Loaded());
    forall p | p in engine.Loaded() ensures p in engine.policies {
      assert p in Enabled(engine.policies);
      assert multiset(Enabled(engine.policies))[p] > 0;
    }
    MatchAllIgnoresExplain(e, engine.Loaded(), root);
    assert engine.loadErrors + [] == engine.loadErrors;
  }

  /** A policy that failed to load is named in every decision, ahead of any other error. */
  lemma LoadErrorsAreAlwaysReported(engine: Engine, e: Patterns, root: Value, explain: bool)
    requires engine.Decide(e, root, explain).Ok?
    ensures engine.loadErrors <= engine.Decide(e, root, explain).value.errors
  {
    hide MatchAll, Combine, CollectObligations;
  }

  // --- the decision, from the policies alone -------------------------------------------------------

  /** The policy is enabled, and what it says of the request is so. */
  ghost predicate Applies(e: Patterns, p: Policy, root: Value) {
    p.enabled && Holds(e, p.rule, root)
  }

  /** Every enabled policy was accepted. */
  ghost predicate AcceptedPolicies(e: Patterns, ps: seq<Policy>) {
    forall p | p in ps && p.enabled :: Canonical(e, p.rule)
  }

  /** What evaluating a policy has to read resolves: all of it when explaining. */
  ghost predicate Answerable(e: Patterns, p: Policy, root: Value, explain: bool) {
    if explain then Resolves(p.rule, root) else ReachedResolve(e, p.rule, root)
  }

  lemma OnePolicy(e: Patterns, p: Policy, root: Value, explain: bool)
    requires Canonical(e, p.rule)
    ensures var r := EvalNode(e, p.rule, root, explain);
      && (r.Ok? <==> Answerable(e, p, root, explain))
      && (r.Ok? ==> (r.value.passed <==> Holds(e, p.rule, root)))
      && (r.Err? ==> r.error == ValueError)
  {
    hide EvalNode, Canonical, Resolves, ReachedResolve, Holds;
    EvalRaises(e, p.rule, root, explain);
    QuickDecides(e, p.rule, root);
    ExplainingChangesTheAnswerIff(e, p.rule, root);
    if Resolves(p.rule, root) {
      EvalMeans(e, p.rule, root, explain);
    }
  }

  /** The policies that hold, in order. */
  ghost function Holding(e: Patterns, ps: seq<Policy>, root: Value): (r: seq<Policy>)
    ensures forall p :: p in r <==> p in ps && Holds(e, p.rule, root)
  {
    if ps == [] then []
    else
      var last := ps[|ps| - 1];
      assert ps == ps[..|ps| - 1] + [last];
      Holding(e, ps[..|ps| - 1], root) + (if Holds(e, last.rule, root) then [last] else [])
  }

  lemma {:induction false} MatchAllHolds(e: Patterns, ps: seq<Policy>, root: Value, explain: bool)
    requires forall p | p in ps :: Canonical(e, p.rule)
    ensures MatchAll(e, ps, root, explain).Ok? <==> forall p | p in ps :: Answerable(e, p, root, explain)
    ensures MatchAll(e, ps, root, explain).Ok? ==> MatchAll(e, ps, root, explain) == Ok(Matching(Holding(e, ps, root), []))
  {
    hide EvalNode, Canonical, Answerable, Holds;
    if ps != [] {
      var before, last := ps[..|ps| - 1], ps[|ps| - 1];
      assert ps == before + [last] && last in ps;
      MatchAllHolds(e, before, root, explain);
      OnePolicy(e, last, root, explain);
      assert Holding(e, before, root) + [] == Holding(e, before, root);
    }
  }

  lemma LoadedAreEnabled(engine: Engine)
    ensures forall p :: p in engine.Loaded() <==> p in engine.policies && p.enabled
    ensures SortedBy(ByPriority, engine.Loaded())
    ensures UniqueKeys(engine.policies) ==> UniqueKeys(engine.Loaded())
  {
    hide ByPriority, UniqueKeys;
    PolicyOrders();
    EnabledMembers(engine.policies);
    SameMembers(Enabled(engine.policies), engine.Loaded());
    SortSorted(ByPriority, Enabled(engine.policies));
    forall p ensures p in Enabled(engine.policies) <==> p in engine.policies && p.enabled {
      assert p in Enabled(engine.policies) <==> multiset(Enabled(engine.policies))[p] > 0;
      assert p in engine.policies <==> multiset(engine.policies)[p] > 0;
    }
    if UniqueKeys(engine.policies) {
      EnabledUnique(engine.policies);
      SortKeepsKeysUnique(Enabled(engine.policies));
    }
  }

  lemma SortKeepsKeysUnique(ps: seq<Policy>)
    requires UniqueKeys(ps)
    ensures UniqueKeys(SortBy(ByPriority, ps))
  {
    hide ByPriority;
    var sorted := SortBy(ByPriority, ps);
    assert Distinct(ps);
    SortDistinct(ByPriority, ps);
    SameMembers(ps, sorted);
    forall i, j | 0 <= i < j < |sorted| ensures sorted[i].key != sorted[j].key {
      assert sorted[i] in ps && sorted[j] in ps;
      var k :| 0 <= k < |ps| && ps[k] == sorted[i];
      var l :| 0 <= l < |ps| && ps[l] == sorted[j];
    }
  }

  /** Deciding raises exactly when some enabled policy comes to read what does not resolve. */
  lemma DecideRaisesIff(engine: Engine, e: Patterns, root: Value, explain: bool)
    requires AcceptedPolicies(e, engine.policies)
    ensures engine.Decide(e, root, explain).Ok? <==>
              forall p | p in engine.policies && p.enabled :: Answerable(e, p, root, explain)
  {
    hide MatchAll, Answerable, Canonical, Combine, CollectObligations, Engine.Loaded;
    LoadedAreEnabled(engine);
    MatchAllHolds(e, engine.Loaded(), root, explain);
  }

  /** Which effect each algorithm takes from the policies that apply, and whose it is. */
  ghost predicate Wins(algorithm: Algorithm, applying: iset<Policy>, w: Policy) {
    && w in applying
    && match algorithm
       case DenyOverrides =>
         (forall p | p in applying :: Rank(p.effect) <= Rank(w.effect) && (p.effect == w.effect ==> Below(p, w)))
       case PermitOverrides =>
         (forall p | p in applying :: Rank(w.effect) <= Rank(p.effect) && (p.effect == w.effect ==> Below(p, w)))
       case PriorityOrdered =>
         (forall p | p in applying ::
            && p.priority <= w.priority
            && (p.priority == w.priority ==> Rank(p.effect) <= Rank(w.effect))
            && (p.effect == w.effect ==> Below(p, w)))
  }

  /** A decision over accepted policies, stated from the policies alone. Its effect is the
      default where none applies, and else the winner's. Its obligations are, each once,
      exactly those of the policies that apply and have that effect; a deny has none. It
      names exactly the policies that apply, and no error but those of loading. */
  lemma DecisionIs(engine: Engine, e: Patterns, root: Value, explain: bool)
    requires AcceptedPolicies(e, engine.policies) && engine.Decide(e, root, explain).Ok?
    ensures var d := engine.Decide(e, root, explain).value;
            var applying := iset p | p in engine.policies && Applies(e, p, root);
      && d.errors == engine.loadErrors
      && (applying == iset{} ==> d.effect == engine.default && d.determining == None)
      && (applying != iset{} ==>
            exists w :: Wins(engine.algorithm, applying, w) && d.effect == w.effect && d.determining == Some(w.key))
      && Distinct(d.obligations)
      && (forall o :: o in d.obligations <==>
            d.effect != Deny && exists p :: p in engine.policies && Applies(e, p, root) && p.effect == d.effect && o in p.obligations)
      && (forall key :: key in d.matched <==> exists p :: p in engine.policies && Applies(e, p, root) && p.key == key)
  {
    hide MatchAll, Canonical, Combine, CollectObligations, Engine.Loaded, KeysOf, Holds, Wins, Distinct;
    LoadedAreEnabled(engine);
    MatchAllHolds(e, engine.Loaded(), root, explain);
    var matched := Holding(e, engine.Loaded(), root);
    var d := engine.Decide(e, root, explain).value;
    var applying := iset p | p in engine.policies && Applies(e, p, root);
    assert forall p :: p in matched <==> p in applying;
    assert engine.loadErrors + [] == engine.loadErrors;
    WinnerIs(engine.algorithm, engine.default, matched, applying);
    var determining := Combine(engine.algorithm, engine.default, matched).1;
    assert applying != iset{} ==> Wins(engine.algorithm, applying, determining.value) && d.determining == Some(determining.value.key);
    CollectedAre(matched, d.effect);
    forall key ensures key in d.matched <==> exists p :: p in engine.policies && Applies(e, p, root) && p.key == key {
      KeyAmong(matched, key);
    }
  }

  lemma KeyAmong(ps: seq<Policy>, key: string)
    ensures key in KeysOf(ps) <==> exists p :: p in ps && p.key == key
  {
    hide KeysOf;
    if key in KeysOf(ps) {
      var i :| 0 <= i < |ps| && KeysOf(ps)[i] == key;
      assert ps[i] in ps;
    }
    if p :| p in ps && p.key == key {
      var i :| 0 <= i < |ps| && ps[i] == p;
      assert KeysOf(ps)[i] == key;
    }
  }

  lemma WinnerIs(algorithm: Algorithm, default: Effect, matched: seq<Policy>, applying: iset<Policy>)
    requires forall p :: p in matched <==> p in applying
    ensures var (effect, determining) := Combine(algorithm, default, matched);
      && (applying == iset{} ==> effect == default && determining == None)
      && (applying != iset{} ==>
            determining.Some? && Wins(algorithm, applying, determining.value) && effect == determining.value.effect)
  {
    hide Combine;
    CombineDecides(algorithm, default, matched);
    if matched == [] {
      assert applying == iset{};
    } else {
      assert matched[0] in applying;
    }
  }

  lemma CollectedAre(matched: seq<Policy>, effect: Effect)
    ensures Distinct(CollectObligations(matched, effect))
    ensures forall o :: o in CollectObligations(matched, effect) <==>
              effect != Deny && exists p :: p in matched && p.effect == effect && o in p.obligations
  {
    hide Union;
    UnionIs(WithEffect(matched, effect));
    forall o ensures Owed(WithEffect(matched, effect), o) <==> exists p :: p in matched && p.effect == effect && o in p.obligations {}
  }

  /** With unique keys a decision names each policy that applies once, in order of strength. */
  lemma MatchedInOrder(engine: Engine, e: Patterns, root: Value, explain: bool, p: Policy, q: Policy, i: nat, j: nat)
    requires AcceptedPolicies(e, engine.policies) && UniqueKeys(engine.policies)
    requires engine.Decide(e, root, explain).Ok?
    requires var d := engine.Decide(e, root, explain).value; i < j < |d.matched| && d.matched[i] == p.key && d.matched[j] == q.key
    requires p in engine.policies && Applies(e, p, root) && q in engine.policies && Applies(e, q, root)
    ensures p.key != q.key && Ahead(p, q)
  {
    hide Engine.Decide, Engine.Loaded, Holds, UniqueKeys, AcceptedPolicies, ByPriority;
    LoadedAreEnabled(engine);
    DecisionMatched(engine, e, root, explain);
    var matched := Holding(e, engine.Loaded(), root);
    HoldingInOrder(e, engine.Loaded(), root);
    LoadedUnique(engine);
    hide Holding;
    assert matched[i] in matched && matched[j] in matched && p in engine.Loaded() && q in engine.Loaded();
    assert matched[i] == p && matched[j] == q;
    KeysApart(matched, i, j);
    AheadIs(p, q);
  }

  lemma AheadIs(p: Policy, q: Policy)
    ensures ByPriority(p, q) <==> Ahead(p, q)
  {}

  lemma DecisionMatched(engine: Engine, e: Patterns, root: Value, explain: bool)
    requires AcceptedPolicies(e, engine.policies) && engine.Decide(e, root, explain).Ok?
    ensures engine.Decide(e, root, explain).value.matched == KeysOf(Holding(e, engine.Loaded(), root))
  {
    hide MatchAll, Canonical, Combine, CollectObligations, Engine.Loaded, Holding;
    LoadedAreEnabled(engine);
    MatchAllHolds(e, engine.Loaded(), root, explain);
  }

  lemma KeysApart(ps: seq<Policy>, i: nat, j: nat)
    requires UniqueKeys(ps) && i < j < |ps|
    ensures ps[i].key != ps[j].key
  {}

  lemma OrderedSnoc(ps: seq<Policy>, last: Policy)
    requires SortedBy(ByPriority, ps) && UniqueKeys(ps)
    requires forall p | p in ps :: ByPriority(p, last) && p.key != last.key
    ensures SortedBy(ByPriority, ps + [last]) && UniqueKeys(ps + [last])
  {
    hide ByPriority;
  }

  lemma {:induction false} HoldingInOrder(e: Patterns, ps: seq<Policy>, root: Value)
    requires SortedBy(ByPriority, ps) && UniqueKeys(ps)
    ensures SortedBy(ByPriority, Holding(e, ps, root)) && UniqueKeys(Holding(e, ps, root))
  {
    hide Holds, ByPriority;
    if ps != [] {
      var before, last := ps[..|ps| - 1], ps[|ps| - 1];
      assert ps == before + [last];
      HoldingInOrder(e, before, root);
      forall p | p in Holding(e, before, root) ensures ByPriority(p, last) && p.key != last.key {
        var k :| 0 <= k < |before| && before[k] == p;
        assert ps[k] == p;
      }
      OrderedSnoc(Holding(e, before, root), last);
      assert Holding(e, before, root) + [] == Holding(e, before, root);
    }
  }

  /** What is collected again when an approval is redeemed, from the policies alone: every
      obligation of those that apply and either allow or require approval, each once. */
  lemma RedeemingOwes(engine: Engine, e: Patterns, root: Value, explain: bool)
    requires AcceptedPolicies(e, engine.policies) && UniqueKeys(engine.policies) && engine.Decide(e, root, explain).Ok?
    ensures var os := engine.ObligationsFor(engine.Decide(e, root, explain).value.matched, {Allow, RequireApproval});
      && Distinct(os)
      && forall o :: o in os <==>
           exists p :: p in engine.policies && Applies(e, p, root) && p.effect != Deny && o in p.obligations
  {
    hide MatchAll, Canonical, Combine, CollectObligations, Engine.Loaded, KeysOf, Holds, Union, UniqueKeys, Distinct;
    LoadedAreEnabled(engine);
    MatchAllHolds(e, engine.Loaded(), root, explain);
    NamedAreMatched(engine, e, root, explain, {Allow, RequireApproval});
    var named := Named(engine.Loaded(), engine.Decide(e, root, explain).value.matched, {Allow, RequireApproval});
    UnionIs(named);
    forall p ensures p in named <==> p in engine.policies && Applies(e, p, root) && p.effect != Deny {}
    forall o
      ensures Owed(named, o) <==>
                exists p :: p in engine.policies && Applies(e, p, root) && p.effect != Deny && o in p.obligations {}
  }
}
