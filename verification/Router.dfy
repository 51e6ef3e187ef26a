/**
 Choosing a model under route obligations (control_plane/routing/router.py). Attribute
 values are strings.
 */
module Router {
  import opened Wrappers
  import opened Ordering
  import opened Obligations

  datatype Candidate = Candidate(
    urn: string, name: string, aliases: seq<string>, priority: int, enabled: bool, attributes: map<string, string>)

  /** Why a model may not be used: routing to it is switched off, it goes by another name, or
      it falls short of a requirement. */
  datatype Rejection = SwitchedOff | OtherName | Unmet

  datatype Routing = Routing(
    target: Option<string>, requested: string, original: Option<string>, considered: seq<string>,
    rejected: map<string, Rejection>)

  predicate AnswersTo(c: Candidate, name: string) {
    name == c.urn || name == c.name || name in c.aliases
  }

  function Wanted(r: Requirement): seq<string> {
    match r case Scalar(v) => [v] case OneOf(vs) => vs
  }

  /** An attribute the model does not declare fails. */
  predicate Meets(c: Candidate, need: Needed) {
    need.attribute in c.attributes && c.attributes[need.attribute] in Wanted(need.allowed)
  }

  predicate Satisfies(c: Candidate, requirements: map<string, Requirement>) {
    forall key | key in requirements :: key in c.attributes && c.attributes[key] in Wanted(requirements[key])
  }

  // --- narrowing -------------------------------------------------------------------------

  function Common(a: seq<string>, b: seq<string>): (r: seq<string>)
    ensures forall s :: s in r <==> s in a && s in b
  {
    if a == [] then []
    else
      var rest := Common(a[1..], b);
      if a[0] in b && a[0] !in rest then [a[0]] + rest else rest
  }

  /** A second requirement narrows the first; disjoint ones leave nothing acceptable. */
  function Intersect(existing: Option<Requirement>, incoming: Requirement): Requirement {
    match existing
    case None => incoming
    case Some(r) => OneOf(SortBy(StringLe, Common(Wanted(r), Wanted(incoming))))
  }

  function Existing(requirements: map<string, Requirement>, key: string): Option<Requirement> {
    if key in requirements then Some(requirements[key]) else None
  }

  function Narrow(requirements: map<string, Requirement>, needs: seq<Needed>): map<string, Requirement> {
    if needs == [] then requirements
    else
      var before := Narrow(requirements, needs[..|needs| - 1]);
      var need := needs[|needs| - 1];
      before[need.attribute := Intersect(Existing(before, need.attribute), need.allowed)]
  }

  datatype Constraints = Constraints(requested: string, requirements: map<string, Requirement>)

  function IsRoute(o: Obligation): bool {
    o.kind == "route"
  }

  function Routes(obligations: seq<Obligation>): (r: seq<Obligation>)
    ensures forall o :: o in r <==> o in obligations && IsRoute(o)
  {
    if obligations == [] then []
    else (if IsRoute(obligations[0]) then [obligations[0]] else []) + Routes(obligations[1..])
  }

  /** Merging route obligations; two different named targets cannot both hold. */
  function Merge(routes: seq<Obligation>): Result<Constraints, string> {
    if routes == [] then Ok(Constraints("", map[]))
    else
      var before :- Merge(routes[..|routes| - 1]);
      var route := routes[|routes| - 1];
      if route.target != "" && before.requested != "" && route.target != before.requested then
        Err("two policies name different routing targets")
      else
        Ok(Constraints(if route.target != "" then route.target else before.requested,
                       Narrow(before.requirements, route.require)))
  }

  predicate Viable(c: Candidate, k: Constraints) {
    c.enabled && (k.requested != "" ==> AnswersTo(c, k.requested)) && Satisfies(c, k.requirements)
  }

  function WhyNot(c: Candidate, k: Constraints): Option<Rejection> {
    if !c.enabled then Some(SwitchedOff)
    else if k.requested != "" && !AnswersTo(c, k.requested) then Some(OtherName)
    else if !Satisfies(c, k.requirements) then Some(Unmet)
    else None
  }

  /** What is rejected is what is not viable, each for a reason of its own. */
  ghost predicate RejectsTheRest(cs: seq<Candidate>, k: Constraints, rejected: map<string, Rejection>) {
    && (forall c | c in cs && WhyNot(c, k).Some? :: c.urn in rejected)
    && (forall urn | urn in rejected :: exists c :: c in cs && c.urn == urn && WhyNot(c, k) == Some(rejected[urn]))
  }

  function Viables(cs: seq<Candidate>, k: Constraints): (r: seq<Candidate>)
    ensures forall c :: c in r <==> c in cs && Viable(c, k)
  {
    if cs == [] then []
    else
      var before, last := Viables(cs[..|cs| - 1], k), cs[|cs| - 1];
      assert cs == cs[..|cs| - 1] + [last];
      if Viable(last, k) then before + [last] else before
  }

  function Urns(cs: seq<Candidate>): seq<string> {
    if cs == [] then [] else [cs[0].urn] + Urns(cs[1..])
  }

  // --- choosing --------------------------------------------------------------------------

  predicate Preferred(a: Candidate, b: Candidate) {
    a.priority < b.priority || (a.priority == b.priority && StringLe(a.urn, b.urn))
  }

  /** The first smallest by (priority, urn). */
  function Best(cs: seq<Candidate>): (r: Candidate)
    requires cs != []
    ensures r in cs
  {
    if |cs| == 1 then cs[0]
    else
      var rest := Best(cs[..|cs| - 1]);
      if Preferred(rest, cs[|cs| - 1]) then rest else cs[|cs| - 1]
  }

  function Target(viable: seq<Candidate>, original: Option<string>): Option<string> {
    if viable == [] then None
    else if original.Some? && original.value in Urns(viable) then original
    else Some(Best(viable).urn)
  }

  /** Nothing to do without a route obligation. */
  function Resolution(cs: seq<Candidate>, obligations: seq<Obligation>, original: Option<string>)
    : Result<Option<(Option<string>, string)>, string>
  {
    var routes := Routes(obligations);
    if routes == [] then Ok(None)
    else
      var k :- Merge(routes);
      Ok(Some((Target(Viables(cs, k), original), k.requested)))
  }

  method MergeLoop(routes: seq<Obligation>) returns (r: Result<Constraints, string>)
    ensures r == Merge(routes)
  {
    hide Intersect;
    var requested := "";
    var requirements: map<string, Requirement> := map[];
    for i := 0 to |routes|
      invariant Merge(routes[..i]) == Ok(Constraints(requested, requirements))
    {
      assert routes[..i + 1][..i] == routes[..i];
      var route := routes[i];
      if route.target != "" && requested != "" && route.target != requested {
        MergeFails(routes, i);
        return Err("two policies name different routing targets");
      }
      if route.target != "" {
        requested := route.target;
      }
      ghost var before := requirements;
      for j := 0 to |route.require|
        invariant requirements == Narrow(before, route.require[..j])
      {
        assert route.require[..j + 1][..j] == route.require[..j];
        var need := route.require[j];
        requirements := requirements[need.attribute := Intersect(Existing(requirements, need.attribute), need.allowed)];
      }
      assert route.require[..|route.require|] == route.require;
    }
    assert routes[..|routes|] == routes;
    r := Ok(Constraints(requested, requirements));
  }

  method Resolve(cs: seq<Candidate>, obligations: seq<Obligation>, original: Option<string>)
    returns (r: Result<Option<Routing>, string>)
    ensures match Resolution(cs, obligations, original)
            case Err(error) => r == Err(error)
            case Ok(None) => r == Ok(None)
            case Ok(Some((target, requested))) =>
              && r.Ok? && r.value.Some?
              && r.value.value == Routing(target, requested, original, Urns(cs), r.value.value.rejected)
              && RejectsTheRest(cs, Merge(Routes(obligations)).value, r.value.value.rejected)
  {
    hide Merge, Best, Urns, Satisfies, AnswersTo;
    var routes := Routes(obligations);
    if routes == [] {
      return Ok(None);
    }
    var merged := MergeLoop(routes);
    if merged.Err? {
      return Err(merged.error);
    }
    var k := merged.value;
    var viable: seq<Candidate> := [];
    var rejected: map<string, Rejection> := map[];
    for i := 0 to |cs|
      invariant viable == Viables(cs[..i], k)
      invariant RejectsTheRest(cs[..i], k, rejected)
    {
      assert cs[..i + 1][..i] == cs[..i];
      var c := cs[i];
      RejectsOneMore(cs[..i], c, k, rejected);
      assert cs[..i + 1] == cs[..i] + [c];
      if !c.enabled {
        rejected := rejected[c.urn := SwitchedOff];
      } else if k.requested != "" && !AnswersTo(c, k.requested) {
        rejected := rejected[c.urn := OtherName];
      } else if !Satisfies(c, k.requirements) {
        rejected := rejected[c.urn := Unmet];
      } else {
        viable := viable + [c];
      }
    }
    assert cs[..|cs|] == cs;
    var target: Option<string> := None;
    if viable != [] {
      if original.Some? && original.value in Urns(viable) {
        target := original;
      } else {
        target := Some(Best(viable).urn);
      }
    }
    r := Ok(Some(Routing(target, k.requested, original, Urns(cs), rejected)));
  }

  lemma RejectsOneMore(cs: seq<Candidate>, c: Candidate, k: Constraints, rejected: map<string, Rejection>)
    requires RejectsTheRest(cs, k, rejected)
    ensures WhyNot(c, k) == None ==> RejectsTheRest(cs + [c], k, rejected)
    ensures WhyNot(c, k).Some? ==> RejectsTheRest(cs + [c], k, rejected[c.urn := WhyNot(c, k).value])
  {
    hide WhyNot;
    var all := cs + [c];
    assert forall x :: x in all <==> x in cs || x == c;
    if WhyNot(c, k).Some? {
      var after := rejected[c.urn := WhyNot(c, k).value];
      forall urn | urn in after ensures exists x :: x in all && x.urn == urn && WhyNot(x, k) == Some(after[urn]) {
        if urn == c.urn {
          assert c in all;
        } else {
          var x :| x in cs && x.urn == urn && WhyNot(x, k) == Some(rejected[urn]);
          assert x in all;
        }
      }
    } else {
      forall urn | urn in rejected ensures exists x :: x in all && x.urn == urn && WhyNot(x, k) == Some(rejected[urn]) {
        var x :| x in cs && x.urn == urn && WhyNot(x, k) == Some(rejected[urn]);
        assert x in all;
      }
    }
  }

  /** A model is viable exactly when there is no reason against it. */
  lemma ViableIff(c: Candidate, k: Constraints)
    ensures WhyNot(c, k) == None <==> Viable(c, k)
  {
    hide Satisfies, AnswersTo;
  }

  lemma {:induction false} MergeFails(routes: seq<Obligation>, i: nat)
    requires i < |routes| && Merge(routes[..i]).Ok? && routes[i].target != ""
    requires Merge(routes[..i]).value.requested != "" && routes[i].target != Merge(routes[..i]).value.requested
    ensures Merge(routes) == Err("two policies name different routing targets")
  {
    var n := |routes|;
    if i < n - 1 {
      assert routes[..n - 1][..i] == routes[..i] && routes[..n - 1][i] == routes[i];
      MergeFails(routes[..n - 1], i);
    }
  }

  // --- every obligation holds on its own ------------------------------------------------------

  /** A model acceptable to one route obligation, read without the others. */
  predicate MeetsRoute(c: Candidate, route: Obligation) {
    && (route.target != "" ==> AnswersTo(c, route.target))
    && forall need | need in route.require :: Meets(c, need)
  }

  /** No two route obligations name different targets. */
  ghost predicate TargetsAgree(routes: seq<Obligation>) {
    forall a, b | a in routes && b in routes && a.target != "" && b.target != "" :: a.target == b.target
  }

  lemma WantedBoth(existing: Option<Requirement>, incoming: Requirement, value: string)
    ensures value in Wanted(Intersect(existing, incoming)) <==>
              (existing.Some? ==> value in Wanted(existing.value)) && value in Wanted(incoming)
  {
    if existing.Some? {
      var common := Common(Wanted(existing.value), Wanted(incoming));
      SameMembers(common, SortBy(StringLe, common));
    }
  }

  lemma {:induction false} NarrowIsConjunction(c: Candidate, requirements: map<string, Requirement>, needs: seq<Needed>)
    ensures Satisfies(c, Narrow(requirements, needs)) <==>
              Satisfies(c, requirements) && forall need | need in needs :: Meets(c, need)
  {
    hide Intersect;
    if needs != [] {
      var before, need := Narrow(requirements, needs[..|needs| - 1]), needs[|needs| - 1];
      assert needs == needs[..|needs| - 1] + [need];
      NarrowIsConjunction(c, requirements, needs[..|needs| - 1]);
      NarrowOnce(c, before, need);
    }
  }

  lemma NarrowOnce(c: Candidate, before: map<string, Requirement>, need: Needed)
    ensures var after := before[need.attribute := Intersect(Existing(before, need.attribute), need.allowed)];
      Satisfies(c, after) <==> Satisfies(c, before) && Meets(c, need)
  {
    hide Intersect;
    var key := need.attribute;
    var after := before[key := Intersect(Existing(before, key), need.allowed)];
    if key in c.attributes {
      WantedBoth(Existing(before, key), need.allowed, c.attributes[key]);
    }
    assert forall other | other != key :: other in after <==> other in before;
    if Satisfies(c, after) {
      assert key in after;
      forall other | other in before ensures other in c.attributes && c.attributes[other] in Wanted(before[other]) {
        assert other in after;
      }
    }
  }

  /** Merging succeeds exactly when the named targets agree, and what meets the merged
      constraints is what meets every route obligation separately. */
  lemma {:induction false} MergeIsConjunction(routes: seq<Obligation>)
    ensures Merge(routes).Ok? <==> TargetsAgree(routes)
    ensures Merge(routes).Ok? ==>
              var k := Merge(routes).value;
              && (k.requested == "" <==> forall r | r in routes :: r.target == "")
              && (forall r | r in routes && r.target != "" :: r.target == k.requested)
    ensures Merge(routes).Ok? ==> forall c ::
              Viable(c, Merge(routes).value) <==> c.enabled && forall r | r in routes :: MeetsRoute(c, r)
  {
    hide Narrow, Satisfies, Meets, AnswersTo;
    if routes == [] {
      forall c {
        NoConstraints(c);
      }
    } else {
      var before, route := routes[..|routes| - 1], routes[|routes| - 1];
      assert routes == before + [route];
      MergeIsConjunction(before);
      if Merge(routes).Ok? {
        var k0, k := Merge(before).value, Merge(routes).value;
        forall c ensures Viable(c, k) <==> c.enabled && forall r | r in routes :: MeetsRoute(c, r) {
          NarrowIsConjunction(c, k0.requirements, route.require);
          assert Viable(c, k0) <==> c.enabled && forall r | r in before :: MeetsRoute(c, r);
          assert forall r :: r in routes <==> r in before || r == route;
          assert k0.requested != "" && route.target != "" ==> k0.requested == route.target;
          assert Viable(c, k) <==> Viable(c, k0) && MeetsRoute(c, route);
        }
      } else if Merge(before).Ok? {
        var named :| named in before && named.target != "";
      }
    }
  }

  lemma NoConstraints(c: Candidate)
    ensures Satisfies(c, map[])
  {}

  // --- what is chosen ---------------------------------------------------------------------------

  lemma {:induction false} BestIsBest(cs: seq<Candidate>)
    requires cs != []
    ensures forall c | c in cs :: Preferred(Best(cs), c)
  {
    StringLeOrders();
    var init, last := cs[..|cs| - 1], cs[|cs| - 1];
    assert cs == init + [last];
    if |cs| > 1 {
      BestIsBest(init);
    }
  }

  lemma {:induction false} UrnsAre(cs: seq<Candidate>)
    ensures forall u :: u in Urns(cs) <==> exists c :: c in cs && c.urn == u
  {
    if cs != [] {
      UrnsAre(cs[1..]);
      assert forall c :: c in cs <==> c == cs[0] || c in cs[1..];
    }
  }

  ghost predicate Allows(allowed: Requirement, value: string) {
    allowed == Scalar(value) || (allowed.OneOf? && value in allowed.values)
  }

  /** The model goes by the name the route gives, if any, and declares every attribute it
      asks about with a value it allows. */
  ghost predicate Suits(c: Candidate, route: Obligation) {
    && (route.target == "" || route.target == c.urn || route.target == c.name || route.target in c.aliases)
    && forall need | need in route.require ::
         need.attribute in c.attributes && Allows(need.allowed, c.attributes[need.attribute])
  }

  lemma SuitsIs(c: Candidate, route: Obligation)
    ensures MeetsRoute(c, route) <==> Suits(c, route)
  {
    forall need
      ensures Meets(c, need) <==> need.attribute in c.attributes && Allows(need.allowed, c.attributes[need.attribute]) {}
  }

  ghost predicate Acceptable(c: Candidate, routes: seq<Obligation>) {
    c.enabled && forall r | r in routes :: Suits(c, r)
  }

  lemma AcceptableIs(c: Candidate, routes: seq<Obligation>)
    ensures Acceptable(c, routes) <==> c.enabled && forall r | r in routes :: MeetsRoute(c, r)
  {
    hide MeetsRoute, Suits;
    forall r ensures MeetsRoute(c, r) <==> Suits(c, r) {
      SuitsIs(c, r);
    }
  }

  ghost predicate NamedOtherwise(c: Candidate, routes: seq<Obligation>) {
    exists r :: r in routes && r.target != "" && r.target != c.urn && r.target != c.name && r.target !in c.aliases
  }

  /** A model is turned down for being switched off; else for going by another name than a
      route gives; else for not meeting some route; and for nothing else. */
  lemma RejectionSays(c: Candidate, routes: seq<Obligation>)
    requires Merge(routes).Ok?
    ensures var why := WhyNot(c, Merge(routes).value);
      && (why == Some(SwitchedOff) <==> !c.enabled)
      && (why == Some(OtherName) <==> c.enabled && NamedOtherwise(c, routes))
      && (why == Some(Unmet) <==> c.enabled && !NamedOtherwise(c, routes) && !Acceptable(c, routes))
      && (why == None <==> Acceptable(c, routes))
  {
    hide Merge, Satisfies, MeetsRoute, Acceptable;
    var k := Merge(routes).value;
    MergeIsConjunction(routes);
    AcceptableIs(c, routes);
    ViableIff(c, k);
    assert k.requested != "" ==> exists r :: r in routes && r.target != "" && r.target == k.requested;
  }

  /** The chosen target, said without merging: it exists exactly when some enabled model
      meets every route obligation; it is the original if that one does; otherwise it is
      the least by (priority, urn) of those that do. */
  ghost predicate ChosenWell(cs: seq<Candidate>, routes: seq<Obligation>, original: Option<string>, target: Option<string>) {
    && (target.Some? <==> exists c :: c in cs && Acceptable(c, routes))
    && (target.Some? ==> exists c :: c in cs && Acceptable(c, routes) && c.urn == target.value)
    && (original.Some? && (exists c :: c in cs && Acceptable(c, routes) && c.urn == original.value) ==> target == original)
    && (target.Some? && target != original ==>
          exists best :: best in cs && Acceptable(best, routes) && best.urn == target.value
                         && forall c | c in cs && Acceptable(c, routes) ::
                              best.priority <= c.priority && (best.priority == c.priority ==> StringLe(best.urn, c.urn)))
  }

  lemma ResolutionChoosesWell(cs: seq<Candidate>, obligations: seq<Obligation>, original: Option<string>)
    ensures var routes := Routes(obligations); var r := Resolution(cs, obligations, original);
      && (r.Err? <==> !TargetsAgree(routes))
      && (r.Ok? ==> (r.value == None <==> routes == []))
      && (r.Ok? && r.value.Some? ==> ChosenWell(cs, routes, original, r.value.value.0))
  {
    hide Merge, Viable, Best, MeetsRoute, Acceptable, Urns;
    var routes := Routes(obligations);
    MergeIsConjunction(routes);
    if routes != [] && Merge(routes).Ok? {
      var viable := Viables(cs, Merge(routes).value);
      forall c ensures c in viable <==> c in cs && Acceptable(c, routes) {
        AcceptableIs(c, routes);
      }
      UrnsAre(viable);
      if viable != [] {
        BestIsBest(viable);
        assert viable[0] in viable;
        var best := Best(viable);
        assert best in cs && Acceptable(best, routes);
      }
    }
  }

  /** A target that is chosen well is the only one. */
  lemma ChoiceIsUnique(cs: seq<Candidate>, routes: seq<Obligation>, original: Option<string>, a: Option<string>, b: Option<string>)
    requires ChosenWell(cs, routes, original, a) && ChosenWell(cs, routes, original, b)
    ensures a == b
  {
    hide Acceptable;
    StringLeOrders();
  }

  /** So the order of the obligations and of the catalog, and repeats in them, do not matter. */
  lemma RoutingIgnoresOrder(cs: seq<Candidate>, ds: seq<Candidate>, os: seq<Obligation>, ps: seq<Obligation>,
                            original: Option<string>)
    requires (forall c :: c in cs <==> c in ds) && (forall o :: o in os <==> o in ps)
    ensures var a, b := Resolution(cs, os, original), Resolution(ds, ps, original);
      && (a.Err? <==> b.Err?)
      && (a.Ok? && b.Ok? ==> (a.value.Some? <==> b.value.Some?))
      && (a.Ok? && b.Ok? && a.value.Some? && b.value.Some? ==> a.value.value.0 == b.value.value.0)
  {
    hide Resolution, MeetsRoute, Preferred;
    ResolutionChoosesWell(cs, os, original);
    ResolutionChoosesWell(ds, ps, original);
    var r, q := Routes(os), Routes(ps);
    assert forall o :: o in r <==> o in q;
    assert r == [] <==> q == [] by {
      assert r != [] ==> r[0] in q;
      assert q != [] ==> q[0] in r;
    }
    forall c ensures Acceptable(c, r) <==> Acceptable(c, q) {}
    var a, b := Resolution(cs, os, original), Resolution(ds, ps, original);
    if a.Ok? && b.Ok? && a.value.Some? && b.value.Some? {
      SameChoices(cs, ds, r, q, original, b.value.value.0);
      ChoiceIsUnique(cs, r, original, a.value.value.0, b.value.value.0);
    }
  }

  lemma SameChoices(cs: seq<Candidate>, ds: seq<Candidate>, r: seq<Obligation>, q: seq<Obligation>,
                    original: Option<string>, target: Option<string>)
    requires (forall c :: c in cs <==> c in ds) && (forall c :: Acceptable(c, r) <==> Acceptable(c, q))
    requires ChosenWell(ds, q, original, target)
    ensures ChosenWell(cs, r, original, target)
  {
    hide Acceptable, Preferred;
  }
}
