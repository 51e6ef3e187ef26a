/**
 From a decision to what the caller may use: the guard on tokenisation, routing, the
 redaction pass and its report (control_plane/pdp.py), and the client on the other side of
 the wire, which hands out the payload or refuses (sdk/python/control_plane_sdk/client.py).

 "Allow, but redact" must never become "allow".
 */
module Enforcement {
  import opened Wrappers
  import opened Ordering
  import opened Scanning
  import opened Redaction
  import opened StructuredScan
  import opened Obligations
  import PolicyEngine
  import Router

  type Decision = PolicyEngine.Decision

  datatype Request = Request(
    payload: Option<Node>, urn: Option<string>, scanPayload: bool, applyObligations: bool, minConfidence: int)

  /** The control plane as configured. */
  datatype Plane = Plane(
    scanner: Scanner,
    hasVault: bool,
    derive: (Strategy, string, string, int) -> string,
    candidates: seq<Router.Candidate>
  )

  datatype Response = Response(
    effect: PolicyEngine.Effect,
    obligations: seq<Obligation>,
    unsupported: seq<string>,
    payload: Option<Node>,
    redactions: seq<Applied>,
    residual: seq<string>
  )

  // --- what the scan found ---------------------------------------------------------------

  function ScanOf(plane: Plane, r: Request): ScanResult {
    if r.payload == None || !r.scanPayload then NOTHING
    else
      match r.payload.value
      case Text(text) => ScanText(plane.scanner, text, "", "")
      case node => Walk(plane.scanner, node, "", "", 0)
  }

  function FindingsOf(plane: Plane, r: Request): seq<Finding> {
    Keep(ScanOf(plane, r).findings, r.minConfidence)
  }

  // --- what may still turn an allow into a deny --------------------------------------------

  predicate WantsTokens(o: Obligation) {
    o.kind == "redact" && o.strategy == Tokenize
  }

  function Denied(d: Decision, why: string): Decision {
    d.(effect := PolicyEngine.Deny, obligations := [], errors := d.errors + [why])
  }

  /** A decision that needs tokens nobody can issue is a deny. */
  function GuardTokenization(plane: Plane, d: Decision): Decision {
    if plane.hasVault || d.effect == PolicyEngine.Deny then d
    else if exists o :: o in d.obligations && WantsTokens(o) then Denied(d, "no tokenisation key is configured")
    else d
  }

  function AtTarget(obligations: seq<Obligation>, target: string): (r: seq<Obligation>)
    ensures |r| == |obligations|
    ensures forall i | 0 <= i < |r| ::
              r[i] == if obligations[i].kind == "route" then obligations[i].(resolved := Some(target)) else obligations[i]
  {
    if obligations == [] then []
    else [if obligations[0].kind == "route" then obligations[0].(resolved := Some(target)) else obligations[0]]
         + AtTarget(obligations[1..], target)
  }

  function ResolveRouting(plane: Plane, r: Request, d: Decision): Decision {
    if d.effect == PolicyEngine.Deny then d
    else
      match Router.Resolution(plane.candidates, d.obligations, r.urn)
      case Err(why) => Denied(d, why)
      case Ok(None) => d
      case Ok(Some((None, _))) => Denied(d, "no registered model satisfies the routing constraints")
      case Ok(Some((Some(target), _))) => d.(obligations := AtTarget(d.obligations, target))
  }

  /** The engine's decision, or a redeemed one, as it is finally answered. */
  function Settled(plane: Plane, r: Request, d: Decision): Decision {
    ResolveRouting(plane, r, GuardTokenization(plane, d))
  }

  // --- the response ------------------------------------------------------------------------

  function ConfigFor(plane: Plane, rules: seq<Rule>): Config {
    Config(rules, plane.hasVault, plane.derive)
  }

  /** Whether this decision ran the redaction pass, and ran it over the whole payload. */
  predicate RanRedaction(plane: Plane, r: Request, d: Decision) {
    d.effect == PolicyEngine.Allow && r.applyObligations && r.scanPayload && r.payload.Some?
    && !ScanOf(plane, r).truncated
  }

  function Undischarged(ran: bool, obligations: seq<Obligation>): (kinds: seq<string>)
    ensures forall k :: k in kinds <==> (!ran || k !in CONTROL_PLANE) && exists o :: o in obligations && o.kind == k
  {
    if obligations == [] then []
    else (if ran && obligations[0].kind in CONTROL_PLANE then [] else [obligations[0].kind])
         + Undischarged(ran, obligations[1..])
  }

  function ApplyRedactions(plane: Plane, payload: Option<Node>, obligations: seq<Obligation>, findings: seq<Finding>)
    : Result<Option<Redacted<Node>>, string>
  {
    if payload == None || Redactions(obligations) == [] || findings == [] then Ok(None)
    else
      var rules :- RulesOf(obligations);
      var c := ConfigFor(plane, rules);
      match payload.value
      case Text(text) =>
        var r :- ApplyToText(c, text, findings);
        Ok(Some(Redacted(Text(r.payload), r.applied, r.unhandled)))
      case node =>
        var r :- Redact(c, node, "", findings);
        Ok(Some(r))
  }

  function Uncaught(rules: seq<Rule>, findings: seq<Finding>): (tags: seq<string>)
    ensures forall t :: t in tags <==> exists f :: f in findings && f.tag == t && RuleFor(rules, t) == None
  {
    if findings == [] then []
    else (if RuleFor(rules, findings[0].tag) == None then [findings[0].tag] else []) + Uncaught(rules, findings[1..])
  }

  function BuildResponse(plane: Plane, r: Request, d: Decision): Result<Response, string> {
    var findings := FindingsOf(plane, r);
    var ran := RanRedaction(plane, r, d);
    var bare := Response(d.effect, d.obligations, SortedSet(Undischarged(ran, d.obligations)), None, [], []);
    if d.effect != PolicyEngine.Allow || !r.applyObligations then Ok(bare)
    else
      var redacted :- ApplyRedactions(plane, r.payload, d.obligations, findings);
      var withContent := match redacted
        case None => bare.(payload := r.payload)
        case Some(done) => bare.(payload := Some(done.value), redactions := done.applied);
      if !ran || findings == [] then Ok(withContent)
      else
        var rules :- RulesOf(d.obligations);
        Ok(withContent.(residual := SortedSet(Uncaught(rules, findings))))
  }

  // --- the client ---------------------------------------------------------------------------

  /** What the client takes the control plane to carry out, unless told otherwise. */
  const SATISFIED_BY_CONTROL_PLANE := {"redact"}

  datatype Refusal = DecisionDenied | ObligationUnsatisfied(outstanding: seq<string>)

  function Kinds(obligations: seq<Obligation>): (kinds: seq<string>)
    ensures forall k :: k in kinds <==> k != "" && exists o :: o in obligations && o.kind == k
  {
    if obligations == [] then []
    else (if obligations[0].kind != "" then [obligations[0].kind] else []) + Kinds(obligations[1..])
  }

  function ObligationTypes(response: Response): seq<string> {
    SortedSet(Kinds(response.obligations))
  }

  predicate Satisfiable(response: Response, canSatisfy: set<string>, kind: string) {
    (kind in SATISFIED_BY_CONTROL_PLANE && kind !in response.unsupported) || kind in canSatisfy
  }

  function Unsatisfied(response: Response, canSatisfy: set<string>, kinds: seq<string>): (r: seq<string>)
    ensures forall k :: k in r <==> k in kinds && !Satisfiable(response, canSatisfy, k)
  {
    if kinds == [] then []
    else (if Satisfiable(response, canSatisfy, kinds[0]) then [] else [kinds[0]])
         + Unsatisfied(response, canSatisfy, kinds[1..])
  }

  function Outstanding(response: Response, canSatisfy: set<string>): seq<string> {
    SortedSet(Unsatisfied(response, canSatisfy, ObligationTypes(response)))
  }

  function Enforce(response: Response, canSatisfy: set<string>): Result<Option<Node>, Refusal> {
    if response.effect != PolicyEngine.Allow then Err(DecisionDenied)
    else
      var outstanding := Outstanding(response, canSatisfy);
      if outstanding != [] then Err(ObligationUnsatisfied(outstanding)) else Ok(response.payload)
  }

  // --- settling -------------------------------------------------------------------------------

  lemma {:induction false} RedactionsAtTarget(obligations: seq<Obligation>, target: string)
    ensures Redactions(AtTarget(obligations, target)) == Redactions(obligations)
  {
    if obligations != [] {
      RedactionsAtTarget(obligations[1..], target);
    }
  }

  /** Settling denies exactly when tokens are wanting, when two routes name different
      targets, or when no enabled model meets all the routes; otherwise it sheds no duty and
      changes no redaction rule, and every route is resolved to one model that meets them all. */
  lemma SettlingShedsNothing(plane: Plane, r: Request, d: Decision)
    requires d.effect != PolicyEngine.Deny
    ensures var settled := Settled(plane, r, d);
      && (settled.effect == d.effect || settled.effect == PolicyEngine.Deny)
      && (settled.effect == PolicyEngine.Deny <==>
            || (!plane.hasVault && exists o :: o in d.obligations && WantsTokens(o))
            || !Router.TargetsAgree(Router.Routes(d.obligations))
            || (Router.Routes(d.obligations) != [] &&
                !exists c :: c in plane.candidates && Router.Acceptable(c, Router.Routes(d.obligations))))
      && (settled.effect != PolicyEngine.Deny ==>
            && Redactions(settled.obligations) == Redactions(d.obligations)
            && |settled.obligations| == |d.obligations|
            && (forall i | 0 <= i < |d.obligations| :: settled.obligations[i].kind == d.obligations[i].kind)
            && (Router.Routes(d.obligations) != [] ==>
                  exists c :: c in plane.candidates && Router.Acceptable(c, Router.Routes(d.obligations))
                              && RoutedTo(settled.obligations, c.urn)))
  {
    hide Router.Resolution, Router.Acceptable, Router.Preferred;
    var guarded := GuardTokenization(plane, d);
    if guarded.effect != PolicyEngine.Deny {
      var routes := Router.Routes(d.obligations);
      var resolution := Router.Resolution(plane.candidates, d.obligations, r.urn);
      Router.ResolutionChoosesWell(plane.candidates, d.obligations, r.urn);
      if resolution.Ok? && resolution.value.Some? && resolution.value.value.0.Some? {
        RedactionsAtTarget(d.obligations, resolution.value.value.0.value);
      }
    }
  }

  ghost predicate RoutedTo(obligations: seq<Obligation>, urn: string) {
    forall o | o in obligations && o.kind == "route" :: o.resolved == Some(urn)
  }

  // --- redaction never raises ---------------------------------------------------------------

  /** No rule asks for tokens that nobody can issue. */
  ghost predicate Issuable(c: Config) {
    c.hasVault || forall rule | rule in c.rules :: rule.strategy != Tokenize
  }

  lemma {:induction false} RuleForIsARule(rules: seq<Rule>, tag: string)
    ensures RuleFor(rules, tag).Some? ==> RuleFor(rules, tag).value in rules
  {
    hide Matches;
    if rules != [] {
      RuleForIsARule(rules[1..], tag);
    }
  }

  lemma IssuableReplaces(c: Config, fs: seq<Finding>)
    requires Issuable(c)
    ensures Replaceable(c, fs)
  {
    forall f | f in fs && RuleFor(c.rules, f.tag).Some?
      ensures Replacement(c, f, RuleFor(c.rules, f.tag).value).Ok?
    {
      RuleForIsARule(c.rules, f.tag);
    }
  }

  lemma TextNeverRaises(c: Config, text: string, fs: seq<Finding>)
    requires Issuable(c)
    ensures ApplyToText(c, text, fs).Ok?
  {
    hide Rewrite;
    var ordered := SortBy(FromRight, fs);
    RaisesIffUntokenizable(c, text, ordered);
    forall f | f in ordered && RuleFor(c.rules, f.tag).Some? ensures RuleFor(c.rules, f.tag).value in c.rules {
      RuleForIsARule(c.rules, f.tag);
    }
  }

  lemma {:induction false} RedactNeverRaises(c: Config, node: Node, pointer: string, fs: seq<Finding>)
    requires Issuable(c)
    ensures Redact(c, node, pointer, fs).Ok?
    decreases node
  {
    hide ApplyToText, Issuable, Select;
    match node {
      case Text(text) => TextNeverRaises(c, text, Select(fs, pointer));
      case Atom(_) =>
      case Branch(kind, keys, kids) => RedactKidsNeverRaise(c, kind, keys, kids, 0, pointer, fs);
    }
  }

  lemma {:induction false} RedactKidsNeverRaise(c: Config, kind: Kind, keys: seq<string>, kids: seq<Node>, i: nat,
                                                pointer: string, fs: seq<Finding>)
    requires Issuable(c) && i <= |kids|
    ensures RedactKids(c, kind, keys, kids, i, pointer, fs).Ok?
    decreases kids, |kids| - i
  {
    hide Redact, Issuable;
    if i < |kids| {
      RedactNeverRaises(c, kids[i], Child(pointer, kind, keys, i), fs);
      RedactKidsNeverRaise(c, kind, keys, kids, i + 1, pointer, fs);
    }
  }

  /** What the guard leaves standing asks for no tokens that cannot be issued. */
  lemma SettledIsIssuable(plane: Plane, r: Request, d: Decision)
    requires Settled(plane, r, d).effect != PolicyEngine.Deny && RulesOf(d.obligations).Ok?
    ensures Issuable(ConfigFor(plane, RulesOf(d.obligations).value))
  {
    hide Settled, RulesOf, LengthsConvert;
    SettledShedsNothingUnlessDenied(plane, r, d);
    RulesConvertIff(d.obligations);
    var rules := RulesOf(d.obligations).value;
    if !plane.hasVault {
      forall rule | rule in rules ensures rule.strategy != Tokenize {
        var o :| o in d.obligations && o.kind == "redact" && RuleOf(o) == Ok(rule);
        assert !WantsTokens(o);
      }
    }
  }

  lemma SettledShedsNothingUnlessDenied(plane: Plane, r: Request, d: Decision)
    requires Settled(plane, r, d).effect != PolicyEngine.Deny
    ensures d.effect != PolicyEngine.Deny && Settled(plane, r, d).effect == d.effect
    ensures plane.hasVault || !exists o :: o in d.obligations && WantsTokens(o)
    ensures Redactions(Settled(plane, r, d).obligations) == Redactions(d.obligations)
    ensures RulesOf(Settled(plane, r, d).obligations) == RulesOf(d.obligations)
    ensures forall k :: Imposed(d.obligations, k) <==> Imposed(Settled(plane, r, d).obligations, k)
  {
    hide Redactions, Router.Resolution, AllRules;
    if d.effect != PolicyEngine.Deny {
      SettlingShedsNothing(plane, r, d);
      SameKinds(d.obligations, Settled(plane, r, d).obligations);
    }
  }

  ghost predicate Imposed(obligations: seq<Obligation>, kind: string) {
    exists o :: o in obligations && o.kind == kind
  }

  lemma SameKinds(os: seq<Obligation>, ps: seq<Obligation>)
    requires |os| == |ps| && forall i | 0 <= i < |os| :: os[i].kind == ps[i].kind
    ensures forall k :: Imposed(os, k) <==> Imposed(ps, k)
  {
    forall k ensures Imposed(os, k) <==> Imposed(ps, k) {
      if o :| o in os && o.kind == k {
        var i :| 0 <= i < |os| && os[i] == o;
        assert ps[i] in ps;
      }
      if o :| o in ps && o.kind == k {
        var i :| 0 <= i < |ps| && ps[i] == o;
        assert os[i] in os;
      }
    }
  }

  /** The redaction pass will be entered, and one of its lengths does not convert. */
  ghost predicate Unbuildable(plane: Plane, r: Request, d: Decision) {
    && Settled(plane, r, d).effect == PolicyEngine.Allow && r.applyObligations && r.payload.Some?
    && FindingsOf(plane, r) != [] && !Convertible(d.obligations)
  }

  /** What the control plane answers to a decision, unless it raises. */
  function Answer(plane: Plane, r: Request, d: Decision): Result<Response, string> {
    BuildResponse(plane, r, Settled(plane, r, d))
  }

  /** Building the response happens outside the pipeline's own handler. It raises exactly when
      it comes to redacting and a length the author wrote is no integer: everything else the
      guard has ruled out. */
  lemma AnsweredIff(plane: Plane, r: Request, d: Decision)
    ensures Answer(plane, r, d).Ok? <==> !Unbuildable(plane, r, d)
  {
    hide Settled, Redact, ApplyToText, ScanOf, Keep, RulesOf, SortedSet, Undischarged, Uncaught, Issuable,
      Redactions;
    var settled := Settled(plane, r, d);
    if settled.effect == PolicyEngine.Allow && r.payload.Some? {
      SettledShedsNothingUnlessDenied(plane, r, d);
      RulesConvertIff(d.obligations);
      var findings := FindingsOf(plane, r);
      if !Convertible(d.obligations) {
        var o :| o in d.obligations && o.kind == "redact" && !LengthsConvert(o);
        assert o in Redactions(d.obligations);
      }
      if RulesOf(d.obligations).Ok? {
        SettledIsIssuable(plane, r, d);
        var c := ConfigFor(plane, RulesOf(d.obligations).value);
        match r.payload.value {
          case Text(text) => TextNeverRaises(c, text, findings);
          case node => RedactNeverRaises(c, node, "", findings);
        }
      }
    }
  }

  /** A redaction authoring lets through, although four is not 4. */
  const FOUR := Obligation("redact", ["pii"], Partial, Some(Operators.Str("four")), None, "", [], None, "")

  /** Any allow that carries it, over a payload in which anything was found, raises. */
  lemma AcceptedRedactionMayRaise(taxonomy: string -> bool, plane: Plane, r: Request, d: Decision)
    requires taxonomy("pii") && d.effect == PolicyEngine.Allow && d.obligations == [FOUR]
    requires r.applyObligations && r.payload.Some? && FindingsOf(plane, r) != []
    ensures Accepted(taxonomy, FOUR) && Answer(plane, r, d).Err?
  {
    hide ScanOf, Keep;
    AnsweredIff(plane, r, d);
    FourDoesNotConvert();
    assert Router.Routes([FOUR]) == [] by {
      assert forall o :: o in Router.Routes([FOUR]) ==> o in [FOUR] && o.kind == "route";
    }
    assert FOUR in d.obligations && !Convertible(d.obligations);
    assert forall o | o in d.obligations :: !WantsTokens(o);
    assert Settled(plane, r, d) == d;
  }

  lemma FourDoesNotConvert()
    ensures !LengthsConvert(FOUR)
  {
    assert TrimLeft("four") == "four" && TrimRight("four") == "four";
    assert !Numeral("four");
  }

  // --- the contract across the wire ------------------------------------------------------------

  /** Somebody carries out every duty of this kind. */
  predicate Discharged(plane: Plane, r: Request, d: Decision, canSatisfy: set<string>, kind: string) {
    kind == "" || kind in canSatisfy || (kind == "redact" && RanRedaction(plane, r, d))
  }

  /** The duties left outstanding are those nobody carries out, each once and in order. */
  lemma OutstandingIs(response: Response, canSatisfy: set<string>)
    ensures var outstanding := Outstanding(response, canSatisfy);
      && Distinct(outstanding) && SortedBy(StringLe, outstanding)
      && forall k :: k in outstanding <==>
                     k != "" && Imposed(response.obligations, k) && !Satisfiable(response, canSatisfy, k)
  {
    hide SortedSet, Satisfiable;
    SortedSetIs(Kinds(response.obligations));
    SortedSetIs(Unsatisfied(response, canSatisfy, ObligationTypes(response)));
  }

  /** No response, whatever it says, makes the client take a duty as handled that is neither
      the caller's nor one the control plane can carry out. */
  lemma NoResponseWaivesDuties(response: Response, canSatisfy: set<string>, kind: string)
    requires Imposed(response.obligations, kind) && kind != "" && kind !in canSatisfy
    requires kind !in SATISFIED_BY_CONTROL_PLANE || kind in response.unsupported
    ensures Enforce(response, canSatisfy).Err?
  {
    hide Outstanding;
    OutstandingIs(response, canSatisfy);
  }

  /** The client hands out the payload exactly when the effect is allow, every duty is either
      one it was told the caller carries out, or redaction carried out over the whole payload
      on this very decision, and the response could be built. Otherwise it says which duties
      are wanting. */
  lemma EnforceReturnsIff(plane: Plane, r: Request, d: Decision, canSatisfy: set<string>)
    ensures var settled, answer := Settled(plane, r, d), Answer(plane, r, d);
      && (answer.Ok? && Enforce(answer.value, canSatisfy).Ok? <==>
            && settled.effect == PolicyEngine.Allow && !Unbuildable(plane, r, d)
            && forall o | o in d.obligations :: Discharged(plane, r, settled, canSatisfy, o.kind))
      && (answer.Ok? && settled.effect != PolicyEngine.Allow ==> Enforce(answer.value, canSatisfy) == Err(DecisionDenied))
      && (answer.Ok? && settled.effect == PolicyEngine.Allow && Enforce(answer.value, canSatisfy).Err? ==>
            && Enforce(answer.value, canSatisfy).error.ObligationUnsatisfied?
            && forall k :: k in Enforce(answer.value, canSatisfy).error.outstanding <==>
                           Imposed(d.obligations, k) && !Discharged(plane, r, settled, canSatisfy, k))
  {
    hide Settled, ScanOf, SortedSet, ApplyRedactions, Outstanding, Unbuildable, RulesOf, Uncaught;
    AnsweredIff(plane, r, d);
    var settled := Settled(plane, r, d);
    if Answer(plane, r, d).Ok? && settled.effect == PolicyEngine.Allow {
      var answer := Answer(plane, r, d).value;
      var ran := RanRedaction(plane, r, settled);
      SettledShedsNothingUnlessDenied(plane, r, d);
      SortedSetIs(Undischarged(ran, settled.obligations));
      OutstandingIs(answer, canSatisfy);
      assert answer.obligations == settled.obligations;
      assert answer.unsupported == SortedSet(Undischarged(ran, settled.obligations));
      var outstanding := Outstanding(answer, canSatisfy);
      forall k ensures k in outstanding <==> Imposed(d.obligations, k) && !Discharged(plane, r, settled, canSatisfy, k) {
        if Imposed(settled.obligations, k) {
          assert k in answer.unsupported <==> !ran || k !in CONTROL_PLANE;
        }
      }
      NoneOutstanding(plane, r, settled, canSatisfy, d.obligations, outstanding);
    }
  }

  lemma NoneOutstanding(plane: Plane, r: Request, d: Decision, canSatisfy: set<string>, os: seq<Obligation>,
                        outstanding: seq<string>)
    requires forall k :: k in outstanding <==> Imposed(os, k) && !Discharged(plane, r, d, canSatisfy, k)
    ensures outstanding == [] <==> forall o | o in os :: Discharged(plane, r, d, canSatisfy, o.kind)
  {
    hide Discharged;
    forall o | o in os && !Discharged(plane, r, d, canSatisfy, o.kind) ensures o.kind in outstanding {
      assert Imposed(os, o.kind);
    }
    assert outstanding != [] ==> outstanding[0] in outstanding;
  }

  // --- the payload the caller is handed ----------------------------------------------------------

  /** Every kept finding of this text that a rule covers is replaced, all at once. */
  ghost predicate Substituted(c: Config, text: string, kept: seq<Finding>, after: Node) {
    Replaceable(c, kept) && Fits(Edits(c, kept), 0, |text|) && after == Text(Substitute(text, 0, Edits(c, kept)))
  }

  /** The same tree, every string leaf substituted by what scanning that leaf alone found. */
  ghost predicate Faithful(c: Config, s: Scanner, least: int, before: Node, after: Node, pointer: string, hint: string)
    decreases before
  {
    match before
    case Text(text) => Substituted(c, text, Keep(ScanText(s, text, hint, pointer).findings, least), after)
    case Atom(_) => after == before
    case Branch(kind, keys, kids) =>
      && after.Branch? && after.kind == kind && after.keys == keys && |after.kids| == |kids|
      && forall i | 0 <= i < |kids| ::
           Faithful(c, s, least, kids[i], after.kids[i], Child(pointer, kind, keys, i), HintFor(kind, keys, i, hint))
  }

  /** A report of redactions is exactly the covered findings, in order. */
  ghost predicate Reports(c: Config, applied: seq<Applied>, findings: seq<Finding>) {
    Replaceable(c, findings) && applied == AppliedTo(c, findings)
  }

  lemma {:induction false} AppliedConcat(c: Config, a: seq<Finding>, b: seq<Finding>)
    requires Issuable(c)
    ensures Replaceable(c, a) && Replaceable(c, b) && Replaceable(c, a + b)
    ensures AppliedTo(c, a + b) == AppliedTo(c, a) + AppliedTo(c, b)
  {
    hide Replacement, RuleFor;
    IssuableReplaces(c, a);
    IssuableReplaces(c, b);
    IssuableReplaces(c, a + b);
    if a == [] {
      assert a + b == b;
    } else {
      AppliedConcat(c, a[1..], b);
      assert (a + b)[0] == a[0] && (a + b)[1..] == a[1..] + b;
    }
  }

  lemma LeafIsFaithful(c: Config, s: Scanner, least: int, text: string, hint: string, pointer: string)
    requires Detects(s) && DetectsApart(s) && Issuable(c)
    ensures var kept := Keep(ScanText(s, text, hint, pointer).findings, least); var r := RewriteLeaf(c, text, kept);
      r.Ok? && Substituted(c, text, kept, r.value.value) && Reports(c, r.value.applied, kept)
  {
    IssuableReplaces(c, Keep(ScanText(s, text, hint, pointer).findings, least));
    ScannedLeafIsSubstituted(c, s, least, text, hint, pointer);
  }

  lemma {:induction false} LeafByLeafIsFaithful(c: Config, s: Scanner, least: int, node: Node, pointer: string,
                                                hint: string, depth: int)
    requires Detects(s) && DetectsApart(s) && Issuable(c) && FullyScanned(s, node, depth)
    ensures var r := LeafByLeaf(c, s, least, node, pointer, hint, depth);
      && r.Ok? && Faithful(c, s, least, node, r.value.value, pointer, hint)
      && Reports(c, r.value.applied, Keep(Walk(s, node, pointer, hint, depth).findings, least))
    decreases node
  {
    hide Substituted, RewriteLeaf, ScanText, Detects, DetectsApart, Issuable;
    match node {
      case Text(text) => LeafIsFaithful(c, s, least, text, hint, pointer);
      case Atom(_) =>
      case Branch(kind, keys, kids) => KidsAreFaithful(c, s, least, kind, keys, kids, 0, pointer, hint, depth + 1);
    }
  }

  lemma {:induction false} KidsAreFaithful(c: Config, s: Scanner, least: int, kind: Kind, keys: seq<string>,
                                           kids: seq<Node>, i: nat, pointer: string, hint: string, depth: int)
    requires Detects(s) && DetectsApart(s) && Issuable(c) && i <= |kids|
    requires forall kid | kid in kids :: FullyScanned(s, kid, depth)
    ensures var r := LeafByLeafKids(c, s, least, kind, keys, kids, i, pointer, hint, depth);
      && r.Ok? && |r.value.value| == |kids| - i
      && (forall j | i <= j < |kids| :: Faithful(c, s, least, kids[j], r.value.value[j - i],
                                                 Child(pointer, kind, keys, j), HintFor(kind, keys, j, hint)))
      && Reports(c, r.value.applied, Keep(WalkKids(s, kind, keys, kids, i, pointer, hint, depth).findings, least))
    decreases kids, |kids| - i
  {
    hide Faithful, LeafByLeaf, Walk, Detects, DetectsApart, Issuable, FullyScanned, Reports, Keep, Child, HintFor;
    if i < |kids| {
      var at, own := Child(pointer, kind, keys, i), HintFor(kind, keys, i, hint);
      assert kids[i] in kids;
      LeafByLeafIsFaithful(c, s, least, kids[i], at, own, depth);
      KidsAreFaithful(c, s, least, kind, keys, kids, i + 1, pointer, hint, depth);
      var first := LeafByLeaf(c, s, least, kids[i], at, own, depth).value;
      var rest := LeafByLeafKids(c, s, least, kind, keys, kids, i + 1, pointer, hint, depth).value;
      forall j | i <= j < |kids|
        ensures Faithful(c, s, least, kids[j], ([first.value] + rest.value)[j - i],
                         Child(pointer, kind, keys, j), HintFor(kind, keys, j, hint))
      {
        assert j > i ==> ([first.value] + rest.value)[j - i] == rest.value[j - (i + 1)];
      }
      ReportsConcat(c, least, first.applied, Walk(s, kids[i], at, own, depth).findings,
                    rest.applied, WalkKids(s, kind, keys, kids, i + 1, pointer, hint, depth).findings);
    } else {
      NothingReported(c, least);
    }
  }

  lemma ReportsConcat(c: Config, least: int, a: seq<Applied>, fs: seq<Finding>, b: seq<Applied>, gs: seq<Finding>)
    requires Issuable(c) && Reports(c, a, Keep(fs, least)) && Reports(c, b, Keep(gs, least))
    ensures Reports(c, a + b, Keep(fs + gs, least))
  {
    hide AppliedTo, Issuable;
    KeepConcat(fs, gs, least);
    AppliedConcat(c, Keep(fs, least), Keep(gs, least));
  }

  lemma NothingReported(c: Config, least: int)
    ensures Reports(c, [], Keep([], least))
  {}

  lemma {:induction false} RedactNothing(c: Config, node: Node, pointer: string)
    ensures Redact(c, node, pointer, []) == Ok(Redacted(node, [], []))
    decreases node
  {
    if node.Branch? {
      RedactKidsNothing(c, node.kind, node.keys, node.kids, 0, pointer);
      assert node.kids[0..] == node.kids;
    }
  }

  lemma {:induction false} RedactKidsNothing(c: Config, kind: Kind, keys: seq<string>, kids: seq<Node>, i: nat,
                                             pointer: string)
    requires i <= |kids|
    ensures RedactKids(c, kind, keys, kids, i, pointer, []) == Ok(Redacted(kids[i..], [], []))
    decreases kids, |kids| - i
  {
    hide Redact, Child;
    if i < |kids| {
      RedactNothing(c, kids[i], Child(pointer, kind, keys, i));
      RedactKidsNothing(c, kind, keys, kids, i + 1, pointer);
      assert kids[i..] == [kids[i]] + kids[i + 1..];
      AddsNothing<Applied>();
      AddsNothing<Finding>();
    } else {
      assert kids[i..] == [];
    }
  }

  lemma AddsNothing<T>()
    ensures var none: seq<T> := []; none + none == none
  {}

  /** No string of the payload was left unread. */
  ghost predicate WhollyScanned(s: Scanner, payload: Node) {
    if payload.Text? then |payload.text| <= s.maxChars else FullyScanned(s, payload, 0)
  }

  lemma UntruncatedIsWhollyScanned(plane: Plane, r: Request)
    requires r.payload.Some? && r.scanPayload && !ScanOf(plane, r).truncated
    ensures WhollyScanned(plane.scanner, r.payload.value)
  {
    hide FullyScanned, Walk;
    if !r.payload.value.Text? {
      TruncatedIffNotFullyScanned(plane.scanner, r.payload.value, "", "", 0);
    }
  }

  lemma PassIsFaithful(plane: Plane, r: Request, obligations: seq<Obligation>)
    requires Detects(plane.scanner) && DetectsApart(plane.scanner)
    requires RulesOf(obligations).Ok? && Issuable(ConfigFor(plane, RulesOf(obligations).value))
    requires r.payload.Some? && IsJson(r.payload.value) && r.scanPayload && !ScanOf(plane, r).truncated
    requires Redactions(obligations) != []
    ensures var c, findings := ConfigFor(plane, RulesOf(obligations).value), FindingsOf(plane, r);
            var done := ApplyRedactions(plane, r.payload, obligations, findings);
      && WhollyScanned(plane.scanner, r.payload.value) && done.Ok?
      && var (after, applied) := if done.value.Some? then (done.value.value.value, done.value.value.applied)
                                 else (r.payload.value, []);
         Faithful(c, plane.scanner, r.minConfidence, r.payload.value, after, "", "") && Reports(c, applied, findings)
  {
    hide Detects, DetectsApart, Issuable, FullyScanned, Walk, Redact, ApplyToText, ScanText, RulesOf, Keep, Faithful,
      Reports, Redactions;
    var c, s, least := ConfigFor(plane, RulesOf(obligations).value), plane.scanner, r.minConfidence;
    match r.payload.value {
      case Text(text) =>
        TextPassIsFaithful(c, s, least, text);
      case node =>
        TruncatedIffNotFullyScanned(s, node, "", "", 0);
        TreePassIsFaithful(c, s, least, node);
    }
  }

  lemma TextPassIsFaithful(c: Config, s: Scanner, least: int, text: string)
    requires Detects(s) && DetectsApart(s) && Issuable(c)
    ensures ScanText(s, text, "", "").truncated <==> |text| > s.maxChars
    ensures var findings := Keep(ScanText(s, text, "", "").findings, least);
      if findings == [] then Faithful(c, s, least, Text(text), Text(text), "", "") && Reports(c, [], findings)
      else
        var done := ApplyToText(c, text, findings);
        && done.Ok? && Faithful(c, s, least, Text(text), Text(done.value.payload), "", "")
        && Reports(c, done.value.applied, findings)
  {
    hide Detects, DetectsApart, Issuable, Substituted, Reports, Keep, ApplyToText;
    LeafIsFaithful(c, s, least, text, "", "");
  }

  lemma TreePassIsFaithful(c: Config, s: Scanner, least: int, node: Node)
    requires Detects(s) && DetectsApart(s) && Issuable(c) && IsJson(node) && FullyScanned(s, node, 0)
    ensures var findings := Keep(Walk(s, node, "", "", 0).findings, least);
      if findings == [] then Faithful(c, s, least, node, node, "", "") && Reports(c, [], findings)
      else
        var done := Redact(c, node, "", findings);
        && done.Ok? && Faithful(c, s, least, node, done.value.value, "", "") && Reports(c, done.value.applied, findings)
  {
    hide Detects, DetectsApart, Issuable, FullyScanned, Faithful, Reports, Walk, Redact, LeafByLeaf, Keep;
    ScanThenRedact(c, s, least, node);
    LeafByLeafIsFaithful(c, s, least, node, "", "", 0);
    RedactNothing(c, node, "");
  }

  /** Whenever the client hands out a payload that a policy said to redact, and the caller
      did not undertake to redact it itself: the whole payload was read, what is handed out is
      that payload with every covered finding replaced and nothing else changed, the report
      lists exactly those replacements, and the residual labels are exactly those of the
      findings no rule covers. */
  lemma RequiredRedactionReachesTheCaller(plane: Plane, r: Request, d: Decision, canSatisfy: set<string>)
    requires Detects(plane.scanner) && DetectsApart(plane.scanner)
    requires r.payload.Some? ==> IsJson(r.payload.value)
    requires Imposed(d.obligations, "redact") && "redact" !in canSatisfy
    requires Answer(plane, r, d).Ok? && Enforce(Answer(plane, r, d).value, canSatisfy).Ok?
    ensures var answer, findings := Answer(plane, r, d).value, FindingsOf(plane, r);
            var handed := Enforce(answer, canSatisfy).value;
      && r.payload.Some? && WhollyScanned(plane.scanner, r.payload.value) && handed.Some?
      && (findings == [] ==> handed == r.payload && answer.redactions == [] && answer.residual == [])
      && (findings != [] ==>
            && RulesOf(d.obligations).Ok?
            && var rules := RulesOf(d.obligations).value; var c := ConfigFor(plane, rules);
               && Faithful(c, plane.scanner, r.minConfidence, r.payload.value, handed.value, "", "")
               && Reports(c, answer.redactions, findings)
               && Distinct(answer.residual) && SortedBy(StringLe, answer.residual)
               && forall t :: t in answer.residual <==> exists f :: f in findings && f.tag == t && RuleFor(rules, t) == None)
  {
    hide Settled, ScanOf, ApplyRedactions, WhollyScanned, Faithful, Reports, Outstanding, SortedSet, Detects,
      DetectsApart, IsJson, Issuable, Keep, AllRules, Redactions, LengthsConvert, Uncaught;
    var settled := Settled(plane, r, d);
    EnforceReturnsIff(plane, r, d, canSatisfy);
    var o :| o in d.obligations && o.kind == "redact";
    assert Discharged(plane, r, settled, canSatisfy, o.kind);
    assert o in Redactions(d.obligations);
    SettledShedsNothingUnlessDenied(plane, r, d);
    UntruncatedIsWhollyScanned(plane, r);
    var findings := FindingsOf(plane, r);
    if findings == [] {
      NothingToRedact(plane, r.payload, settled.obligations);
    } else {
      RulesConvertIff(d.obligations);
      SettledIsIssuable(plane, r, d);
      PassIsFaithful(plane, r, settled.obligations);
      SortedSetIs(Uncaught(RulesOf(d.obligations).value, findings));
    }
  }

  lemma NothingToRedact(plane: Plane, payload: Option<Node>, obligations: seq<Obligation>)
    ensures ApplyRedactions(plane, payload, obligations, []) == Ok(None)
  {}

  // --- what a response carries -----------------------------------------------------------------------

  /** What redacting the request's payload gives: a text with its covered findings replaced, or
      a tree redacted leaf by leaf, which is the faithful redaction if it was wholly scanned. */
  ghost predicate RedactedPayload(plane: Plane, r: Request, rules: seq<Rule>, after: Node, applied: seq<Applied>)
    requires r.payload.Some?
  {
    var c, s, least := ConfigFor(plane, rules), plane.scanner, r.minConfidence;
    match r.payload.value
    case Text(text) => Substituted(c, text, FindingsOf(plane, r), after) && Reports(c, applied, FindingsOf(plane, r))
    case node =>
      && (exists unhandled :: LeafByLeaf(c, s, least, node, "", "", 0) == Ok(Redacted(after, applied, unhandled)))
      && (FullyScanned(s, node, 0) ==> Faithful(c, s, least, node, after, "", "") && Reports(c, applied, FindingsOf(plane, r)))
  }

  lemma TextIsRedacted(plane: Plane, r: Request, obligations: seq<Obligation>)
    requires Detects(plane.scanner) && DetectsApart(plane.scanner)
    requires RulesOf(obligations).Ok? && Issuable(ConfigFor(plane, RulesOf(obligations).value))
    requires r.payload.Some? && r.payload.value.Text? && r.scanPayload && FindingsOf(plane, r) != [] && Redactions(obligations) != []
    ensures var done := ApplyRedactions(plane, r.payload, obligations, FindingsOf(plane, r));
      && done.Ok? && done.value.Some?
      && RedactedPayload(plane, r, RulesOf(obligations).value, done.value.value.value, done.value.value.applied)
  {
    hide Detects, DetectsApart, Issuable, ScanText, RulesOf, Keep, Substituted, Reports, Redactions, ApplyToText;
    LeafIsFaithful(ConfigFor(plane, RulesOf(obligations).value), plane.scanner, r.minConfidence, r.payload.value.text, "", "");
  }

  lemma TreeIsRedacted(plane: Plane, r: Request, obligations: seq<Obligation>)
    requires Detects(plane.scanner) && DetectsApart(plane.scanner)
    requires RulesOf(obligations).Ok? && Issuable(ConfigFor(plane, RulesOf(obligations).value))
    requires r.payload.Some? && !r.payload.value.Text? && IsJson(r.payload.value)
    requires r.scanPayload && FindingsOf(plane, r) != [] && Redactions(obligations) != []
    ensures var done := ApplyRedactions(plane, r.payload, obligations, FindingsOf(plane, r));
      && done.Ok? && done.value.Some?
      && RedactedPayload(plane, r, RulesOf(obligations).value, done.value.value.value, done.value.value.applied)
  {
    hide Detects, DetectsApart, Issuable, FullyScanned, Walk, Redact, LeafByLeaf, RulesOf, Keep, Faithful, Reports, Redactions;
    var c, s, node := ConfigFor(plane, RulesOf(obligations).value), plane.scanner, r.payload.value;
    RedactNeverRaises(c, node, "", FindingsOf(plane, r));
    ScanThenRedact(c, s, r.minConfidence, node);
    if FullyScanned(s, node, 0) {
      TreePassIsFaithful(c, s, r.minConfidence, node);
    }
  }

  lemma PayloadIsRedacted(plane: Plane, r: Request, obligations: seq<Obligation>)
    requires Detects(plane.scanner) && DetectsApart(plane.scanner)
    requires RulesOf(obligations).Ok? && Issuable(ConfigFor(plane, RulesOf(obligations).value))
    requires r.payload.Some? && IsJson(r.payload.value) && FindingsOf(plane, r) != [] && Redactions(obligations) != []
    ensures var done := ApplyRedactions(plane, r.payload, obligations, FindingsOf(plane, r));
      && done.Ok? && done.value.Some?
      && RedactedPayload(plane, r, RulesOf(obligations).value, done.value.value.value, done.value.value.applied)
  {
    hide ApplyRedactions, RedactedPayload, Detects, DetectsApart, Issuable, RulesOf, Redactions, IsJson;
    assert r.scanPayload;
    if r.payload.value.Text? {
      TextIsRedacted(plane, r, obligations);
    } else {
      TreeIsRedacted(plane, r, obligations);
    }
  }

  /** Every response there is. It has content exactly on an allow that is to be applied to some
      payload; then the payload as it came, where no policy redacts or nothing was found, and
      its redaction otherwise. Without content to apply there is no report either. The
      residual labels are those of findings no rule covers, on a pass over the whole payload;
      and a duty is not listed as wanting only if it is redaction carried out by that pass. */
  lemma ResponseCarries(plane: Plane, r: Request, d: Decision)
    requires Detects(plane.scanner) && DetectsApart(plane.scanner) && (r.payload.Some? ==> IsJson(r.payload.value))
    requires Answer(plane, r, d).Ok?
    ensures var a, settled, findings := Answer(plane, r, d).value, Settled(plane, r, d), FindingsOf(plane, r);
      && a.effect == settled.effect && a.obligations == settled.obligations
      && (a.payload.Some? <==> a.effect == PolicyEngine.Allow && r.applyObligations && r.payload.Some?)
      && (a.payload == None ==> a.redactions == [])
      && (a.payload.Some? && (!Imposed(d.obligations, "redact") || findings == []) ==>
            a.payload == r.payload && a.redactions == [])
      && (a.payload.Some? && Imposed(d.obligations, "redact") && findings != [] ==>
            RulesOf(d.obligations).Ok?
            && RedactedPayload(plane, r, RulesOf(d.obligations).value, a.payload.value, a.redactions))
      && Distinct(a.residual) && SortedBy(StringLe, a.residual)
      && (forall t :: t in a.residual <==>
            && a.effect == PolicyEngine.Allow && r.applyObligations && r.payload.Some? && r.scanPayload
            && !ScanOf(plane, r).truncated
            && exists f :: f in findings && f.tag == t && Redacting(d.obligations, t) == None)
      && Distinct(a.unsupported) && SortedBy(StringLe, a.unsupported)
      && (forall k :: k in a.unsupported <==>
            Imposed(a.obligations, k)
            && !(k == "redact" && a.effect == PolicyEngine.Allow && r.applyObligations && r.payload.Some? && r.scanPayload
                 && !ScanOf(plane, r).truncated))
  {
    hide Settled, ScanOf, ApplyRedactions, RedactedPayload, SortedSet, Detects, DetectsApart, IsJson, Issuable, Keep,
      AllRules, Redactions, LengthsConvert, Uncaught, Redacting, LabelsCover;
    var settled, findings := Settled(plane, r, d), FindingsOf(plane, r);
    SortedSetIs(Undischarged(RanRedaction(plane, r, settled), settled.obligations));
    SortedSetIs([]);
    if settled.effect == PolicyEngine.Allow && r.applyObligations {
      SettledShedsNothingUnlessDenied(plane, r, d);
      RulesConvertIff(d.obligations);
      AnsweredIff(plane, r, d);
      NoPayloadNoFindings(plane, r);
      RedactionsIff(d.obligations);
      if r.payload == None || Redactions(settled.obligations) == [] || findings == [] {
        NothingToApply(plane, r.payload, settled.obligations, findings);
      } else {
        SettledIsIssuable(plane, r, d);
        PayloadIsRedacted(plane, r, settled.obligations);
      }
      if RulesOf(d.obligations).Ok? {
        SortedSetIs(Uncaught(RulesOf(d.obligations).value, findings));
        forall t ensures RuleFor(RulesOf(d.obligations).value, t) == None <==> Redacting(d.obligations, t) == None {
          RedactingGivesTheRule(d.obligations, t);
        }
      }
    }
  }

  lemma NoPayloadNoFindings(plane: Plane, r: Request)
    ensures r.payload == None || !r.scanPayload ==> FindingsOf(plane, r) == []
  {}

  lemma RedactionsIff(obligations: seq<Obligation>)
    ensures Redactions(obligations) == [] <==> !Imposed(obligations, "redact")
  {
    if Redactions(obligations) != [] {
      assert Redactions(obligations)[0] in Redactions(obligations);
    }
  }

  lemma NothingToApply(plane: Plane, payload: Option<Node>, obligations: seq<Obligation>, findings: seq<Finding>)
    requires payload == None || Redactions(obligations) == [] || findings == []
    ensures ApplyRedactions(plane, payload, obligations, findings) == Ok(None)
  {}

  lemma AnswerHasSettledEffect(plane: Plane, r: Request, d: Decision)
    requires Answer(plane, r, d).Ok?
    ensures Answer(plane, r, d).value.effect == Settled(plane, r, d).effect
  {
    hide Settled, ApplyRedactions, FindingsOf, RulesOf, SortedSet, Undischarged, Uncaught;
  }

  /** What settling turns into a deny owes nothing any more, and says why. */
  lemma SettledDenialSheds(plane: Plane, r: Request, d: Decision)
    requires d.effect != PolicyEngine.Deny && Settled(plane, r, d).effect == PolicyEngine.Deny
    ensures Settled(plane, r, d).obligations == []
    ensures d.errors < Settled(plane, r, d).errors && |Settled(plane, r, d).errors| == |d.errors| + 1
  {
    hide Router.Resolution, AtTarget;
  }

  // --- nothing masked or dropped is answered ------------------------------------------------------------

  ghost function RulesBehind(d: Decision): seq<Rule> {
    if RulesOf(d.obligations).Ok? then RulesOf(d.obligations).value else []
  }

  /** Two requests that differ in their payloads alone, and there only inside what this
      decision's rules mask or drop. */
  ghost predicate AlikeRequests(plane: Plane, r: Request, q: Request, d: Decision) {
    var c := ConfigFor(plane, RulesBehind(d));
    && r.payload.Some? && q.payload.Some? && q == r.(payload := q.payload)
    && IsJson(r.payload.value) && IsJson(q.payload.value)
    && if !r.scanPayload then q.payload == r.payload
       else if r.payload.value.Text? then
         q.payload.value.Text?
         && AlikeOutside(c, r.payload.value.text, FindingsOf(plane, r), q.payload.value.text, FindingsOf(plane, q))
       else AlikeTrees(c, plane.scanner, r.minConfidence, r.payload.value, q.payload.value, "", "", 0)
  }

  lemma AlikeFindings(plane: Plane, r: Request, q: Request, d: Decision)
    requires AlikeRequests(plane, r, q, d)
    ensures SameButValues(FindingsOf(plane, r), FindingsOf(plane, q))
    ensures ScanOf(plane, r).truncated == ScanOf(plane, q).truncated
    ensures (forall f | f in FindingsOf(plane, r) :: !Concealed(ConfigFor(plane, RulesBehind(d)), f.tag)) ==> q == r
  {
    hide Walk, AlikeTrees, Concealed, Keep, RulesBehind, Resolved, Raw;
    var c := ConfigFor(plane, RulesBehind(d));
    if r.scanPayload {
      if r.payload.value.Text? {
        AlikeTexts(c, r.payload.value.text, FindingsOf(plane, r), q.payload.value.text, FindingsOf(plane, q));
      } else {
        AlikeIsScannedAlike(c, plane.scanner, r.minConfidence, r.payload.value, q.payload.value, "", "", 0);
        assert q.payload.value.Branch? || q.payload.value == r.payload.value by {
          AlikeKinds(c, plane.scanner, r.minConfidence, r.payload.value, q.payload.value);
        }
      }
    }
  }

  lemma AlikeKinds(c: Config, s: Scanner, least: int, a: Node, b: Node)
    requires AlikeTrees(c, s, least, a, b, "", "", 0)
    ensures a.Text? <==> b.Text?
    ensures a.Branch? <==> b.Branch?
    ensures a.Atom? ==> a == b
  {}

  lemma {:induction false} SameUncaught(rules: seq<Rule>, fs: seq<Finding>, gs: seq<Finding>)
    requires SameButValues(fs, gs)
    ensures Uncaught(rules, fs) == Uncaught(rules, gs)
  {
    hide RuleFor;
    if fs != [] {
      SameUncaught(rules, fs[1..], gs[1..]);
    }
  }

  /** With no rule there is nothing to conceal. */
  lemma NoRulesConcealNothing(plane: Plane, tag: string)
    ensures !Concealed(ConfigFor(plane, []), tag)
  {}

  lemma AppliedAlike(plane: Plane, r: Request, q: Request, d: Decision)
    requires Detects(plane.scanner) && DetectsApart(plane.scanner) && AlikeRequests(plane, r, q, d)
    requires RulesOf(d.obligations).Ok? && FindingsOf(plane, r) != []
    ensures ApplyRedactions(plane, r.payload, d.obligations, FindingsOf(plane, r))
         == ApplyRedactions(plane, q.payload, d.obligations, FindingsOf(plane, q))
         || Redactions(d.obligations) == []
  {
    hide Detects, DetectsApart, Walk, Redact, LeafByLeaf, RulesOf, Redactions, AlikeTrees, ApplyToText, ScanText, Concealed,
      DisjointWithin, Keep;
    AlikeFindings(plane, r, q, d);
    var c, s, least := ConfigFor(plane, RulesBehind(d)), plane.scanner, r.minConfidence;
    if r.scanPayload {
      var a, b := r.payload.value, q.payload.value;
      if a.Text? {
        KeptAreQuoted(s, least, a.text, "", "");
        KeptAreQuoted(s, least, b.text, "", "");
        ConcealedIsGone(c, a.text, FindingsOf(plane, r), FindingsOf(plane, r), b.text, FindingsOf(plane, q), FindingsOf(plane, q));
      } else {
        AlikeKinds(c, s, least, a, b);
        ScanThenRedact(c, s, least, a);
        ScanThenRedact(c, s, least, b);
        TreesConceal(c, s, least, a, b, "", "", 0);
      }
    }
  }

  /** Whatever the control plane answers, and so whatever the client is handed, tells nothing of
      what the decision's rules mask or drop: requests that differ only there are answered alike. */
  lemma ConcealedNeverReturns(plane: Plane, r: Request, q: Request, d: Decision)
    requires Detects(plane.scanner) && DetectsApart(plane.scanner) && AlikeRequests(plane, r, q, d)
    ensures Answer(plane, r, d) == Answer(plane, q, d)
  {
    hide Detects, DetectsApart, ScanOf, Keep, RulesOf, Redactions, ApplyRedactions, AlikeTrees, AlikeOutside, SortedSet, IsJson,
      Settled, Concealed;
    AlikeFindings(plane, r, q, d);
    SettledAlike(plane, r, q, d);
    var settled := Settled(plane, r, d);
    if settled.effect != PolicyEngine.Deny {
      SettledShedsNothingUnlessDenied(plane, r, d);
      if RulesOf(d.obligations).Err? || Redactions(d.obligations) == [] || FindingsOf(plane, r) == [] {
        RulesConvertIff(d.obligations);
        forall tag ensures !Concealed(ConfigFor(plane, []), tag) {
          NoRulesConcealNothing(plane, tag);
        }
        assert q == r;
      } else {
        ApplySettled(plane, r.payload, settled.obligations, d.obligations, FindingsOf(plane, r));
        ApplySettled(plane, q.payload, settled.obligations, d.obligations, FindingsOf(plane, q));
        AppliedAlike(plane, r, q, d);
        SameUncaught(RulesOf(d.obligations).value, FindingsOf(plane, r), FindingsOf(plane, q));
        SomethingApplied(plane, r.payload, d.obligations, FindingsOf(plane, r));
      }
    }
  }

  lemma SomethingApplied(plane: Plane, payload: Option<Node>, obligations: seq<Obligation>, findings: seq<Finding>)
    requires payload.Some? && Redactions(obligations) != [] && findings != []
    ensures ApplyRedactions(plane, payload, obligations, findings) != Ok(None)
  {
    hide RulesOf, ApplyToText, Redact;
  }

  lemma SettledAlike(plane: Plane, r: Request, q: Request, d: Decision)
    requires q.urn == r.urn
    ensures Settled(plane, q, d) == Settled(plane, r, d)
  {}

  lemma ApplySettled(plane: Plane, payload: Option<Node>, settled: seq<Obligation>, obligations: seq<Obligation>, findings: seq<Finding>)
    requires Redactions(settled) == Redactions(obligations)
    ensures ApplyRedactions(plane, payload, settled, findings) == ApplyRedactions(plane, payload, obligations, findings)
  {}

  // --- what a redaction left alone --------------------------------------------------------------------------

  lemma UncoveredFirst(c: Config, fs: seq<Finding>)
    requires fs != []
    ensures Uncovered(c, fs) == (if RuleFor(c.rules, fs[0].tag) == None then [fs[0]] else []) + Uncovered(c, fs[1..])
  {}

  lemma {:induction false} UncoveredConcat(c: Config, a: seq<Finding>, b: seq<Finding>)
    ensures Uncovered(c, a + b) == Uncovered(c, a) + Uncovered(c, b)
  {
    hide RuleFor, Uncovered;
    if a == [] {
      NoneUncovered(c);
      assert a + b == b;
    } else {
      UncoveredConcat(c, a[1..], b);
      UncoveredFirst(c, a);
      UncoveredFirst(c, a + b);
      assert (a + b)[0] == a[0] && (a + b)[1..] == a[1..] + b;
      var first := if RuleFor(c.rules, a[0].tag) == None then [a[0]] else [];
      assert first + (Uncovered(c, a[1..]) + Uncovered(c, b)) == first + Uncovered(c, a[1..]) + Uncovered(c, b);
    }
  }

  /** What redacting a tree returns as not handled is exactly what no rule covers, in order. */
  lemma {:induction false} UnhandledAreUncovered(c: Config, s: Scanner, least: int, node: Node, pointer: string, hint: string,
                                                 depth: int)
    requires Detects(s) && DetectsApart(s) && Issuable(c)
    ensures var r := LeafByLeaf(c, s, least, node, pointer, hint, depth);
      r.Ok? && r.value.unhandled == Uncovered(c, Keep(Walk(s, node, pointer, hint, depth).findings, least))
    decreases node
  {
    hide Uncovered, RewriteLeaf, ScanText, Detects, DetectsApart, Issuable, Keep;
    KeepNone(least);
    NoneUncovered(c);
    match node {
      case Text(text) =>
        NoFindings(c, text);
        LeafUnhandled(c, s, least, text, pointer, hint);
      case Atom(_) =>
      case Branch(kind, keys, kids) =>
        KidsUnhandledAreUncovered(c, s, least, kind, keys, kids, 0, pointer, hint, depth + 1);
        if depth > s.maxDepth {
          TooDeepFindsNothing(s, kind, keys, kids, 0, pointer, hint, depth + 1);
        }
    }
  }

  lemma LeafUnhandled(c: Config, s: Scanner, least: int, text: string, pointer: string, hint: string)
    requires Detects(s) && DetectsApart(s) && Issuable(c)
    ensures var kept := Keep(ScanText(s, text, hint, pointer).findings, least); var r := RewriteLeaf(c, text, kept);
      r.Ok? && r.value.unhandled == Uncovered(c, kept)
  {
    hide Uncovered, RewriteLeaf, ScanText, Detects, DetectsApart, Issuable, Keep, Edits, Substitute, AppliedTo, Fits;
    IssuableReplaces(c, Keep(ScanText(s, text, hint, pointer).findings, least));
    ScannedLeafIsSubstituted(c, s, least, text, hint, pointer);
  }

  lemma KeepNone(least: int)
    ensures Keep([], least) == []
  {}

  lemma NoneUncovered(c: Config)
    ensures Uncovered(c, []) == []
  {}

  lemma NoFindings(c: Config, text: string)
    ensures RewriteLeaf(c, text, []) == Ok(Redacted(Text(text), [], []))
  {}

  lemma TooDeepWalk(s: Scanner, node: Node, pointer: string, hint: string, depth: int)
    requires depth > s.maxDepth
    ensures Walk(s, node, pointer, hint, depth).findings == []
  {}

  lemma {:induction false} TooDeepFindsNothing(s: Scanner, kind: Kind, keys: seq<string>, kids: seq<Node>, i: nat,
                                               pointer: string, hint: string, depth: int)
    requires i <= |kids| && depth > s.maxDepth
    ensures WalkKids(s, kind, keys, kids, i, pointer, hint, depth).findings == []
    decreases |kids| - i
  {
    hide Walk, Child, HintFor;
    if i < |kids| {
      TooDeepWalk(s, kids[i], Child(pointer, kind, keys, i), HintFor(kind, keys, i, hint), depth);
      TooDeepFindsNothing(s, kind, keys, kids, i + 1, pointer, hint, depth);
    }
  }

  lemma {:induction false} KidsUnhandledAreUncovered(c: Config, s: Scanner, least: int, kind: Kind, keys: seq<string>,
                                                     kids: seq<Node>, i: nat, pointer: string, hint: string, depth: int)
    requires Detects(s) && DetectsApart(s) && Issuable(c) && i <= |kids|
    ensures var r := LeafByLeafKids(c, s, least, kind, keys, kids, i, pointer, hint, depth);
      r.Ok? && r.value.unhandled == Uncovered(c, Keep(WalkKids(s, kind, keys, kids, i, pointer, hint, depth).findings, least))
    decreases kids, |kids| - i
  {
    hide Uncovered, LeafByLeaf, Walk, Detects, DetectsApart, Issuable, Keep, Child, HintFor;
    if i < |kids| {
      var at, own := Child(pointer, kind, keys, i), HintFor(kind, keys, i, hint);
      UnhandledAreUncovered(c, s, least, kids[i], at, own, depth);
      KidsUnhandledAreUncovered(c, s, least, kind, keys, kids, i + 1, pointer, hint, depth);
      var a, b := Walk(s, kids[i], at, own, depth).findings, WalkKids(s, kind, keys, kids, i + 1, pointer, hint, depth).findings;
      KeepConcat(a, b, least);
      UncoveredConcat(c, Keep(a, least), Keep(b, least));
    } else {
      KeepNone(least);
      NoneUncovered(c);
    }
  }

  // --- where routes lead ---------------------------------------------------------------------------------

  /** A decision that routes and is not denied goes, in every route, to the one target that is
      chosen well among the candidates: the model asked for, if it meets every route. */
  lemma SettledRoutes(plane: Plane, r: Request, d: Decision) returns (target: string)
    requires Settled(plane, r, d).effect != PolicyEngine.Deny && Router.Routes(d.obligations) != []
    ensures Router.ChosenWell(plane.candidates, Router.Routes(d.obligations), r.urn, Some(target))
    ensures RoutedTo(Settled(plane, r, d).obligations, target)
  {
    hide Router.Resolution, Router.ChosenWell;
    SettledShedsNothingUnlessDenied(plane, r, d);
    Router.ResolutionChoosesWell(plane.candidates, d.obligations, r.urn);
    target := Router.Resolution(plane.candidates, d.obligations, r.urn).value.value.0.value;
  }
}
