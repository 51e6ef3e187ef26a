/**
 Decisions whole, from the policies to the caller: what the engine says, the approval that is
 redeemed, the tokenisation guard, routing and the response (control_plane/pdp.py).

 Policies and configuration may change from one decision to the next.
 */
module Decisions {
  import opened Wrappers
  import opened Operators
  import opened AccessRequests
  import CanonicalJson
  import opened Fingerprints
  import opened PolicyEngine
  import opened Approvals
  import Enforcement
  import StructuredScan
  import Scanning
  import Obligations
  import Strings
  import Router

  /** A decision request. A null payload is no payload. */
  datatype Request = Request(
    access: AccessRequest,
    payload: Value,
    explain: bool,
    scanPayload: bool,
    applyObligations: bool,
    minConfidence: int,
    approvalId: Option<nat>,
    persist: bool,
    simulating: bool,
    actor: string
  )

  /** The policies and configuration a decision is made under. */
  datatype Setup = Setup(engine: Engine, patterns: Patterns, plane: Enforcement.Plane)

  function NodeOf(v: Value): StructuredScan.Node
    decreases v
  {
    match v
    case Null => StructuredScan.Atom("null")
    case Bool(b) => StructuredScan.Atom(if b then "true" else "false")
    case Num(n) => StructuredScan.Atom(CanonicalJson.IntText(n))
    case Str(s) => StructuredScan.Text(s)
    case Arr(items) => StructuredScan.Branch(StructuredScan.List, [], NodesOf(items))
    case Obj(entries) => StructuredScan.Branch(StructuredScan.Dict, NamesOf(entries), FieldNodesOf(entries))
  }

  function NodesOf(items: seq<Value>): seq<StructuredScan.Node>
    decreases items
  {
    if items == [] then [] else [NodeOf(items[0])] + NodesOf(items[1..])
  }

  function NamesOf(entries: seq<Entry>): seq<string> {
    if entries == [] then [] else [entries[0].key] + NamesOf(entries[1..])
  }

  function FieldNodesOf(entries: seq<Entry>): seq<StructuredScan.Node>
    decreases entries
  {
    if entries == [] then [] else [NodeOf(entries[0].value)] + FieldNodesOf(entries[1..])
  }

  /** The part of a request the response is built from. */
  function Content(r: Request): Enforcement.Request {
    Enforcement.Request(if r.payload == Null then None else Some(NodeOf(r.payload)),
                        r.access.urn, r.scanPayload, r.applyObligations, r.minConfidence)
  }

  /** What the policies say. */
  function Verdict(su: Setup, r: Request): Result<Decision, Raise> {
    su.engine.Decide(su.patterns, SelectorRoot(r.access), r.explain)
  }

  /** The part that concerns approvals. */
  function AskOf(r: Request): Ask {
    Ask(FingerprintOf(r.access, r.payload), r.access.principalId, r.approvalId, r.persist, r.simulating, r.actor)
  }

  /** A parked decision turned into an allow, with every duty collected again. */
  function Redeemed(engine: Engine, d: Decision): Decision {
    d.(effect := Allow, obligations := engine.ObligationsFor(d.matched, {Allow, RequireApproval}))
  }

  /** The response to a decision, once an approval is redeemed for it or without one. */
  function Answer(su: Setup, r: Request, d: Decision, redeemed: bool): Result<Enforcement.Response, string> {
    Enforcement.Answer(su.plane, Content(r), if redeemed then Redeemed(su.engine, d) else d)
  }

  function EffectOf(answer: Result<Enforcement.Response, string>): Option<Effect> {
    if answer.Ok? then Some(answer.value.effect) else None
  }

  /** What the pipeline rules on a request, whatever approvals there are. */
  function RulingOf(su: Setup, r: Request): Ruling {
    match Verdict(su, r)
    case Err(_) => Fails
    case Ok(d) => Rules(d.effect, EffectOf(Answer(su, r, d, true)), EffectOf(Answer(su, r, d, false)))
  }

  /** The response, if there is one. */
  function Reply(su: Setup, st: State, r: Request): Option<Enforcement.Response> {
    match Verdict(su, r)
    case Err(_) => None
    case Ok(d) =>
      var answer := Answer(su, r, d, Redeems(d.effect, st, AskOf(r)).Some?);
      if answer.Ok? then Some(answer.value) else None
  }

  /** A decision: the ruling as it bears on the approvals, and the response. */
  method Decide(desk: Desk, su: Setup, r: Request) returns (outcome: Outcome, reply: Option<Enforcement.Response>)
    modifies desk
    ensures (desk.Current(), outcome) == AfterDecide(RulingOf(su, r), old(desk.Current()), AskOf(r))
    ensures reply == Reply(su, old(desk.Current()), r)
  {
    hide Enforcement.Answer, SelectorRoot, FingerprintOf, Content, Redeemed, Presented, Redeems, AfterAnswer, Engine.Decide;
    reply := None;
    var verdict := EvaluateRequest(su.engine, su.patterns, SelectorRoot(r.access), r.explain);
    if verdict.Err? {
      if r.persist {
        desk.decisions := desk.decisions + 1;
      }
      return Failed, None;
    }
    var decision := verdict.value;
    var approval, error := desk.Redeemable(decision.effect, AskOf(r));
    if approval.Some? {
      decision := Redeemed(su.engine, decision);
    }
    var answer := Enforcement.Answer(su.plane, Content(r), decision);
    if answer.Err? {
      return Raised, None;
    }
    reply := Some(answer.value);
    outcome := desk.Record(answer.value.effect, approval, error, AskOf(r));
  }

  // --- from the policies to the caller ----------------------------------------------------------

  /** What is answered is the effect the guard and routing leave, and they only ever deny. */
  lemma {:induction false} AnsweredEffect(su: Setup, r: Request, d: Decision, redeemed: bool)
    requires Answer(su, r, d, redeemed).Ok?
    ensures var decided := if redeemed then Redeemed(su.engine, d) else d;
            var settled := Enforcement.Settled(su.plane, Content(r), decided).effect;
      && Answer(su, r, d, redeemed).value.effect == settled
      && (settled == decided.effect || settled == Deny)
      && (redeemed ==> decided.effect == Allow)
  {
    hide Enforcement.Settled, Enforcement.Answer, Content, Engine.ObligationsFor;
    var decided := if redeemed then Redeemed(su.engine, d) else d;
    Enforcement.AnswerHasSettledEffect(su.plane, Content(r), decided);
    if Enforcement.Settled(su.plane, Content(r), decided).effect != Deny {
      Enforcement.SettledShedsNothingUnlessDenied(su.plane, Content(r), decided);
    }
  }

  /** There is a response exactly when a reply is recorded, and it carries that effect. */
  lemma {:induction false} RepliesCarryTheEffect(su: Setup, st: State, r: Request)
    ensures var outcome := AfterDecide(RulingOf(su, r), st, AskOf(r)).1;
      && (outcome.Replied? <==> Reply(su, st, r).Some?)
      && (outcome.Replied? ==>
            && Verdict(su, r).Ok? && outcome.effect == Reply(su, st, r).value.effect
            && outcome.redeemed == Redeems(Verdict(su, r).value.effect, st, AskOf(r)))
  {
    hide Verdict, AskOf, Answer, Presented, Redeems, OpenTicket, NewTicket, Redeem;
  }

  /** An approval is spent exactly by a recorded decision that needs one, on the policies' own
      word, presents it granted, unspent, unexpired and bound to this very request, and whose
      response as redeemed can be built. */
  lemma {:induction false} SpendsIff(su: Setup, st: State, r: Request, id: nat)
    ensures Approvals.Step(st, Event.Decide(RulingOf(su, r), AskOf(r))).did == Spent(id) <==>
      && Verdict(su, r).Ok? && Verdict(su, r).value.effect == RequireApproval
      && r.persist && r.approvalId == Some(id) && id < |st.rows|
      && st.rows[id].status == Granted && st.rows[id].redeemedAt == None && !ExpiredBy(st.rows[id], st.now)
      && st.rows[id].fingerprint == Some(FingerprintOf(r.access, r.payload))
      && !Enforcement.Unbuildable(su.plane, Content(r), Redeemed(su.engine, Verdict(su, r).value))
    ensures var moved := Approvals.Step(st, Event.Decide(RulingOf(su, r), AskOf(r)));
      && (moved.did == Spent(id) && id < |moved.after.rows| ==>
            moved.after.rows[id].redeemedBy == if r.actor == "" then st.rows[id].requestedBy else r.actor)
      && (moved.did == Opened(id) && id < |moved.after.rows| ==> moved.after.rows[id].requestedBy == r.access.principalId)
  {
    hide Approvals.Step, Verdict, FingerprintOf, ExpiredBy, Content, Redeemed, Enforcement.Unbuildable, Enforcement.Answer;
    SpendingIsJustified(RulingOf(su, r), st, AskOf(r), id);
    OpeningSays(RulingOf(su, r), st, AskOf(r), id);
    if Verdict(su, r).Ok? {
      Enforcement.AnsweredIff(su.plane, Content(r), Redeemed(su.engine, Verdict(su, r).value));
    }
  }

  /** A request that is not recorded changes nothing, simulation or not. One that merely opted
      out of the record redeems nothing and is not let through on an approval; nor does an
      engine deny touch one; nor does a decision that fails or raises. */
  lemma {:induction false} UnrecordedOrDeniedTouchesNothing(su: Setup, st: State, r: Request)
    ensures var (after, outcome) := AfterDecide(RulingOf(su, r), st, AskOf(r));
      && (!r.persist ==> after == st)
      && (Verdict(su, r).Err? ==> outcome == Failed && after.rows == st.rows)
      && (outcome.Raised? ==> after == st)
      && (Verdict(su, r).Ok? && ((!r.persist && !r.simulating) || Verdict(su, r).value.effect == Deny) ==>
            && after.rows == st.rows
            && (outcome.Replied? ==>
                  && outcome.redeemed == None
                  && (Verdict(su, r).value.effect == RequireApproval ==> outcome.effect != Allow)
                  && (Verdict(su, r).value.effect == Deny ==> outcome.effect == Deny)))
  {
    hide Verdict, FingerprintOf, RedemptionError, OpenTicket, NewTicket, Answer, Redeem;
    if Verdict(su, r).Ok? && Answer(su, r, Verdict(su, r).value, false).Ok? {
      hide Enforcement.Settled, Content, Redeemed;
      AnsweredEffect(su, r, Verdict(su, r).value, false);
    }
  }

  /** What needed approval is allowed only by redeeming one, and then exactly when the
      redeemed decision survives the tokenisation guard and routing. */
  lemma {:induction false} AllowedOnlyByRedeeming(su: Setup, st: State, r: Request)
    requires Verdict(su, r).Ok? && Verdict(su, r).value.effect == RequireApproval
    ensures var outcome := AfterDecide(RulingOf(su, r), st, AskOf(r)).1;
      outcome.Replied? ==>
        (outcome.effect == Allow <==>
           && outcome.redeemed.Some?
           && Enforcement.Settled(su.plane, Content(r), Redeemed(su.engine, Verdict(su, r).value)).effect == Allow)
  {
    hide Verdict, AfterDecide, Answer, AskOf, Redeems, Enforcement.Settled, Content, Redeemed;
    var d := Verdict(su, r).value;
    RepliesCarryTheEffect(su, st, r);
    var redeemed := Redeems(d.effect, st, AskOf(r)).Some?;
    if Answer(su, r, d, redeemed).Ok? {
      AnsweredEffect(su, r, d, redeemed);
    }
  }

  /** From the policies to the caller. The answer to a request that redeems an approval gives
      the client the payload exactly when the redeemed decision survives the guard and routing,
      the response can be built, and every obligation of the parked decision and of each
      matched allow is carried out, by the caller or over the whole payload by the plane. */
  lemma {:induction false} RedeemedAnswerReachesTheClientIff(su: Setup, st: State, r: Request, canSatisfy: set<string>)
    requires UniqueKeys(su.engine.policies)
    requires Verdict(su, r).Ok? && Redeems(Verdict(su, r).value.effect, st, AskOf(r)).Some?
    ensures var d, reply := Verdict(su, r).value, Reply(su, st, r);
            var redeemed := Redeemed(su.engine, d);
            var settled := Enforcement.Settled(su.plane, Content(r), redeemed);
      && MatchAll(su.patterns, su.engine.Loaded(), SelectorRoot(r.access), r.explain).Ok?
      && (reply.Some? && Enforcement.Enforce(reply.value, canSatisfy).Ok? <==>
            && settled.effect == Allow && !Enforcement.Unbuildable(su.plane, Content(r), redeemed)
            && forall o | o in d.obligations
                       || Owed(MatchedWith(su.engine, su.patterns, SelectorRoot(r.access), r.explain, Allow), o) ::
                 Enforcement.Discharged(su.plane, Content(r), settled, canSatisfy, o.kind))
  {
    hide Verdict, SelectorRoot, MatchAll, Redeems, AskOf, Content, Enforcement.Settled, Enforcement.Enforce,
      Enforcement.Unbuildable, Enforcement.Discharged, Enforcement.Answer;
    var d := Verdict(su, r).value;
    VerdictIs(su, r);
    RedeemsIff(d.effect, st, AskOf(r), Redeems(d.effect, st, AskOf(r)).value);
    RedeemingKeepsObligations(su.engine, su.patterns, SelectorRoot(r.access), r.explain);
    Enforcement.EnforceReturnsIff(su.plane, Content(r), Redeemed(su.engine, d), canSatisfy);
  }

  lemma VerdictIs(su: Setup, r: Request)
    requires Verdict(su, r).Ok?
    ensures Verdict(su, r) == su.engine.Decide(su.patterns, SelectorRoot(r.access), r.explain)
    ensures MatchAll(su.patterns, su.engine.Loaded(), SelectorRoot(r.access), r.explain).Ok?
  {
    hide MatchAll, SelectorRoot, Combine, CollectObligations;
  }

  // --- from what the policies say -----------------------------------------------------------------

  /** From each policy to the caller. Where no approval is redeemed, the client hands out the
      payload exactly when the guard and routing leave an allow, the response can be built, and
      every obligation of every allowing policy that applies is carried out. */
  lemma {:induction false} PoliciesReachTheClientIff(su: Setup, r: Request, canSatisfy: set<string>)
    requires AcceptedPolicies(su.patterns, su.engine.policies) && Verdict(su, r).Ok?
    ensures var d, answer := Verdict(su, r).value, Answer(su, r, Verdict(su, r).value, false);
            var settled := Enforcement.Settled(su.plane, Content(r), d);
      answer.Ok? && Enforcement.Enforce(answer.value, canSatisfy).Ok? <==>
        && settled.effect == Allow && !Enforcement.Unbuildable(su.plane, Content(r), d)
        && forall p, o | p in su.engine.policies && Applies(su.patterns, p, SelectorRoot(r.access)) && p.effect == Allow
                         && o in p.obligations ::
             Enforcement.Discharged(su.plane, Content(r), settled, canSatisfy, o.kind)
  {
    hide SelectorRoot, Content, Enforcement.Settled, Enforcement.Enforce, Enforcement.Unbuildable, Enforcement.Discharged,
      Enforcement.Answer, Applies, AcceptedPolicies, Engine.Decide;
    var d := Verdict(su, r).value;
    DecisionIs(su.engine, su.patterns, SelectorRoot(r.access), r.explain);
    Enforcement.EnforceReturnsIff(su.plane, Content(r), d, canSatisfy);
    if Enforcement.Settled(su.plane, Content(r), d).effect == Allow {
      Enforcement.SettledShedsNothingUnlessDenied(su.plane, Content(r), d);
    }
  }

  /** And where one is redeemed, every obligation of every policy that applies and does not deny. */
  lemma {:induction false} RedeemedPoliciesReachTheClientIff(su: Setup, st: State, r: Request, canSatisfy: set<string>)
    requires AcceptedPolicies(su.patterns, su.engine.policies) && UniqueKeys(su.engine.policies)
    requires Verdict(su, r).Ok? && Redeems(Verdict(su, r).value.effect, st, AskOf(r)).Some?
    ensures var redeemed, reply := Redeemed(su.engine, Verdict(su, r).value), Reply(su, st, r);
            var settled := Enforcement.Settled(su.plane, Content(r), redeemed);
      reply.Some? && Enforcement.Enforce(reply.value, canSatisfy).Ok? <==>
        && settled.effect == Allow && !Enforcement.Unbuildable(su.plane, Content(r), redeemed)
        && forall p, o | p in su.engine.policies && Applies(su.patterns, p, SelectorRoot(r.access)) && p.effect != Deny
                         && o in p.obligations ::
             Enforcement.Discharged(su.plane, Content(r), settled, canSatisfy, o.kind)
  {
    hide SelectorRoot, Content, Enforcement.Settled, Enforcement.Enforce, Enforcement.Unbuildable, Enforcement.Discharged,
      Enforcement.Answer, Applies, AcceptedPolicies, Engine.Decide, UniqueKeys, AskOf, Redeems, Engine.ObligationsFor;
    var redeemed := Redeemed(su.engine, Verdict(su, r).value);
    RedeemingOwes(su.engine, su.patterns, SelectorRoot(r.access), r.explain);
    Enforcement.EnforceReturnsIff(su.plane, Content(r), redeemed, canSatisfy);
  }

  /** What the scan of a request's payload finds, with enough confidence. */
  function Found(su: Setup, r: Request): Scanning.ScanResult {
    if r.payload == Null || !r.scanPayload then StructuredScan.NOTHING
    else match r.payload
         case Str(text) => Scanning.ScanText(su.plane.scanner, text, "", "")
         case v => StructuredScan.Walk(su.plane.scanner, NodeOf(v), "", "", 0)
  }

  /** Every reply there is: content exactly on an allow whose obligations are to be applied, of a
      request that has a payload; and it is the payload itself where the decision redacts
      nothing or nothing was found, and otherwise its redaction. */
  lemma {:induction false} ReplyCarries(su: Setup, st: State, r: Request)
    requires Scanning.Detects(su.plane.scanner) && Scanning.DetectsApart(su.plane.scanner)
    requires CanonicalJson.WellKeyed(r.payload) && Reply(su, st, r).Some?
    ensures Verdict(su, r).Ok?
    ensures var a := Reply(su, st, r).value;
            var d := if Redeems(Verdict(su, r).value.effect, st, AskOf(r)).Some? then Redeemed(su.engine, Verdict(su, r).value)
                     else Verdict(su, r).value;
            var found := StructuredScan.Keep(Found(su, r).findings, r.minConfidence);
            var redacts := exists o :: o in d.obligations && o.kind == "redact";
      && (a.payload.Some? <==> a.effect == Allow && r.applyObligations && r.payload != Null)
      && (a.payload == None ==> a.redactions == [])
      && (a.payload.Some? && (!redacts || found == []) ==> a.payload == Some(NodeOf(r.payload)) && a.redactions == [])
      && (a.payload.Some? && redacts && found != [] ==>
            Obligations.RulesOf(d.obligations).Ok?
            && Enforcement.RedactedPayload(su.plane, Content(r), Obligations.RulesOf(d.obligations).value,
                                           a.payload.value, a.redactions))
      && (forall t :: t in a.residual <==>
            && a.effect == Allow && r.applyObligations && r.payload != Null && r.scanPayload && !Found(su, r).truncated
            && exists f :: f in found && f.tag == t && Obligations.Redacting(d.obligations, t) == None)
  {
    hide Verdict, AskOf, Redeems, Redeemed, Enforcement.Settled, Enforcement.RedactedPayload, Obligations.RulesOf,
      Obligations.Redacting, Enforcement.Answer, Scanning.ScanText, StructuredScan.Walk, StructuredScan.Keep, Scanning.Detects,
      Scanning.DetectsApart;
    var d := if Redeems(Verdict(su, r).value.effect, st, AskOf(r)).Some? then Redeemed(su.engine, Verdict(su, r).value)
             else Verdict(su, r).value;
    PayloadIsJson(r.payload);
    ScanIsFound(su, r);
    Enforcement.ResponseCarries(su.plane, Content(r), d);
    assert Enforcement.Imposed(d.obligations, "redact") <==> exists o :: o in d.obligations && o.kind == "redact";
  }

  lemma {:induction false} ScanIsFound(su: Setup, r: Request)
    ensures Enforcement.ScanOf(su.plane, Content(r)) == Found(su, r)
    ensures Content(r).payload == if r.payload == Null then None else Some(NodeOf(r.payload))
  {
    hide Scanning.ScanText, StructuredScan.Walk;
  }

  /** Every route of a decision that is not denied is resolved to the one model chosen well: the
      one the request names, if that meets them all. */
  lemma {:induction false} RoutesLeadWell(su: Setup, r: Request, d: Decision) returns (target: string)
    requires Enforcement.Settled(su.plane, Content(r), d).effect != Deny && Router.Routes(d.obligations) != []
    ensures Router.ChosenWell(su.plane.candidates, Router.Routes(d.obligations), r.access.urn, Some(target))
    ensures Enforcement.RoutedTo(Enforcement.Settled(su.plane, Content(r), d).obligations, target)
  {
    hide Enforcement.Settled, Router.ChosenWell, NodeOf;
    target := Enforcement.SettledRoutes(su.plane, Content(r), d);
  }

  // --- payloads as trees -----------------------------------------------------------------------------

  lemma {:induction false} KidsAre(items: seq<Value>)
    ensures |NodesOf(items)| == |items| && forall i | 0 <= i < |items| :: NodesOf(items)[i] == NodeOf(items[i])
    decreases items
  {
    hide NodeOf;
    if items != [] {
      KidsAre(items[1..]);
    }
  }

  lemma {:induction false} FieldsAre(entries: seq<Entry>)
    ensures |NamesOf(entries)| == |entries| && |FieldNodesOf(entries)| == |entries|
    ensures forall i | 0 <= i < |entries| ::
              NamesOf(entries)[i] == entries[i].key && FieldNodesOf(entries)[i] == NodeOf(entries[i].value)
    decreases entries
  {
    hide NodeOf;
    if entries != [] {
      FieldsAre(entries[1..]);
    }
  }

  /** A payload whose objects have distinct keys is a tree pointers are unambiguous in. */
  lemma {:induction false} PayloadIsJson(v: Value)
    requires CanonicalJson.WellKeyed(v)
    ensures StructuredScan.IsJson(NodeOf(v))
    decreases v
  {
    match v {
      case Arr(items) =>
        KidsAre(items);
        forall i | 0 <= i < |items| ensures StructuredScan.IsJson(NodesOf(items)[i]) {
          PayloadIsJson(items[i]);
        }
      case Obj(entries) =>
        FieldsAre(entries);
        forall i | 0 <= i < |entries| ensures StructuredScan.IsJson(FieldNodesOf(entries)[i]) {
          PayloadIsJson(entries[i].value);
        }
      case _ =>
    }
  }

  lemma {:induction false} NumbersDiffer(m: int, n: int)
    ensures CanonicalJson.IntText(m) == CanonicalJson.IntText(n) ==> m == n
    ensures CanonicalJson.IntText(n) !in {"null", "true", "false"}
  {
    var x, y := if m < 0 then -m else m, if n < 0 then -n else n;
    assert Strings.Decimal(x)[0] in Strings.Decimal(x) && Strings.Decimal(y)[0] in Strings.Decimal(y);
    if CanonicalJson.IntText(m) == CanonicalJson.IntText(n) {
      assert m < 0 <==> n < 0;
      assert m < 0 ==> CanonicalJson.IntText(m)[1..] == Strings.Decimal(x) && CanonicalJson.IntText(n)[1..] == Strings.Decimal(y);
      Strings.DecimalInjective(x, y);
    }
  }

  /** The tree has everything of the payload: different values are different trees, and the
      strings in it are its text leaves. */
  lemma {:induction false} TreesDecide(v: Value, w: Value)
    ensures NodeOf(v) == NodeOf(w) ==> v == w
    ensures NodeOf(v).Text? <==> v.Str?
    ensures v.Str? ==> NodeOf(v) == StructuredScan.Text(v.s)
    decreases v
  {
    if v.Num? && w.Num? {
      NumbersDiffer(v.n, w.n);
    } else if v.Num? {
      NumbersDiffer(v.n, v.n);
    } else if w.Num? {
      NumbersDiffer(w.n, w.n);
    } else if v.Arr? && w.Arr? && NodeOf(v) == NodeOf(w) {
      KidsAre(v.items);
      KidsAre(w.items);
      forall i | 0 <= i < |v.items| ensures v.items[i] == w.items[i] {
        TreesDecide(v.items[i], w.items[i]);
      }
    } else if v.Obj? && w.Obj? && NodeOf(v) == NodeOf(w) {
      FieldsAre(v.entries);
      FieldsAre(w.entries);
      forall i | 0 <= i < |v.entries| ensures v.entries[i] == w.entries[i] {
        TreesDecide(v.entries[i].value, w.entries[i].value);
      }
    }
  }

  // --- over whole runs ----------------------------------------------------------------------------

  datatype Call = Asks(setup: Setup, request: Request) | Resolves(id: nat, grant: bool, caller: string)
                | Waits(elapsed: nat)

  function EventOf(call: Call): Event {
    match call
    case Asks(su, r) => Event.Decide(RulingOf(su, r), AskOf(r))
    case Resolves(id, grant, caller) => Event.Resolve(id, grant, caller)
    case Waits(elapsed) => Event.Tick(elapsed)
  }

  function EventsOf(calls: seq<Call>): seq<Event> {
    seq(|calls|, i requires 0 <= i < |calls| => EventOf(calls[i]))
  }

  /** Only what the policies themselves park is answered with the need for approval. */
  lemma {:induction false} ParkedByThePolicies(su: Setup, r: Request)
    requires RulingOf(su, r).Rules? && RulingOf(su, r).otherwise == Some(RequireApproval)
    ensures Verdict(su, r).Ok? && Verdict(su, r).value.effect == RequireApproval
  {
    hide Verdict, Answer, Enforcement.Settled, Content, Redeemed;
    AnsweredEffect(su, r, Verdict(su, r).value, false);
  }

  /** Whenever a decision spends an approval, in any run, whatever the policies were at each
      step, an earlier decision parked a request with the very same fingerprint because its
      policies required approval, a person granted it in between, and it has not expired. */
  lemma {:induction false} EverySpendWasApproved(calls: seq<Call>, k: nat, id: nat) returns (asked: nat, granted: nat)
    requires k < |calls| && Did(EventsOf(calls), k) == Spent(id)
    ensures asked < granted < k && calls[asked].Asks? && calls[granted].Resolves? && calls[k].Asks?
    ensures var first, later := calls[asked], calls[k].request;
      && Did(EventsOf(calls), asked) == Opened(id)
      && FingerprintOf(first.request.access, first.request.payload) == FingerprintOf(later.access, later.payload)
      && Verdict(first.setup, first.request).Ok? && Verdict(first.setup, first.request).value.effect == RequireApproval
    ensures Did(EventsOf(calls), granted) == Answered(id, true) && calls[granted].id == id && calls[granted].grant
    ensures var st := Run(EventsOf(calls)[..k]); id < |st.rows| && !ExpiredBy(st.rows[id], st.now)
  {
    hide Did, Run, Verdict, RulingOf, FingerprintOf, ExpiredBy;
    var events := EventsOf(calls);
    asked, granted := SpendsWereApproved(events, k, id);
    AnsweredByAResolve(events, granted, id);
    assert events[asked] == EventOf(calls[asked]) && events[granted] == EventOf(calls[granted]);
    assert events[k] == EventOf(calls[k]);
    ParkedByThePolicies(calls[asked].setup, calls[asked].request);
  }

  lemma {:induction false} AnsweredByAResolve(events: seq<Event>, k: nat, id: nat)
    requires GrantedAt(events, k, id)
    ensures events[k].Resolve? && events[k].id == id && events[k].grant
  {
    hide AfterDecide, Run;
  }
}
