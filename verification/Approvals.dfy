/**
 Approvals as single-use capabilities: parked by one decision, granted or denied by a
 person before they expire, and spent by one later decision on the same request
 (control_plane/pdp.py, control_plane/models/decision.py, control_plane/api/v1/approvals.py).

 Each decision and each resolution is one atomic transaction; the clock never goes back.
 What the policies and the pipeline rule on a request may change from one decision to the
 next, and is a parameter here; Decisions says what it is.
 */
module Approvals {
  import opened Wrappers
  import opened PolicyEngine
  import opened Fingerprints

  // --- one approval -------------------------------------------------------------------

  datatype Status = Pending | Granted | Denied | Expired

  const APPROVAL_TTL: nat := 86400

  datatype Approval = Approval(
    decisionId: nat,
    status: Status,
    requestedBy: string,
    fingerprint: Option<Fingerprint>,
    createdAt: nat,
    expiresAt: Option<nat>,
    decidedBy: Option<string>,
    resolvedAt: Option<nat>,
    redeemedAt: Option<nat>,
    redeemedBy: string,
    redeemedDecision: Option<nat>
  )

  datatype Refusal =
    | NotFound | Unrecordable | StillAwaiting | WasDenied | NotGranted | AlreadyRedeemed | HasExpired | Unbound | OtherRequest

  predicate ExpiredBy(a: Approval, now: nat) {
    a.expiresAt.Some? && a.expiresAt.value <= now
  }

  /** Why an approval cannot be redeemed for this request now. */
  function RedemptionError(a: Approval, fingerprint: Fingerprint, now: nat): Option<Refusal> {
    if a.status == Pending then Some(StillAwaiting)
    else if a.status == Denied then Some(WasDenied)
    else if a.status != Granted then Some(NotGranted)
    else if a.redeemedAt.Some? then Some(AlreadyRedeemed)
    else if ExpiredBy(a, now) then Some(HasExpired)
    else if a.fingerprint == None then Some(Unbound)
    else if a.fingerprint.value != fingerprint then Some(OtherRequest)
    else None
  }

  /** The capability, stated whole. */
  lemma RedeemableIff(a: Approval, fingerprint: Fingerprint, now: nat)
    ensures RedemptionError(a, fingerprint, now) == None <==>
              a.status == Granted && a.redeemedAt == None && !ExpiredBy(a, now) && a.fingerprint == Some(fingerprint)
  {}

  /** Why it cannot be redeemed: the first of these that holds. */
  lemma RefusalSays(a: Approval, fingerprint: Fingerprint, now: nat)
    ensures var why := RedemptionError(a, fingerprint, now);
            var usable := a.status == Granted && a.redeemedAt == None;
            var live := usable && !ExpiredBy(a, now);
      && (why == Some(StillAwaiting) <==> a.status == Pending)
      && (why == Some(WasDenied) <==> a.status == Denied)
      && (why == Some(NotGranted) <==> a.status == Expired)
      && (why == Some(AlreadyRedeemed) <==> a.status == Granted && a.redeemedAt.Some?)
      && (why == Some(HasExpired) <==> usable && a.expiresAt.Some? && a.expiresAt.value <= now)
      && (why == Some(Unbound) <==> live && a.fingerprint == None)
      && (why == Some(OtherRequest) <==> live && a.fingerprint.Some? && a.fingerprint.value != fingerprint)
      && why !in {Some(NotFound), Some(Unrecordable)}
  {}

  // --- one decision ---------------------------------------------------------------------

  /** What a decision request says about approvals. */
  datatype Ask = Ask(
    fingerprint: Fingerprint,
    requestedBy: string,
    approvalId: Option<nat>,
    persist: bool,
    simulating: bool,
    actor: string
  )

  /** What the rest of the pipeline makes of the request: it fails, and so denies; or the
      policies give an effect, and there is an effect to answer with once an approval is
      redeemed, and one otherwise, unless building that response raises. */
  datatype Ruling = Fails | Rules(effect: Effect, whenRedeemed: Option<Effect>, otherwise: Option<Effect>)

  datatype State = State(rows: seq<Approval>, now: nat, decisions: nat)

  /** Which approval applies to this request, or why the one presented does not. */
  function Presented(effect: Effect, st: State, ask: Ask): Result<Option<nat>, Refusal> {
    if effect != RequireApproval || ask.approvalId == None then Ok(None)
    else if !ask.simulating && !ask.persist then Err(Unrecordable)
    else if ask.approvalId.value >= |st.rows| then Err(NotFound)
    else
      var error := RedemptionError(st.rows[ask.approvalId.value], ask.fingerprint, st.now);
      if error.Some? then Err(error.value) else Ok(ask.approvalId)
  }

  function Redeems(effect: Effect, st: State, ask: Ask): (r: Option<nat>)
    ensures r.Some? ==> r == ask.approvalId && r.value < |st.rows|
  {
    var applies := Presented(effect, st, ask);
    if applies.Ok? then applies.value else None
  }

  datatype Outcome =
    | Failed
    | Raised
    | Replied(effect: Effect, redeemed: Option<nat>, error: Option<Refusal>, ticket: Option<nat>)

  function Redeem(a: Approval, now: nat, decision: nat, actor: string): Approval {
    a.(redeemedAt := Some(now), redeemedBy := if actor != "" then actor else a.requestedBy, redeemedDecision := Some(decision))
  }

  /** The latest-created ticket still pending for this fingerprint. */
  function LatestPending(rows: seq<Approval>, fingerprint: Fingerprint): (r: Option<nat>)
    ensures r.Some? ==> r.value < |rows| && rows[r.value].status == Pending && rows[r.value].fingerprint == Some(fingerprint)
    ensures forall i | 0 <= i < |rows| && rows[i].status == Pending && rows[i].fingerprint == Some(fingerprint) ::
              r.Some? && rows[i].createdAt <= rows[r.value].createdAt
  {
    if rows == [] then None
    else
      var n := |rows| - 1;
      var before := LatestPending(rows[..n], fingerprint);
      if rows[n].status == Pending && rows[n].fingerprint == Some(fingerprint)
         && (before == None || rows[before.value].createdAt <= rows[n].createdAt)
      then Some(n) else before
  }

  function NewTicket(st: State, ask: Ask): Approval {
    Approval(st.decisions, Pending, ask.requestedBy, Some(ask.fingerprint), st.now, Some(st.now + APPROVAL_TTL),
             None, None, None, "", None)
  }

  /** The ticket a parked request already has, if one is still open. */
  function OpenTicket(st: State, ask: Ask): Option<nat> {
    var existing := LatestPending(st.rows, ask.fingerprint);
    if existing.Some? && !ExpiredBy(st.rows[existing.value], st.now) then existing else None
  }

  /** Once there is an answer: the approval is spent, or the request parked, or neither. */
  function AfterAnswer(effect: Effect, redeemed: Option<nat>, error: Option<Refusal>, st: State, ask: Ask): (State, Outcome)
    requires redeemed.Some? ==> redeemed.value < |st.rows|
  {
    if !ask.persist then (st, Replied(effect, redeemed, error, None))
    else
      var recorded := st.(decisions := st.decisions + 1);
      if redeemed.Some? then
        (recorded.(rows := st.rows[redeemed.value := Redeem(st.rows[redeemed.value], st.now, st.decisions, ask.actor)]),
         Replied(effect, redeemed, error, None))
      else if effect == RequireApproval then
        var open := OpenTicket(st, ask);
        if open.Some? then (recorded, Replied(effect, None, error, open))
        else (recorded.(rows := st.rows + [NewTicket(st, ask)]), Replied(effect, None, error, Some(|st.rows|)))
      else (recorded, Replied(effect, None, error, None))
  }

  function AfterDecide(ruling: Ruling, st: State, ask: Ask): (State, Outcome) {
    match ruling
    case Fails => (if ask.persist then st.(decisions := st.decisions + 1) else st, Failed)
    case Rules(effect, whenRedeemed, otherwise) =>
      var applies := Presented(effect, st, ask);
      var redeemed := Redeems(effect, st, ask);
      match (if redeemed.Some? then whenRedeemed else otherwise)
      case None => (st, Raised)
      case Some(answered) => AfterAnswer(answered, redeemed, if applies.Err? then Some(applies.error) else None, st, ask)
  }

  datatype Resolution = Resolved | NoSuchApproval | AlreadyResolved | TooLate

  /** A person's answer. Too late, the source marks the row and then raises, and the
      transaction that marked it is rolled back. */
  function AfterResolve(st: State, id: nat, grant: bool, caller: string): (State, Resolution) {
    if id >= |st.rows| then (st, NoSuchApproval)
    else if st.rows[id].status != Pending then (st, AlreadyResolved)
    else if ExpiredBy(st.rows[id], st.now) then (st, TooLate)
    else
      var a := st.rows[id].(status := if grant then Granted else Denied, decidedBy := Some(caller), resolvedAt := Some(st.now));
      (st.(rows := st.rows[id := a]), Resolved)
  }

  /** The stored approvals, and the requests that change them. */
  class Desk {
    var rows: seq<Approval>
    var now: nat
    var decisions: nat

    constructor ()
      ensures Current() == State([], 0, 0)
    {
      rows, now, decisions := [], 0, 0;
    }

    function Current(): State
      reads this
    {
      State(rows, now, decisions)
    }

    /** The approval presented, if it is to be redeemed, or why not. */
    method Redeemable(effect: Effect, ask: Ask) returns (approval: Option<nat>, error: Option<Refusal>)
      ensures var applies := Presented(effect, Current(), ask);
        approval == Redeems(effect, Current(), ask) && error == if applies.Err? then Some(applies.error) else None
    {
      approval, error := None, None;
      if effect == RequireApproval && ask.approvalId.Some? {
        if !ask.simulating && !ask.persist {
          error := Some(Unrecordable);
        } else if ask.approvalId.value >= |rows| {
          error := Some(NotFound);
        } else {
          error := RedemptionError(rows[ask.approvalId.value], ask.fingerprint, now);
          if error == None {
            approval := ask.approvalId;
          }
        }
      }
    }

    /** Records a decision that has an answer. */
    method Record(effect: Effect, approval: Option<nat>, error: Option<Refusal>, ask: Ask) returns (outcome: Outcome)
      requires approval.Some? ==> approval.value < |rows|
      modifies this
      ensures (Current(), outcome) == AfterAnswer(effect, approval, error, old(Current()), ask)
    {
      outcome := Replied(effect, approval, error, None);
      if ask.persist {
        var id := decisions;
        decisions := decisions + 1;
        if approval.Some? {
          rows := rows[approval.value := Redeem(rows[approval.value], now, id, ask.actor)];
        } else if effect == RequireApproval {
          var ticket := Park(ask, id);
          outcome := outcome.(ticket := Some(ticket));
        }
      }
    }

    /** Hands back the request's open ticket, or opens one. */
    method Park(ask: Ask, id: nat) returns (ticket: nat)
      modifies this`rows
      ensures var open := OpenTicket(old(Current()), ask);
        && ticket == (if open.Some? then open.value else |old(rows)|)
        && rows == if open.Some? then old(rows) else old(rows) + [NewTicket(old(Current()).(decisions := id), ask)]
    {
      var existing := LatestPending(rows, ask.fingerprint);
      if existing.Some? && !ExpiredBy(rows[existing.value], now) {
        return existing.value;
      }
      ticket := |rows|;
      rows := rows + [Approval(id, Pending, ask.requestedBy, Some(ask.fingerprint), now, Some(now + APPROVAL_TTL),
                               None, None, None, "", None)];
    }

    method Resolve(id: nat, grant: bool, caller: string) returns (outcome: Resolution)
      modifies this`rows
      ensures (Current(), outcome) == AfterResolve(old(Current()), id, grant, caller)
    {
      if id >= |rows| {
        return NoSuchApproval;
      }
      var a := rows[id];
      if a.status != Pending {
        return AlreadyResolved;
      }
      if ExpiredBy(a, now) {
        return TooLate;
      }
      a := a.(status := if grant then Granted else Denied, decidedBy := Some(caller), resolvedAt := Some(now));
      rows := rows[id := a];
      outcome := Resolved;
    }
  }

  // --- runs -------------------------------------------------------------------------------

  datatype Event = Decide(ruling: Ruling, ask: Ask) | Resolve(id: nat, grant: bool, caller: string) | Tick(elapsed: nat)

  /** What an event did to the approvals. */
  datatype Effects = Nothing | Opened(id: nat) | Answered(id: nat, granted: bool) | Spent(id: nat)

  datatype Moved = Moved(after: State, did: Effects)

  function StepDecide(ruling: Ruling, st: State, ask: Ask): Moved {
    var (after, outcome) := AfterDecide(ruling, st, ask);
    Moved(after, if ask.persist && outcome.Replied? && outcome.redeemed.Some? then Spent(outcome.redeemed.value)
                 else if |after.rows| > |st.rows| then Opened(|st.rows|) else Nothing)
  }

  function Step(st: State, event: Event): Moved {
    match event
    case Decide(ruling, ask) => StepDecide(ruling, st, ask)
    case Resolve(id, grant, caller) =>
      var (after, outcome) := AfterResolve(st, id, grant, caller);
      Moved(after, if outcome == Resolved then Answered(id, grant) else Nothing)
    case Tick(elapsed) => Moved(st.(now := st.now + elapsed), Nothing)
  }

  const START := State([], 0, 0)

  function Run(events: seq<Event>): State {
    if events == [] then START else Step(Run(events[..|events| - 1]), events[|events| - 1]).after
  }

  /** What event k of a run did. */
  function Did(events: seq<Event>, k: nat): Effects
    requires k < |events|
  {
    Step(Run(events[..k]), events[k]).did
  }

  // --- what every row keeps ------------------------------------------------------------------

  ghost predicate RowInv(a: Approval, now: nat) {
    && a.fingerprint.Some? && a.createdAt <= now && a.expiresAt == Some(a.createdAt + APPROVAL_TTL)
    && a.status != Expired
    && (a.status == Pending <==> a.resolvedAt == None)
    && (a.resolvedAt.Some? ==> a.resolvedAt.value <= now && a.resolvedAt.value < a.expiresAt.value)
    && (a.redeemedAt.Some? ==>
          a.status == Granted && a.resolvedAt.value <= a.redeemedAt.value < a.expiresAt.value
          && a.redeemedAt.value <= now && a.redeemedDecision.Some?)
  }

  /** A new ticket is only ever opened once the earlier ones for its fingerprint have run out. */
  ghost predicate TicketsInTurn(rows: seq<Approval>) {
    forall i, j | 0 <= i < j < |rows| && rows[i].status == Pending && rows[i].fingerprint == rows[j].fingerprint ::
      ExpiredBy(rows[i], rows[j].createdAt)
  }

  ghost predicate Inv(st: State) {
    && (forall a | a in st.rows :: RowInv(a, st.now))
    && TicketsInTurn(st.rows)
  }

  lemma OnlyOneOpenTicket(st: State, i: nat, j: nat)
    requires Inv(st) && i < |st.rows| && j < |st.rows|
    requires st.rows[i].status == Pending && st.rows[j].status == Pending
    requires !ExpiredBy(st.rows[i], st.now) && !ExpiredBy(st.rows[j], st.now)
    requires st.rows[i].fingerprint == st.rows[j].fingerprint
    ensures i == j
  {
    assert st.rows[i] in st.rows && st.rows[j] in st.rows;
  }

  lemma UpdateKeepsInv(st: State, id: nat, a: Approval)
    requires Inv(st) && id < |st.rows| && RowInv(a, st.now)
    requires a.fingerprint == st.rows[id].fingerprint && a.createdAt == st.rows[id].createdAt
    requires a.expiresAt == st.rows[id].expiresAt && (a.status == Pending ==> st.rows[id].status == Pending)
    ensures Inv(st.(rows := st.rows[id := a]))
  {
    var rows := st.rows[id := a];
    forall x | x in rows ensures RowInv(x, st.now) {
      var i :| 0 <= i < |rows| && rows[i] == x;
      assert i != id ==> x == st.rows[i] && st.rows[i] in st.rows;
    }
  }

  lemma OpeningKeepsInv(st: State, ask: Ask)
    requires Inv(st) && OpenTicket(st, ask) == None
    ensures Inv(st.(rows := st.rows + [NewTicket(st, ask)]))
  {
    var ticket := NewTicket(st, ask);
    var rows := st.rows + [ticket];
    forall i | 0 <= i < |st.rows| && st.rows[i].status == Pending && st.rows[i].fingerprint == ticket.fingerprint
      ensures ExpiredBy(st.rows[i], st.now)
    {
      var latest := LatestPending(st.rows, ask.fingerprint).value;
      assert st.rows[i] in st.rows && st.rows[latest] in st.rows;
    }
  }

  /** Only the approval presented is redeemed, where approval is required, and exactly when it
      is granted, unspent, unexpired and bound to this request. */
  lemma RedeemsIff(effect: Effect, st: State, ask: Ask, id: nat)
    ensures Redeems(effect, st, ask) == Some(id) <==>
      && effect == RequireApproval && ask.approvalId == Some(id) && id < |st.rows| && (ask.persist || ask.simulating)
      && st.rows[id].status == Granted && st.rows[id].redeemedAt == None && !ExpiredBy(st.rows[id], st.now)
      && st.rows[id].fingerprint == Some(ask.fingerprint)
  {
    hide ExpiredBy;
  }

  lemma {:induction false} DecideKeepsInv(ruling: Ruling, st: State, ask: Ask)
    requires Inv(st)
    ensures Inv(AfterDecide(ruling, st, ask).0)
  {
    hide NewTicket, OpenTicket, TicketsInTurn, Presented, Redeems;
    if ask.persist && ruling.Rules? {
      var redeemed := Redeems(ruling.effect, st, ask);
      if redeemed.Some? {
        var id := redeemed.value;
        RedeemsIff(ruling.effect, st, ask, id);
        assert st.rows[id] in st.rows;
        UpdateKeepsInv(st, id, Redeem(st.rows[id], st.now, st.decisions, ask.actor));
      } else if ruling.otherwise == Some(RequireApproval) && OpenTicket(st, ask) == None {
        OpeningKeepsInv(st, ask);
      }
    }
  }

  lemma StepKeepsInv(st: State, event: Event)
    requires Inv(st)
    ensures Inv(Step(st, event).after)
  {
    match event {
      case Decide(ruling, ask) =>
        hide AfterDecide, Inv;
        DecideKeepsInv(ruling, st, ask);
      case Resolve(id, grant, caller) =>
        if id < |st.rows| && st.rows[id].status == Pending && !ExpiredBy(st.rows[id], st.now) {
          assert st.rows[id] in st.rows;
          UpdateKeepsInv(st, id, st.rows[id].(status := if grant then Granted else Denied, decidedBy := Some(caller),
                                              resolvedAt := Some(st.now)));
        }
      case Tick(elapsed) =>
        forall a | a in st.rows ensures RowInv(a, st.now + elapsed) {
          assert RowInv(a, st.now);
        }
    }
  }

  /** In every reachable state each approval was granted, if at all, before it expired, spent
      only after that and before it expired, and each fingerprint has one open ticket at most. */
  lemma {:induction false} EveryRunKeepsInv(events: seq<Event>)
    ensures Inv(Run(events))
  {
    if events != [] {
      EveryRunKeepsInv(events[..|events| - 1]);
      StepKeepsInv(Run(events[..|events| - 1]), events[|events| - 1]);
    }
  }

  // --- what one step may do ---------------------------------------------------------------------

  /** Everything but this one row is as it was. */
  ghost predicate OnlyRowChanged(before: seq<Approval>, after: seq<Approval>, id: nat) {
    |after| == |before| && forall j | 0 <= j < |before| && j != id :: after[j] == before[j]
  }

  /** Spending is reported exactly when a granted, unspent, unexpired approval, bound to this
      very request, is presented on a recorded decision that needs one and can be answered; it
      marks that one spent, now and by this decision, and changes nothing else. */
  lemma {:induction false} SpendingIsJustified(ruling: Ruling, st: State, ask: Ask, id: nat)
    ensures Step(st, Decide(ruling, ask)).did == Spent(id) <==>
      && ruling.Rules? && ruling.effect == RequireApproval && ruling.whenRedeemed.Some?
      && ask.persist && ask.approvalId == Some(id) && id < |st.rows|
      && st.rows[id].status == Granted && st.rows[id].redeemedAt == None && !ExpiredBy(st.rows[id], st.now)
      && st.rows[id].fingerprint == Some(ask.fingerprint)
    ensures Step(st, Decide(ruling, ask)).did == Spent(id) ==>
      var rows := Step(st, Decide(ruling, ask)).after.rows;
      && OnlyRowChanged(st.rows, rows, id) && rows[id].status == Granted
      && rows[id].redeemedAt == Some(st.now) && rows[id].redeemedDecision == Some(st.decisions)
      && rows[id].redeemedBy == (if ask.actor == "" then st.rows[id].requestedBy else ask.actor)
  {
    hide ExpiredBy, Presented, Redeems, OpenTicket, NewTicket;
    if ruling.Rules? {
      RedeemsIff(ruling.effect, st, ask, id);
    }
  }

  /** An answer takes exactly when the approval is pending and unexpired; it then stands as
      given, and otherwise every row stays as it was. */
  lemma AnsweringIsJustified(st: State, id: nat, grant: bool, caller: string)
    ensures var moved := Step(st, Resolve(id, grant, caller));
      if id < |st.rows| && st.rows[id].status == Pending && !ExpiredBy(st.rows[id], st.now) then
        && moved.did == Answered(id, grant) && OnlyRowChanged(st.rows, moved.after.rows, id)
        && moved.after.rows[id].status == (if grant then Granted else Denied)
        && moved.after.rows[id].decidedBy == Some(caller) && moved.after.rows[id].resolvedAt == Some(st.now)
      else moved.did == Nothing && moved.after == st
  {}

  /** A parked request sent again, by a retry or another worker, is handed the ticket it
      already has while that is open, and opens no second one. */
  lemma ResendingKeepsTheTicket(ruling: Ruling, st: State, ask: Ask, ticket: nat)
    requires Inv(st) && ticket < |st.rows|
    requires st.rows[ticket].status == Pending && !ExpiredBy(st.rows[ticket], st.now)
    requires st.rows[ticket].fingerprint == Some(ask.fingerprint)
    requires ask.persist && ruling.Rules? && ruling.otherwise == Some(RequireApproval)
    requires Redeems(ruling.effect, st, ask) == None
    ensures var (after, outcome) := AfterDecide(ruling, st, ask);
      after.rows == st.rows && outcome.Replied? && outcome.ticket == Some(ticket)
  {
    hide Presented, Redeems, LatestPending, Redeem, NewTicket;
    var latest := LatestPending(st.rows, ask.fingerprint);
    assert st.rows[ticket] in st.rows && st.rows[latest.value] in st.rows;
    OnlyOneOpenTicket(st, ticket, latest.value);
  }

  // --- at most once ----------------------------------------------------------------------------------

  /** What one event may do to one row. */
  ghost predicate Evolves(was: Approval, after: seq<Approval>, did: Effects, id: nat) {
    && id < |after|
    && after[id].fingerprint == was.fingerprint && after[id].expiresAt == was.expiresAt
    && (after[id].status != was.status <==> did.Answered? && did.id == id)
    && (after[id].status != was.status ==> was.status == Pending && after[id].status != Pending)
    && (was.redeemedAt.Some? ==> after[id].redeemedAt == was.redeemedAt)
    && (did == Answered(id, true) ==> after[id].status == Granted)
    && (after[id].status == Granted && was.status != Granted ==> did == Answered(id, true))
  }

  lemma {:induction false} DecideEvolves(ruling: Ruling, st: State, ask: Ask, id: nat)
    requires id < |st.rows|
    ensures var moved := StepDecide(ruling, st, ask); Evolves(st.rows[id], moved.after.rows, moved.did, id)
  {
    hide OpenTicket, NewTicket, ExpiredBy, Presented, Redeems;
    if ruling.Rules? {
      var redeemed := Redeems(ruling.effect, st, ask);
      if redeemed.Some? {
        RedeemsIff(ruling.effect, st, ask, redeemed.value);
      }
    }
  }

  lemma AnswerEvolves(st: State, other: nat, grant: bool, caller: string, id: nat)
    requires id < |st.rows|
    ensures var moved := Step(st, Resolve(other, grant, caller)); Evolves(st.rows[id], moved.after.rows, moved.did, id)
  {
    hide ExpiredBy, StepDecide;
  }

  lemma RowsEvolve(st: State, event: Event, id: nat)
    requires id < |st.rows|
    ensures Evolves(st.rows[id], Step(st, event).after.rows, Step(st, event).did, id)
  {
    hide StepDecide, AfterResolve;
    match event {
      case Decide(ruling, ask) =>
        DecideEvolves(ruling, st, ask, id);
      case Resolve(other, grant, caller) =>
        AnswerEvolves(st, other, grant, caller, id);
      case Tick(_) =>
    }
  }

  /** A row an event adds is the next one, pending, opened by a decision that is answered with
      the need for approval, on the fingerprint of its own request. */
  lemma {:induction false} StepOpens(st: State, event: Event, id: nat)
    requires |st.rows| <= id < |Step(st, event).after.rows|
    ensures Step(st, event).did == Opened(id) && Step(st, event).after.rows[id].status == Pending
    ensures event.Decide? && event.ruling.Rules? && event.ruling.otherwise == Some(RequireApproval)
    ensures var row := Step(st, event).after.rows[id];
      && row.fingerprint == Some(event.ask.fingerprint) && row.requestedBy == event.ask.requestedBy
      && row.decisionId == st.decisions && row.createdAt == st.now && row.expiresAt == Some(st.now + 86400)
      && row.resolvedAt == None && row.redeemedAt == None
  {
    hide OpenTicket, Redeem, ExpiredBy, Presented, Redeems;
  }

  lemma OpeningSays(ruling: Ruling, st: State, ask: Ask, id: nat)
    ensures var moved := Step(st, Decide(ruling, ask));
      moved.did == Opened(id) ==>
        && |st.rows| <= id < |moved.after.rows| && moved.after.rows[id].requestedBy == ask.requestedBy
  {
    hide AfterDecide;
    var moved := Step(st, Decide(ruling, ask));
    if moved.did == Opened(id) {
      StepOpens(st, Decide(ruling, ask), id);
    }
  }

  lemma {:induction false} RowsPersist(events: seq<Event>, j: nat, id: nat)
    requires j <= |events| && id < |Run(events[..j]).rows|
    ensures id < |Run(events).rows|
    ensures var was, later := Run(events[..j]).rows[id], Run(events).rows[id];
      && later.fingerprint == was.fingerprint && later.expiresAt == was.expiresAt
      && (was.status != Pending ==> later.status == was.status)
      && (was.redeemedAt.Some? ==> later.redeemedAt.Some?)
    decreases |events| - j
  {
    hide Step;
    if j == |events| {
      assert events[..j] == events;
    } else {
      var n := |events| - 1;
      var before := events[..n];
      assert before[..j] == events[..j];
      RowsPersist(before, j, id);
      RowsEvolve(Run(before), events[n], id);
    }
  }

  lemma OnlyDecisionsSpend(st: State, event: Event, id: nat)
    ensures Step(st, event).did == Spent(id) ==> event.Decide?
  {
    hide StepDecide;
  }

  /** No approval is spent twice in any run. */
  lemma SpentAtMostOnce(events: seq<Event>, j: nat, k: nat, id: nat)
    requires j < k < |events| && Did(events, j) == Spent(id)
    ensures Did(events, k) != Spent(id)
  {
    hide Step, ExpiredBy;
    OnlyDecisionsSpend(Run(events[..j]), events[j], id);
    OnlyDecisionsSpend(Run(events[..k]), events[k], id);
    assert events[..j + 1][..j] == events[..j];
    SpendingIsJustified(events[j].ruling, Run(events[..j]), events[j].ask, id);
    assert events[..k][..j + 1] == events[..j + 1];
    RowsPersist(events[..k], j + 1, id);
    if events[k].Decide? {
      SpendingIsJustified(events[k].ruling, Run(events[..k]), events[k].ask, id);
    }
  }

  /** No approval is answered twice in any run. */
  lemma AnsweredAtMostOnce(events: seq<Event>, j: nat, k: nat, id: nat, one: bool, other: bool)
    requires j < k < |events| && Did(events, j) == Answered(id, one)
    ensures Did(events, k) != Answered(id, other)
  {
    hide Step;
    assert events[..j + 1][..j] == events[..j];
    assert events[..k][..j + 1] == events[..j + 1];
    AnswersAreToRows(Run(events[..j]), events[j], id);
    AnswersAreToRows(Run(events[..k]), events[k], id);
    if id < |Run(events[..j]).rows| {
      RowsEvolve(Run(events[..j]), events[j], id);
      RowsPersist(events[..k], j + 1, id);
      RowsEvolve(Run(events[..k]), events[k], id);
    }
  }

  lemma AnswersAreToRows(st: State, event: Event, id: nat)
    ensures Step(st, event).did.Answered? && Step(st, event).did.id == id ==> id < |st.rows|
  {
    hide AfterDecide;
  }

  // --- where a spend comes from ------------------------------------------------------------------------

  ghost predicate OpenedAt(events: seq<Event>, j: nat, id: nat, fingerprint: Option<Fingerprint>) {
    && j < |events| && Did(events, j) == Opened(id) && events[j].Decide?
    && fingerprint == Some(events[j].ask.fingerprint)
    && events[j].ruling.Rules? && events[j].ruling.otherwise == Some(RequireApproval)
  }

  ghost predicate GrantedAt(events: seq<Event>, j: nat, id: nat) {
    j < |events| && Did(events, j) == Answered(id, true)
  }

  lemma {:induction false} DidExtends(events: seq<Event>, n: nat, j: nat)
    requires j < n <= |events|
    ensures Did(events[..n], j) == Did(events, j) && events[..n][j] == events[j]
  {
    hide Step;
    assert events[..n][..j] == events[..j];
  }

  /** Every row was opened by a decision on its own fingerprint. */
  lemma {:induction false} RowsWereOpened(events: seq<Event>, id: nat) returns (j: nat)
    requires id < |Run(events).rows|
    ensures OpenedAt(events, j, id, Run(events).rows[id].fingerprint)
  {
    hide Step;
    var n := |events| - 1;
    var before := events[..n];
    j := n;
    if id < |Run(before).rows| {
      j := RowsWereOpened(before, id);
      DidExtends(events, n, j);
      RowsEvolve(Run(before), events[n], id);
    } else {
      StepOpens(Run(before), events[n], id);
    }
  }

  /** Every granted row was granted by an answer after it was opened. */
  lemma {:induction false} GrantsWereGiven(events: seq<Event>, id: nat) returns (j: nat)
    requires id < |Run(events).rows| && Run(events).rows[id].status == Granted
    ensures GrantedAt(events, j, id) && id < |Run(events[..j]).rows|
  {
    hide Step;
    var n := |events| - 1;
    var before := events[..n];
    j := n;
    if id < |Run(before).rows| {
      RowsEvolve(Run(before), events[n], id);
      if Run(before).rows[id].status == Granted {
        j := GrantsWereGiven(before, id);
        DidExtends(events, n, j);
        assert before[..j] == events[..j];
      }
    } else {
      StepOpens(Run(before), events[n], id);
    }
  }

  /** Whenever an approval is spent, in any run, it was opened earlier by a decision on a
      request with the very same fingerprint, granted in between, and has not expired. */
  lemma SpendsWereApproved(events: seq<Event>, k: nat, id: nat) returns (asked: nat, granted: nat)
    requires k < |events| && Did(events, k) == Spent(id)
    ensures asked < granted < k && events[k].Decide?
    ensures OpenedAt(events, asked, id, Some(events[k].ask.fingerprint))
    ensures GrantedAt(events, granted, id)
    ensures id < |Run(events[..k]).rows| && !ExpiredBy(Run(events[..k]).rows[id], Run(events[..k]).now)
  {
    hide Step, ExpiredBy;
    OnlyDecisionsSpend(Run(events[..k]), events[k], id);
    var before := events[..k];
    SpendingIsJustified(events[k].ruling, Run(before), events[k].ask, id);
    granted := GrantsWereGiven(before, id);
    asked := RowsWereOpened(before[..granted], id);
    DidExtends(before, granted, asked);
    DidExtends(events, k, asked);
    DidExtends(events, k, granted);
    RowsPersist(before, granted, id);
  }

  // --- what is said of it ------------------------------------------------------------------------------

  /** Why a presented approval does not apply: what is not recorded redeems nothing, whatever
      was presented; then there must be such an approval; then its own reasons. */
  lemma PresentingSays(st: State, ask: Ask)
    requires ask.approvalId.Some?
    ensures var why, id := Presented(RequireApproval, st, ask), ask.approvalId.value;
      && (why == Err(Unrecordable) <==> !ask.simulating && !ask.persist)
      && (why == Err(NotFound) <==> (ask.simulating || ask.persist) && id >= |st.rows|)
      && ((ask.simulating || ask.persist) && id < |st.rows| ==>
            match RedemptionError(st.rows[id], ask.fingerprint, st.now)
            case None => why == Ok(Some(id))
            case Some(reason) => why == Err(reason))
  {
    if ask.approvalId.value < |st.rows| {
      RefusalSays(st.rows[ask.approvalId.value], ask.fingerprint, st.now);
    }
  }

  /** What somebody answering is told. */
  lemma AnsweringSays(st: State, id: nat, grant: bool, caller: string)
    ensures var said := AfterResolve(st, id, grant, caller).1;
      && (said == NoSuchApproval <==> id >= |st.rows|)
      && (said == AlreadyResolved <==> id < |st.rows| && st.rows[id].status != Pending)
      && (said == TooLate <==> id < |st.rows| && st.rows[id].status == Pending && ExpiredBy(st.rows[id], st.now))
  {}
}
