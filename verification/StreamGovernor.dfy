/**
 Releasing a streamed answer behind a hold-back window, while everything seen so far is
 governed again each time (pep/reverse_proxy/streaming.py).

 The governor is remote and may answer the same text differently from one decision to the
 next, so it is a function of the decision's number and the text.
 */
module StreamGovernor {
  import opened Wrappers
  import opened Redaction
  import Scanning
  import opened Strings

  datatype Governed = Governed(text: string, refusal: Option<string>)

  datatype Settings = Settings(govern: (nat, string) -> Governed, window: int, every: int)

  /** Something to send to the client. */
  datatype Chunk = Chunk(text: string, refusal: Option<string>)

  datatype State = State(
    seen: string,
    governedAt: nat,
    emitted: string,
    refused: bool,
    refusedReason: Option<string>,
    decisions: nat,
    heldBackAtEnd: nat,
    overran: bool
  )

  const INITIAL := State("", 0, "", false, None, 0, 0, false)

  datatype Outcome = Outcome(chunk: Option<Chunk>, after: State)

  const OVERRAN := "a value longer than the streaming window was found"

  /** How much of a governed text may be out: all of it at the end, else all but the window. */
  function SafeEnd(c: Settings, governed: string, final: bool): nat {
    if final then |governed| else if |governed| > c.window then |governed| - c.window else 0
  }

  function Drained(c: Settings, st: State, final: bool): Outcome {
    if st.seen == "" then Outcome(None, st)
    else
      var answer := c.govern(st.decisions, st.seen);
      var counted := st.(governedAt := |st.seen|, decisions := st.decisions + 1);
      if answer.refusal.Some? then
        Outcome(Some(Chunk("", answer.refusal)), counted.(refused := true, refusedReason := answer.refusal))
      else if !(st.emitted <= answer.text) then
        Outcome(Some(Chunk("", Some(OVERRAN))), counted.(refused := true, overran := true, refusedReason := Some(OVERRAN)))
      else
        var safeEnd := SafeEnd(c, answer.text, final);
        if safeEnd <= |st.emitted| then Outcome(None, counted)
        else
          var out := Upto(answer.text, safeEnd);
          var added := out[|st.emitted|..];
          Outcome(if added == "" then None else Some(Chunk(added, None)), counted.(emitted := out))
  }

  function Fed(c: Settings, st: State, text: string): Outcome {
    if st.refused || text == "" then Outcome(None, st)
    else
      var grown := st.(seen := st.seen + text);
      if |grown.seen| - grown.governedAt < c.every then Outcome(None, grown) else Drained(c, grown, false)
  }

  function Finished(c: Settings, st: State): Outcome {
    if st.refused then Outcome(None, st)
    else Drained(c, st.(heldBackAtEnd := if |st.seen| > |st.emitted| then |st.seen| - |st.emitted| else 0), true)
  }

  class Governor {
    const settings: Settings
    var seen: string
    var governedAt: nat
    var emitted: string
    var refused: bool
    var refusedReason: Option<string>
    var decisions: nat
    var heldBackAtEnd: nat
    var overranWindow: bool

    function Now(): State
      reads this
    {
      State(seen, governedAt, emitted, refused, refusedReason, decisions, heldBackAtEnd, overranWindow)
    }

    constructor (settings: Settings)
      ensures this.settings == settings && Now() == INITIAL
    {
      this.settings := settings;
      seen, governedAt, emitted, refused, refusedReason := "", 0, "", false, None;
      decisions, heldBackAtEnd, overranWindow := 0, 0, false;
    }

    method Feed(text: string) returns (chunk: Option<Chunk>)
      modifies this
      ensures Outcome(chunk, Now()) == Fed(settings, old(Now()), text)
    {
      if refused || text == "" {
        return None;
      }
      seen := seen + text;
      if |seen| - governedAt < settings.every {
        return None;
      }
      chunk := Drain(false);
    }

    method Finish() returns (chunk: Option<Chunk>)
      modifies this
      ensures Outcome(chunk, Now()) == Finished(settings, old(Now()))
    {
      if refused {
        return None;
      }
      heldBackAtEnd := if |seen| > |emitted| then |seen| - |emitted| else 0;
      chunk := Drain(true);
    }

    method Drain(final: bool) returns (chunk: Option<Chunk>)
      modifies this
      ensures Outcome(chunk, Now()) == Drained(settings, old(Now()), final)
    {
      if seen == "" {
        return None;
      }
      governedAt := |seen|;
      var answer := settings.govern(decisions, seen);
      decisions := decisions + 1;
      if answer.refusal.Some? {
        refused := true;
        refusedReason := answer.refusal;
        return Some(Chunk("", answer.refusal));
      }
      if !(emitted <= answer.text) {
        refused := true;
        overranWindow := true;
        refusedReason := Some(OVERRAN);
        return Some(Chunk("", Some(OVERRAN)));
      }
      var safeEnd := SafeEnd(settings, answer.text, final);
      if safeEnd <= |emitted| {
        return None;
      }
      var added := Upto(answer.text, safeEnd)[|emitted|..];
      emitted := Upto(answer.text, safeEnd);
      chunk := if added == "" then None else Some(Chunk(added, None));
    }
  }

  // --- runs --------------------------------------------------------------------------

  datatype Trace = Trace(delivered: string, last: State)

  function TextOf(chunk: Option<Chunk>): string {
    if chunk.Some? then chunk.value.text else ""
  }

  /** Feeding pieces one after another, and all the text that was delivered for them. */
  function Feeds(c: Settings, st: State, pieces: seq<string>): Trace
    decreases |pieces|
  {
    if pieces == [] then Trace("", st)
    else
      var o := Fed(c, st, pieces[0]);
      var rest := Feeds(c, o.after, pieces[1..]);
      Trace(TextOf(o.chunk) + rest.delivered, rest.last)
  }

  /** A whole stream: feeds, then one finish. */
  function Stream(c: Settings, pieces: seq<string>): Trace {
    var fed := Feeds(c, INITIAL, pieces);
    var o := Finished(c, fed.last);
    Trace(fed.delivered + TextOf(o.chunk), o.after)
  }

  /** One drain: what goes out is what emitted gained, a refusal carries no text, and a
      release that is not the last ends a full window before the end of the governed text. */
  lemma DrainDelivers(c: Settings, st: State, final: bool)
    requires !st.refused && c.window >= 0
    ensures var o := Drained(c, st, final);
      && st.emitted <= o.after.emitted && st.emitted + TextOf(o.chunk) == o.after.emitted
      && o.after.seen == st.seen
      && (o.after.refused <==> o.chunk.Some? && o.chunk.value.refusal.Some?)
      && (o.after.overran ==> o.after.refused || st.overran)
      && (o.after.refused ==> o.after.emitted == st.emitted)
      && (TextOf(o.chunk) != "" ==>
            var governed := c.govern(st.decisions, st.seen).text;
            o.after.emitted <= governed && (!final ==> |o.after.emitted| + c.window <= |governed|))
      && (final && !o.after.refused && st.seen != "" ==> o.after.emitted == c.govern(st.decisions, st.seen).text)
  {
    var o := Drained(c, st, final);
    if o.after.emitted != st.emitted {
      var governed := c.govern(st.decisions, st.seen).text;
      assert o.after.emitted[..|st.emitted|] == st.emitted;
      assert st.emitted + o.after.emitted[|st.emitted|..] == o.after.emitted;
    }
  }

  lemma FeedDelivers(c: Settings, st: State, text: string)
    requires c.window >= 0
    ensures var o := Fed(c, st, text);
      && st.emitted <= o.after.emitted && st.emitted + TextOf(o.chunk) == o.after.emitted
      && (st.refused ==> o == Outcome(None, st))
      && (!o.after.refused ==> o.after.seen == st.seen + text)
      && (TextOf(o.chunk) != "" ==>
            var governed := c.govern(st.decisions, st.seen + text).text;
            o.after.emitted <= governed && |o.after.emitted| + c.window <= |governed|)
  {
    if !st.refused && text != "" {
      DrainDelivers(c, st.(seen := st.seen + text), false);
    } else if text == "" {
      assert st.seen + "" == st.seen;
    }
  }

  /** Decisions are paid for by text: one for every full batch of it. */
  ghost predicate Paid(c: Settings, st: State) {
    st.decisions * c.every <= st.governedAt <= |st.seen|
  }

  lemma FeedPays(c: Settings, st: State, text: string)
    requires c.every >= 1 && Paid(c, st)
    ensures Paid(c, Fed(c, st, text).after)
  {
    var grown := st.(seen := st.seen + text);
    assert (st.decisions + 1) * c.every == st.decisions * c.every + c.every;
  }

  lemma {:induction false} FeedsDeliver(c: Settings, st: State, pieces: seq<string>)
    requires c.window >= 0
    ensures var t := Feeds(c, st, pieces);
      && st.emitted + t.delivered == t.last.emitted
      && (st.refused ==> t == Trace("", st))
      && (!t.last.refused ==> !st.refused && t.last.seen == st.seen + Concat(pieces))
    decreases |pieces|
  {
    hide Fed, TextOf;
    if pieces == [] {
      assert st.emitted + "" == st.emitted && st.seen + "" == st.seen;
    } else {
      var o := Fed(c, st, pieces[0]);
      FeedDelivers(c, st, pieces[0]);
      FeedsDeliver(c, o.after, pieces[1..]);
      var rest := Feeds(c, o.after, pieces[1..]);
      assert st.emitted + (TextOf(o.chunk) + rest.delivered) == st.emitted + TextOf(o.chunk) + rest.delivered;
      assert st.seen + (pieces[0] + Concat(pieces[1..])) == st.seen + pieces[0] + Concat(pieces[1..]);
    }
  }

  lemma {:induction false} FeedsPay(c: Settings, st: State, pieces: seq<string>)
    requires c.every >= 1 && Paid(c, st)
    ensures Paid(c, Feeds(c, st, pieces).last)
    decreases |pieces|
  {
    hide Fed, Paid;
    if pieces != [] {
      FeedPays(c, st, pieces[0]);
      FeedsPay(c, Fed(c, st, pieces[0]).after, pieces[1..]);
    }
  }

  /** Every stream, however it is cut and whatever the governor answers: the client has
      exactly what emitted says; if nothing was refused it has the whole governed answer;
      and the number of decisions is bounded by the text. */
  lemma EveryStream(c: Settings, pieces: seq<string>)
    requires c.window >= 0
    ensures var fed, t := Feeds(c, INITIAL, pieces), Stream(c, pieces);
      && t.delivered == t.last.emitted
      && fed.delivered <= t.delivered
      && (fed.last.refused ==> t == fed)
      && (!t.last.refused && Concat(pieces) != "" ==>
            t.delivered == c.govern(fed.last.decisions, Concat(pieces)).text)
      && (c.every >= 1 ==> t.last.decisions * c.every <= |t.last.seen| + c.every)
  {
    hide Feeds, Finished, Paid;
    var fed := Feeds(c, INITIAL, pieces);
    FeedsDeliver(c, INITIAL, pieces);
    FinishDelivers(c, fed.last);
    assert "" + Concat(pieces) == Concat(pieces) && "" + fed.delivered == fed.delivered;
    if c.every >= 1 {
      assert Paid(c, INITIAL) by {
        NothingToPay(c);
      }
      FeedsPay(c, INITIAL, pieces);
      FinishPays(c, fed.last);
    }
    if fed.last.refused {
      assert fed.delivered + "" == fed.delivered;
    }
  }

  lemma NothingToPay(c: Settings)
    ensures Paid(c, INITIAL)
  {}

  lemma FinishPays(c: Settings, st: State)
    requires c.every >= 1 && Paid(c, st)
    ensures Finished(c, st).after.decisions * c.every <= |Finished(c, st).after.seen| + c.every
  {
    assert (st.decisions + 1) * c.every == st.decisions * c.every + c.every;
  }

  lemma FinishDelivers(c: Settings, st: State)
    requires c.window >= 0
    ensures var o := Finished(c, st);
      && st.emitted + TextOf(o.chunk) == o.after.emitted
      && (st.refused ==> o == Outcome(None, st))
      && (!o.after.refused ==> !st.refused)
      && (!o.after.refused && st.seen != "" ==> o.after.emitted == c.govern(st.decisions, st.seen).text)
  {
    if !st.refused {
      DrainDelivers(c, st.(heldBackAtEnd := if |st.seen| > |st.emitted| then |st.seen| - |st.emitted| else 0), true);
    } else {
      assert st.emitted + "" == st.emitted;
    }
  }

  // --- when the window suffices ---------------------------------------------------------

  /** A governor that always rewrites a text the same way and never refuses. */
  function Steady(rewrite: string -> string, window: int, every: int): Settings {
    Settings((_, text) => Governed(rewrite(text), None), window, every)
  }

  function Released(c: Settings, rewrite: string -> string, text: string): string {
    Upto(rewrite(text), SafeEnd(c, rewrite(text), false))
  }

  /** What is released after any prefix long enough to be governed stays a prefix of every
      later rewriting. */
  ghost predicate WindowSuffices(c: Settings, rewrite: string -> string) {
    forall x: string, y: string | x != "" && |x| >= c.every && x <= y :: Released(c, rewrite, x) <= rewrite(y)
  }

  /** What is out was released after some prefix of what has been seen. */
  ghost predicate ReleasedEarlier(c: Settings, rewrite: string -> string, st: State) {
    st.emitted == "" ||
    exists x: string :: x != "" && |x| >= c.every && x <= st.seen && st.emitted == Released(c, rewrite, x)
  }

  /** A governor that may refuse at any time, but whenever it does not, rewrites a text so. */
  ghost predicate Rewrites(c: Settings, rewrite: string -> string) {
    forall n: nat, x: string :: c.govern(n, x).refusal.Some? || c.govern(n, x).text == rewrite(x)
  }

  /** Only the governor's own refusals count as refused. */
  ghost predicate RefusedByGovernor(c: Settings, st: State) {
    st.refused ==> exists n: nat, x: string :: c.govern(n, x).refusal.Some?
  }

  ghost predicate Fine(c: Settings, rewrite: string -> string, st: State) {
    !st.overran && ReleasedEarlier(c, rewrite, st) && RefusedByGovernor(c, st)
  }

  lemma DrainStaysFine(c: Settings, rewrite: string -> string, st: State, final: bool)
    requires WindowSuffices(c, rewrite) && Rewrites(c, rewrite) && c.window >= 0
    requires Fine(c, rewrite, st) && !st.refused && |st.seen| >= c.every
    ensures var o := Drained(c, st, final);
      !o.after.overran && RefusedByGovernor(c, o.after) && (!final ==> Fine(c, rewrite, o.after))
  {
    var x := st.seen;
    assert x <= x;
    assert st.emitted <= rewrite(x);
    var answer := c.govern(st.decisions, x);
    assert answer.refusal.Some? || answer.text == rewrite(x);
    var o := Drained(c, st, final);
    if x != "" && !final && o.after.emitted != st.emitted {
      assert o.after.emitted == Released(c, rewrite, x);
    }
  }

  lemma {:induction false} FeedsStayFine(c: Settings, rewrite: string -> string, st: State, pieces: seq<string>)
    requires WindowSuffices(c, rewrite) && Rewrites(c, rewrite) && c.window >= 0 && Fine(c, rewrite, st)
    ensures Fine(c, rewrite, Feeds(c, st, pieces).last)
    decreases |pieces|
  {
    hide WindowSuffices, Rewrites, ReleasedEarlier, RefusedByGovernor, Drained;
    if pieces != [] {
      var o := Fed(c, st, pieces[0]);
      var grown := st.(seen := st.seen + pieces[0]);
      SeenMayGrow(c, rewrite, st, pieces[0]);
      SameRefusals(c, st, grown);
      if !st.refused && pieces[0] != "" && |grown.seen| - grown.governedAt >= c.every {
        DrainStaysFine(c, rewrite, grown, false);
      }
      FeedsStayFine(c, rewrite, o.after, pieces[1..]);
    }
  }

  lemma SameRefusals(c: Settings, st: State, after: State)
    requires RefusedByGovernor(c, st) && after.refused == st.refused
    ensures RefusedByGovernor(c, after)
  {}

  lemma SeenMayGrow(c: Settings, rewrite: string -> string, st: State, text: string)
    requires ReleasedEarlier(c, rewrite, st)
    ensures ReleasedEarlier(c, rewrite, st.(seen := st.seen + text))
  {
    if st.emitted != "" {
      var x: string :| x != "" && |x| >= c.every && x <= st.seen && st.emitted == Released(c, rewrite, x);
      assert x <= st.seen + text;
    }
  }

  /** The window is enough, for every stream of every governor that rewrites so and whenever
      it refuses, exactly when releases are never rewritten. */
  lemma NeverOverrunsIffWindowSuffices(rewrite: string -> string, window: nat, every: int)
    ensures (forall c, pieces | Rewrites(c, rewrite) && c.window == window && c.every == every :: !Stream(c, pieces).last.overran)
            <==> WindowSuffices(Steady(rewrite, window, every), rewrite)
  {
    var steady := Steady(rewrite, window, every);
    if WindowSuffices(steady, rewrite) {
      forall c, pieces | Rewrites(c, rewrite) && c.window == window && c.every == every
        ensures !Stream(c, pieces).last.overran
      {
        WindowIsAll(steady, c, rewrite);
        SufficientWindow(c, rewrite, pieces);
      }
    } else {
      var x: string, y: string :| x != "" && |x| >= every && x <= y && !(Released(steady, rewrite, x) <= rewrite(y));
      InsufficientWindow(rewrite, window, every, x, y);
      assert Rewrites(steady, rewrite);
    }
  }

  /** Whether the window suffices depends on the window and the interval alone. */
  lemma WindowIsAll(a: Settings, b: Settings, rewrite: string -> string)
    requires a.window == b.window && a.every == b.every
    ensures WindowSuffices(a, rewrite) <==> WindowSuffices(b, rewrite)
  {
    forall x: string ensures Released(a, rewrite, x) == Released(b, rewrite, x) {}
  }

  /** Then no run overruns, the only refusals are the governor's, and a run it does not refuse
      delivers the rewriting of the complete answer. */
  lemma SufficientWindow(c: Settings, rewrite: string -> string, pieces: seq<string>)
    requires WindowSuffices(c, rewrite) && Rewrites(c, rewrite) && c.window >= 0
    ensures var t := Stream(c, pieces);
      && !t.last.overran && RefusedByGovernor(c, t.last)
      && (!t.last.refused && Concat(pieces) != "" ==> t.delivered == rewrite(Concat(pieces)))
  {
    hide WindowSuffices, Rewrites, RefusedByGovernor, Fine, Drained, Feeds, Finished;
    var st := Feeds(c, INITIAL, pieces).last;
    FinishDelivers(c, st);
    assert "" + Concat(pieces) == Concat(pieces);
    NothingReleased(c, rewrite);
    FeedsStayFine(c, rewrite, INITIAL, pieces);
    FeedsDeliver(c, INITIAL, pieces);
    EveryStream(c, pieces);
    FinishStaysFine(c, rewrite, Feeds(c, INITIAL, pieces).last);
  }

  lemma NothingReleased(c: Settings, rewrite: string -> string)
    ensures Fine(c, rewrite, INITIAL)
  {}

  lemma FinishStaysFine(c: Settings, rewrite: string -> string, st: State)
    requires WindowSuffices(c, rewrite) && Rewrites(c, rewrite) && c.window >= 0 && Fine(c, rewrite, st)
    ensures var o := Finished(c, st);
      && !o.after.overran && RefusedByGovernor(c, o.after)
      && (!o.after.refused && st.seen != "" ==> c.govern(st.decisions, st.seen).text == rewrite(st.seen))
  {
    assert c.govern(st.decisions, st.seen).refusal.Some? || c.govern(st.decisions, st.seen).text == rewrite(st.seen);
    if !st.refused && st.seen != "" && st.emitted != "" {
      assert st.emitted <= rewrite(st.seen);
    }
  }

  lemma InsufficientWindow(rewrite: string -> string, window: nat, every: int, x: string, y: string)
    requires x != "" && |x| >= every && x <= y
    requires !(Released(Steady(rewrite, window, every), rewrite, x) <= rewrite(y))
    ensures exists pieces :: Stream(Steady(rewrite, window, every), pieces).last.overran
  {
    var c := Steady(rewrite, window, every);
    var pieces := [x, y[|x|..]];
    assert x + y[|x|..] == y && "" + x == x;
    assert pieces[1..] == [y[|x|..]] && pieces[1..][1..] == [];
    var first := Fed(c, INITIAL, x).after;
    assert first.emitted == Released(c, rewrite, x);
    var second := Fed(c, first, y[|x|..]).after;
    assert Feeds(c, first, pieces[1..]).last == second;
    assert Feeds(c, INITIAL, pieces).last == second;
    assert second.overran || (second.emitted == first.emitted && second.seen == y && !second.refused);
    assert Stream(c, pieces).last == Finished(c, second).after;
  }

  // --- disjoint-span rewriters ------------------------------------------------------------

  function Before(edits: seq<Edit>, cut: nat): seq<Edit> {
    if edits == [] || edits[0].start >= cut then [] else [edits[0]] + Before(edits[1..], cut)
  }

  function After(edits: seq<Edit>, cut: nat): seq<Edit> {
    if edits == [] || edits[0].start >= cut then edits else After(edits[1..], cut)
  }

  ghost predicate NoneStraddles(edits: seq<Edit>, cut: nat) {
    forall e | e in edits :: e.end <= cut || e.start >= cut
  }

  /** Every prefix has a cut before which the spans are settled for good: longer texts have
      the same spans there, and none across it. */
  ghost predicate Settles(spans: string -> seq<Edit>, cut: string -> nat) {
    && (forall x: string :: Fits(spans(x), 0, |x|) && cut(x) <= |x|)
    && (forall x: string, y: string | x <= y ::
          NoneStraddles(spans(y), cut(x)) && Before(spans(y), cut(x)) == Before(spans(x), cut(x)))
  }

  /** What follows the cut, rewritten, fits the window. */
  ghost predicate CoversTail(spans: string -> seq<Edit>, cut: string -> nat, window: int)
    requires Settles(spans, cut)
  {
    forall x: string :: Fits(After(spans(x), cut(x)), cut(x), |x|) &&
                        |Substitute(x, cut(x), After(spans(x), cut(x)))| <= window
  }

  /** An edited text splits at a cut no edit straddles. */
  lemma {:induction false} SplitsAtCut(text: string, from: nat, edits: seq<Edit>, cut: nat)
    requires Fits(edits, from, |text|) && from <= cut <= |text| && NoneStraddles(edits, cut)
    ensures Fits(Before(edits, cut), from, cut) && Fits(After(edits, cut), cut, |text|)
    ensures Substitute(text, from, edits) ==
            Substitute(text[..cut], from, Before(edits, cut)) + Substitute(text, cut, After(edits, cut))
    decreases |edits|
  {
    hide Substitute, Fits;
    if edits == [] || edits[0].start >= cut {
      CutBeforeAll(text, from, edits, cut);
    } else {
      var e, rest := edits[0], edits[1..];
      FitsTail(edits, from, |text|);
      assert e in edits && e.end <= cut;
      SplitsAtCut(text, e.end, rest, cut);
      ConsFits(e, Before(rest, cut), from, cut);
      Unfold(text, from, edits);
      Unfold(text[..cut], from, Before(edits, cut));
      assert ([e] + Before(rest, cut))[1..] == Before(rest, cut);
      assert text[..cut][from..e.start] == text[from..e.start];
      var a, b := Substitute(text[..cut], e.end, Before(rest, cut)), Substitute(text, cut, After(rest, cut));
      Associates(text[from..e.start], e.text, a + b);
      Associates(text[from..e.start] + e.text, a, b);
      Associates(text[from..e.start], e.text, a);
    }
  }

  lemma ConsFits(e: Edit, rest: seq<Edit>, from: nat, length: nat)
    requires from <= e.start <= e.end <= length && Fits(rest, e.end, length)
    ensures Fits([e] + rest, from, length)
  {}

  lemma CutBeforeAll(text: string, from: nat, edits: seq<Edit>, cut: nat)
    requires Fits(edits, from, |text|) && from <= cut <= |text|
    requires edits == [] || edits[0].start >= cut
    ensures Fits([], from, cut) && Fits(edits, cut, |text|)
    ensures Substitute(text, from, edits) == Substitute(text[..cut], from, []) + Substitute(text, cut, edits)
  {
    hide Substitute;
    assert Substitute(text[..cut], from, []) == text[from..cut] by {
      Bare(text[..cut], from);
      assert text[..cut][from..] == text[from..cut];
    }
    if edits == [] {
      Bare(text, from);
      Bare(text, cut);
      assert text[from..] == text[from..cut] + text[cut..];
    } else {
      var e := edits[0];
      FitsTail(edits, from, |text|);
      FitsFrom(edits, from, cut, |text|);
      var tail := StartsWithin(text, from, cut, edits);
      assert text[from..e.start] == text[from..cut] + text[cut..e.start];
      Associates(text[from..cut], text[cut..e.start], tail);
    }
  }

  lemma Bare(text: string, from: nat)
    requires from <= |text|
    ensures Substitute(text, from, []) == text[from..]
  {}

  lemma FitsFrom(edits: seq<Edit>, from: nat, cut: nat, length: nat)
    requires Fits(edits, from, length) && edits != [] && cut <= edits[0].start
    ensures Fits(edits, cut, length)
  {
    forall i | 0 <= i < |edits| ensures cut <= edits[i].start {
      assert i > 0 ==> edits[0].end <= edits[i].start;
    }
  }

  /** A governor that replaces disjoint spans, each settled before a window's worth of
      rewritten text follows it, is governed safely by that window. */
  lemma SettledSpansSuffice(spans: string -> seq<Edit>, cut: string -> nat, rewrite: string -> string,
                            window: nat, every: int)
    requires Settles(spans, cut) && CoversTail(spans, cut, window)
    requires forall x: string :: rewrite(x) == Substitute(x, 0, spans(x))
    ensures WindowSuffices(Steady(rewrite, window, every), rewrite)
  {
    hide Settles, CoversTail, Substitute;
    var c := Steady(rewrite, window, every);
    forall x: string, y: string | x != "" && |x| >= c.every && x <= y
      ensures Released(c, rewrite, x) <= rewrite(y)
    {
      SettledPrefix(spans, cut, window, x, y);
      SettledPrefix(spans, cut, window, x, x);
    }
  }

  lemma SettledAt(spans: string -> seq<Edit>, cut: string -> nat, window: nat, x: string, y: string)
    requires Settles(spans, cut) && CoversTail(spans, cut, window) && x <= y
    ensures Fits(spans(y), 0, |y|) && cut(x) <= |x|
    ensures NoneStraddles(spans(y), cut(x)) && Before(spans(y), cut(x)) == Before(spans(x), cut(x))
    ensures Fits(After(spans(x), cut(x)), cut(x), |x|)
    ensures |Substitute(x, cut(x), After(spans(x), cut(x)))| <= window
  {
    hide Substitute, Fits, Before, After, NoneStraddles;
  }

  lemma SettledPrefix(spans: string -> seq<Edit>, cut: string -> nat, window: nat, x: string, y: string)
    requires Settles(spans, cut) && CoversTail(spans, cut, window) && x <= y
    ensures Fits(spans(x), 0, |x|) && Fits(spans(y), 0, |y|)
    ensures cut(x) <= |x| && Fits(Before(spans(x), cut(x)), 0, cut(x))
    ensures var settled := Substitute(x[..cut(x)], 0, Before(spans(x), cut(x)));
      settled <= Substitute(y, 0, spans(y)) && (x == y ==> |Substitute(y, 0, spans(y))| <= |settled| + window)
  {
    hide Substitute, Fits, Before, After, NoneStraddles, Settles, CoversTail;
    SettledAt(spans, cut, window, x, x);
    SettledAt(spans, cut, window, x, y);
    SplitsAtCut(x, 0, spans(x), cut(x));
    SplitsAtCut(y, 0, spans(y), cut(x));
    assert x[..cut(x)] == y[..cut(x)];
  }

  /** So, however the answer is cut and whenever the governor may refuse, the window is never
      overrun, and the client of a run that is not refused receives exactly the redaction of the
      complete answer. */
  lemma SettledSpansAreDelivered(c: Settings, spans: string -> seq<Edit>, cut: string -> nat, rewrite: string -> string,
                                 pieces: seq<string>)
    requires c.window >= 0 && Settles(spans, cut) && CoversTail(spans, cut, c.window)
    requires Rewrites(c, rewrite) && forall x: string :: rewrite(x) == Substitute(x, 0, spans(x))
    ensures var t := Stream(c, pieces);
      && !t.last.overran && RefusedByGovernor(c, t.last)
      && (!t.last.refused && Concat(pieces) != "" ==> t.delivered == Substitute(Concat(pieces), 0, spans(Concat(pieces))))
  {
    hide Substitute, Settles, CoversTail, Rewrites, WindowSuffices, RefusedByGovernor;
    SettledSpansSuffice(spans, cut, rewrite, c.window, c.every);
    WindowIsAll(Steady(rewrite, c.window, c.every), c, rewrite);
    SufficientWindow(c, rewrite, pieces);
  }

  /** With the redactor itself behind the governor, what arrives is the redactor's rewriting of
      the complete answer. */
  lemma RedactionIsDelivered(c: Settings, rules: Config, find: string -> seq<Scanning.Finding>, spans: string -> seq<Edit>,
                             cut: string -> nat, rewrite: string -> string, pieces: seq<string>)
    requires forall x: string ::
               Scanning.DisjointWithin(find(x), x) && Replaceable(rules, find(x)) && spans(x) == Edits(rules, find(x))
    requires c.window >= 0 && Settles(spans, cut) && CoversTail(spans, cut, c.window) && Rewrites(c, rewrite)
    requires forall x: string :: ApplyToText(rules, x, find(x)).Ok? ==> rewrite(x) == ApplyToText(rules, x, find(x)).value.payload
    ensures var t := Stream(c, pieces); var answer := Concat(pieces);
      && !t.last.overran && RefusedByGovernor(c, t.last)
      && (!t.last.refused && answer != "" ==>
            ApplyToText(rules, answer, find(answer)).Ok?
            && t.delivered == ApplyToText(rules, answer, find(answer)).value.payload)
  {
    hide Edits, ApplyToText, Substitute, Settles, CoversTail, Scanning.DisjointWithin, Replaceable, Fits, Rewrites,
      RefusedByGovernor;
    forall x: string ensures Fits(spans(x), 0, |x|) && ApplyToText(rules, x, find(x)).Ok?
                             && rewrite(x) == Substitute(x, 0, spans(x)) {
      SplicingIsSubstitution(rules, x, find(x), find(x));
    }
    SettledSpansAreDelivered(c, spans, cut, rewrite, pieces);
  }

  // --- the simplest such governor ------------------------------------------------------------

  /** The spans of a redactor that needs no look-ahead: each bad character on its own. */
  function EachOf(bad: char -> bool, mask: string, text: string, i: nat): seq<Edit>
    requires i <= |text|
    decreases |text| - i
  {
    if i == |text| then []
    else (if bad(text[i]) then [Edit(i, i + 1, mask)] else []) + EachOf(bad, mask, text, i + 1)
  }

  lemma {:induction false} EachOfFits(bad: char -> bool, mask: string, text: string, i: nat)
    requires i <= |text|
    ensures Fits(EachOf(bad, mask, text, i), i, |text|)
    decreases |text| - i
  {
    if i < |text| {
      EachOfFits(bad, mask, text, i + 1);
      if bad(text[i]) {
        ConsFits(Edit(i, i + 1, mask), EachOf(bad, mask, text, i + 1), i, |text|);
      }
    }
  }

  lemma {:induction false} EachOfExtends(bad: char -> bool, mask: string, x: string, y: string, i: nat)
    requires x <= y && i <= |x|
    ensures i <= |y| && Before(EachOf(bad, mask, y, i), |x|) == EachOf(bad, mask, x, i)
    ensures After(EachOf(bad, mask, x, i), |x|) == [] && NoneStraddles(EachOf(bad, mask, y, i), |x|)
    decreases |x| - i
  {
    hide Before, After, NoneStraddles, Fits;
    if i == |x| {
      EachOfFits(bad, mask, y, i);
      AllBeyond(EachOf(bad, mask, y, i), i, |y|);
      AllBeyond(EachOf(bad, mask, x, i), i, |x|);
    } else {
      EachOfExtends(bad, mask, x, y, i + 1);
      EachOfStep(bad, mask, x, i);
      EachOfStep(bad, mask, y, i);
      ConsAtCut(Edit(i, i + 1, mask), EachOf(bad, mask, x, i + 1), |x|);
      ConsAtCut(Edit(i, i + 1, mask), EachOf(bad, mask, y, i + 1), |x|);
    }
  }

  lemma EachOfStep(bad: char -> bool, mask: string, text: string, i: nat)
    requires i < |text|
    ensures var rest := EachOf(bad, mask, text, i + 1);
      EachOf(bad, mask, text, i) == if bad(text[i]) then [Edit(i, i + 1, mask)] + rest else rest
  {}

  lemma AllBeyond(edits: seq<Edit>, cut: nat, length: nat)
    requires Fits(edits, cut, length)
    ensures Before(edits, cut) == [] && After(edits, cut) == edits && NoneStraddles(edits, cut)
  {}

  lemma ConsAtCut(e: Edit, rest: seq<Edit>, cut: nat)
    requires e.start < cut
    ensures Before([e] + rest, cut) == [e] + Before(rest, cut) && After([e] + rest, cut) == After(rest, cut)
    ensures e.end <= cut && NoneStraddles(rest, cut) ==> NoneStraddles([e] + rest, cut)
  {
    assert ([e] + rest)[1..] == rest;
  }

  /** Masking characters one by one settles at once: no window is needed at all. */
  lemma MaskingCharactersNeedsNoWindow(bad: char -> bool, mask: string)
    returns (spans: string -> seq<Edit>, cut: string -> nat)
    ensures forall x: string :: spans(x) == EachOf(bad, mask, x, 0) && cut(x) == |x|
    ensures Settles(spans, cut) && CoversTail(spans, cut, 0)
  {
    hide Before, After, NoneStraddles, Fits, EachOf;
    spans, cut := x => EachOf(bad, mask, x, 0), (x: string) => |x|;
    forall x: string ensures Fits(spans(x), 0, |x|) {
      EachOfFits(bad, mask, x, 0);
    }
    forall x: string, y: string | x <= y
      ensures NoneStraddles(spans(y), cut(x)) && Before(spans(y), cut(x)) == Before(spans(x), cut(x))
    {
      EachOfExtends(bad, mask, x, y, 0);
      EachOfExtends(bad, mask, x, x, 0);
    }
    forall x: string ensures Fits(After(spans(x), cut(x)), cut(x), |x|)
                             && |Substitute(x, cut(x), After(spans(x), cut(x)))| <= 0 {
      EachOfExtends(bad, mask, x, x, 0);
      NothingAfter(x);
    }
  }

  lemma NothingAfter(x: string)
    ensures Fits([], |x|, |x|) && Substitute(x, |x|, []) == ""
  {}

  // --- when the governor is asked --------------------------------------------------------

  /** A feed asks the governor exactly when enough is new, and counts it. */
  lemma FeedAsks(c: Settings, st: State, text: string)
    ensures var after := Fed(c, st, text).after;
            var asks := !st.refused && text != "" && |st.seen| + |text| - st.governedAt >= c.every;
            var answer := c.govern(st.decisions, st.seen + text);
      && after.decisions == st.decisions + (if asks then 1 else 0)
      && after.governedAt == (if asks then |st.seen| + |text| else st.governedAt)
      && after.heldBackAtEnd == st.heldBackAtEnd
      && (after.refused <==> st.refused || (asks && (answer.refusal.Some? || !(st.emitted <= answer.text))))
      && (after.overran <==> st.overran || (asks && answer.refusal == None && !(st.emitted <= answer.text)))
      && (asks && answer.refusal.Some? ==> after.refusedReason == answer.refusal)
  {}

  /** The last drain asks once more about anything seen, and says how much was not yet out. */
  lemma FinishAsks(c: Settings, st: State)
    requires |st.emitted| <= |st.seen|
    ensures var after := Finished(c, st).after;
      && after.decisions == st.decisions + (if st.refused || st.seen == "" then 0 else 1)
      && (!st.refused ==> after.heldBackAtEnd == |st.seen| - |st.emitted|)
      && (st.refused ==> after == st)
  {}

  /** How many of these feeds ask. */
  ghost function Asked(c: Settings, st: State, pieces: seq<string>): nat
    decreases |pieces|
  {
    if pieces == [] then 0
    else
      (if !st.refused && pieces[0] != "" && |st.seen| + |pieces[0]| - st.governedAt >= c.every then 1 else 0)
      + Asked(c, Fed(c, st, pieces[0]).after, pieces[1..])
  }

  /** Along every run each question is counted once, and until a refusal fewer characters than
      a batch have arrived since the last: the governor never falls behind. */
  lemma {:induction false} NeverFallsBehind(c: Settings, st: State, pieces: seq<string>)
    requires c.every >= 1 && st.governedAt <= |st.seen| && (!st.refused ==> |st.seen| - st.governedAt < c.every)
    ensures var last := Feeds(c, st, pieces).last;
      && last.decisions == st.decisions + Asked(c, st, pieces)
      && last.governedAt <= |last.seen| && (!last.refused ==> |last.seen| - last.governedAt < c.every)
    decreases |pieces|
  {
    hide Fed, TextOf;
    if pieces != [] {
      FeedAsks(c, st, pieces[0]);
      FeedKeepsSeen(c, st, pieces[0]);
      NeverFallsBehind(c, Fed(c, st, pieces[0]).after, pieces[1..]);
    }
  }

  lemma FeedKeepsSeen(c: Settings, st: State, text: string)
    ensures Fed(c, st, text).after.seen == if st.refused then st.seen else st.seen + text
  {}
}
