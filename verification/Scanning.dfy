/**
 Scanning one text: every detector's matches, and the arbitration that keeps the best of
 those that overlap (control_plane/classification/scanner.py).

 What the detectors match is library work and is a parameter. Confidences, which the
 source rounds to four places, are counted in ten-thousandths.
 */
module Scanning {
  import opened Ordering

  datatype RawMatch = RawMatch(tag: string, detector: string, start: nat, end: nat, value: string, confidence: int)

  datatype Finding = Finding(
    tag: string, detector: string, start: nat, end: nat, confidence: int, value: string, path: string)

  predicate Overlap(a: RawMatch, b: RawMatch) {
    a.start < b.end && b.start < a.end
  }

  // --- rank ----------------------------------------------------------------------

  /** a is ranked at least as high as b: severity, then length, confidence, detector. */
  predicate RankGe(severity: string -> int, a: RawMatch, b: RawMatch) {
    var sa, sb := severity(a.tag), severity(b.tag);
    var la, lb := a.end - a.start, b.end - b.start;
    sa > sb || (sa == sb && (la > lb || (la == lb &&
      (a.confidence > b.confidence || (a.confidence == b.confidence && StringLe(b.detector, a.detector))))))
  }

  predicate RankGt(severity: string -> int, a: RawMatch, b: RawMatch) {
    !RankGe(severity, b, a)
  }

  function ByRank(severity: string -> int): (RawMatch, RawMatch) -> bool {
    (a, b) => RankGe(severity, a, b)
  }

  /** a beats b: a graver label; or as grave and longer; or then more confident; or then found
      by the detector whose name comes later. */
  ghost predicate Beats(severity: string -> int, a: RawMatch, b: RawMatch) {
    var graver, longer := severity(a.tag) - severity(b.tag), (a.end - a.start) - (b.end - b.start);
    || graver > 0
    || (graver == 0 && longer > 0)
    || (graver == 0 && longer == 0 && a.confidence > b.confidence)
    || (graver == 0 && longer == 0 && a.confidence == b.confidence && a.detector != b.detector
        && StringLe(b.detector, a.detector))
  }

  lemma BeatsIsRank(severity: string -> int, a: RawMatch, b: RawMatch)
    ensures RankGt(severity, a, b) <==> Beats(severity, a, b)
  {
    StringLeTotal(a.detector, b.detector);
  }

  predicate BySpan(a: RawMatch, b: RawMatch) {
    a.start < b.start || (a.start == b.start && a.end <= b.end)
  }

  lemma RankOrders(severity: string -> int)
    ensures TotalPreorder(ByRank(severity))
    ensures forall a, b :: RankGe(severity, a, b) && RankGe(severity, b, a) ==> a.detector == b.detector
  {
    var le := ByRank(severity);
    forall a, b
      ensures le(a, b) || le(b, a)
      ensures RankGe(severity, a, b) && RankGe(severity, b, a) ==> a.detector == b.detector
    {
      StringLeTotal(a.detector, b.detector);
    }
    forall a, b, c | le(a, b) && le(b, c) ensures le(a, c) {
      if StringLe(c.detector, b.detector) && StringLe(b.detector, a.detector) {
        StringLeTransitive(c.detector, b.detector, a.detector);
      }
    }
  }

  // --- arbitration -----------------------------------------------------------------

  predicate Occupied(m: RawMatch, kept: seq<RawMatch>) {
    exists k :: k in kept && Overlap(m, k)
  }

  /** Keeps each match, taken in order, that overlaps none kept before it. */
  function Greedy(ms: seq<RawMatch>): seq<RawMatch> {
    if ms == [] then []
    else
      var kept, last := Greedy(ms[..|ms| - 1]), ms[|ms| - 1];
      if Occupied(last, kept) then kept else kept + [last]
  }

  function Resolved(severity: string -> int, ms: seq<RawMatch>): seq<RawMatch> {
    SortBy(BySpan, Greedy(SortBy(ByRank(severity), ms)))
  }

  method ResolveOverlaps(severity: string -> int, matches: seq<RawMatch>) returns (r: seq<RawMatch>)
    ensures r == Resolved(severity, matches)
  {
    var kept: seq<RawMatch> := [];
    var occupied: seq<(nat, nat)> := [];
    var ordered := SortBy(ByRank(severity), matches);
    for i := 0 to |ordered|
      invariant kept == Greedy(ordered[..i])
      invariant |occupied| == |kept| && forall k | 0 <= k < |kept| :: occupied[k] == (kept[k].start, kept[k].end)
    {
      assert ordered[..i + 1][..i] == ordered[..i];
      var m := ordered[i];
      assert (exists k :: 0 <= k < |occupied| && m.start < occupied[k].1 && occupied[k].0 < m.end)
             <==> Occupied(m, kept) by {
        if Occupied(m, kept) {
          var x :| x in kept && Overlap(m, x);
          var k :| 0 <= k < |kept| && kept[k] == x;
          assert m.start < occupied[k].1 && occupied[k].0 < m.end;
        } else if k :| 0 <= k < |occupied| && m.start < occupied[k].1 && occupied[k].0 < m.end {
          assert kept[k] in kept && Overlap(m, kept[k]);
        }
      }
      if !(exists k :: 0 <= k < |occupied| && m.start < occupied[k].1 && occupied[k].0 < m.end) {
        kept := kept + [m];
        occupied := occupied + [(m.start, m.end)];
      }
    }
    assert ordered[..|ordered|] == ordered;
    r := SortBy(BySpan, kept);
  }

  // --- what arbitration chooses ------------------------------------------------------

  /** Matches are not empty, and one detector's own matches do not overlap, as successive
      matches of one pattern never do. */
  ghost predicate WellDetected(ms: seq<RawMatch>) {
    && (forall m | m in ms :: m.start < m.end)
    && (forall i, j | 0 <= i < j < |ms| && ms[i].detector == ms[j].detector :: !Overlap(ms[i], ms[j]))
  }

  ghost predicate Disjoint(kept: set<RawMatch>) {
    forall a, b | a in kept && b in kept && a != b :: !Overlap(a, b)
  }

  /** Every match is kept or beaten: it overlaps a kept match of strictly higher rank. */
  ghost predicate Beaten(severity: string -> int, m: RawMatch, kept: set<RawMatch>) {
    exists k :: k in kept && Overlap(m, k) && Beats(severity, k, m)
  }

  ghost predicate StableChoice(severity: string -> int, ms: seq<RawMatch>, kept: set<RawMatch>) {
    && (forall m | m in kept :: m in ms)
    && Disjoint(kept)
    && (forall m | m in ms && m !in kept :: Beaten(severity, m, kept))
  }

  ghost function Members(ms: seq<RawMatch>): set<RawMatch> {
    set m | m in ms
  }

  lemma OverlapHasRank(severity: string -> int, ms: seq<RawMatch>, i: nat, j: nat)
    requires WellDetected(ms) && i < |ms| && j < |ms| && i != j && Overlap(ms[i], ms[j])
    ensures RankGt(severity, ms[i], ms[j]) || RankGt(severity, ms[j], ms[i])
    ensures ms[i] != ms[j]
  {
    RankOrders(severity);
    assert ms[i].detector != ms[j].detector;
  }

  lemma DistinctMatches(ms: seq<RawMatch>)
    requires WellDetected(ms)
    ensures Distinct(ms)
  {
    forall i, j | 0 <= i < j < |ms| ensures ms[i] != ms[j] {
      assert ms[i] in ms;
    }
  }

  /** Being well detected does not depend on the order of the matches. */
  lemma WellDetectedPermutes(ms: seq<RawMatch>, ps: seq<RawMatch>)
    requires WellDetected(ms) && multiset(ms) == multiset(ps)
    ensures WellDetected(ps) && Distinct(ps)
  {
    SameMembers(ms, ps);
    DistinctMatches(ms);
    DistinctMultiplicity(ms);
    DistinctMultiplicity(ps);
    forall i, j | 0 <= i < j < |ps| && ps[i].detector == ps[j].detector ensures !Overlap(ps[i], ps[j]) {
      assert ps[i] in ps && ps[j] in ps;
      var a :| 0 <= a < |ms| && ms[a] == ps[i];
      var b :| 0 <= b < |ms| && ms[b] == ps[j];
    }
  }

  lemma {:induction false} GreedyIsStable(severity: string -> int, ms: seq<RawMatch>)
    requires WellDetected(ms) && SortedBy(ByRank(severity), ms)
    ensures StableChoice(severity, ms, Members(Greedy(ms)))
    ensures Distinct(Greedy(ms))
  {
    if ms != [] {
      var before, last := ms[..|ms| - 1], ms[|ms| - 1];
      assert ms == before + [last];
      GreedyIsStable(severity, before);
      var kept := Greedy(before);
      if Occupied(last, kept) {
        var k :| k in kept && Overlap(last, k);
        assert k in before;
        var i :| 0 <= i < |before| && before[i] == k;
        assert ms[i] == k;
        OverlapHasRank(severity, ms, i, |ms| - 1);
        assert ByRank(severity)(ms[i], ms[|ms| - 1]);
        BeatsIsRank(severity, k, last);
        assert Beaten(severity, last, Members(kept));
      } else {
        GreedyKeepsLast(severity, before, last);
      }
    }
  }

  lemma GreedyKeepsLast(severity: string -> int, before: seq<RawMatch>, last: RawMatch)
    requires WellDetected(before + [last]) && StableChoice(severity, before, Members(Greedy(before)))
    requires Distinct(Greedy(before)) && !Occupied(last, Greedy(before))
    ensures StableChoice(severity, before + [last], Members(Greedy(before) + [last]))
    ensures Distinct(Greedy(before) + [last])
  {
    hide Beats;
    var kept, after := Members(Greedy(before)), Members(Greedy(before) + [last]);
    assert after == kept + {last};
    assert last in before + [last] && Overlap(last, last);
    assert last !in kept;
    forall m | m in before + [last] && m !in after ensures Beaten(severity, m, after) {
      assert m in before && Beaten(severity, m, kept);
      var k :| k in kept && Overlap(m, k) && Beats(severity, k, m);
      assert k in after;
    }
  }

  lemma RankedAbove(severity: string -> int, ms: seq<RawMatch>, j: nat, i: nat)
    requires SortedBy(ByRank(severity), ms) && j < |ms| && i < |ms| && RankGt(severity, ms[j], ms[i])
    ensures j < i
  {
    RankOrders(severity);
    assert !ByRank(severity)(ms[i], ms[j]) && ByRank(severity)(ms[i], ms[i]);
  }

  /** A member of one stable choice belongs to every other: by induction down the ranking. */
  lemma {:induction false} StableChoicesAgree(severity: string -> int, ms: seq<RawMatch>, one: set<RawMatch>,
                                              other: set<RawMatch>, i: nat)
    requires WellDetected(ms) && SortedBy(ByRank(severity), ms) && i < |ms|
    requires StableChoice(severity, ms, one) && StableChoice(severity, ms, other)
    ensures ms[i] in one ==> ms[i] in other
    decreases i
  {
    var m := ms[i];
    if m in one && m !in other {
      assert m in ms;
      assert Beaten(severity, m, other);
      var k :| k in other && Overlap(m, k) && Beats(severity, k, m);
      BeatsIsRank(severity, k, m);
      var j :| 0 <= j < |ms| && ms[j] == k;
      RankedAbove(severity, ms, j, i);
      StableChoicesAgree(severity, ms, other, one, j);
    }
  }

  /** Arbitration returns the one stable choice there is. */
  lemma ResolvedIsTheStableChoice(severity: string -> int, ms: seq<RawMatch>, kept: set<RawMatch>)
    requires WellDetected(ms)
    ensures StableChoice(severity, ms, kept) <==> kept == Members(Resolved(severity, ms))
  {
    hide Greedy, StableChoice, WellDetected;
    var ranked := SortBy(ByRank(severity), ms);
    RankOrders(severity);
    SortSorted(ByRank(severity), ms);
    WellDetectedPermutes(ms, ranked);
    GreedyIsStable(severity, ranked);
    SameMembers(Greedy(ranked), Resolved(severity, ms));
    var chosen := Members(Greedy(ranked));
    assert chosen == Members(Resolved(severity, ms));
    StablePermutes(severity, ms, ranked, chosen);
    StablePermutes(severity, ms, ranked, kept);
    if StableChoice(severity, ms, kept) {
      AgreeEverywhere(severity, ranked, kept, chosen);
    }
  }

  lemma StablePermutes(severity: string -> int, ms: seq<RawMatch>, ps: seq<RawMatch>, kept: set<RawMatch>)
    requires multiset(ms) == multiset(ps)
    ensures StableChoice(severity, ms, kept) <==> StableChoice(severity, ps, kept)
  {
    SameMembers(ms, ps);
  }

  lemma AgreeEverywhere(severity: string -> int, ms: seq<RawMatch>, one: set<RawMatch>, other: set<RawMatch>)
    requires WellDetected(ms) && SortedBy(ByRank(severity), ms)
    requires StableChoice(severity, ms, one) && StableChoice(severity, ms, other)
    ensures one == other
  {
    forall m ensures m in one <==> m in other {
      if m in one || m in other {
        assert m in ms;
        var i :| 0 <= i < |ms| && ms[i] == m;
        StableChoicesAgree(severity, ms, one, other, i);
        StableChoicesAgree(severity, ms, other, one, i);
      }
    }
  }

  lemma SpanOrders()
    ensures TotalPreorder(BySpan)
  {}

  lemma KeptHaveNoTies(kept: seq<RawMatch>)
    requires Disjoint(Members(kept)) && forall m | m in kept :: m.start < m.end
    ensures NoTies(BySpan, kept)
  {
    forall a, b | a in kept && b in kept && BySpan(a, b) && BySpan(b, a) ensures a == b {
      assert a in Members(kept) && b in Members(kept);
    }
  }

  /** The result does not depend on the order the detectors ran in. */
  lemma ResolutionIgnoresOrder(severity: string -> int, ms: seq<RawMatch>, ps: seq<RawMatch>)
    requires WellDetected(ms) && multiset(ms) == multiset(ps)
    ensures Resolved(severity, ms) == Resolved(severity, ps)
  {
    hide Greedy, StableChoice, WellDetected;
    var a, b := Greedy(SortBy(ByRank(severity), ms)), Greedy(SortBy(ByRank(severity), ps));
    WellDetectedPermutes(ms, ps);
    KeptFacts(severity, ms);
    KeptFacts(severity, ps);
    ResolvedIsTheStableChoice(severity, ms, Members(a));
    StablePermutes(severity, ms, ps, Members(a));
    ResolvedIsTheStableChoice(severity, ps, Members(a));
    SameMembers(a, Resolved(severity, ms));
    SameMembers(b, Resolved(severity, ps));
    SameDistinct(a, b);
    SpanOrders();
    KeptHaveNoTies(a);
    SortUnique(BySpan, a, b);
  }

  lemma SameDistinct(a: seq<RawMatch>, b: seq<RawMatch>)
    requires Distinct(a) && Distinct(b) && Members(a) == Members(b)
    ensures multiset(a) == multiset(b)
  {
    DistinctMultiplicity(a);
    DistinctMultiplicity(b);
    forall m ensures multiset(a)[m] == multiset(b)[m] {
      assert m in a <==> m in Members(a);
      assert m in b <==> m in Members(b);
      assert m in a <==> m in multiset(a);
      assert m in b <==> m in multiset(b);
    }
  }

  lemma KeptFacts(severity: string -> int, ms: seq<RawMatch>)
    requires WellDetected(ms)
    ensures var kept := Greedy(SortBy(ByRank(severity), ms));
      && Distinct(kept) && Disjoint(Members(kept))
      && (forall m | m in kept :: m in ms && m.start < m.end)
  {
    hide Greedy;
    var ranked := SortBy(ByRank(severity), ms);
    RankOrders(severity);
    SortSorted(ByRank(severity), ms);
    WellDetectedPermutes(ms, ranked);
    GreedyIsStable(severity, ranked);
    SameMembers(ms, ranked);
    var kept := Greedy(ranked);
    forall m | m in kept ensures m in ms {
      assert m in Members(kept);
    }
  }

  /** The result lists disjoint spans from left to right: what the redactor depends on. */
  lemma ResolvedIsDisjointInOrder(severity: string -> int, ms: seq<RawMatch>)
    requires WellDetected(ms)
    ensures var r := Resolved(severity, ms);
      && (forall m | m in r :: m in ms)
      && (forall i, j | 0 <= i < j < |r| :: r[i].end <= r[j].start)
  {
    hide Greedy, WellDetected, RankGe;
    var kept, r := Greedy(SortBy(ByRank(severity), ms)), Resolved(severity, ms);
    KeptFacts(severity, ms);
    SameMembers(kept, r);
    SortDistinct(BySpan, kept);
    SpanOrders();
    SortSorted(BySpan, kept);
    InOrder(r);
  }

  lemma InOrder(r: seq<RawMatch>)
    requires SortedBy(BySpan, r) && Distinct(r) && Disjoint(Members(r)) && forall m | m in r :: m.start < m.end
    ensures forall i, j | 0 <= i < j < |r| :: r[i].end <= r[j].start
  {
    forall i, j | 0 <= i < j < |r| ensures r[i].end <= r[j].start {
      assert r[i] in Members(r) && r[j] in Members(r) && r[i] != r[j];
    }
  }

  // --- scanning one text ---------------------------------------------------------------

  datatype Scanner = Scanner(
    detect: (string, string) -> seq<RawMatch>,
    severity: string -> int,
    maxChars: nat,
    maxDepth: int,
    minConfidence: int
  )

  datatype ScanResult = ScanResult(findings: seq<Finding>, scannedChars: nat, truncated: bool)

  function Confident(ms: seq<RawMatch>, least: int): (r: seq<RawMatch>)
    ensures forall m :: m in r <==> m in ms && m.confidence >= least
  {
    if ms == [] then [] else (if ms[0].confidence >= least then [ms[0]] else []) + Confident(ms[1..], least)
  }

  function At(m: RawMatch, path: string): Finding {
    Finding(m.tag, m.detector, m.start, m.end, m.confidence, m.value, path)
  }

  function AllAt(ms: seq<RawMatch>, path: string): (r: seq<Finding>)
    ensures |r| == |ms| && forall i | 0 <= i < |ms| :: r[i] == At(ms[i], path)
  {
    if ms == [] then [] else [At(ms[0], path)] + AllAt(ms[1..], path)
  }

  /** What the detectors report that is confident enough to keep. */
  function Raw(s: Scanner, body: string, hint: string): seq<RawMatch> {
    var raw := s.detect(body, hint);
    if s.minConfidence > 0 then Confident(raw, s.minConfidence) else raw
  }

  function ScanText(s: Scanner, text: string, hint: string, path: string): ScanResult {
    if text == "" then ScanResult([], 0, false)
    else
      var body := if |text| > s.maxChars then text[..s.maxChars] else text;
      ScanResult(AllAt(Resolved(s.severity, Raw(s, body, hint)), path), |body|, |text| > s.maxChars)
  }

  /** What a detector's matches always are: well detected, within the text, and quoting it. */
  ghost predicate Detects(s: Scanner) {
    forall body: string, hint: string :: forall m | m in s.detect(body, hint) ::
      m.end <= |body| && m.start < m.end && m.value == body[m.start..m.end]
  }

  ghost predicate DetectsApart(s: Scanner) {
    forall body: string, hint: string :: WellDetected(s.detect(body, hint))
  }

  lemma {:induction false} ConfidentStaysApart(ms: seq<RawMatch>, least: int)
    requires WellDetected(ms)
    ensures WellDetected(Confident(ms, least))
  {
    if ms != [] {
      var rest := ms[1..];
      assert forall m | m in rest :: m in ms;
      ConfidentStaysApart(rest, least);
      var kept := Confident(rest, least);
      forall j | 0 <= j < |kept| && kept[j].detector == ms[0].detector ensures !Overlap(ms[0], kept[j]) {
        assert kept[j] in rest;
        var i :| 0 <= i < |rest| && rest[i] == kept[j];
        assert ms[i + 1] == kept[j];
      }
    }
  }

  /** Findings within a text, disjoint and from left to right. */
  ghost predicate DisjointWithin(fs: seq<Finding>, text: string) {
    && (forall i | 0 <= i < |fs| :: fs[i].start < fs[i].end <= |text|)
    && (forall i, j | 0 <= i < j < |fs| :: fs[i].end <= fs[j].start)
  }

  lemma RawIsDetected(s: Scanner, body: string, hint: string)
    requires Detects(s) && DetectsApart(s)
    ensures WellDetected(Raw(s, body, hint))
    ensures forall m | m in Raw(s, body, hint) ::
              m.end <= |body| && m.start < m.end && m.value == body[m.start..m.end]
  {
    ConfidentStaysApart(s.detect(body, hint), s.minConfidence);
  }

  lemma PrefixSlice(text: string, n: nat, start: nat, end: nat)
    requires start <= end <= n <= |text|
    ensures text[..n][start..end] == text[start..end]
  {}

  lemma ScanIsDisjoint(s: Scanner, text: string, hint: string, path: string)
    requires Detects(s) && DetectsApart(s)
    ensures DisjointWithin(ScanText(s, text, hint, path).findings, text)
    ensures forall f | f in ScanText(s, text, hint, path).findings ::
              f.path == path && f.end <= |text| && f.start < f.end && f.value == text[f.start..f.end]
  {
    hide Resolved, Raw, WellDetected;
    if text != "" {
      var body := if |text| > s.maxChars then text[..s.maxChars] else text;
      var raw := Raw(s, body, hint);
      assert body == text[..|body|];
      RawIsDetected(s, body, hint);
      ResolvedIsDisjointInOrder(s.severity, raw);
      var r := Resolved(s.severity, raw);
      forall i | 0 <= i < |r|
        ensures r[i].start < r[i].end <= |body| && r[i].value == text[r[i].start..r[i].end]
      {
        var m := r[i];
        assert m in r && m in raw;
        PrefixSlice(text, |body|, m.start, m.end);
      }
    }
  }

  /** A finding's match, as the detector reported it. */
  function MatchOf(f: Finding): RawMatch {
    RawMatch(f.tag, f.detector, f.start, f.end, f.value, f.confidence)
  }

  /** What a scan finds, from the detectors alone: of the confident matches in the first
      maxChars characters, the one choice that is disjoint and beats every other match. */
  lemma ScanFinds(s: Scanner, text: string, hint: string, path: string)
    requires Detects(s) && DetectsApart(s)
    ensures var body := if |text| <= s.maxChars then text else text[..s.maxChars];
            var r := ScanText(s, text, hint, path);
            var found := set f | f in r.findings :: MatchOf(f);
            var confident := iset m | m in s.detect(body, hint) && (s.minConfidence <= 0 || m.confidence >= s.minConfidence);
      && r.scannedChars == |body| && (r.truncated <==> |text| > s.maxChars)
      && (text == "" ==> r.findings == [])
      && (text != "" ==>
            && (forall m | m in found :: m in confident)
            && (forall m | m in confident && m !in found :: Beaten(s.severity, m, found)))
      && Disjoint(found) && (forall f | f in r.findings :: f.path == path)
  {
    hide Resolved, Raw, WellDetected, Detects, DetectsApart, Disjoint, Beaten;
    var r := ScanText(s, text, hint, path);
    var found := set f | f in r.findings :: MatchOf(f);
    if text == "" {
      assert found == {};
      NoneOverlap();
    } else {
      var body := if |text| > s.maxChars then text[..s.maxChars] else text;
      var raw := Raw(s, body, hint);
      RawIsConfident(s, body, hint);
      RawIsDetected(s, body, hint);
      var kept := Resolved(s.severity, raw);
      ResolvedIsTheStableChoice(s.severity, raw, Members(kept));
      forall m ensures m in found <==> m in Members(kept) {
        if m in kept {
          var i :| 0 <= i < |kept| && kept[i] == m;
          assert r.findings[i] in r.findings && MatchOf(r.findings[i]) == m;
        }
      }
      assert found == Members(kept);
    }
  }

  lemma NoneOverlap()
    ensures Disjoint({})
  {}

  lemma RawIsConfident(s: Scanner, body: string, hint: string)
    ensures forall m :: m in Raw(s, body, hint) <==>
              m in s.detect(body, hint) && (s.minConfidence <= 0 || m.confidence >= s.minConfidence)
  {}
}
