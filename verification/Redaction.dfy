/**
 Rewriting one text: the rules a decision's redact obligations give, and the splicer that
 replaces each finding from the right (control_plane/redaction/transforms.py).

 Keyed digests, tokens and synthetic values are library work: a parameter derives them.
 */
module Redaction {
  import opened Wrappers
  import opened Ordering
  import opened Scanning

  datatype Strategy = Mask | Partial | Hash | Tokenize | Synthetic | Drop

  datatype Rule = Rule(labels: seq<string>, strategy: Strategy, keepLast: int, hashLength: int)

  /** The rules, whether a tokenisation vault is configured, and the derived surrogates. */
  datatype Config = Config(rules: seq<Rule>, hasVault: bool, derive: (Strategy, string, string, int) -> string)

  datatype Applied = Applied(
    tag: string, strategy: Strategy, start: nat, end: nat, path: string, replacement: string)

  /** A label pattern covers itself and everything beneath it. */
  predicate Covers(pattern: string, tag: string) {
    tag == pattern || pattern + "." <= tag
  }

  predicate LabelsCover(labels: seq<string>, tag: string) {
    "*" in labels || exists pattern :: pattern in labels && Covers(pattern, tag)
  }

  predicate Matches(rule: Rule, tag: string) {
    LabelsCover(rule.labels, tag)
  }

  /** The first rule covering a label. */
  function RuleFor(rules: seq<Rule>, tag: string): Option<Rule> {
    if rules == [] then None else if Matches(rules[0], tag) then Some(rules[0]) else RuleFor(rules[1..], tag)
  }

  predicate IsAlnum(c: char) {
    '0' <= c <= '9' || 'a' <= c <= 'z' || 'A' <= c <= 'Z'
  }

  function Starred(s: string): (r: string)
    ensures |r| == |s| && forall i | 0 <= i < |s| :: r[i] == if IsAlnum(s[i]) then '*' else s[i]
  {
    if s == "" then "" else [if IsAlnum(s[0]) then '*' else s[0]] + Starred(s[1..])
  }

  /** Keeps a suffix: the same length, the last characters as they were, nothing
      alphanumeric before them. */
  function PartialText(value: string, keepLast: int): (r: string)
    ensures |r| == |value|
    ensures forall i | 0 <= i < |r| :: r[i] == value[i] || r[i] == '*'
    ensures forall i | 0 <= i < |r| && i < |value| - keepLast :: !IsAlnum(r[i])
    ensures forall i | 0 <= i < |r| && i >= |value| - keepLast :: r[i] == value[i]
  {
    var capped := if keepLast < |value| then keepLast else |value|;
    var keep := if capped < 0 then 0 else capped;
    if keep == 0 then seq(|value|, _ => '*') else Starred(value[..|value| - keep]) + value[|value| - keep..]
  }

  function Replacement(c: Config, f: Finding, rule: Rule): Result<string, string> {
    match rule.strategy
    case Drop => Ok("")
    case Mask => Ok("[REDACTED:" + f.tag + "]")
    case Partial => Ok(PartialText(f.value, rule.keepLast))
    case Hash => Ok(c.derive(Hash, f.tag, f.value, rule.hashLength))
    case Tokenize => if c.hasVault then Ok(c.derive(Tokenize, f.tag, f.value, 0)) else Err("no tokeniser is configured")
    case Synthetic => Ok(c.derive(Synthetic, f.tag, f.value, 0))
  }

  // --- the splicer -----------------------------------------------------------------

  /** Slices clamp, as the source's do. */
  function Upto(s: string, n: nat): string {
    if n <= |s| then s[..n] else s
  }

  function From(s: string, n: nat): string {
    if n <= |s| then s[n..] else ""
  }

  datatype Rewritten = Rewritten(payload: string, applied: seq<Applied>, unhandled: seq<Finding>)

  predicate FromLeft(a: Finding, b: Finding) {
    a.start < b.start || (a.start == b.start && a.end <= b.end)
  }

  predicate FromRight(a: Finding, b: Finding) {
    FromLeft(b, a)
  }

  function Record(f: Finding, rule: Rule, replacement: string): Applied {
    Applied(f.tag, rule.strategy, f.start, f.end, f.path, replacement)
  }

  function RewriteOne(c: Config, sofar: Rewritten, f: Finding): Result<Rewritten, string> {
    match RuleFor(c.rules, f.tag)
    case None => Ok(sofar.(unhandled := sofar.unhandled + [f]))
    case Some(rule) =>
      var replacement :- Replacement(c, f, rule);
      Ok(sofar.(payload := Upto(sofar.payload, f.start) + replacement + From(sofar.payload, f.end),
                applied := sofar.applied + [Record(f, rule, replacement)]))
  }

  function Rewrite(c: Config, text: string, ordered: seq<Finding>): Result<Rewritten, string> {
    if ordered == [] then Ok(Rewritten(text, [], []))
    else
      var sofar :- Rewrite(c, text, ordered[..|ordered| - 1]);
      RewriteOne(c, sofar, ordered[|ordered| - 1])
  }

  function ApplyToText(c: Config, text: string, findings: seq<Finding>): Result<Rewritten, string> {
    var r :- Rewrite(c, text, SortBy(FromRight, findings));
    Ok(Rewritten(r.payload, Reversed(r.applied), Reversed(r.unhandled)))
  }

  class Redactor {
    const config: Config
    var ruleCache: map<string, Option<Rule>>

    ghost predicate Valid()
      reads this
    {
      forall tag | tag in ruleCache :: ruleCache[tag] == RuleFor(config.rules, tag)
    }

    constructor (config: Config)
      ensures Valid() && this.config == config
    {
      this.config := config;
      this.ruleCache := map[];
    }

    method CachedRuleFor(tag: string) returns (found: Option<Rule>)
      requires Valid()
      modifies this
      ensures Valid() && found == RuleFor(config.rules, tag)
    {
      if tag in ruleCache {
        return ruleCache[tag];
      }
      found := None;
      var i := 0;
      while i < |config.rules|
        invariant i <= |config.rules| && found == None
        invariant RuleFor(config.rules, tag) == RuleFor(config.rules[i..], tag)
      {
        if Matches(config.rules[i], tag) {
          found := Some(config.rules[i]);
          break;
        }
        i := i + 1;
      }
      ruleCache := ruleCache[tag := found];
    }

    /** Right to left, so that each replacement leaves earlier offsets untouched. */
    method Apply(text: string, findings: seq<Finding>) returns (r: Result<Rewritten, string>)
      requires Valid()
      modifies this
      ensures Valid() && r == ApplyToText(config, text, findings)
    {
      var applied, unhandled := [], [];
      var ordered := SortBy(FromRight, findings);
      var buffer := text;
      for i := 0 to |ordered|
        invariant Valid()
        invariant Rewrite(config, text, ordered[..i]) == Ok(Rewritten(buffer, applied, unhandled))
      {
        assert ordered[..i + 1][..i] == ordered[..i];
        var f := ordered[i];
        var rule := CachedRuleFor(f.tag);
        if rule == None {
          unhandled := unhandled + [f];
        } else {
          var replacement := Replacement(config, f, rule.value);
          if replacement.Err? {
            RewriteFails(config, text, ordered, i);
            return Err(replacement.error);
          }
          buffer := Upto(buffer, f.start) + replacement.value + From(buffer, f.end);
          applied := applied + [Record(f, rule.value, replacement.value)];
        }
      }
      assert ordered[..|ordered|] == ordered;
      r := Ok(Rewritten(buffer, Reversed(applied), Reversed(unhandled)));
    }
  }

  /** Once a step raises, so does the whole. */
  lemma {:induction false} RewriteFails(c: Config, text: string, ordered: seq<Finding>, i: nat)
    requires i < |ordered| && Rewrite(c, text, ordered[..i]).Ok?
    requires RewriteOne(c, Rewrite(c, text, ordered[..i]).value, ordered[i]).Err?
    ensures Rewrite(c, text, ordered).Err?
    ensures Rewrite(c, text, ordered).error == RewriteOne(c, Rewrite(c, text, ordered[..i]).value, ordered[i]).error
  {
    var n := |ordered|;
    if i < n - 1 {
      assert ordered[..n - 1][..i] == ordered[..i] && ordered[..n - 1][i] == ordered[i];
      RewriteFails(c, text, ordered[..n - 1], i);
    }
  }

  // --- simultaneous substitution -----------------------------------------------------

  /** One span of the original text and what stands in its place. */
  datatype Edit = Edit(start: nat, end: nat, text: string)

  ghost predicate Fits(edits: seq<Edit>, from: nat, length: nat) {
    && from <= length
    && (forall i | 0 <= i < |edits| :: from <= edits[i].start <= edits[i].end <= length)
    && (forall i, j | 0 <= i < j < |edits| :: edits[i].end <= edits[j].start)
  }

  /** The text from a position on, every edit made at once in the original's offsets. */
  function Substitute(text: string, from: nat, edits: seq<Edit>): string
    requires Fits(edits, from, |text|)
    decreases |edits|
  {
    if edits == [] then text[from..]
    else text[from..edits[0].start] + edits[0].text + Substitute(text, edits[0].end, edits[1..])
  }

  ghost predicate Replaceable(c: Config, fs: seq<Finding>) {
    forall f | f in fs && RuleFor(c.rules, f.tag).Some? :: Replacement(c, f, RuleFor(c.rules, f.tag).value).Ok?
  }

  /** The edits the covered findings ask for, in order. */
  ghost function Edits(c: Config, fs: seq<Finding>): seq<Edit>
    requires Replaceable(c, fs)
  {
    if fs == [] then []
    else
      (match RuleFor(c.rules, fs[0].tag)
       case None => []
       case Some(rule) => [Edit(fs[0].start, fs[0].end, Replacement(c, fs[0], rule).value)])
      + Edits(c, fs[1..])
  }

  ghost function AppliedTo(c: Config, fs: seq<Finding>): seq<Applied>
    requires Replaceable(c, fs)
  {
    if fs == [] then []
    else
      (match RuleFor(c.rules, fs[0].tag)
       case None => []
       case Some(rule) => [Record(fs[0], rule, Replacement(c, fs[0], rule).value)])
      + AppliedTo(c, fs[1..])
  }

  function Uncovered(c: Config, fs: seq<Finding>): seq<Finding> {
    if fs == [] then []
    else (if RuleFor(c.rules, fs[0].tag) == None then [fs[0]] else []) + Uncovered(c, fs[1..])
  }

  lemma {:induction false} EditsFit(c: Config, fs: seq<Finding>, text: string, from: nat)
    requires DisjointWithin(fs, text) && Replaceable(c, fs) && from <= |text|
    requires forall f | f in fs :: from <= f.start
    ensures Fits(Edits(c, fs), from, |text|)
  {
    if fs != [] {
      assert fs[0] in fs;
      forall f | f in fs[1..] ensures fs[0].end <= f.start {
        var i :| 0 <= i < |fs[1..]| && fs[1..][i] == f;
      }
      EditsFit(c, fs[1..], text, fs[0].end);
    }
  }

  lemma FitsTail(edits: seq<Edit>, from: nat, length: nat)
    requires Fits(edits, from, length) && edits != []
    ensures from <= edits[0].start <= edits[0].end <= length && Fits(edits[1..], edits[0].end, length)
    ensures forall x | x in edits :: edits[0].start <= x.start && (x != edits[0] ==> x in edits[1..])
    ensures forall x | x in edits[1..] :: x in edits && edits[0].end <= x.start
    ensures forall k | 0 <= k < |edits| :: from <= edits[k].start <= edits[k].end <= length
  {
    forall x | x in edits
      ensures edits[0].start <= x.start && (x != edits[0] ==> x in edits[1..])
    {
      var k :| 0 <= k < |edits| && edits[k] == x;
      assert k > 0 ==> edits[1..][k - 1] == x;
    }
  }

  lemma Unfold(text: string, from: nat, edits: seq<Edit>)
    requires Fits(edits, from, |text|) && edits != []
    ensures var e := edits[0];
      Substitute(text, from, edits) == text[from..e.start] + (e.text + Substitute(text, e.end, edits[1..]))
  {
    var e, tail := edits[0], Substitute(text, edits[0].end, edits[1..]);
    Associates(text[from..e.start], e.text, tail);
  }

  lemma Associates(a: string, b: string, c: string)
    ensures a + (b + c) == a + b + c
  {}

  lemma Glue(text: string, from: nat, to: nat, tail: string)
    requires from <= to <= |text|
    ensures text[..from] + (text[from..to] + tail) == text[..to] + tail
  {
    assert text[..from] + text[from..to] == text[..to];
    Associates(text[..from], text[from..to], tail);
  }

  lemma SubstituteFrom(text: string, from: nat, to: nat, edits: seq<Edit>)
    requires Fits(edits, from, |text|) && Fits(edits, to, |text|) && from <= to
    ensures text[..from] + Substitute(text, from, edits) == text[..to] + Substitute(text, to, edits)
  {
    hide Substitute;
    if edits == [] {
      Unedited(text, from);
      Unedited(text, to);
    } else {
      var e := edits[0];
      var tail := StartsWithin(text, from, to, edits);
      Glue(text, from, e.start, tail);
      Glue(text, to, e.start, tail);
    }
  }

  lemma Unedited(text: string, from: nat)
    requires from <= |text|
    ensures text[..from] + Substitute(text, from, []) == text
  {}

  lemma StartsWithin(text: string, from: nat, to: nat, edits: seq<Edit>) returns (tail: string)
    requires Fits(edits, from, |text|) && Fits(edits, to, |text|) && edits != []
    ensures from <= edits[0].start <= |text| && to <= edits[0].start
    ensures Substitute(text, from, edits) == text[from..edits[0].start] + tail
    ensures Substitute(text, to, edits) == text[to..edits[0].start] + tail
  {
    Unfold(text, from, edits);
    Unfold(text, to, edits);
    tail := edits[0].text + Substitute(text, edits[0].end, edits[1..]);
  }

  /** The splicer's loop over findings taken from the right: what is left of the one
      being handled is still the original text. */
  lemma {:induction false} RewriteFromRight(c: Config, text: string, fs: seq<Finding>, from: nat)
    requires DisjointWithin(fs, text) && Replaceable(c, fs) && from <= |text|
    requires forall f | f in fs :: from <= f.start
    ensures Fits(Edits(c, fs), from, |text|)
    ensures Rewrite(c, text, Reversed(fs)) ==
            Ok(Rewritten(text[..from] + Substitute(text, from, Edits(c, fs)),
                         Reversed(AppliedTo(c, fs)), Reversed(Uncovered(c, fs))))
  {
    hide Replacement, RuleFor, Substitute, Fits, RewriteOne, Edits, AppliedTo, Uncovered;
    EditsFit(c, fs, text, from);
    if fs == [] {
      NothingToRewrite(c, text, from);
    } else {
      var f, rest, n := fs[0], fs[1..], |fs|;
      RestFollows(fs, text);
      RewriteFromRight(c, text, rest, f.end);
      var sofar := Rewritten(text[..f.end] + Substitute(text, f.end, Edits(c, rest)),
                             Reversed(AppliedTo(c, rest)), Reversed(Uncovered(c, rest)));
      assert fs == [f] + rest;
      ReversedCons(f, rest);
      RewriteSnoc(c, text, Reversed(rest), f);
      RewriteLeftmost(c, text, fs, from);
    }
  }

  lemma RewriteLeftmost(c: Config, text: string, fs: seq<Finding>, from: nat)
    requires fs != [] && Replaceable(c, fs) && from <= fs[0].start <= fs[0].end <= |text|
    requires Fits(Edits(c, fs[1..]), fs[0].end, |text|) && Fits(Edits(c, fs), from, |text|)
    ensures var rest := fs[1..];
      RewriteOne(c, Rewritten(text[..fs[0].end] + Substitute(text, fs[0].end, Edits(c, rest)),
                              Reversed(AppliedTo(c, rest)), Reversed(Uncovered(c, rest))), fs[0])
      == Ok(Rewritten(text[..from] + Substitute(text, from, Edits(c, fs)),
                      Reversed(AppliedTo(c, fs)), Reversed(Uncovered(c, fs))))
  {
    hide Replacement, RuleFor, Substitute, Fits, Reversed, Edits, AppliedTo, Uncovered;
    var f, rest := fs[0], fs[1..];
    var edits := Edits(c, rest);
    assert f in fs;
    Cons(c, fs);
    if RuleFor(c.rules, f.tag) == None {
      SubstituteFrom(text, from, f.end, edits);
      ReversedCons(f, Uncovered(c, rest));
    } else {
      var rule := RuleFor(c.rules, f.tag).value;
      var replacement := Replacement(c, f, rule).value;
      var edit := Edit(f.start, f.end, replacement);
      SpliceOne(text, from, f.start, f.end, replacement, Substitute(text, f.end, edits));
      Unfold(text, from, Edits(c, fs));
      assert ([edit] + edits)[0] == edit && ([edit] + edits)[1..] == edits;
      ReversedCons(Record(f, rule, replacement), AppliedTo(c, rest));
    }
  }

  lemma Cons(c: Config, fs: seq<Finding>)
    requires fs != [] && Replaceable(c, fs)
    ensures var f, rest := fs[0], fs[1..];
      match RuleFor(c.rules, f.tag)
      case None =>
        Edits(c, fs) == Edits(c, rest) && AppliedTo(c, fs) == AppliedTo(c, rest)
        && Uncovered(c, fs) == [f] + Uncovered(c, rest)
      case Some(rule) =>
        assert f in fs;
        var replacement := Replacement(c, f, rule).value;
        Edits(c, fs) == [Edit(f.start, f.end, replacement)] + Edits(c, rest)
        && AppliedTo(c, fs) == [Record(f, rule, replacement)] + AppliedTo(c, rest)
        && Uncovered(c, fs) == Uncovered(c, rest)
  {
    hide Replacement, RuleFor;
    assert [] + Edits(c, fs[1..]) == Edits(c, fs[1..]) && [] + AppliedTo(c, fs[1..]) == AppliedTo(c, fs[1..]);
    assert [] + Uncovered(c, fs[1..]) == Uncovered(c, fs[1..]);
  }

  lemma NothingToRewrite(c: Config, text: string, from: nat)
    requires from <= |text|
    ensures Edits(c, []) == [] && Rewrite(c, text, Reversed([])) ==
            Ok(Rewritten(text[..from] + Substitute(text, from, []), Reversed(AppliedTo(c, [])), Reversed(Uncovered(c, []))))
  {
    Unedited(text, from);
  }

  lemma RestFollows(fs: seq<Finding>, text: string)
    requires fs != [] && DisjointWithin(fs, text)
    ensures fs[0] in fs && fs[0].start <= fs[0].end <= |text|
    ensures DisjointWithin(fs[1..], text) && forall g | g in fs[1..] :: g in fs && fs[0].end <= g.start
  {
    forall g | g in fs[1..] ensures fs[0].end <= g.start {
      var i :| 0 <= i < |fs[1..]| && fs[1..][i] == g;
    }
  }

  lemma RewriteSnoc(c: Config, text: string, before: seq<Finding>, f: Finding)
    requires Rewrite(c, text, before).Ok?
    ensures Rewrite(c, text, before + [f]) == RewriteOne(c, Rewrite(c, text, before).value, f)
  {
    assert (before + [f])[..|before|] == before;
  }

  lemma SpliceOne(text: string, from: nat, start: nat, end: nat, replacement: string, tail: string)
    requires from <= start <= end <= |text|
    ensures Upto(text[..end] + tail, start) + replacement + From(text[..end] + tail, end)
            == text[..from] + (text[from..start] + (replacement + tail))
  {
    var before := text[..end] + tail;
    assert Upto(before, start) == text[..start] && From(before, end) == tail;
    Glue(text, from, start, replacement + tail);
    Associates(text[..start], replacement, tail);
  }

  lemma AscendingIsDescendingReversed(findings: seq<Finding>, asc: seq<Finding>, text: string)
    requires multiset(findings) == multiset(asc) && DisjointWithin(asc, text)
    ensures SortBy(FromRight, findings) == Reversed(asc)
  {
    assert TotalPreorder(FromRight);
    SortSorted(FromRight, findings);
    var desc := Reversed(asc);
    assert SortedBy(FromRight, desc) by {
      forall i, j | 0 <= i < j < |desc| ensures FromRight(desc[i], desc[j]) {
        var a, b := |asc| - 1 - j, |asc| - 1 - i;
        assert asc[a].end <= asc[b].start;
      }
    }
    assert NoTies(FromRight, desc) by {
      forall a, b | a in desc && b in desc && FromRight(a, b) && FromRight(b, a) ensures a == b {
        SameMembers(desc, asc);
        var i :| 0 <= i < |asc| && asc[i] == a;
        var j :| 0 <= j < |asc| && asc[j] == b;
      }
    }
    SortedUnique(FromRight, desc, SortBy(FromRight, findings));
  }

  /** Splicing disjoint findings from the right, given in any order, is simultaneous
      substitution; applied and unhandled are the covered and the uncovered findings, each
      in text order. */
  lemma SplicingIsSubstitution(c: Config, text: string, findings: seq<Finding>, asc: seq<Finding>)
    requires multiset(findings) == multiset(asc) && DisjointWithin(asc, text) && Replaceable(c, asc)
    ensures Fits(Edits(c, asc), 0, |text|)
    ensures ApplyToText(c, text, findings) ==
            Ok(Rewritten(Substitute(text, 0, Edits(c, asc)), AppliedTo(c, asc), Uncovered(c, asc)))
  {
    hide Edits, AppliedTo, Uncovered, Rewrite, Substitute, Fits, Reversed, SortBy, DisjointWithin, Replaceable;
    AscendingIsDescendingReversed(findings, asc, text);
    RewriteFromRight(c, text, asc, 0);
    assert text[..0] == "";
    assert "" + Substitute(text, 0, Edits(c, asc)) == Substitute(text, 0, Edits(c, asc));
    ReversedTwice(AppliedTo(c, asc));
    ReversedTwice(Uncovered(c, asc));
  }

  lemma ReversedTwice<T>(xs: seq<T>)
    ensures Reversed(Reversed(xs)) == xs
  {}

  /** The redactor raises exactly when a covered finding needs a token and there is no vault. */
  lemma {:induction false} RaisesIffUntokenizable(c: Config, text: string, ordered: seq<Finding>)
    ensures Rewrite(c, text, ordered).Err? <==>
              !c.hasVault && exists f :: f in ordered && RuleFor(c.rules, f.tag).Some? &&
                                         RuleFor(c.rules, f.tag).value.strategy == Tokenize
    ensures Rewrite(c, text, ordered).Err? ==> Rewrite(c, text, ordered).error == "no tokeniser is configured"
  {
    if ordered != [] {
      var before, last := ordered[..|ordered| - 1], ordered[|ordered| - 1];
      assert ordered == before + [last];
      RaisesIffUntokenizable(c, text, before);
    }
  }

  // --- what substitution does to each character --------------------------------------

  function Growth(edits: seq<Edit>): int {
    if edits == [] then 0
    else |edits[0].text| - (edits[0].end - edits[0].start) + Growth(edits[1..])
  }

  lemma {:induction false} SubstituteLength(text: string, from: nat, edits: seq<Edit>)
    requires Fits(edits, from, |text|)
    ensures |Substitute(text, from, edits)| == |text| - from + Growth(edits)
    decreases |edits|
  {
    if edits != [] {
      SubstituteLength(text, edits[0].end, edits[1..]);
    }
  }

  /** How far the edits that end at or before a position have moved it. */
  function Shift(edits: seq<Edit>, i: int): int {
    if edits == [] then 0
    else (if edits[0].end <= i then |edits[0].text| - (edits[0].end - edits[0].start) else 0) + Shift(edits[1..], i)
  }

  ghost predicate Spared(edits: seq<Edit>, i: int) {
    forall e | e in edits :: i < e.start || e.end <= i
  }

  lemma {:induction false} NoShiftBefore(edits: seq<Edit>, i: int)
    requires forall e | e in edits :: i < e.end
    ensures Shift(edits, i) == 0
  {
    if edits != [] {
      assert edits[0] in edits;
      NoShiftBefore(edits[1..], i);
    }
  }

  /** A character no edit covers survives, moved by the growth of the edits before it. */
  lemma {:induction false} UncoveredSurvives(text: string, from: nat, edits: seq<Edit>, i: nat)
    requires Fits(edits, from, |text|) && from <= i < |text| && Spared(edits, i)
    ensures 0 <= i - from + Shift(edits, i) < |Substitute(text, from, edits)|
    ensures Substitute(text, from, edits)[i - from + Shift(edits, i)] == text[i]
    decreases |edits|
  {
    hide Substitute, Fits;
    if edits == [] {
      UneditedAt(text, from, i);
    } else {
      var e, rest := edits[0], edits[1..];
      FitsTail(edits, from, |text|);
      Unfold(text, from, edits);
      assert e in edits;
      if i < e.start {
        forall x | x in edits ensures i < x.end {
          assert x == e || x in rest;
          assert i < x.start || x.end <= i;
        }
        NoShiftBefore(edits, i);
        Within(text, from, e.start, i, e.text + Substitute(text, e.end, rest));
      } else {
        assert Spared(rest, i);
        UncoveredSurvives(text, e.end, rest, i);
        var at := i - e.end + Shift(rest, i);
        Beyond(text[from..e.start], e.text, Substitute(text, e.end, rest), at);
      }
    }
  }

  lemma UneditedAt(text: string, from: nat, i: nat)
    requires from <= i < |text|
    ensures |Substitute(text, from, [])| == |text| - from && Substitute(text, from, [])[i - from] == text[i]
  {}

  lemma Within(text: string, from: nat, to: nat, i: nat, tail: string)
    requires from <= i < to <= |text|
    ensures (text[from..to] + tail)[i - from] == text[i]
  {}

  lemma Beyond(a: string, b: string, c: string, at: nat)
    requires at < |c|
    ensures (a + (b + c))[|a| + |b| + at] == c[at]
  {}

  /** Where edit k's replacement begins once everything before it is edited. */
  function Position(from: int, edits: seq<Edit>, k: nat): int
    requires k < |edits|
  {
    edits[k].start - from + Growth(edits[..k])
  }

  lemma PositionInTail(from: int, edits: seq<Edit>, k: nat)
    requires 0 < k < |edits|
    ensures Position(from, edits, k) ==
            edits[0].start - from + |edits[0].text| + Position(edits[0].end, edits[1..], k - 1)
  {
    assert edits[..k][0] == edits[0] && edits[..k][1..] == edits[1..][..k - 1];
  }

  /** Each covered span becomes its replacement, where the edits before it have moved it. */
  lemma {:induction false} CoveredIsReplaced(text: string, from: nat, edits: seq<Edit>, k: nat)
    requires Fits(edits, from, |text|) && k < |edits|
    ensures var at := Position(from, edits, k);
      && 0 <= at && at + |edits[k].text| <= |Substitute(text, from, edits)|
      && Substitute(text, from, edits)[at..at + |edits[k].text|] == edits[k].text
    decreases |edits|
  {
    hide Substitute, Fits, Position;
    FitsTail(edits, from, |text|);
    var e, rest := edits[0], edits[1..];
    var tail := Substitute(text, e.end, rest);
    Unfold(text, from, edits);
    if k > 0 {
      CoveredIsReplaced(text, e.end, rest, k - 1);
      PositionInTail(from, edits, k);
      var at := Position(e.end, rest, k - 1);
      BeyondSlice(text[from..e.start], e.text, tail, at, at + |edits[k].text|);
    } else {
      FirstPosition(from, edits);
      AfterSlice(text[from..e.start], e.text, tail);
    }
  }

  lemma FirstPosition(from: int, edits: seq<Edit>)
    requires edits != []
    ensures Position(from, edits, 0) == edits[0].start - from
  {}

  lemma AfterSlice(a: string, b: string, c: string)
    ensures (a + (b + c))[|a|..|a| + |b|] == b
  {}

  lemma BeyondSlice(a: string, b: string, c: string, lo: nat, hi: nat)
    requires lo <= hi <= |c|
    ensures (a + (b + c))[|a| + |b| + lo..|a| + |b| + hi] == c[lo..hi]
  {}

  // --- what stands in place of a value -------------------------------------------------

  /** What each strategy writes: a mask names the label and nothing else, a drop leaves
      nothing, a partial mask keeps the end and the punctuation, or nothing at all when no
      character is to be kept; the others are derived from the value. */
  ghost predicate Disguise(c: Config, f: Finding, rule: Rule, text: string) {
    match rule.strategy
    case Mask => text == "[REDACTED:" + f.tag + "]"
    case Drop => text == ""
    case Partial =>
      && |text| == |f.value|
      && forall i | 0 <= i < |text| ::
           text[i] == if 0 < rule.keepLast && (i >= |f.value| - rule.keepLast || !IsAlnum(f.value[i])) then f.value[i] else '*'
    case Hash => text == c.derive(Hash, f.tag, f.value, rule.hashLength)
    case Tokenize => c.hasVault && text == c.derive(Tokenize, f.tag, f.value, 0)
    case Synthetic => text == c.derive(Synthetic, f.tag, f.value, 0)
  }

  /** A report entry says where a finding was, by which rule it went, and what is there now. */
  ghost predicate Accounts(c: Config, a: Applied, f: Finding) {
    && RuleFor(c.rules, f.tag).Some?
    && (a.tag, a.start, a.end, a.path) == (f.tag, f.start, f.end, f.path)
    && a.strategy == RuleFor(c.rules, f.tag).value.strategy
    && Disguise(c, f, RuleFor(c.rules, f.tag).value, a.replacement)
  }

  lemma ReplacementDisguises(c: Config, f: Finding, rule: Rule)
    requires Replacement(c, f, rule).Ok?
    ensures Disguise(c, f, rule, Replacement(c, f, rule).value)
  {}

  lemma {:induction false} RewriteAccounts(c: Config, text: string, ordered: seq<Finding>)
    requires Rewrite(c, text, ordered).Ok?
    ensures forall a | a in Rewrite(c, text, ordered).value.applied :: exists f :: f in ordered && Accounts(c, a, f)
  {
    hide Replacement, Disguise;
    if ordered != [] {
      var before, last := ordered[..|ordered| - 1], ordered[|ordered| - 1];
      assert ordered == before + [last];
      RewriteAccounts(c, text, before);
      var rule := RuleFor(c.rules, last.tag);
      if rule.Some? {
        ReplacementDisguises(c, last, rule.value);
        assert Accounts(c, Record(last, rule.value, Replacement(c, last, rule.value).value), last);
      }
    }
  }

  /** Every entry of a report accounts for a finding, in whatever order they were given. */
  lemma ReportAccounts(c: Config, text: string, findings: seq<Finding>)
    requires ApplyToText(c, text, findings).Ok?
    ensures forall a | a in ApplyToText(c, text, findings).value.applied :: exists f :: f in findings && Accounts(c, a, f)
  {
    hide Rewrite, Accounts;
    var ordered := SortBy(FromRight, findings);
    RewriteAccounts(c, text, ordered);
    SameMembers(findings, ordered);
    var applied := Rewrite(c, text, ordered).value.applied;
    ReversedMembers(applied);
  }

  lemma ReversedMembers<T>(xs: seq<T>)
    ensures forall x :: x in Reversed(xs) <==> x in xs
  {}

  function EditsOf(applied: seq<Applied>): seq<Edit> {
    if applied == [] then [] else [Edit(applied[0].start, applied[0].end, applied[0].replacement)] + EditsOf(applied[1..])
  }

  lemma {:induction false} EditsAreReported(c: Config, fs: seq<Finding>)
    requires Replaceable(c, fs)
    ensures EditsOf(AppliedTo(c, fs)) == Edits(c, fs)
  {
    hide Replacement, RuleFor;
    if fs != [] {
      EditsAreReported(c, fs[1..]);
      Cons(c, fs);
      assert forall a: Applied, rest :: ([a] + rest)[0] == a && ([a] + rest)[1..] == rest;
    }
  }

  /** The report is complete: making its replacements in the original text, all at once, gives
      the rewritten one. */
  lemma ReportReplays(c: Config, text: string, findings: seq<Finding>, asc: seq<Finding>)
    requires multiset(findings) == multiset(asc) && DisjointWithin(asc, text) && Replaceable(c, asc)
    ensures var r := ApplyToText(c, text, findings);
      && r.Ok? && Fits(EditsOf(r.value.applied), 0, |text|)
      && r.value.payload == Substitute(text, 0, EditsOf(r.value.applied))
  {
    hide Edits, AppliedTo, EditsOf, Substitute, Fits, ApplyToText, Replaceable, DisjointWithin;
    SplicingIsSubstitution(c, text, findings, asc);
    EditsAreReported(c, asc);
  }

  // --- nothing of a masked or dropped value gets through -----------------------------------

  ghost predicate Concealed(c: Config, tag: string) {
    RuleFor(c.rules, tag).Some? && RuleFor(c.rules, tag).value.strategy in {Mask, Drop}
  }

  ghost predicate Quoting(fs: seq<Finding>, text: string) {
    forall f | f in fs :: f.end <= |text| && f.start <= f.end && f.value == text[f.start..f.end]
  }

  ghost predicate SameButValues(fs: seq<Finding>, gs: seq<Finding>) {
    |gs| == |fs| && forall i | 0 <= i < |fs| :: gs[i] == fs[i].(value := gs[i].value)
  }

  /** Two texts, with the same things found in each but for the values, that differ only inside
      what is masked or dropped. */
  ghost predicate AlikeOutside(c: Config, a: string, fs: seq<Finding>, b: string, gs: seq<Finding>) {
    && |b| == |a| && SameButValues(fs, gs)
    && forall i | 0 <= i < |a| && a[i] != b[i] :: exists f :: f in fs && Concealed(c, f.tag) && f.start <= i < f.end
  }

  lemma ShownAreEqual(c: Config, a: string, fs: seq<Finding>, b: string, gs: seq<Finding>, i: nat)
    requires AlikeOutside(c, a, fs, b, gs) && DisjointWithin(fs, a) && Quoting(fs, a) && Quoting(gs, b)
    requires i < |fs| && !Concealed(c, fs[i].tag)
    ensures gs[i] == fs[i]
  {
    hide Concealed;
    var f := fs[i];
    assert f in fs && gs[i] in gs;
    forall g | g in fs && Concealed(c, g.tag) ensures g.end <= f.start || f.end <= g.start {
      var j :| 0 <= j < |fs| && fs[j] == g;
    }
    assert a[f.start..f.end] == b[f.start..f.end];
  }

  lemma {:induction false} EditsAgree(c: Config, fs: seq<Finding>, gs: seq<Finding>)
    requires SameButValues(fs, gs) && forall i | 0 <= i < |fs| && !Concealed(c, fs[i].tag) :: gs[i] == fs[i]
    requires Replaceable(c, fs)
    ensures Replaceable(c, gs) && Edits(c, gs) == Edits(c, fs) && AppliedTo(c, gs) == AppliedTo(c, fs)
    ensures Uncovered(c, gs) == Uncovered(c, fs)
  {
    hide RuleFor;
    TagsDecide(c, fs, gs);
    if fs != [] {
      EditsAgree(c, fs[1..], gs[1..]);
      Cons(c, fs);
      Cons(c, gs);
    }
  }

  lemma TagsDecide(c: Config, fs: seq<Finding>, gs: seq<Finding>)
    requires SameButValues(fs, gs) && Replaceable(c, fs)
    ensures Replaceable(c, gs)
  {
    hide RuleFor;
    forall g | g in gs && RuleFor(c.rules, g.tag).Some? ensures Replacement(c, g, RuleFor(c.rules, g.tag).value).Ok? {
      var i :| 0 <= i < |gs| && gs[i] == g;
      assert fs[i] in fs;
    }
  }

  lemma {:induction false} SubstituteAgrees(a: string, b: string, from: nat, edits: seq<Edit>)
    requires |b| == |a| && Fits(edits, from, |a|)
    requires forall i | from <= i < |a| && a[i] != b[i] :: exists e :: e in edits && e.start <= i < e.end
    ensures Substitute(a, from, edits) == Substitute(b, from, edits)
    decreases |edits|
  {
    if edits == [] {
      assert a[from..] == b[from..];
    } else {
      hide Fits;
      FitsTail(edits, from, |a|);
      var e := edits[0];
      forall i | from <= i < e.start ensures a[i] == b[i] {}
      assert a[from..e.start] == b[from..e.start];
      forall i | e.end <= i < |a| && a[i] != b[i] ensures exists x :: x in edits[1..] && x.start <= i < x.end {
        var x :| x in edits && x.start <= i < x.end;
        assert x in edits[1..];
      }
      SubstituteAgrees(a, b, e.end, edits[1..]);
    }
  }

  lemma {:induction false} ConcealedAreEdited(c: Config, fs: seq<Finding>, f: Finding)
    requires Replaceable(c, fs) && f in fs && Concealed(c, f.tag)
    ensures exists e :: e in Edits(c, fs) && e.start == f.start && e.end == f.end
  {
    hide RuleFor, Replacement;
    Cons(c, fs);
    if f == fs[0] {
      assert Edits(c, fs)[0] in Edits(c, fs);
    } else {
      ConcealedAreEdited(c, fs[1..], f);
      assert forall e | e in Edits(c, fs[1..]) :: e in Edits(c, fs);
    }
  }

  /** Nothing of what is masked or dropped can be read off the result: rewriting two texts that
      differ only there gives one payload, one report and one list of what no rule covers, or
      the same error. */
  lemma ConcealedIsGone(c: Config, a: string, fs: seq<Finding>, findings: seq<Finding>,
                        b: string, gs: seq<Finding>, others: seq<Finding>)
    requires AlikeOutside(c, a, fs, b, gs) && DisjointWithin(fs, a) && Quoting(fs, a) && Quoting(gs, b)
    requires multiset(findings) == multiset(fs) && multiset(others) == multiset(gs)
    ensures ApplyToText(c, a, findings) == ApplyToText(c, b, others)
  {
    hide RuleFor, Replacement, Rewrite, Substitute, Edits, AppliedTo, Uncovered, Concealed, SortBy;
    forall i | 0 <= i < |fs| && !Concealed(c, fs[i].tag) ensures gs[i] == fs[i] {
      ShownAreEqual(c, a, fs, b, gs, i);
    }
    if Replaceable(c, fs) {
      EditsAgree(c, fs, gs);
      SplicingIsSubstitution(c, a, findings, fs);
      SplicingIsSubstitution(c, b, others, gs);
      forall i | 0 <= i < |a| && a[i] != b[i] ensures exists e :: e in Edits(c, fs) && e.start <= i < e.end {
        var f :| f in fs && Concealed(c, f.tag) && f.start <= i < f.end;
        ConcealedAreEdited(c, fs, f);
      }
      SubstituteAgrees(a, b, 0, Edits(c, fs));
    } else {
      BothRaise(c, a, fs, findings);
      if Replaceable(c, gs) {
        TagsDecide(c, gs, fs);
      }
      BothRaise(c, b, gs, others);
    }
  }

  lemma BothRaise(c: Config, text: string, fs: seq<Finding>, findings: seq<Finding>)
    requires !Replaceable(c, fs) && multiset(findings) == multiset(fs)
    ensures ApplyToText(c, text, findings) == Err("no tokeniser is configured")
  {
    hide RuleFor, Rewrite;
    var ordered := SortBy(FromRight, findings);
    RaisesIffUntokenizable(c, text, ordered);
    SameMembers(fs, ordered);
    var f :| f in fs && RuleFor(c.rules, f.tag).Some? && Replacement(c, f, RuleFor(c.rules, f.tag).value).Err?;
    assert f in ordered;
  }
}
