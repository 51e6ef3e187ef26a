/** The duties a policy attaches to an allow (control_plane/policy/model.py). */
module Obligations {
  import opened Wrappers
  import opened Redaction
  import Operators
  import Strings

  datatype Requirement = Scalar(value: string) | OneOf(values: seq<string>)

  datatype Needed = Needed(attribute: string, allowed: Requirement)

  /** The fields the plane itself reads: labels, strategy and lengths of a redaction,
      target and requirements of a route, and the model it was resolved to. The lengths are
      whatever the author wrote, if anything. The rest is for the enforcement point. */
  datatype Obligation = Obligation(
    kind: string,
    labels: seq<string>,
    strategy: Strategy,
    keepLast: Option<Operators.Value>,
    hashLength: Option<Operators.Value>,
    target: string,
    require: seq<Needed>,
    resolved: Option<string>,
    rest: string
  )

  const KNOWN := {"redact", "limit", "watermark", "route", "require_purpose"}

  /** Those the plane carries out itself. */
  const CONTROL_PLANE := {"redact"}

  /** What authoring checks of a redaction: its type and its labels; a strategy is one of the
      six. It does not look at the lengths. */
  predicate Accepted(taxonomy: string -> bool, o: Obligation) {
    o.kind in KNOWN && (o.kind == "redact" ==> forall l | l in o.labels :: l == "*" || taxonomy(l))
  }

  // --- lengths --------------------------------------------------------------------------

  predicate IsSpace(c: char) {
    c == ' ' || 9 <= c as int <= 13 || 28 <= c as int <= 31
  }

  function TrimLeft(s: string): string {
    if s != "" && IsSpace(s[0]) then TrimLeft(s[1..]) else s
  }

  function TrimRight(s: string): string {
    if s != "" && IsSpace(s[|s| - 1]) then TrimRight(s[..|s| - 1]) else s
  }

  /** Digits, with single underscores between them. */
  predicate Numeral(s: string) {
    && s != "" && Strings.IsDigit(s[0]) && Strings.IsDigit(s[|s| - 1])
    && (forall i | 0 <= i < |s| :: Strings.IsDigit(s[i]) || s[i] == '_')
    && (forall i | 0 < i < |s| :: s[i] == '_' ==> s[i - 1] != '_')
  }

  function WithoutUnderscores(s: string): (r: string)
    requires forall i | 0 <= i < |s| :: Strings.IsDigit(s[i]) || s[i] == '_'
    ensures forall c | c in r :: Strings.IsDigit(c)
  {
    if s == "" then "" else (if s[0] == '_' then "" else [s[0]]) + WithoutUnderscores(s[1..])
  }

  /** A text as an integer: a numeral, signed or not, with space around it. */
  function IntOfText(s: string): Option<int> {
    var t := TrimRight(TrimLeft(s));
    var signed := t != "" && (t[0] == '-' || t[0] == '+');
    var body := if signed then t[1..] else t;
    if !Numeral(body) then None
    else
      var n: int := Strings.Value(WithoutUnderscores(body));
      Some(if signed && t[0] == '-' then -n else n)
  }

  /** The language's conversion to an integer; None where it raises. */
  function IntOf(v: Operators.Value): Option<int> {
    match v
    case Num(n) => Some(n)
    case Bool(b) => Some(if b then 1 else 0)
    case Str(s) => IntOfText(s)
    case _ => None
  }

  function Length(raw: Option<Operators.Value>, default: int): Option<int> {
    if raw == None then Some(default) else IntOf(raw.value)
  }

  // --- rules ----------------------------------------------------------------------------

  const KEEP_LAST := 4
  const HASH_LENGTH := 16

  predicate LengthsConvert(o: Obligation) {
    Length(o.keepLast, KEEP_LAST).Some? && Length(o.hashLength, HASH_LENGTH).Some?
  }

  function LabelsOf(o: Obligation): seq<string> {
    if o.labels == [] then ["*"] else o.labels
  }

  function RuleOf(o: Obligation): Result<Rule, string> {
    if LengthsConvert(o)
    then Ok(Rule(LabelsOf(o), o.strategy, Length(o.keepLast, KEEP_LAST).value, Length(o.hashLength, HASH_LENGTH).value))
    else Err("invalid literal for int()")
  }

  function Redactions(obligations: seq<Obligation>): (r: seq<Obligation>)
    ensures forall o :: o in r <==> o in obligations && o.kind == "redact"
  {
    if obligations == [] then []
    else (if obligations[0].kind == "redact" then [obligations[0]] else []) + Redactions(obligations[1..])
  }

  function AllRules(redactions: seq<Obligation>): Result<seq<Rule>, string> {
    if redactions == [] then Ok([])
    else
      var rule :- RuleOf(redactions[0]);
      var rest :- AllRules(redactions[1..]);
      Ok([rule] + rest)
  }

  /** The redaction rules of a decision, in the order of its obligations. */
  function RulesOf(obligations: seq<Obligation>): Result<seq<Rule>, string> {
    AllRules(Redactions(obligations))
  }

  /** Every redaction among these can be made a rule. */
  ghost predicate Convertible(obligations: seq<Obligation>) {
    forall o | o in obligations && o.kind == "redact" :: LengthsConvert(o)
  }

  lemma {:induction false} RulesAre(redactions: seq<Obligation>)
    ensures AllRules(redactions).Ok? <==> forall o | o in redactions :: LengthsConvert(o)
    ensures AllRules(redactions).Ok? ==>
              var rules := AllRules(redactions).value;
              |rules| == |redactions| && forall i | 0 <= i < |rules| :: RuleOf(redactions[i]) == Ok(rules[i])
  {
    hide LengthsConvert;
    if redactions != [] {
      RulesAre(redactions[1..]);
      assert forall o :: o in redactions <==> o == redactions[0] || o in redactions[1..];
    }
  }

  /** Building the rules raises exactly when some length does not convert. */
  lemma RulesConvertIff(obligations: seq<Obligation>)
    ensures RulesOf(obligations).Ok? <==> Convertible(obligations)
    ensures RulesOf(obligations).Ok? ==>
              && (RulesOf(obligations).value == [] <==> Redactions(obligations) == [])
              && forall rule | rule in RulesOf(obligations).value ::
                   exists o :: o in obligations && o.kind == "redact" && RuleOf(o) == Ok(rule)
  {
    hide RuleOf, LengthsConvert;
    RulesAre(Redactions(obligations));
  }

  // --- which obligation redacts a label --------------------------------------------------

  /** The first redaction whose labels cover this one. */
  function Redacting(obligations: seq<Obligation>, tag: string): Option<Obligation> {
    if obligations == [] then None
    else if obligations[0].kind == "redact" && LabelsCover(LabelsOf(obligations[0]), tag) then Some(obligations[0])
    else Redacting(obligations[1..], tag)
  }

  /** That obligation's rule is the one the redactor applies. */
  lemma {:induction false} RedactingGivesTheRule(obligations: seq<Obligation>, tag: string)
    requires RulesOf(obligations).Ok?
    ensures match Redacting(obligations, tag)
            case None => RuleFor(RulesOf(obligations).value, tag) == None
            case Some(o) => RuleOf(o).Ok? && RuleFor(RulesOf(obligations).value, tag) == Some(RuleOf(o).value)
  {
    hide LengthsConvert, LabelsCover, LabelsOf;
    if obligations != [] {
      var o, rest := obligations[0], obligations[1..];
      if o.kind == "redact" {
        assert Redactions(obligations)[1..] == Redactions(rest);
        RedactingGivesTheRule(rest, tag);
        var rule, rules := RuleOf(o).value, RulesOf(rest).value;
        assert RulesOf(obligations).value == [rule] + rules && ([rule] + rules)[1..] == rules;
      } else {
        assert Redactions(obligations) == Redactions(rest);
        RedactingGivesTheRule(rest, tag);
      }
    }
  }

  // --- what a rule says --------------------------------------------------------------------

  lemma NamedOrBeneath(labels: seq<string>, tag: string)
    ensures LabelsCover(labels, tag) <==>
              "*" in labels || exists l :: l in labels && Operators.Segments(l) <= Operators.Segments(tag)
  {
    hide Operators.Segments;
    forall l ensures Covers(l, tag) <==> Operators.Segments(l) <= Operators.Segments(tag) {
      Operators.BeneathIsPrefix(l, tag);
    }
  }

  /** A rule covers the labels its obligation names and all beneath them by dotted name, or
      every label where it names none; four characters and sixteen digits unless it says. */
  lemma RuleSays(o: Obligation, tag: string)
    requires RuleOf(o).Ok?
    ensures var rule := RuleOf(o).value;
      && rule.strategy == o.strategy
      && Some(rule.keepLast) == (match o.keepLast case None => Some(4) case Some(v) => IntOf(v))
      && Some(rule.hashLength) == (match o.hashLength case None => Some(16) case Some(v) => IntOf(v))
      && (Matches(rule, tag) <==>
            || o.labels == [] || "*" in o.labels
            || exists l :: l in o.labels && Operators.Segments(l) <= Operators.Segments(tag))
  {
    hide Operators.Segments, IntOf, LabelsCover;
    NamedOrBeneath(LabelsOf(o), tag);
  }

  lemma {:induction false} NoUnderscores(s: string)
    requires forall c | c in s :: Strings.IsDigit(c)
    ensures forall i | 0 <= i < |s| :: Strings.IsDigit(s[i]) || s[i] == '_'
    ensures WithoutUnderscores(s) == s
  {
    assert forall i | 0 <= i < |s| :: s[i] in s;
    if s != "" {
      NoUnderscores(s[1..]);
    }
  }

  lemma NumeralIs(d: string)
    requires d != "" && forall c | c in d :: Strings.IsDigit(c)
    ensures Numeral(d)
  {
    assert forall i | 0 <= i < |d| :: d[i] in d;
  }

  lemma NothingToTrim(s: string)
    requires s != "" && !IsSpace(s[0]) && !IsSpace(s[|s| - 1])
    ensures TrimRight(TrimLeft(s)) == s
  {}

  /** A number written out converts to that number, with its sign. */
  lemma NumeralsConvert(n: nat)
    ensures IntOf(Operators.Str(Strings.Decimal(n))) == Some(n)
    ensures IntOf(Operators.Str("-" + Strings.Decimal(n))) == Some(0 - n as int)
  {
    hide Strings.Value, Strings.Decimal, Numeral, TrimLeft, TrimRight, WithoutUnderscores;
    var d := Strings.Decimal(n);
    var m := "-" + d;
    assert d[0] in d && d[|d| - 1] in d;
    NoUnderscores(d);
    NumeralIs(d);
    Strings.DecimalRoundTrip(n);
    NothingToTrim(d);
    assert m[0] == '-' && m[1..] == d && m[|m| - 1] == d[|d| - 1];
    NothingToTrim(m);
  }

  /** Only white space, of the kinds that conversion ignores. */
  ghost predicate Blank(s: string) {
    forall c | c in s :: c == ' ' || c as int in {9, 10, 11, 12, 13, 28, 29, 30, 31}
  }

  /** Digits, with single underscores between them. */
  ghost predicate Written(body: string) {
    && body != "" && '0' <= body[0] <= '9' && '0' <= body[|body| - 1] <= '9'
    && forall i | 0 < i < |body| :: '0' <= body[i] <= '9' || (body[i] == '_' && body[i - 1] != '_')
  }

  ghost predicate Reads(s: string, before: string, sign: string, body: string, after: string) {
    && s == before + (sign + body) + after
    && Blank(before) && Blank(after) && sign in {"", "+", "-"} && Written(body)
  }

  lemma {:induction false} TrimLeftSays(s: string)
    ensures exists before :: s == before + TrimLeft(s) && Blank(before)
    ensures TrimLeft(s) != "" ==> !IsSpace(TrimLeft(s)[0])
  {
    if s != "" && IsSpace(s[0]) {
      TrimLeftSays(s[1..]);
      var before :| s[1..] == before + TrimLeft(s[1..]) && Blank(before);
      assert s == ([s[0]] + before) + TrimLeft(s);
    } else {
      assert s == "" + TrimLeft(s);
    }
  }

  lemma {:induction false} TrimRightSays(s: string)
    ensures exists after :: s == TrimRight(s) + after && Blank(after)
    ensures TrimRight(s) != "" ==> !IsSpace(TrimRight(s)[|TrimRight(s)| - 1])
  {
    if s != "" && IsSpace(s[|s| - 1]) {
      var init := s[..|s| - 1];
      TrimRightSays(init);
      var after :| init == TrimRight(init) + after && Blank(after);
      assert s == TrimRight(s) + (after + [s[|s| - 1]]);
    } else {
      assert s == TrimRight(s) + "";
    }
  }

  lemma {:induction false} TrimLeftDrops(before: string, rest: string)
    requires Blank(before)
    ensures TrimLeft(before + rest) == TrimLeft(rest)
  {
    if before == "" {
      assert before + rest == rest;
    } else {
      assert (before + rest)[0] == before[0] && (before + rest)[1..] == before[1..] + rest && before[0] in before;
      assert forall c | c in before[1..] :: c in before;
      TrimLeftDrops(before[1..], rest);
    }
  }

  lemma {:induction false} TrimRightDrops(rest: string, after: string)
    requires Blank(after)
    ensures TrimRight(rest + after) == TrimRight(rest)
  {
    if after == "" {
      assert rest + after == rest;
    } else {
      var all, init := rest + after, after[..|after| - 1];
      assert all[|all| - 1] == after[|after| - 1] && all[..|all| - 1] == rest + init && after[|after| - 1] in after;
      assert forall c | c in init :: c in after;
      TrimRightDrops(rest, init);
    }
  }

  lemma WrittenIs(body: string)
    ensures Numeral(body) <==> Written(body)
  {}

  lemma CoreStays(sign: string, body: string)
    requires sign in {"", "+", "-"} && Written(body)
    ensures var core := sign + body;
      && core != "" && !IsSpace(core[0]) && !IsSpace(core[|core| - 1])
      && (sign == "" ==> core == body && core[0] != '-' && core[0] != '+')
      && (sign != "" ==> core[..1] == sign && core[1..] == body)
  {}

  /** What text converts to an integer: a number in digits, single underscores allowed between
      them, with a sign or none, and white space around it; and then to that number. */
  lemma TextConverts(s: string)
    ensures IntOf(Operators.Str(s)).Some? <==> exists before, sign, body, after :: Reads(s, before, sign, body, after)
    ensures forall before, sign, body, after | Reads(s, before, sign, body, after) ::
              && Numeral(body)
              && IntOf(Operators.Str(s)) ==
                   Some(if sign == "-" then 0 - Strings.Value(WithoutUnderscores(body)) as int
                        else Strings.Value(WithoutUnderscores(body)) as int)
  {
    hide Strings.Value, WithoutUnderscores;
    if IntOf(Operators.Str(s)).Some? {
      ConvertedReads(s);
    }
    forall before, sign, body, after | Reads(s, before, sign, body, after)
      ensures Numeral(body)
      ensures IntOf(Operators.Str(s)) ==
                Some(if sign == "-" then 0 - Strings.Value(WithoutUnderscores(body)) as int
                     else Strings.Value(WithoutUnderscores(body)) as int)
    {
      ReadsConverts(s, before, sign, body, after);
    }
  }

  lemma ReadsConverts(s: string, before: string, sign: string, body: string, after: string)
    requires Reads(s, before, sign, body, after)
    ensures Numeral(body)
    ensures IntOf(Operators.Str(s)) ==
              Some(if sign == "-" then 0 - Strings.Value(WithoutUnderscores(body)) as int
                   else Strings.Value(WithoutUnderscores(body)) as int)
  {
    hide Strings.Value, WithoutUnderscores, TrimLeft, TrimRight, IsSpace, Numeral, Written, Blank;
    var core := sign + body;
    WrittenIs(body);
    CoreStays(sign, body);
    assert s == before + (core + after);
    TrimLeftDrops(before, core + after);
    StaysLeft(core + after);
    TrimRightDrops(core, after);
    NothingToTrim(core);
    StaysLeft(core);
  }

  lemma StaysLeft(s: string)
    requires s != "" && !IsSpace(s[0])
    ensures TrimLeft(s) == s
  {}

  lemma ConvertedReads(s: string)
    requires IntOf(Operators.Str(s)).Some?
    ensures exists before, sign, body, after :: Reads(s, before, sign, body, after)
  {
    hide Strings.Value, WithoutUnderscores, TrimLeft, TrimRight, IsSpace, Numeral, Written, Blank;
    TrimLeftSays(s);
    TrimRightSays(TrimLeft(s));
    var before :| s == before + TrimLeft(s) && Blank(before);
    var t := TrimRight(TrimLeft(s));
    var after :| TrimLeft(s) == t + after && Blank(after);
    var signed := t != "" && (t[0] == '-' || t[0] == '+');
    var body := if signed then t[1..] else t;
    var sign := if signed then t[..1] else "";
    WrittenIs(body);
    assert signed ==> t[..1] == [t[0]];
    assert t == sign + body && sign in {"", "+", "-"};
    assert Reads(s, before, sign, body, after);
  }
}
