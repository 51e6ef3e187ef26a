/**
 Scanning and redacting JSON: every string leaf is scanned under its own JSON pointer, and
 the findings are carried back to their leaves by pointer alone
 (control_plane/classification/scanner.py, control_plane/redaction/transforms.py).
 */
module StructuredScan {
  import opened Wrappers
  import opened Strings
  import opened Ordering
  import opened Scanning
  import opened Redaction

  datatype Kind = Dict | List | Tuple

  /** A JSON value. Only a dict has keys, one for each kid. */
  datatype Node = Text(text: string) | Atom(raw: string) | Branch(kind: Kind, keys: seq<string>, kids: seq<Node>)

  /** Dicts have distinct string keys. */
  ghost predicate IsJson(node: Node) {
    node.Branch? ==>
      && (node.kind == Dict ==> |node.keys| == |node.kids| && Distinct(node.keys))
      && forall kid | kid in node.kids :: IsJson(kid)
  }

  // --- pointers ----------------------------------------------------------------------

  function ReplaceChar(s: string, c: char, with: string): string {
    if s == "" then "" else (if s[0] == c then with else [s[0]]) + ReplaceChar(s[1..], c, with)
  }

  /** Section 3 of RFC 6901. */
  function Escape(token: string): string {
    ReplaceChar(ReplaceChar(token, '~', "~0"), '/', "~1")
  }

  function Unescape(s: string): string {
    if s == "" then ""
    else if s[0] == '~' && |s| > 1 then [if s[1] == '0' then '~' else '/'] + Unescape(s[2..])
    else [s[0]] + Unescape(s[1..])
  }

  lemma ReplaceConcat(a: string, b: string, c: char, with: string)
    ensures ReplaceChar(a + b, c, with) == ReplaceChar(a, c, with) + ReplaceChar(b, c, with)
    decreases |a|
  {
    if a == "" {
      assert a + b == b;
    } else {
      assert (a + b)[0] == a[0] && (a + b)[1..] == a[1..] + b;
      ReplaceConcat(a[1..], b, c, with);
    }
  }

  lemma EscapeFirst(token: string)
    requires token != ""
    ensures Escape(token) == (match token[0] case '~' => "~0" case '/' => "~1" case c => [c]) + Escape(token[1..])
  {
    var head := if token[0] == '~' then "~0" else [token[0]];
    ReplaceConcat(head, ReplaceChar(token[1..], '~', "~0"), '/', "~1");
    assert ReplaceChar("~0", '/', "~1") == "~0" by {
      assert "~0"[1..] == "0" && "0"[1..] == "";
    }
    assert ReplaceChar([token[0]], '/', "~1") == if token[0] == '/' then "~1" else [token[0]];
  }

  lemma {:induction false} EscapeRoundTrip(token: string)
    ensures Unescape(Escape(token)) == token
    ensures forall c | c in Escape(token) :: c != '/'
  {
    hide Escape;
    if token == "" {
      EscapeNothing();
    } else {
      EscapeFirst(token);
      EscapeRoundTrip(token[1..]);
      var e, tail := Escape(token), Escape(token[1..]);
      if token[0] == '~' || token[0] == '/' {
        assert e[2..] == tail && e[0] == '~' && e[1] == if token[0] == '~' then '0' else '1';
      } else {
        assert e[1..] == tail && e[0] == token[0];
      }
      assert token == [token[0]] + token[1..];
    }
  }

  lemma EscapeNothing()
    ensures Escape("") == ""
  {}

  /** The pointer segment of kid i. */
  function Segment(kind: Kind, keys: seq<string>, i: nat): string {
    if kind == Dict && i < |keys| then Escape(keys[i]) else Decimal(i)
  }

  function Child(pointer: string, kind: Kind, keys: seq<string>, i: nat): string {
    pointer + "/" + Segment(kind, keys, i)
  }

  /** q is p, or lies beneath it. */
  predicate Under(p: string, q: string) {
    q == p || p + "/" <= q
  }

  predicate SlashFree(s: string) {
    forall k | 0 <= k < |s| :: s[k] != '/'
  }

  lemma UnderChild(p: string, segment: string, q: string)
    requires Under(p + "/" + segment, q)
    ensures Under(p, q)
  {
    assert p + "/" <= p + "/" + segment;
  }

  /** Beneath two different segments there is no common pointer. */
  lemma SegmentsSeparate(p: string, a: string, b: string, q: string)
    requires SlashFree(a) && SlashFree(b)
    requires Under(p + "/" + a, q) && Under(p + "/" + b, q)
    ensures a == b
  {
    SegmentOf(p, a, q);
    SegmentOf(p, b, q);
    var rest := q[|p| + 1..];
    assert forall k | 0 <= k < |a| :: rest[k] == a[k];
    assert forall k | 0 <= k < |b| :: rest[k] == b[k];
    assert |a| == |b|;
    assert a == rest[..|a|] && b == rest[..|b|];
  }

  lemma SegmentOf(p: string, a: string, q: string)
    requires Under(p + "/" + a, q)
    ensures |q| >= |p| + 1 + |a|
    ensures var rest := q[|p| + 1..]; a <= rest && (|rest| > |a| ==> rest[|a|] == '/')
  {
    var at := p + "/" + a;
    assert q[..|at|] == at;
    assert q[|p| + 1..][..|a|] == at[|p| + 1..] == a;
    assert |q| > |at| ==> q[|at|] == (at + "/")[|at|] == '/';
  }

  lemma SegmentSlashFree(kind: Kind, keys: seq<string>, i: nat)
    ensures SlashFree(Segment(kind, keys, i))
  {
    if kind == Dict && i < |keys| {
      EscapeRoundTrip(keys[i]);
    }
    var segment := Segment(kind, keys, i);
    assert forall k | 0 <= k < |segment| :: segment[k] in segment;
  }

  /** Sections 3 and 4 of RFC 6901: pointers tell siblings, and all beneath them, apart. */
  lemma SiblingsSeparate(p: string, node: Node, i: nat, j: nat, q: string)
    requires node.Branch? && IsJson(node) && i < |node.kids| && j < |node.kids|
    requires Under(Child(p, node.kind, node.keys, i), q) && Under(Child(p, node.kind, node.keys, j), q)
    ensures i == j
  {
    var a, b := Segment(node.kind, node.keys, i), Segment(node.kind, node.keys, j);
    SegmentSlashFree(node.kind, node.keys, i);
    SegmentSlashFree(node.kind, node.keys, j);
    SegmentsSeparate(p, a, b, q);
    if node.kind == Dict {
      EscapeRoundTrip(node.keys[i]);
      EscapeRoundTrip(node.keys[j]);
    } else {
      DecimalInjective(i, j);
    }
  }

  // --- scanning --------------------------------------------------------------------------

  function Then(a: ScanResult, b: ScanResult): ScanResult {
    ScanResult(a.findings + b.findings, a.scannedChars + b.scannedChars, a.truncated || b.truncated)
  }

  const NOTHING := ScanResult([], 0, false)

  /** The field name a value is found under: a list's elements take the list's. */
  function HintFor(kind: Kind, keys: seq<string>, i: nat, hint: string): string {
    if kind == Dict && i < |keys| then keys[i] else hint
  }

  function Walk(s: Scanner, node: Node, pointer: string, hint: string, depth: int): ScanResult
    decreases node
  {
    if depth > s.maxDepth then ScanResult([], 0, true)
    else
      match node
      case Text(text) => ScanText(s, text, hint, pointer)
      case Atom(_) => NOTHING
      case Branch(kind, keys, kids) => WalkKids(s, kind, keys, kids, 0, pointer, hint, depth + 1)
  }

  function WalkKids(s: Scanner, kind: Kind, keys: seq<string>, kids: seq<Node>, i: nat,
                    pointer: string, hint: string, depth: int): ScanResult
    requires i <= |kids|
    decreases kids, |kids| - i
  {
    if i == |kids| then NOTHING
    else Then(Walk(s, kids[i], Child(pointer, kind, keys, i), HintFor(kind, keys, i, hint), depth),
              WalkKids(s, kind, keys, kids, i + 1, pointer, hint, depth))
  }

  class StructuredScanner {
    const scanner: Scanner
    var findings: seq<Finding>
    var scanned: nat
    var truncated: bool

    constructor (scanner: Scanner)
      ensures this.scanner == scanner && findings == [] && scanned == 0 && !truncated
    {
      this.scanner := scanner;
      findings, scanned, truncated := [], 0, false;
    }

    function Sofar(): ScanResult
      reads this
    {
      ScanResult(findings, scanned, truncated)
    }

    method Visit(node: Node, pointer: string, hint: string, depth: int)
      modifies this
      ensures Sofar() == Then(old(Sofar()), Walk(scanner, node, pointer, hint, depth))
      decreases node
    {
      hide ScanText, Child, HintFor;
      if depth > scanner.maxDepth {
        truncated := true;
        assert old(findings) + [] == old(findings);
        return;
      }
      match node {
        case Text(text) =>
          var result := ScanText(scanner, text, hint, pointer);
          findings := findings + result.findings;
          scanned := scanned + result.scannedChars;
          truncated := truncated || result.truncated;
        case Atom(_) =>
          assert old(findings) + [] == old(findings);
        case Branch(kind, keys, kids) =>
          var i := 0;
          ghost var whole := Then(Sofar(), WalkKids(scanner, kind, keys, kids, 0, pointer, hint, depth + 1));
          while i < |kids|
            invariant i <= |kids|
            invariant Then(Sofar(), WalkKids(scanner, kind, keys, kids, i, pointer, hint, depth + 1)) == whole
          {
            ThenAssociates(Sofar(), Walk(scanner, kids[i], Child(pointer, kind, keys, i), HintFor(kind, keys, i, hint), depth + 1),
                           WalkKids(scanner, kind, keys, kids, i + 1, pointer, hint, depth + 1));
            Visit(kids[i], Child(pointer, kind, keys, i), HintFor(kind, keys, i, hint), depth + 1);
            i := i + 1;
          }
          assert findings + [] == findings;
      }
    }
  }

  method ScanStructured(scanner: Scanner, payload: Node) returns (r: ScanResult)
    ensures r == Walk(scanner, payload, "", "", 0)
  {
    hide Walk;
    var scan := new StructuredScanner(scanner);
    scan.Visit(payload, "", "", 0);
    r := scan.Sofar();
    assert [] + r.findings == r.findings;
  }

  lemma ThenAssociates(a: ScanResult, b: ScanResult, c: ScanResult)
    ensures Then(a, Then(b, c)) == Then(Then(a, b), c)
  {
    assert a.findings + (b.findings + c.findings) == (a.findings + b.findings) + c.findings;
  }

  // --- redacting ---------------------------------------------------------------------------

  /** The findings at one pointer, in order: by_path. */
  function Select(fs: seq<Finding>, path: string): seq<Finding> {
    if fs == [] then [] else (if fs[0].path == path then [fs[0]] else []) + Select(fs[1..], path)
  }

  datatype Redacted<T> = Redacted(value: T, applied: seq<Applied>, unhandled: seq<Finding>)

  function RewriteLeaf(c: Config, text: string, local: seq<Finding>): Result<Redacted<Node>, string> {
    if local == [] then Ok(Redacted(Text(text), [], []))
    else
      var r :- ApplyToText(c, text, local);
      Ok(Redacted(Text(r.payload), r.applied, r.unhandled))
  }

  function Redact(c: Config, node: Node, pointer: string, findings: seq<Finding>): Result<Redacted<Node>, string>
    decreases node
  {
    match node
    case Text(text) => RewriteLeaf(c, text, Select(findings, pointer))
    case Atom(_) => Ok(Redacted(node, [], []))
    case Branch(kind, keys, kids) =>
      var r :- RedactKids(c, kind, keys, kids, 0, pointer, findings);
      Ok(Redacted(Branch(kind, keys, r.value), r.applied, r.unhandled))
  }

  function RedactKids(c: Config, kind: Kind, keys: seq<string>, kids: seq<Node>, i: nat, pointer: string,
                      findings: seq<Finding>): Result<Redacted<seq<Node>>, string>
    requires i <= |kids|
    decreases kids, |kids| - i
  {
    if i == |kids| then Ok(Redacted([], [], []))
    else
      var first :- Redact(c, kids[i], Child(pointer, kind, keys, i), findings);
      var rest :- RedactKids(c, kind, keys, kids, i + 1, pointer, findings);
      Ok(Redacted([first.value] + rest.value, first.applied + rest.applied, first.unhandled + rest.unhandled))
  }

  /** The rewriting of a structure, which extends its two lists as it recurses. */
  class StructuredRedactor {
    const redactor: Redactor
    const findings: seq<Finding>
    var applied: seq<Applied>
    var unhandled: seq<Finding>

    constructor (redactor: Redactor, findings: seq<Finding>)
      ensures this.redactor == redactor && this.findings == findings && applied == [] && unhandled == []
    {
      this.redactor, this.findings := redactor, findings;
      applied, unhandled := [], [];
    }

    method RewriteNode(node: Node, pointer: string) returns (r: Result<Node, string>)
      requires redactor.Valid()
      modifies this, redactor
      ensures redactor.Valid()
      ensures match Redact(redactor.config, node, pointer, findings)
              case Err(e) => r == Err(e)
              case Ok(red) => r == Ok(red.value) && applied == old(applied) + red.applied
                              && unhandled == old(unhandled) + red.unhandled
      decreases node
    {
      match node {
        case Text(text) =>
          var local := Select(findings, pointer);
          if local == [] {
            assert applied + [] == applied && unhandled + [] == unhandled;
            return Ok(node);
          }
          var result := redactor.Apply(text, local);
          if result.Err? {
            return Err(result.error);
          }
          applied := applied + result.value.applied;
          unhandled := unhandled + result.value.unhandled;
          r := Ok(Text(result.value.payload));
        case Atom(_) =>
          assert applied + [] == applied && unhandled + [] == unhandled;
          r := Ok(node);
        case Branch(kind, keys, kids) =>
          hide Redact;
          var i, done, c := 0, [], redactor.config;
          ghost var whole := RedactKids(c, kind, keys, kids, 0, pointer, findings);
          ghost var before := After(Redacted([], applied, unhandled), whole);
          AfterNone(whole, applied, unhandled);
          while i < |kids|
            invariant i <= |kids| && redactor.Valid()
            invariant before == After(Redacted(done, applied, unhandled),
                                      RedactKids(c, kind, keys, kids, i, pointer, findings))
          {
            AfterStep(c, kind, keys, kids, i, pointer, findings, Redacted(done, applied, unhandled));
            var kid := RewriteNode(kids[i], Child(pointer, kind, keys, i));
            if kid.Err? {
              return Err(kid.error);
            }
            done := done + [kid.value];
            i := i + 1;
          }
          AfterAll(Redacted(done, applied, unhandled));
          r := Ok(Branch(kind, keys, done));
      }
    }
  }

  lemma AfterAll(done: Redacted<seq<Node>>)
    ensures After(done, Ok(Redacted([], [], []))) == Ok(done)
  {
    assert done.value + [] == done.value && done.applied + [] == done.applied && done.unhandled + [] == done.unhandled;
  }

  lemma AfterNone(rest: Result<Redacted<seq<Node>>, string>, applied: seq<Applied>, unhandled: seq<Finding>)
    ensures After(Redacted([], applied, unhandled), rest) ==
            if rest.Err? then rest
            else Ok(Redacted(rest.value.value, applied + rest.value.applied, unhandled + rest.value.unhandled))
  {
    assert rest.Ok? ==> [] + rest.value.value == rest.value.value;
  }

  lemma AfterStep(c: Config, kind: Kind, keys: seq<string>, kids: seq<Node>, i: nat, pointer: string,
                  findings: seq<Finding>, done: Redacted<seq<Node>>)
    requires i < |kids|
    ensures var now := After(done, RedactKids(c, kind, keys, kids, i, pointer, findings));
      match Redact(c, kids[i], Child(pointer, kind, keys, i), findings)
      case Err(e) => now == Err(e)
      case Ok(first) =>
        now == After(Redacted(done.value + [first.value], done.applied + first.applied, done.unhandled + first.unhandled),
                     RedactKids(c, kind, keys, kids, i + 1, pointer, findings))
  {
    hide Redact;
    var first := Redact(c, kids[i], Child(pointer, kind, keys, i), findings);
    var rest := RedactKids(c, kind, keys, kids, i + 1, pointer, findings);
    if first.Ok? && rest.Ok? {
      assert done.value + ([first.value.value] + rest.value.value) == done.value + [first.value.value] + rest.value.value;
      assert done.applied + (first.value.applied + rest.value.applied)
          == done.applied + first.value.applied + rest.value.applied;
      assert done.unhandled + (first.value.unhandled + rest.value.unhandled)
          == done.unhandled + first.value.unhandled + rest.value.unhandled;
    }
  }

  function After<T>(done: Redacted<seq<T>>, rest: Result<Redacted<seq<T>>, string>): Result<Redacted<seq<T>>, string> {
    if rest.Err? then rest
    else Ok(Redacted(done.value + rest.value.value, done.applied + rest.value.applied,
                     done.unhandled + rest.value.unhandled))
  }

  // --- leaf by leaf -----------------------------------------------------------------------

  /** The findings a request's confidence threshold keeps. */
  function Keep(fs: seq<Finding>, least: int): seq<Finding> {
    if fs == [] then [] else (if fs[0].confidence >= least then [fs[0]] else []) + Keep(fs[1..], least)
  }

  /** What redaction should do, with no pointers to carry findings about: each string leaf
      within the depth limit is scanned and rewritten on its own, and nothing else changes. */
  function LeafByLeaf(c: Config, s: Scanner, least: int, node: Node, pointer: string, hint: string, depth: int)
    : Result<Redacted<Node>, string>
    decreases node
  {
    match node
    case Text(text) =>
      RewriteLeaf(c, text, if depth > s.maxDepth then [] else Keep(ScanText(s, text, hint, pointer).findings, least))
    case Atom(_) => Ok(Redacted(node, [], []))
    case Branch(kind, keys, kids) =>
      var r :- LeafByLeafKids(c, s, least, kind, keys, kids, 0, pointer, hint, depth + 1);
      Ok(Redacted(Branch(kind, keys, r.value), r.applied, r.unhandled))
  }

  function LeafByLeafKids(c: Config, s: Scanner, least: int, kind: Kind, keys: seq<string>, kids: seq<Node>, i: nat,
                          pointer: string, hint: string, depth: int): Result<Redacted<seq<Node>>, string>
    requires i <= |kids|
    decreases kids, |kids| - i
  {
    if i == |kids| then Ok(Redacted([], [], []))
    else
      var first :- LeafByLeaf(c, s, least, kids[i], Child(pointer, kind, keys, i), HintFor(kind, keys, i, hint), depth);
      var rest :- LeafByLeafKids(c, s, least, kind, keys, kids, i + 1, pointer, hint, depth);
      Ok(Redacted([first.value] + rest.value, first.applied + rest.applied, first.unhandled + rest.unhandled))
  }

  // --- findings stay under their pointers ----------------------------------------------------

  ghost predicate AllUnder(fs: seq<Finding>, pointer: string) {
    forall f | f in fs :: Under(pointer, f.path)
  }

  lemma {:induction false} WalkStaysUnder(s: Scanner, node: Node, pointer: string, hint: string, depth: int)
    ensures AllUnder(Walk(s, node, pointer, hint, depth).findings, pointer)
    decreases node
  {
    hide ScanText, Under, Child;
    if depth <= s.maxDepth {
      match node {
        case Text(text) => ScanPath(s, text, hint, pointer);
        case Atom(_) =>
        case Branch(kind, keys, kids) =>
          WalkKidsStayUnder(s, kind, keys, kids, 0, pointer, hint, depth + 1);
          forall f | f in Walk(s, node, pointer, hint, depth).findings ensures Under(pointer, f.path) {
            var j :| 0 <= j < |kids| && Under(Child(pointer, kind, keys, j), f.path);
            ChildIsUnder(pointer, kind, keys, j, f.path);
          }
      }
    }
  }

  lemma ScanPath(s: Scanner, text: string, hint: string, pointer: string)
    ensures forall f | f in ScanText(s, text, hint, pointer).findings :: f.path == pointer && Under(pointer, f.path)
  {}

  lemma ChildIsUnder(pointer: string, kind: Kind, keys: seq<string>, i: nat, q: string)
    requires Under(Child(pointer, kind, keys, i), q)
    ensures Under(pointer, q)
  {
    UnderChild(pointer, Segment(kind, keys, i), q);
  }

  lemma {:induction false} WalkKidsStayUnder(s: Scanner, kind: Kind, keys: seq<string>, kids: seq<Node>, i: nat,
                                             pointer: string, hint: string, depth: int)
    requires i <= |kids|
    ensures forall f | f in WalkKids(s, kind, keys, kids, i, pointer, hint, depth).findings ::
              exists j | i <= j < |kids| :: Under(Child(pointer, kind, keys, j), f.path)
    decreases kids, |kids| - i
  {
    hide Under, Child, Walk;
    if i < |kids| {
      var at := Child(pointer, kind, keys, i);
      WalkStaysUnder(s, kids[i], at, HintFor(kind, keys, i, hint), depth);
      WalkKidsStayUnder(s, kind, keys, kids, i + 1, pointer, hint, depth);
    }
  }

  // --- selecting by pointer ---------------------------------------------------------------------

  lemma {:induction false} SelectConcat(a: seq<Finding>, b: seq<Finding>, path: string)
    ensures Select(a + b, path) == Select(a, path) + Select(b, path)
  {
    if a == [] {
      assert a + b == b;
    } else {
      SelectConcat(a[1..], b, path);
      assert (a + b)[0] == a[0] && (a + b)[1..] == a[1..] + b;
      var own := if a[0].path == path then [a[0]] else [];
      assert own + (Select(a[1..], path) + Select(b, path)) == own + Select(a[1..], path) + Select(b, path);
    }
  }

  lemma {:induction false} KeepConcat(a: seq<Finding>, b: seq<Finding>, least: int)
    ensures Keep(a + b, least) == Keep(a, least) + Keep(b, least)
  {
    if a == [] {
      assert a + b == b;
    } else {
      KeepConcat(a[1..], b, least);
      assert (a + b)[0] == a[0] && (a + b)[1..] == a[1..] + b;
      var own := if a[0].confidence >= least then [a[0]] else [];
      assert own + (Keep(a[1..], least) + Keep(b, least)) == own + Keep(a[1..], least) + Keep(b, least);
    }
  }

  lemma {:induction false} SelectNone(fs: seq<Finding>, least: int, path: string)
    requires forall f | f in fs :: f.path != path
    ensures Select(Keep(fs, least), path) == []
  {
    if fs != [] {
      assert fs[0] in fs;
      SelectNone(fs[1..], least, path);
      SelectConcat(if fs[0].confidence >= least then [fs[0]] else [], Keep(fs[1..], least), path);
    }
  }

  lemma {:induction false} SelectAll(fs: seq<Finding>, least: int, path: string)
    requires forall f | f in fs :: f.path == path
    ensures Select(Keep(fs, least), path) == Keep(fs, least)
  {
    if fs != [] {
      assert fs[0] in fs;
      SelectAll(fs[1..], least, path);
      SelectConcat(if fs[0].confidence >= least then [fs[0]] else [], Keep(fs[1..], least), path);
    }
  }

  /** As far as pointers beneath p go, the two lists hold the same findings. */
  ghost predicate Agree(all: seq<Finding>, own: seq<Finding>, p: string) {
    forall q | Under(p, q) :: Select(all, q) == Select(own, q)
  }

  /** Of the findings of the kids from i on, those beneath kid i's pointer are kid i's. */
  lemma KidAgrees(s: Scanner, node: Node, i: nat, pointer: string, hint: string, depth: int, least: int, q: string)
    requires node.Branch? && IsJson(node) && i < |node.kids|
    requires Under(Child(pointer, node.kind, node.keys, i), q)
    ensures var own := Walk(s, node.kids[i], Child(pointer, node.kind, node.keys, i),
                            HintFor(node.kind, node.keys, i, hint), depth).findings;
      Select(Keep(WalkKids(s, node.kind, node.keys, node.kids, i, pointer, hint, depth).findings, least), q)
      == Select(Keep(own, least), q)
  {
    hide Under, Child, Walk, IsJson, Keep, Select;
    var at := Child(pointer, node.kind, node.keys, i);
    var own := Walk(s, node.kids[i], at, HintFor(node.kind, node.keys, i, hint), depth).findings;
    var rest := WalkKids(s, node.kind, node.keys, node.kids, i + 1, pointer, hint, depth).findings;
    WalkKidsStayUnder(s, node.kind, node.keys, node.kids, i + 1, pointer, hint, depth);
    forall f | f in rest ensures f.path != q {
      var j :| i + 1 <= j < |node.kids| && Under(Child(pointer, node.kind, node.keys, j), f.path);
      if f.path == q {
        SiblingsSeparate(pointer, node, i, j, q);
      }
    }
    KeepConcat(own, rest, least);
    SelectConcat(Keep(own, least), Keep(rest, least), q);
    SelectNone(rest, least, q);
    assert Select(Keep(own, least), q) + [] == Select(Keep(own, least), q);
  }

  /** And those beneath a later kid's pointer are the later kids'. */
  lemma LaterKidsAgree(s: Scanner, node: Node, i: nat, j: nat, pointer: string, hint: string, depth: int, least: int,
                       q: string)
    requires node.Branch? && IsJson(node) && i < j < |node.kids|
    requires Under(Child(pointer, node.kind, node.keys, j), q)
    ensures Select(Keep(WalkKids(s, node.kind, node.keys, node.kids, i, pointer, hint, depth).findings, least), q)
         == Select(Keep(WalkKids(s, node.kind, node.keys, node.kids, i + 1, pointer, hint, depth).findings, least), q)
  {
    hide Under, Child, Walk, IsJson, Keep, Select;
    var at := Child(pointer, node.kind, node.keys, i);
    var own := Walk(s, node.kids[i], at, HintFor(node.kind, node.keys, i, hint), depth).findings;
    var rest := WalkKids(s, node.kind, node.keys, node.kids, i + 1, pointer, hint, depth).findings;
    WalkStaysUnder(s, node.kids[i], at, HintFor(node.kind, node.keys, i, hint), depth);
    forall f | f in own ensures f.path != q {
      if f.path == q {
        SiblingsSeparate(pointer, node, i, j, q);
      }
    }
    KeepConcat(own, rest, least);
    SelectConcat(Keep(own, least), Keep(rest, least), q);
    SelectNone(own, least, q);
    assert [] + Select(Keep(rest, least), q) == Select(Keep(rest, least), q);
  }

  lemma {:induction false} TooDeep(s: Scanner, kind: Kind, keys: seq<string>, kids: seq<Node>, i: nat,
                                   pointer: string, hint: string, depth: int)
    requires i <= |kids| && depth > s.maxDepth
    ensures WalkKids(s, kind, keys, kids, i, pointer, hint, depth).findings == []
    decreases |kids| - i
  {
    hide Child, HintFor, ScanText;
    if i < |kids| {
      TooDeep(s, kind, keys, kids, i + 1, pointer, hint, depth);
    }
  }

  /** Carrying the findings by pointer is working leaf by leaf. */
  lemma {:induction false} RedactIsLeafByLeaf(c: Config, s: Scanner, least: int, node: Node, pointer: string,
                                              hint: string, depth: int, all: seq<Finding>)
    requires IsJson(node)
    requires Agree(all, Keep(Walk(s, node, pointer, hint, depth).findings, least), pointer)
    ensures Redact(c, node, pointer, all) == LeafByLeaf(c, s, least, node, pointer, hint, depth)
    decreases node
  {
    hide ScanText, RewriteLeaf, Child;
    match node {
      case Text(text) =>
        assert Under(pointer, pointer);
        if depth <= s.maxDepth {
          ScanPath(s, text, hint, pointer);
          SelectAll(ScanText(s, text, hint, pointer).findings, least, pointer);
        }
      case Atom(_) =>
      case Branch(kind, keys, kids) =>
        if depth > s.maxDepth {
          TooDeep(s, kind, keys, kids, 0, pointer, hint, depth + 1);
        }
        forall j, q | 0 <= j < |kids| && Under(Child(pointer, kind, keys, j), q)
          ensures Select(all, q) == Select(Keep(WalkKids(s, kind, keys, kids, 0, pointer, hint, depth + 1).findings, least), q)
        {
          ChildIsUnder(pointer, kind, keys, j, q);
        }
        RedactKidsLeafByLeaf(c, s, least, node, 0, pointer, hint, depth + 1, all);
    }
  }

  lemma {:induction false} RedactKidsLeafByLeaf(c: Config, s: Scanner, least: int, node: Node, i: nat, pointer: string,
                                                hint: string, depth: int, all: seq<Finding>)
    requires node.Branch? && IsJson(node) && i <= |node.kids|
    requires forall j, q | i <= j < |node.kids| && Under(Child(pointer, node.kind, node.keys, j), q) ::
               Select(all, q) ==
               Select(Keep(WalkKids(s, node.kind, node.keys, node.kids, i, pointer, hint, depth).findings, least), q)
    ensures RedactKids(c, node.kind, node.keys, node.kids, i, pointer, all)
         == LeafByLeafKids(c, s, least, node.kind, node.keys, node.kids, i, pointer, hint, depth)
    decreases node.kids, |node.kids| - i
  {
    hide Under, Child, Walk, WalkKids, Keep, Select, Redact, LeafByLeaf;
    if i < |node.kids| {
      var kid, at := node.kids[i], Child(pointer, node.kind, node.keys, i);
      var childHint := HintFor(node.kind, node.keys, i, hint);
      assert kid in node.kids;
      forall q | Under(at, q)
        ensures Select(all, q) == Select(Keep(Walk(s, kid, at, childHint, depth).findings, least), q)
      {
        KidAgrees(s, node, i, pointer, hint, depth, least, q);
      }
      RedactIsLeafByLeaf(c, s, least, kid, at, childHint, depth, all);
      forall j, q | i + 1 <= j < |node.kids| && Under(Child(pointer, node.kind, node.keys, j), q)
        ensures Select(all, q) ==
          Select(Keep(WalkKids(s, node.kind, node.keys, node.kids, i + 1, pointer, hint, depth).findings, least), q)
      {
        LaterKidsAgree(s, node, i, j, pointer, hint, depth, least, q);
      }
      RedactKidsLeafByLeaf(c, s, least, node, i + 1, pointer, hint, depth, all);
    }
  }

  /** Scanning a JSON value and redacting it with what the scan kept rewrites every string
      leaf within the depth limit exactly as that leaf alone would be, and nothing else. */
  lemma ScanThenRedact(c: Config, s: Scanner, least: int, payload: Node)
    requires IsJson(payload)
    ensures Redact(c, payload, "", Keep(Walk(s, payload, "", "", 0).findings, least))
         == LeafByLeaf(c, s, least, payload, "", "", 0)
  {
    RedactIsLeafByLeaf(c, s, least, payload, "", "", 0, Keep(Walk(s, payload, "", "", 0).findings, least));
  }

  // --- shape and coverage ------------------------------------------------------------------------

  /** The same tree but for the text of its string leaves. */
  ghost predicate SameShape(a: Node, b: Node) {
    match a
    case Text(_) => b.Text?
    case Atom(_) => b == a
    case Branch(kind, keys, kids) =>
      && b.Branch? && b.kind == kind && b.keys == keys && |b.kids| == |kids|
      && forall i | 0 <= i < |kids| :: SameShape(kids[i], b.kids[i])
  }

  lemma {:induction false} RedactKeepsShape(c: Config, node: Node, pointer: string, findings: seq<Finding>)
    ensures Redact(c, node, pointer, findings).Ok? ==> SameShape(node, Redact(c, node, pointer, findings).value.value)
    decreases node
  {
    if node.Branch? && Redact(c, node, pointer, findings).Ok? {
      RedactKidsKeepShape(c, node.kind, node.keys, node.kids, 0, pointer, findings);
    }
  }

  lemma {:induction false} RedactKidsKeepShape(c: Config, kind: Kind, keys: seq<string>, kids: seq<Node>, i: nat,
                                               pointer: string, findings: seq<Finding>)
    requires i <= |kids|
    ensures var r := RedactKids(c, kind, keys, kids, i, pointer, findings);
      r.Ok? ==> |r.value.value| == |kids| - i &&
                forall j | i <= j < |kids| :: SameShape(kids[j], r.value.value[j - i])
    decreases kids, |kids| - i
  {
    hide Redact, SameShape, Child;
    if i < |kids| {
      RedactKeepsShape(c, kids[i], Child(pointer, kind, keys, i), findings);
      RedactKidsKeepShape(c, kind, keys, kids, i + 1, pointer, findings);
      var first, rest := Redact(c, kids[i], Child(pointer, kind, keys, i), findings), RedactKids(c, kind, keys, kids, i + 1, pointer, findings);
      if first.Ok? && rest.Ok? {
        ShapesCons(kids, i, first.value.value, rest.value.value);
      }
    }
  }

  lemma ShapesCons(kids: seq<Node>, i: nat, first: Node, rest: seq<Node>)
    requires i < |kids| && SameShape(kids[i], first) && |rest| == |kids| - i - 1
    requires forall j | i + 1 <= j < |kids| :: SameShape(kids[j], rest[j - (i + 1)])
    ensures forall j | i <= j < |kids| :: SameShape(kids[j], ([first] + rest)[j - i])
  {
    hide SameShape;
    forall j | i <= j < |kids| ensures SameShape(kids[j], ([first] + rest)[j - i]) {
      assert j > i ==> ([first] + rest)[j - i] == rest[j - (i + 1)];
    }
  }

  /** Every node is within the depth limit and every string leaf was read to its end. */
  ghost predicate FullyScanned(s: Scanner, node: Node, depth: int) {
    && depth <= s.maxDepth
    && (node.Text? ==> |node.text| <= s.maxChars)
    && (node.Branch? ==> forall kid | kid in node.kids :: FullyScanned(s, kid, depth + 1))
  }

  /** The truncation flag is exact. */
  lemma {:induction false} TruncatedIffNotFullyScanned(s: Scanner, node: Node, pointer: string, hint: string, depth: int)
    ensures Walk(s, node, pointer, hint, depth).truncated <==> !FullyScanned(s, node, depth)
    decreases node
  {
    if depth <= s.maxDepth && node.Branch? {
      KidsTruncatedIff(s, node.kind, node.keys, node.kids, 0, pointer, hint, depth + 1);
      assert node.kids[0..] == node.kids;
    }
  }

  lemma {:induction false} KidsTruncatedIff(s: Scanner, kind: Kind, keys: seq<string>, kids: seq<Node>, i: nat,
                                            pointer: string, hint: string, depth: int)
    requires i <= |kids|
    ensures WalkKids(s, kind, keys, kids, i, pointer, hint, depth).truncated <==>
              !forall kid | kid in kids[i..] :: FullyScanned(s, kid, depth)
    decreases kids, |kids| - i
  {
    hide Walk, FullyScanned;
    if i < |kids| {
      assert kids[i..] == [kids[i]] + kids[i + 1..];
      TruncatedIffNotFullyScanned(s, kids[i], Child(pointer, kind, keys, i), HintFor(kind, keys, i, hint), depth);
      KidsTruncatedIff(s, kind, keys, kids, i + 1, pointer, hint, depth);
    }
  }

  // --- what becomes of one leaf ---------------------------------------------------------------------

  lemma {:induction false} KeepMembers(fs: seq<Finding>, least: int)
    ensures forall f | f in Keep(fs, least) :: f in fs
  {
    if fs != [] {
      KeepMembers(fs[1..], least);
      forall f | f in Keep(fs, least) ensures f in fs {
        assert f == fs[0] || f in Keep(fs[1..], least);
      }
    }
  }

  lemma {:induction false} KeepStaysDisjoint(fs: seq<Finding>, least: int, text: string)
    requires DisjointWithin(fs, text)
    ensures DisjointWithin(Keep(fs, least), text)
  {
    if fs != [] {
      var rest := Keep(fs[1..], least);
      RestFollows(fs, text);
      KeepStaysDisjoint(fs[1..], least, text);
      KeepMembers(fs[1..], least);
      PrependDisjoint(fs[0], rest, text);
    }
  }

  lemma PrependDisjoint(f: Finding, rest: seq<Finding>, text: string)
    requires DisjointWithin(rest, text) && f.start < f.end <= |text| && forall g | g in rest :: f.end <= g.start
    ensures DisjointWithin([f] + rest, text)
  {
    var all := [f] + rest;
    forall i, j | 0 <= i < j < |all| ensures all[i].end <= all[j].start {
      assert all[j] == rest[j - 1] && rest[j - 1] in rest;
      assert i > 0 ==> all[i] == rest[i - 1];
    }
  }

  /** So a scanned leaf is rewritten by simultaneous substitution of its kept findings:
      arbitration leaves them disjoint, and that is all the splicer needs. */
  lemma ScannedLeafIsSubstituted(c: Config, s: Scanner, least: int, text: string, hint: string, pointer: string)
    requires Detects(s) && DetectsApart(s)
    requires Replaceable(c, Keep(ScanText(s, text, hint, pointer).findings, least))
    ensures var kept := Keep(ScanText(s, text, hint, pointer).findings, least);
      && Fits(Edits(c, kept), 0, |text|)
      && RewriteLeaf(c, text, kept) ==
           Ok(Redacted(Text(Substitute(text, 0, Edits(c, kept))), AppliedTo(c, kept), Uncovered(c, kept)))
  {
    hide ScanText, DisjointWithin, Edits, Substitute;
    var found := ScanText(s, text, hint, pointer).findings;
    ScanIsDisjoint(s, text, hint, pointer);
    KeepStaysDisjoint(found, least, text);
    SplicingIsSubstitution(c, text, Keep(found, least), Keep(found, least));
    if Keep(found, least) == [] {
      NothingToEdit(c, text);
    }
  }

  lemma NothingToEdit(c: Config, text: string)
    ensures Edits(c, []) == [] && Substitute(text, 0, []) == text && AppliedTo(c, []) == [] && Uncovered(c, []) == []
  {}

  // --- where a finding points ------------------------------------------------------------------------

  /** The rest of a pointer after one segment of it. */
  ghost predicate Splits(pointer: string, token: string, rest: string) {
    pointer == "/" + token + rest && SlashFree(token) && (rest == "" || rest[0] == '/')
  }

  /** A dict's kids go by their keys, escaped; a list's by number from nought. */
  ghost predicate Names(node: Node, i: nat, token: string)
    requires node.Branch?
  {
    if node.kind == Dict then i < |node.keys| && Unescape(token) == node.keys[i] else token == Decimal(i)
  }

  ghost function KeyAt(node: Node, i: nat, hint: string): string
    requires node.Branch?
  {
    if node.kind == Dict && i < |node.keys| then node.keys[i] else hint
  }

  /** The value a pointer refers to, as section 4 of RFC 6901 evaluates it, and the last key on
      the way there, which a list's elements share. */
  ghost predicate Points(node: Node, pointer: string, hint: string, to: Node, own: string)
    decreases node
  {
    if pointer == "" then to == node && own == hint
    else
      node.Branch? &&
      exists i, token, rest ::
        0 <= i < |node.kids| && Splits(pointer, token, rest) && Names(node, i, token)
        && Points(node.kids[i], rest, KeyAt(node, i, hint), to, own)
  }

  /** The path goes on from this pointer to a string of the tree, and the finding is one that
      scanning that string alone, under the last key on the way, gives; so it quotes it. */
  ghost predicate PointsInto(s: Scanner, node: Node, pointer: string, hint: string, f: Finding) {
    && pointer <= f.path
    && exists text, own ::
         && Points(node, f.path[|pointer|..], hint, Text(text), own)
         && f in ScanText(s, text, own, f.path).findings
         && f.start < f.end <= |text| && f.value == text[f.start..f.end]
  }

  lemma TailOf(whole: string, at: string, pointer: string, token: string)
    requires at == pointer + "/" + token && at <= whole
    ensures pointer <= whole && whole[|pointer|..] == "/" + token + whole[|at|..]
  {
    assert whole == at + whole[|at|..];
  }

  lemma PointsStartsWithSlash(node: Node, pointer: string, hint: string, to: Node, own: string)
    requires Points(node, pointer, hint, to, own)
    ensures pointer == "" || pointer[0] == '/'
  {}

  lemma PointsDown(node: Node, i: nat, pointer: string, token: string, rest: string, hint: string, to: Node, own: string)
    requires node.Branch? && i < |node.kids| && Names(node, i, token) && pointer != ""
    requires Splits(pointer, token, rest) && Points(node.kids[i], rest, KeyAt(node, i, hint), to, own)
    ensures Points(node, pointer, hint, to, own)
  {
    hide Splits, Names, KeyAt;
  }

  lemma PointsStep(node: Node, i: nat, token: string, rest: string, hint: string, to: Node, own: string)
    requires node.Branch? && i < |node.kids| && IsJson(node) && token == Segment(node.kind, node.keys, i)
    requires Points(node.kids[i], rest, KeyAt(node, i, hint), to, own)
    ensures Points(node, "/" + token + rest, hint, to, own)
  {
    PointsStartsWithSlash(node.kids[i], rest, KeyAt(node, i, hint), to, own);
    hide Escape, Unescape, SlashFree, Points;
    SegmentSlashFree(node.kind, node.keys, i);
    if node.kind == Dict {
      EscapeRoundTrip(node.keys[i]);
    }
    assert Splits("/" + token + rest, token, rest);
    PointsDown(node, i, "/" + token + rest, token, rest, hint, to, own);
  }

  lemma {:induction false} PointsThrough(s: Scanner, node: Node, pointer: string, hint: string, i: nat, f: Finding)
    requires node.Branch? && i < |node.kids| && IsJson(node)
    requires PointsInto(s, node.kids[i], Child(pointer, node.kind, node.keys, i), KeyAt(node, i, hint), f)
    ensures PointsInto(s, node, pointer, hint, f)
  {
    hide Points, IsJson, Segment, ScanText, KeyAt;
    var at, token := Child(pointer, node.kind, node.keys, i), Segment(node.kind, node.keys, i);
    var rest := f.path[|at|..];
    var text, own :|
      && Points(node.kids[i], rest, KeyAt(node, i, hint), Text(text), own)
      && f in ScanText(s, text, own, f.path).findings
      && f.start < f.end <= |text| && f.value == text[f.start..f.end];
    TailOf(f.path, at, pointer, token);
    PointsStep(node, i, token, rest, hint, Text(text), own);
  }

  /** Every finding's pointer refers, in the tree that was scanned, to a string; the finding is
      what scanning that string alone gives, with the last key before it for a hint. */
  lemma {:induction false} FindingsPoint(s: Scanner, node: Node, pointer: string, hint: string, depth: int, f: Finding)
    requires Detects(s) && DetectsApart(s) && IsJson(node) && f in Walk(s, node, pointer, hint, depth).findings
    ensures PointsInto(s, node, pointer, hint, f)
    decreases node
  {
    hide Detects, DetectsApart, ScanText, Child, HintFor;
    match node {
      case Text(text) =>
        ScanIsDisjoint(s, text, hint, pointer);
        PointsHere(s, node, pointer, hint, text, f);
      case Branch(kind, keys, kids) =>
        KidsFindingsPoint(s, node, 0, pointer, hint, depth + 1, f);
    }
  }

  lemma PointsHere(s: Scanner, node: Node, pointer: string, hint: string, text: string, f: Finding)
    requires node == Text(text) && f.path == pointer && f in ScanText(s, text, hint, pointer).findings
    requires f.start < f.end <= |text| && f.value == text[f.start..f.end]
    ensures PointsInto(s, node, pointer, hint, f)
  {
    hide ScanText;
    assert f.path[|pointer|..] == "" && Points(node, "", hint, Text(text), hint);
  }

  lemma HintIs(node: Node, i: nat, hint: string)
    requires node.Branch?
    ensures HintFor(node.kind, node.keys, i, hint) == KeyAt(node, i, hint)
  {}

  lemma {:induction false} KidsFindingsPoint(s: Scanner, node: Node, i: nat, pointer: string, hint: string, depth: int, f: Finding)
    requires Detects(s) && DetectsApart(s) && node.Branch? && IsJson(node) && i <= |node.kids|
    requires f in WalkKids(s, node.kind, node.keys, node.kids, i, pointer, hint, depth).findings
    ensures PointsInto(s, node, pointer, hint, f)
    decreases node, 0, |node.kids| - i
  {
    hide Walk, PointsInto, Detects, DetectsApart, HintFor, Child;
    var at, own := Child(pointer, node.kind, node.keys, i), HintFor(node.kind, node.keys, i, hint);
    assert node.kids[i] in node.kids;
    if f in Walk(s, node.kids[i], at, own, depth).findings {
      FindingsPoint(s, node.kids[i], at, own, depth, f);
      HintIs(node, i, hint);
      PointsThrough(s, node, pointer, hint, i, f);
    } else {
      KidsFindingsPoint(s, node, i + 1, pointer, hint, depth, f);
    }
  }

  // --- nothing of a masked or dropped value leaves a tree ----------------------------------------------

  /** Two leaves with the same things found in each but for the values, that differ only inside
      what is masked or dropped; and no other difference. */
  ghost predicate AlikeTrees(c: Config, s: Scanner, least: int, a: Node, b: Node, pointer: string, hint: string, depth: int)
    decreases a
  {
    match a
    case Text(text) =>
      b.Text? && (if depth > s.maxDepth then b == a
                  else AlikeOutside(c, text, Keep(ScanText(s, text, hint, pointer).findings, least),
                                    b.text, Keep(ScanText(s, b.text, hint, pointer).findings, least)))
    case Atom(_) => b == a
    case Branch(kind, keys, kids) =>
      && b.Branch? && b.kind == kind && b.keys == keys && |b.kids| == |kids|
      && forall i | 0 <= i < |kids| ::
           AlikeTrees(c, s, least, kids[i], b.kids[i], Child(pointer, kind, keys, i), HintFor(kind, keys, i, hint), depth + 1)
  }

  lemma KeptAreQuoted(s: Scanner, least: int, text: string, hint: string, pointer: string)
    requires Detects(s) && DetectsApart(s)
    ensures var kept := Keep(ScanText(s, text, hint, pointer).findings, least);
      DisjointWithin(kept, text) && Quoting(kept, text)
  {
    hide ScanText, DisjointWithin;
    var found := ScanText(s, text, hint, pointer).findings;
    ScanIsDisjoint(s, text, hint, pointer);
    KeepStaysDisjoint(found, least, text);
    KeepMembers(found, least);
  }

  lemma LeafConceals(c: Config, s: Scanner, least: int, a: string, b: string, hint: string, pointer: string)
    requires Detects(s) && DetectsApart(s)
    requires AlikeOutside(c, a, Keep(ScanText(s, a, hint, pointer).findings, least),
                          b, Keep(ScanText(s, b, hint, pointer).findings, least))
    ensures RewriteLeaf(c, a, Keep(ScanText(s, a, hint, pointer).findings, least))
         == RewriteLeaf(c, b, Keep(ScanText(s, b, hint, pointer).findings, least))
  {
    hide ScanText, DisjointWithin, Keep, ApplyToText, Detects, DetectsApart, Concealed;
    var fs, gs := Keep(ScanText(s, a, hint, pointer).findings, least), Keep(ScanText(s, b, hint, pointer).findings, least);
    KeptAreQuoted(s, least, a, hint, pointer);
    KeptAreQuoted(s, least, b, hint, pointer);
    if fs == [] {
      assert forall i | 0 <= i < |a| :: a[i] == b[i];
      assert a == b;
    } else {
      ConcealedIsGone(c, a, fs, fs, b, gs, gs);
    }
  }

  /** Redacting leaf by leaf gives one tree, one report and one list of uncovered findings for
      any two trees that differ only inside what is masked or dropped. */
  lemma {:induction false} TreesConceal(c: Config, s: Scanner, least: int, a: Node, b: Node, pointer: string, hint: string, depth: int)
    requires Detects(s) && DetectsApart(s) && AlikeTrees(c, s, least, a, b, pointer, hint, depth)
    ensures LeafByLeaf(c, s, least, a, pointer, hint, depth) == LeafByLeaf(c, s, least, b, pointer, hint, depth)
    decreases a
  {
    hide Detects, DetectsApart, RewriteLeaf, ScanText, Keep, AlikeOutside;
    match a {
      case Text(text) =>
        if depth <= s.maxDepth {
          LeafConceals(c, s, least, text, b.text, hint, pointer);
        }
      case Atom(_) =>
      case Branch(kind, keys, kids) =>
        KidsConceal(c, s, least, kind, keys, kids, b.kids, 0, pointer, hint, depth + 1);
    }
  }

  lemma {:induction false} KidsConceal(c: Config, s: Scanner, least: int, kind: Kind, keys: seq<string>, kids: seq<Node>,
                                       others: seq<Node>, i: nat, pointer: string, hint: string, depth: int)
    requires Detects(s) && DetectsApart(s) && i <= |kids| == |others|
    requires forall j | 0 <= j < |kids| ::
      AlikeTrees(c, s, least, kids[j], others[j], Child(pointer, kind, keys, j), HintFor(kind, keys, j, hint), depth)
    ensures LeafByLeafKids(c, s, least, kind, keys, kids, i, pointer, hint, depth)
         == LeafByLeafKids(c, s, least, kind, keys, others, i, pointer, hint, depth)
    decreases kids, |kids| - i
  {
    hide LeafByLeaf, AlikeTrees, Detects, DetectsApart, Child, HintFor;
    if i < |kids| {
      TreesConceal(c, s, least, kids[i], others[i], Child(pointer, kind, keys, i), HintFor(kind, keys, i, hint), depth);
      KidsConceal(c, s, least, kind, keys, kids, others, i + 1, pointer, hint, depth);
    }
  }

  lemma {:induction false} SameConcat(fs: seq<Finding>, gs: seq<Finding>, fs': seq<Finding>, gs': seq<Finding>)
    requires SameButValues(fs, gs) && SameButValues(fs', gs')
    ensures SameButValues(fs + fs', gs + gs')
  {}

  lemma {:induction false} AlikeIsScannedAlike(c: Config, s: Scanner, least: int, a: Node, b: Node, pointer: string, hint: string, depth: int)
    requires AlikeTrees(c, s, least, a, b, pointer, hint, depth)
    ensures SameButValues(Keep(Walk(s, a, pointer, hint, depth).findings, least), Keep(Walk(s, b, pointer, hint, depth).findings, least))
    ensures Walk(s, a, pointer, hint, depth).truncated == Walk(s, b, pointer, hint, depth).truncated
    ensures (forall f | f in Keep(Walk(s, a, pointer, hint, depth).findings, least) :: !Concealed(c, f.tag)) ==> a == b
    decreases a
  {
    hide Concealed, Resolved, Raw, AllAt;
    if depth <= s.maxDepth {
      match a {
        case Text(text) =>
          AlikeTexts(c, text, Keep(ScanText(s, text, hint, pointer).findings, least),
                     b.text, Keep(ScanText(s, b.text, hint, pointer).findings, least));
        case Atom(_) =>
        case Branch(kind, keys, kids) =>
          AlikeKidsAreScannedAlike(c, s, least, kind, keys, kids, b.kids, 0, pointer, hint, depth + 1);
          assert kids[0..] == kids && b.kids[0..] == b.kids;
      }
    } else {
      AlikeTooDeep(c, s, least, a, b, pointer, hint, depth);
    }
  }

  lemma AlikeTexts(c: Config, a: string, fs: seq<Finding>, b: string, gs: seq<Finding>)
    requires AlikeOutside(c, a, fs, b, gs)
    ensures (forall f | f in fs :: !Concealed(c, f.tag)) ==> a == b
  {
    hide Concealed;
  }

  lemma {:induction false} AlikeTooDeep(c: Config, s: Scanner, least: int, a: Node, b: Node, pointer: string, hint: string, depth: int)
    requires AlikeTrees(c, s, least, a, b, pointer, hint, depth) && depth > s.maxDepth
    ensures a == b
    decreases a
  {
    hide AlikeOutside, ScanText, Keep, Child, HintFor;
    if a.Branch? {
      forall i | 0 <= i < |a.kids| ensures a.kids[i] == b.kids[i] {
        AlikeTooDeep(c, s, least, a.kids[i], b.kids[i], Child(pointer, a.kind, a.keys, i), HintFor(a.kind, a.keys, i, hint), depth + 1);
      }
    }
  }

  lemma {:induction false} AlikeKidsAreScannedAlike(c: Config, s: Scanner, least: int, kind: Kind, keys: seq<string>,
                                                    kids: seq<Node>, others: seq<Node>, i: nat, pointer: string, hint: string,
                                                    depth: int)
    requires i <= |kids| == |others|
    requires forall j | 0 <= j < |kids| ::
      AlikeTrees(c, s, least, kids[j], others[j], Child(pointer, kind, keys, j), HintFor(kind, keys, j, hint), depth)
    ensures var w, v := WalkKids(s, kind, keys, kids, i, pointer, hint, depth), WalkKids(s, kind, keys, others, i, pointer, hint, depth);
      && SameButValues(Keep(w.findings, least), Keep(v.findings, least)) && w.truncated == v.truncated
      && ((forall f | f in Keep(w.findings, least) :: !Concealed(c, f.tag)) ==> kids[i..] == others[i..])
    decreases kids, |kids| - i
  {
    hide Walk, AlikeTrees, Concealed, Keep, Child, HintFor;
    if i < |kids| {
      var at, own := Child(pointer, kind, keys, i), HintFor(kind, keys, i, hint);
      AlikeIsScannedAlike(c, s, least, kids[i], others[i], at, own, depth);
      AlikeKidsAreScannedAlike(c, s, least, kind, keys, kids, others, i + 1, pointer, hint, depth);
      var w, v := Walk(s, kids[i], at, own, depth), Walk(s, others[i], at, own, depth);
      var w', v' := WalkKids(s, kind, keys, kids, i + 1, pointer, hint, depth), WalkKids(s, kind, keys, others, i + 1, pointer, hint, depth);
      KeepConcat(w.findings, w'.findings, least);
      KeepConcat(v.findings, v'.findings, least);
      SameConcat(Keep(w.findings, least), Keep(v.findings, least), Keep(w'.findings, least), Keep(v'.findings, least));
      assert kids[i..] == [kids[i]] + kids[i + 1..] && others[i..] == [others[i]] + others[i + 1..];
    }
  }

  // --- how much was read --------------------------------------------------------------------------------

  /** The characters in a tree's strings. */
  function Chars(node: Node): nat
    decreases node
  {
    match node
    case Text(text) => |text|
    case Atom(_) => 0
    case Branch(_, _, kids) => CharsOf(kids)
  }

  function CharsOf(kids: seq<Node>): nat
    decreases kids
  {
    if kids == [] then 0 else Chars(kids[0]) + CharsOf(kids[1..])
  }

  /** A scan that read all there is counts all there is. */
  lemma {:induction false} WholeScanCountsAll(s: Scanner, node: Node, pointer: string, hint: string, depth: int)
    requires FullyScanned(s, node, depth)
    ensures Walk(s, node, pointer, hint, depth).scannedChars == Chars(node)
    decreases node
  {
    if node.Branch? {
      WholeScansCountAll(s, node.kind, node.keys, node.kids, 0, pointer, hint, depth + 1);
      assert node.kids[0..] == node.kids;
    }
  }

  lemma {:induction false} WholeScansCountAll(s: Scanner, kind: Kind, keys: seq<string>, kids: seq<Node>, i: nat,
                                              pointer: string, hint: string, depth: int)
    requires i <= |kids| && forall kid | kid in kids :: FullyScanned(s, kid, depth)
    ensures WalkKids(s, kind, keys, kids, i, pointer, hint, depth).scannedChars == CharsOf(kids[i..])
    decreases kids, |kids| - i
  {
    hide Walk, FullyScanned, Child, HintFor;
    if i < |kids| {
      assert kids[i] in kids && kids[i..][0] == kids[i] && kids[i..][1..] == kids[i + 1..];
      WholeScanCountsAll(s, kids[i], Child(pointer, kind, keys, i), HintFor(kind, keys, i, hint), depth);
      WholeScansCountAll(s, kind, keys, kids, i + 1, pointer, hint, depth);
    }
  }
}
