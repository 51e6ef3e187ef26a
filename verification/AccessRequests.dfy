/**
 The question put to the policy engine: the decision pipeline's access request
 (control_plane/pdp.py) and the object that selectors are resolved against
 (control_plane/policy/model.py).
 */
module AccessRequests {
  import opened Wrappers
  import opened Ordering
  import opened Operators
  import opened MatchTree

  /** Attributes and context are the caller's and the catalog's, and may be any JSON. */
  datatype AccessRequest = AccessRequest(
    principalId: string,
    principalType: string,
    principalAttributes: seq<Entry>,
    action: string,
    urn: Option<string>,
    kind: Option<string>,
    classifications: seq<string>,
    resourceAttributes: seq<Entry>,
    registered: bool,
    matchedPatterns: seq<string>,
    context: seq<Entry>,
    findings: seq<string>,
    truncated: bool,
    scanned: nat
  )

  // --- objects ------------------------------------------------------------------------

  function Replaced(base: seq<Entry>, extra: seq<Entry>): seq<Entry> {
    if base == [] then []
    else
      var over := Find(extra, base[0].key);
      [if over.Some? then Entry(base[0].key, over.value) else base[0]] + Replaced(base[1..], extra)
  }

  function Added(base: seq<Entry>, extra: seq<Entry>): seq<Entry> {
    if extra == [] then []
    else (if Find(base, extra[0].key) == None then [extra[0]] else []) + Added(base, extra[1..])
  }

  /** One object spread over another. */
  function Overlay(base: seq<Entry>, extra: seq<Entry>): seq<Entry> {
    Replaced(base, extra) + Added(base, extra)
  }

  lemma {:induction false} FindConcat(a: seq<Entry>, b: seq<Entry>, key: string)
    ensures Find(a + b, key) == if Find(a, key).Some? then Find(a, key) else Find(b, key)
  {
    if a == [] {
      assert a + b == b;
    } else {
      assert (a + b)[0] == a[0] && (a + b)[1..] == a[1..] + b;
      FindConcat(a[1..], b, key);
    }
  }

  lemma {:induction false} FindReplaced(base: seq<Entry>, extra: seq<Entry>, key: string)
    ensures Find(Replaced(base, extra), key) ==
            if Find(base, key) == None then None
            else if Find(extra, key).Some? then Find(extra, key) else Find(base, key)
  {
    if base != [] {
      FindReplaced(base[1..], extra, key);
    }
  }

  lemma {:induction false} FindAdded(base: seq<Entry>, extra: seq<Entry>, key: string)
    ensures Find(Added(base, extra), key) == if Find(base, key) == None then Find(extra, key) else None
  {
    hide Find;
    FindNothing(key);
    if extra != [] {
      var first := if Find(base, extra[0].key) == None then [extra[0]] else [];
      FindAdded(base, extra[1..], key);
      FindConcat(first, Added(base, extra[1..]), key);
      FindFirst(extra, key);
      FindOne(extra[0].key, extra[0].value);
    } else {
      assert Added(base, extra) == [];
    }
  }

  /** Spreading: what is laid over wins. */
  lemma FindOverlay(base: seq<Entry>, extra: seq<Entry>, key: string)
    ensures Find(Overlay(base, extra), key) == if Find(extra, key).Some? then Find(extra, key) else Find(base, key)
  {
    hide Find;
    FindConcat(Replaced(base, extra), Added(base, extra), key);
    FindReplaced(base, extra, key);
    FindAdded(base, extra, key);
  }

  // --- the selector root -----------------------------------------------------------------

  function Strs(labels: seq<string>): (r: seq<Value>)
    ensures |r| == |labels| && forall i | 0 <= i < |r| :: r[i] == Str(labels[i])
  {
    if labels == [] then [] else [Str(labels[0])] + Strs(labels[1..])
  }

  function Labels(labels: seq<string>): Value {
    Arr(Strs(SortedSet(labels)))
  }

  function Nullable(s: Option<string>): Value {
    if s == None then Null else Str(s.value)
  }

  /** The pipeline lays what the catalog knows over the attributes. */
  function ResourceAttributes(q: AccessRequest): seq<Entry> {
    Overlay(q.resourceAttributes,
            [Entry("registered", Bool(q.registered)), Entry("matched_patterns", Arr(Strs(q.matchedPatterns)))])
  }

  function PrincipalRoot(q: AccessRequest): Value {
    Obj(Overlay([Entry("id", Str(q.principalId)), Entry("type", Str(q.principalType)),
                 Entry("attributes", Obj(q.principalAttributes))], q.principalAttributes))
  }

  function ResourceRoot(q: AccessRequest): Value {
    Obj(Overlay([Entry("urn", Nullable(q.urn)), Entry("kind", Nullable(q.kind)),
                 Entry("classifications", Labels(q.classifications)),
                 Entry("attributes", Obj(ResourceAttributes(q)))], ResourceAttributes(q)))
  }

  function EnvRoot(q: AccessRequest): Value {
    Obj([Entry("payload_truncated", Bool(q.truncated)), Entry("payload_scanned", Num(q.scanned))])
  }

  function SelectorRoot(q: AccessRequest): Value {
    Obj([Entry("principal", PrincipalRoot(q)),
         Entry("action", Str(q.action)),
         Entry("resource", ResourceRoot(q)),
         Entry("context", Obj(q.context)),
         Entry("findings", Labels(q.findings)),
         Entry("classifications", Labels(q.classifications + q.findings)),
         Entry("env", EnvRoot(q))])
  }

  function RootOf(q: AccessRequest, key: string): Option<Value> {
    match key
    case "principal" => Some(PrincipalRoot(q))
    case "action" => Some(Str(q.action))
    case "resource" => Some(ResourceRoot(q))
    case "context" => Some(Obj(q.context))
    case "findings" => Some(Labels(q.findings))
    case "classifications" => Some(Labels(q.classifications + q.findings))
    case "env" => Some(EnvRoot(q))
    case _ => None
  }

  lemma FindFirst(entries: seq<Entry>, key: string)
    requires entries != []
    ensures Find(entries, key) == if entries[0].key == key then Some(entries[0].value) else Find(entries[1..], key)
  {}

  lemma Skip(entry: Entry, rest: seq<Entry>, key: string)
    ensures Find([entry] + rest, key) == if entry.key == key then Some(entry.value) else Find(rest, key)
  {
    assert ([entry] + rest)[1..] == rest;
  }

  lemma RootEntries(q: AccessRequest)
    ensures SelectorRoot(q).Obj? && |SelectorRoot(q).entries| == 7
    ensures var es := SelectorRoot(q).entries;
      && es[0] == Entry("principal", PrincipalRoot(q)) && es[1] == Entry("action", Str(q.action))
      && es[2] == Entry("resource", ResourceRoot(q)) && es[3] == Entry("context", Obj(q.context))
      && es[4] == Entry("findings", Labels(q.findings))
      && es[5] == Entry("classifications", Labels(q.classifications + q.findings)) && es[6] == Entry("env", EnvRoot(q))
  {
    hide PrincipalRoot, ResourceRoot, EnvRoot, Labels;
  }

  lemma FindRoot(q: AccessRequest, key: string)
    ensures SelectorRoot(q).Obj? && Find(SelectorRoot(q).entries, key) == RootOf(q, key)
  {
    hide Find, SelectorRoot, PrincipalRoot, ResourceRoot, EnvRoot, Labels;
    RootEntries(q);
    var es := SelectorRoot(q).entries;
    assert es[0..] == es && es[7..] == [];
    FindAt(es, 0, key);
    FindAt(es, 1, key);
    FindAt(es, 2, key);
    FindAt(es, 3, key);
    FindAt(es, 4, key);
    FindAt(es, 5, key);
    FindAt(es, 6, key);
    FindNothing(key);
  }

  lemma FindAt(entries: seq<Entry>, i: nat, key: string)
    requires i < |entries|
    ensures Find(entries[i..], key) == if entries[i].key == key then Some(entries[i].value) else Find(entries[i + 1..], key)
  {
    assert entries[i..][1..] == entries[i + 1..];
  }

  lemma FindNothing(key: string)
    ensures Find([], key) == None
  {}

  lemma WalkObject(entries: seq<Entry>, segments: seq<string>)
    requires segments != []
    ensures Walk(Some(Obj(entries)), segments) ==
            (match Find(entries, segments[0]) case None => Ok(None) case Some(v) => Walk(Some(v), segments[1..]))
  {}

  lemma WalkRoot(q: AccessRequest, segments: seq<string>)
    requires segments != []
    ensures Walk(Some(SelectorRoot(q)), segments) ==
            (match RootOf(q, segments[0]) case None => Ok(None) case Some(v) => Walk(Some(v), segments[1..]))
  {
    hide SelectorRoot, RootOf, Walk;
    FindRoot(q, segments[0]);
    WalkObject(SelectorRoot(q).entries, segments);
  }

  lemma FindKnown(q: AccessRequest, key: string)
    ensures Find(ResourceAttributes(q), key) ==
            if key == "registered" then Some(Bool(q.registered))
            else if key == "matched_patterns" then Some(Arr(Strs(q.matchedPatterns)))
            else Find(q.resourceAttributes, key)
  {
    hide Find;
    var a, b := Entry("registered", Bool(q.registered)), Entry("matched_patterns", Arr(Strs(q.matchedPatterns)));
    FindOverlay(q.resourceAttributes, [a, b], key);
    assert [a, b] == [a] + [b] && [b] == [b] + [];
    Skip(a, [b], key);
    Skip(b, [], key);
    FindNothing(key);
  }

  // --- what selectors read -------------------------------------------------------------------

  lemma ReadsUnder(q: AccessRequest, root: string, entries: seq<Entry>, name: string)
    requires '.' !in root && '.' !in name && RootOf(q, root) == Some(Obj(entries))
    ensures ResolvePath(SelectorRoot(q), root + "." + name) == Ok(Find(entries, name))
  {
    hide SelectorRoot, RootOf, Find;
    SegmentsAfter(name, "");
    SegmentsAfter(root, name);
    WalkRoot(q, [root, name]);
    assert [root, name][1..] == [name] && [name][1..] == [];
    WalkObject(entries, [name]);
  }

  lemma ReadsRoot(q: AccessRequest, root: string)
    requires '.' !in root
    ensures ResolvePath(SelectorRoot(q), root) == Ok(RootOf(q, root))
  {
    hide SelectorRoot, RootOf;
    SegmentsAfter(root, "");
    WalkRoot(q, [root]);
    assert [root][1..] == [];
  }

  /** These labels, each once, in order. */
  ghost predicate LabelList(v: Option<Value>, labels: seq<string>) {
    exists names: seq<string> ::
      && Distinct(names) && SortedBy(StringLe, names) && (forall l :: l in names <==> l in labels)
      && v == Some(Arr(Strs(names)))
  }

  lemma LabelsAre(labels: seq<string>)
    ensures LabelList(Some(Labels(labels)), labels)
  {
    SortedSetIs(labels);
  }

  /** The action, the findings' labels, the catalog's together with them, and the scan. */
  lemma RootsRead(q: AccessRequest)
    ensures var root := SelectorRoot(q);
      && ResolvePath(root, "action") == Ok(Some(Str(q.action)))
      && ResolvePath(root, "findings").Ok? && LabelList(ResolvePath(root, "findings").value, q.findings)
      && ResolvePath(root, "classifications").Ok?
      && LabelList(ResolvePath(root, "classifications").value, q.classifications + q.findings)
      && ResolvePath(root, "env" + "." + "payload_truncated") == Ok(Some(Bool(q.truncated)))
      && ResolvePath(root, "env" + "." + "payload_scanned") == Ok(Some(Num(q.scanned)))
  {
    hide SelectorRoot, ResolvePath, Labels, LabelList, PrincipalRoot, ResourceRoot;
    ReadsRoot(q, "action");
    ReadsRoot(q, "findings");
    ReadsRoot(q, "classifications");
    LabelsAre(q.findings);
    LabelsAre(q.classifications + q.findings);
    var env := [Entry("payload_truncated", Bool(q.truncated)), Entry("payload_scanned", Num(q.scanned))];
    assert env[1..] == [Entry("payload_scanned", Num(q.scanned))] && env[1..][1..] == [];
    ReadsUnder(q, "env", env, "payload_truncated");
    ReadsUnder(q, "env", env, "payload_scanned");
  }

  /** An attribute of the caller's wins over the identity's own fields. */
  lemma PrincipalReads(q: AccessRequest, name: string)
    requires '.' !in name
    ensures ResolvePath(SelectorRoot(q), "principal" + "." + name) ==
            Ok(if Find(q.principalAttributes, name).Some? then Find(q.principalAttributes, name)
               else if name == "id" then Some(Str(q.principalId))
               else if name == "type" then Some(Str(q.principalType))
               else if name == "attributes" then Some(Obj(q.principalAttributes)) else None)
  {
    hide SelectorRoot, ResolvePath, Find, Overlay;
    var id, kind, all := Entry("id", Str(q.principalId)), Entry("type", Str(q.principalType)),
                         Entry("attributes", Obj(q.principalAttributes));
    ReadsUnder(q, "principal", PrincipalRoot(q).entries, name);
    FindOverlay([id, kind, all], q.principalAttributes, name);
    assert [id, kind, all] == [id] + ([kind] + ([all] + []));
    Skip(id, [kind] + ([all] + []), name);
    Skip(kind, [all] + [], name);
    Skip(all, [], name);
    FindNothing(name);
  }

  /** What the catalog knows wins over the caller's attributes, and those over the fields. */
  lemma ResourceReads(q: AccessRequest, name: string)
    requires '.' !in name
    ensures var read := ResolvePath(SelectorRoot(q), "resource" + "." + name);
      && read.Ok?
      && (name == "registered" ==> read.value == Some(Bool(q.registered)))
      && (name == "matched_patterns" ==> read.value == Some(Arr(Strs(q.matchedPatterns))))
      && (name !in {"registered", "matched_patterns"} ==>
            if Find(q.resourceAttributes, name).Some? then read.value == Find(q.resourceAttributes, name)
            else if name == "urn" then read.value == Some(if q.urn == None then Null else Str(q.urn.value))
            else if name == "kind" then read.value == Some(if q.kind == None then Null else Str(q.kind.value))
            else if name == "classifications" then LabelList(read.value, q.classifications)
            else if name == "attributes" then read.value == Some(Obj(ResourceAttributes(q))) else read.value == None)
  {
    hide SelectorRoot, ResolvePath, Find, Overlay, Labels, ResourceAttributes, LabelList;
    var urn, kind, labels, all := Entry("urn", Nullable(q.urn)), Entry("kind", Nullable(q.kind)),
                                  Entry("classifications", Labels(q.classifications)),
                                  Entry("attributes", Obj(ResourceAttributes(q)));
    LabelsAre(q.classifications);
    ReadsUnder(q, "resource", ResourceRoot(q).entries, name);
    FindOverlay([urn, kind, labels, all], ResourceAttributes(q), name);
    FindKnown(q, name);
    assert [urn, kind, labels, all] == [urn] + ([kind] + ([labels] + ([all] + [])));
    Skip(urn, [kind] + ([labels] + ([all] + [])), name);
    Skip(kind, [labels] + ([all] + []), name);
    Skip(labels, [all] + [], name);
    Skip(all, [], name);
    FindNothing(name);
  }

  lemma ContextReads(q: AccessRequest, name: string)
    requires '.' !in name
    ensures ResolvePath(SelectorRoot(q), "context" + "." + name) == Ok(Find(q.context, name))
  {
    hide SelectorRoot, ResolvePath, Find;
    ReadsUnder(q, "context", q.context, name);
  }

  // --- where a list may stand --------------------------------------------------------------

  /** Where some request has a list: the label lists, and anything in the context or among
      attributes except the two entries the pipeline lays over those of a resource. */
  predicate ListMayStand(prefix: seq<string>) {
    prefix != [] &&
    match prefix[0]
    case "findings" => |prefix| == 1
    case "classifications" => |prefix| == 1
    case "principal" => |prefix| >= 2
    case "context" => |prefix| >= 2
    case "resource" => |prefix| >= 2 && prefix[1] != "registered" && (prefix[1] == "matched_patterns" ==> |prefix| == 2)
    case _ => false
  }

  /** An index with two dashes where a list may stand. */
  ghost predicate Trapped(segments: seq<string>) {
    exists k :: 0 <= k < |segments| && DoubleDashed(segments[k]) && ListMayStand(segments[..k])
  }

  lemma ScalarStops(v: Value, segments: seq<string>)
    requires !v.Obj? && !v.Arr?
    ensures Walk(Some(v), segments).Ok?
  {}

  lemma LabelsStop(labels: seq<string>, segments: seq<string>)
    requires segments != []
    ensures Walk(Some(Arr(Strs(labels))), segments) == Err(ValueError) <==> DoubleDashed(segments[0])
    ensures Walk(Some(Arr(Strs(labels))), segments).Ok? <==> !DoubleDashed(segments[0])
  {
    var items := Strs(labels);
    var next := Step(Arr(items), segments[0]);
    if DoubleDashed(segments[0]) {
      assert next == Err(ValueError);
    } else {
      assert next.Ok?;
      if next.value.Some? {
        assert next.value.value in items;
        ScalarStops(next.value.value, segments[1..]);
      }
    }
  }

  lemma FindOne(key: string, v: Value)
    ensures Find([Entry(key, v)], key) == Some(v)
    ensures forall other | other != key :: Find([Entry(key, v)], other) == None
  {
    assert [Entry(key, v)][1..] == [];
  }

  lemma FindResource(q: AccessRequest, key: string)
    ensures Find(ResourceAttributes(q), key).Some? ==> Find(ResourceRoot(q).entries, key) == Find(ResourceAttributes(q), key)
  {
    hide Find, ResourceAttributes;
    FindOverlay([Entry("urn", Nullable(q.urn)), Entry("kind", Nullable(q.kind)),
                 Entry("classifications", Labels(q.classifications)),
                 Entry("attributes", Obj(ResourceAttributes(q)))], ResourceAttributes(q), key);
  }

  // --- which selectors raise ------------------------------------------------------------------

  /** Without such an index, no request makes the walk raise. */
  lemma UntrappedIsSafe(q: AccessRequest, segments: seq<string>)
    requires segments != [] && !Trapped(segments)
    ensures Walk(Some(SelectorRoot(q)), segments).Ok?
  {
    hide SelectorRoot, Walk, ResourceRoot, EnvRoot, Labels, DoubleDashed, Overlay;
    WalkRoot(q, segments);
    var first, rest := segments[0], segments[1..];
    match first {
      case "principal" => BelowObject(PrincipalRoot(q), segments);
      case "context" => BelowObject(Obj(q.context), segments);
      case "resource" => BelowResource(q, segments);
      case "findings" => BelowLabels(q.findings, segments);
      case "classifications" => BelowLabels(q.classifications + q.findings, segments);
      case "env" => BelowEnv(q, rest);
      case "action" => ScalarStops(Str(q.action), rest);
      case _ =>
    }
  }

  lemma BelowLabels(labels: seq<string>, segments: seq<string>)
    requires segments != [] && !Trapped(segments) && segments[0] in {"findings", "classifications"}
    ensures Walk(Some(Labels(labels)), segments[1..]).Ok?
  {
    hide DoubleDashed;
    if |segments| > 1 {
      assert ListMayStand(segments[..1]);
      LabelsStop(SortedSet(labels), segments[1..]);
    } else {
      WalkNowhere(Labels(labels));
    }
  }

  lemma WalkNowhere(v: Value)
    ensures Walk(Some(v), []).Ok?
  {}

  /** Below an object, past its key, no segment is such an index. */
  lemma BelowObject(v: Value, segments: seq<string>)
    requires v.Obj? && segments != [] && !Trapped(segments)
    requires forall k | 2 <= k <= |segments| :: ListMayStand(segments[..k])
    ensures Walk(Some(v), segments[1..]).Ok?
  {
    hide Walk, DoubleDashed, ListMayStand;
    if |segments| > 1 {
      WalkObject(v.entries, segments[1..]);
      var rest := segments[2..];
      assert segments[1..][1..] == rest;
      forall segment | segment in rest ensures !DoubleDashed(segment) {
        var i :| 0 <= i < |rest| && rest[i] == segment;
        assert segments[i + 2] == segment && ListMayStand(segments[..i + 2]);
      }
      if Find(v.entries, segments[1]).Some? {
        WalkNeverRaises(Find(v.entries, segments[1]), rest);
      }
    } else {
      assert segments[1..] == [];
      WalkNowhere(v);
    }
  }

  lemma BelowResource(q: AccessRequest, segments: seq<string>)
    requires segments != [] && segments[0] == "resource" && !Trapped(segments)
    ensures Walk(Some(ResourceRoot(q)), segments[1..]).Ok?
  {
    hide Walk, DoubleDashed, Find;
    var v := ResourceRoot(q);
    if |segments| > 1 && segments[1] in {"registered", "matched_patterns"} {
      WalkObject(v.entries, segments[1..]);
      FindKnown(q, segments[1]);
      FindResource(q, segments[1]);
      assert segments[1..][1..] == segments[2..];
      if segments[1] == "registered" {
        ScalarStops(Bool(q.registered), segments[2..]);
      } else if |segments| > 2 {
        assert ListMayStand(segments[..2]);
        LabelsStop(q.matchedPatterns, segments[2..]);
      } else {
        WalkNowhere(Arr(Strs(q.matchedPatterns)));
      }
    } else {
      BelowObject(v, segments);
    }
  }

  lemma BelowEnv(q: AccessRequest, rest: seq<string>)
    ensures Walk(Some(EnvRoot(q)), rest).Ok?
  {
    if rest != [] {
      var a, b := Entry("payload_truncated", Bool(q.truncated)), Entry("payload_scanned", Num(q.scanned));
      assert [a, b] == [a] + [b] && [b] == [b] + [];
      Skip(a, [b], rest[0]);
      Skip(b, [], rest[0]);
      WalkObject([a, b], rest);
      ScalarStops(a.value, rest[1..]);
      ScalarStops(b.value, rest[1..]);
    }
  }

  const PLAIN := AccessRequest("", "unknown", [], "", None, None, [], [], false, [], [], [], false, 0)

  /** With one, some request does. */
  lemma TrappedRaises(segments: seq<string>) returns (q: AccessRequest)
    requires Trapped(segments)
    ensures Walk(Some(SelectorRoot(q)), segments) == Err(ValueError)
  {
    hide SelectorRoot, Walk, PrincipalRoot, ResourceRoot, Labels, Find, Trap, DoubleDashed;
    var k :| 0 <= k < |segments| && DoubleDashed(segments[k]) && ListMayStand(segments[..k]);
    assert segments[..k][0] == segments[0] && (k > 1 ==> segments[..k][1] == segments[1]);
    q := PLAIN;
    match segments[0] {
      case "principal" => q := q.(principalAttributes := TrapAt(segments));
      case "context" => q := q.(context := TrapAt(segments));
      case "resource" => q := q.(resourceAttributes := TrapAt(segments));
      case _ =>
    }
    WalkRoot(q, segments);
    if segments[0] == "findings" || segments[0] == "classifications" {
      LabelsRaise(if segments[0] == "findings" then q.findings else q.classifications + q.findings, segments[1..]);
    } else {
      TrapBelow(segments, k);
      if segments[0] == "principal" {
        PrincipalTrap(q, segments);
      } else if segments[0] == "resource" {
        ResourceTrap(q, segments, k);
      }
    }
  }

  ghost function TrapAt(segments: seq<string>): seq<Entry>
    requires |segments| >= 2
  {
    [Entry(segments[1], Trap(segments[2..]))]
  }

  lemma LabelsRaise(labels: seq<string>, rest: seq<string>)
    requires rest != [] && DoubleDashed(rest[0])
    ensures Walk(Some(Labels(labels)), rest) == Err(ValueError)
  {
    LabelsStop(SortedSet(labels), rest);
  }

  lemma TrapBelow(segments: seq<string>, k: nat)
    requires 2 <= k < |segments| && DoubleDashed(segments[k])
    ensures Walk(Some(Trap(segments[2..])), segments[2..]) == Err(ValueError)
    ensures Walk(Some(Obj(TrapAt(segments))), segments[1..]) == Err(ValueError)
  {
    hide Trap, DoubleDashed;
    assert segments[2..][k - 2] == segments[k];
    TrapRaises(segments[2..]);
    FindOne(segments[1], Trap(segments[2..]));
    WalkObject(TrapAt(segments), segments[1..]);
    assert segments[1..][1..] == segments[2..];
  }

  lemma PrincipalTrap(q: AccessRequest, segments: seq<string>)
    requires |segments| >= 2 && q.principalAttributes == TrapAt(segments)
    requires Walk(Some(Trap(segments[2..])), segments[2..]) == Err(ValueError)
    ensures Walk(Some(PrincipalRoot(q)), segments[1..]) == Err(ValueError)
  {
    hide Walk, Trap, Find;
    FindOne(segments[1], Trap(segments[2..]));
    FindOverlay([Entry("id", Str(q.principalId)), Entry("type", Str(q.principalType)),
                 Entry("attributes", Obj(q.principalAttributes))], q.principalAttributes, segments[1]);
    WalkObject(PrincipalRoot(q).entries, segments[1..]);
    assert segments[1..][1..] == segments[2..];
  }

  lemma ResourceTrap(q: AccessRequest, segments: seq<string>, k: nat)
    requires 2 <= k < |segments| && DoubleDashed(segments[k]) && segments[0] == "resource" && ListMayStand(segments[..k])
    requires q.resourceAttributes == TrapAt(segments)
    requires Walk(Some(Trap(segments[2..])), segments[2..]) == Err(ValueError)
    ensures Walk(Some(ResourceRoot(q)), segments[1..]) == Err(ValueError)
  {
    hide Walk, Trap, Find, DoubleDashed;
    assert segments[..k][0] == segments[0] && segments[..k][1] == segments[1];
    FindOne(segments[1], Trap(segments[2..]));
    FindKnown(q, segments[1]);
    FindResource(q, segments[1]);
    WalkObject(ResourceRoot(q).entries, segments[1..]);
    assert segments[1..][1..] == segments[2..];
    if segments[1] == "matched_patterns" {
      LabelsStop(q.matchedPatterns, segments[2..]);
    }
  }

  /** Exactly which selectors some request makes raise. */
  lemma SelectorRaisesIff(path: string)
    ensures Trapped(Segments(path)) <==> exists q :: ResolvePath(SelectorRoot(q), path).Err?
  {
    hide Walk, SelectorRoot, Trapped;
    if Trapped(Segments(path)) {
      var q := TrappedRaises(Segments(path));
      assert ResolvePath(SelectorRoot(q), path).Err?;
    } else {
      forall q ensures ResolvePath(SelectorRoot(q), path).Ok? {
        UntrappedIsSafe(q, Segments(path));
      }
    }
  }

  // --- which trees raise ------------------------------------------------------------------------

  ghost predicate RequestSafe(node: Match) {
    match node
    case Conditions(conditions) => forall c | c in conditions :: !Trapped(Segments(c.selector))
    case All(kids) => forall kid | kid in kids :: RequestSafe(kid)
    case Any(kids) => forall kid | kid in kids :: RequestSafe(kid)
    case Not(kid) => RequestSafe(kid)
    case Blank => true
  }

  lemma {:induction false} SafeIffRequestsResolve(node: Match)
    ensures RequestSafe(node) <==> forall q :: Resolves(node, SelectorRoot(q))
    decreases node
  {
    hide SelectorRoot, ResolvePath, Trapped;
    match node {
      case Conditions(conditions) =>
        forall c | c in conditions
          ensures !Trapped(Segments(c.selector)) <==> forall q :: ResolvePath(SelectorRoot(q), c.selector).Ok?
        {
          SelectorRaisesIff(c.selector);
        }
        ConditionsResolveIff(conditions);
      case All(kids) =>
        forall kid | kid in kids ensures RequestSafe(kid) <==> forall q :: Resolves(kid, SelectorRoot(q)) {
          SafeIffRequestsResolve(kid);
        }
        KidsResolveIff(node, kids);
      case Any(kids) =>
        forall kid | kid in kids ensures RequestSafe(kid) <==> forall q :: Resolves(kid, SelectorRoot(q)) {
          SafeIffRequestsResolve(kid);
        }
        KidsResolveIff(node, kids);
      case Not(kid) =>
        SafeIffRequestsResolve(kid);
        assert forall q :: Resolves(node, SelectorRoot(q)) <==> Resolves(kid, SelectorRoot(q));
      case Blank =>
    }
  }

  lemma ConditionsResolveIff(conditions: seq<Condition>)
    ensures (forall q :: Resolves(Conditions(conditions), SelectorRoot(q)))
            <==> forall c | c in conditions :: forall q :: ResolvePath(SelectorRoot(q), c.selector).Ok?
  {
    hide SelectorRoot, ResolvePath;
    if forall q :: Resolves(Conditions(conditions), SelectorRoot(q)) {
      forall c, q | c in conditions ensures ResolvePath(SelectorRoot(q), c.selector).Ok? {
        assert Resolves(Conditions(conditions), SelectorRoot(q));
      }
    }
  }

  lemma KidsResolveIff(node: Match, kids: seq<Match>)
    requires node == All(kids) || node == Any(kids)
    ensures (forall q :: Resolves(node, SelectorRoot(q)))
            <==> forall kid | kid in kids :: forall q :: Resolves(kid, SelectorRoot(q))
  {
    hide SelectorRoot;
    if forall q :: Resolves(node, SelectorRoot(q)) {
      forall kid, q | kid in kids ensures Resolves(kid, SelectorRoot(q)) {
        assert Resolves(node, SelectorRoot(q));
      }
    }
  }

  ghost predicate NeverRaisesOnRequests(e: Patterns, node: Match) {
    forall q, explain :: EvalNode(e, node, SelectorRoot(q), explain).Ok?
  }

  /** An accepted tree evaluates without raising on every request exactly when no selector has
      an index with two dashes where a list may stand. */
  lemma NeverRaisesOnRequestsIff(e: Patterns, node: Match)
    requires Canonical(e, node)
    ensures NeverRaisesOnRequests(e, node) <==> RequestSafe(node)
  {
    hide EvalNode, Canonical, Resolves, RequestSafe, SelectorRoot, Holds, Failure, ReachedResolve;
    SafeIffRequestsResolve(node);
    if RequestSafe(node) {
      forall q, explain ensures EvalNode(e, node, SelectorRoot(q), explain).Ok? {
        assert Resolves(node, SelectorRoot(q));
        EvalMeans(e, node, SelectorRoot(q), explain);
      }
    }
    if NeverRaisesOnRequests(e, node) {
      forall q ensures Resolves(node, SelectorRoot(q)) {
        var explain := true;
        assert EvalNode(e, node, SelectorRoot(q), explain).Ok?;
        ExplainingChangesTheAnswerIff(e, node, SelectorRoot(q));
      }
    }
  }

  // --- one document of each kind ------------------------------------------------------------------

  lemma SegmentsOfTwo(a: string, b: string)
    requires '.' !in a && '.' !in b
    ensures Segments(a + "." + b) == [a, b]
  {
    SegmentsAfter(b, "");
    SegmentsAfter(a, b);
  }

  function Indexed(selector: string): Value {
    Obj([Entry(selector, Obj([Entry("exists", Bool(true))]))])
  }

  /** A document asking whether there is a finding or an action of index --5. */
  lemma IndexedIsAccepted(e: Patterns, root: string)
    requires root in {"findings", "action"}
    ensures var selector := root + "." + "--5";
      && Segments(selector) == [root, "--5"] && DoubleDashed("--5")
      && Normalise(e, Indexed(selector)) == Ok(Conditions([Condition(selector, [Test("exists", Bool(true))])]))
  {
    var selector := root + "." + "--5";
    SegmentsOfTwo(root, "--5");
    assert selector[0] == root[0] && selector != "conditions";
    assert StripDashes("--5") == "5";
    var tests := [Test("exists", Bool(true))];
    var entry := Entry(selector, Obj([Entry("exists", Bool(true))]));
    assert NormaliseCondition(entry.value) == tests by {
      assert [Entry("exists", Bool(true))][1..] == [];
    }
    assert ValidateCondition(e, tests).Ok? by {
      assert Lookup("exists") == Some(OpExists);
      assert CheckTest(e, tests[0]).Ok?;
      assert CheckTests(e, tests[1..]) == Ok(()) && CheckTests(e, tests) == CheckTests(e, tests[1..]);
    }
    assert !Structural(selector) by {
      assert |selector| == |root| + 4 && selector[|root|] == '.';
    }
    FindOne(selector, entry.value);
    assert [entry][1..] == [];
    assert ValidateConditions(e, [entry][1..]) == Ok([]) && KnownRoot(entry.key);
    assert [Condition(selector, tests)] + [] == [Condition(selector, tests)];
    assert ValidateConditions(e, [entry]) == Ok([Condition(selector, tests)]);
    assert Find([entry], "conditions") == None;
    assert FirstKey([entry], true) == None;
  }

  /** The document is accepted and raises on every request there is. */
  lemma FindingsIndexRaises(e: Patterns, q: AccessRequest, explain: bool)
    ensures var doc := Indexed("findings" + "." + "--5");
      Normalise(e, doc).Ok? && EvalNode(e, Normalise(e, doc).value, SelectorRoot(q), explain) == Err(ValueError)
  {
    hide SelectorRoot, Walk, DoubleDashed, Normalise, Labels;
    var selector := "findings" + "." + "--5";
    IndexedIsAccepted(e, "findings");
    WalkRoot(q, ["findings", "--5"]);
    LabelsRaise(q.findings, ["findings", "--5"][1..]);
    var conditions := [Condition(selector, [Test("exists", Bool(true))])];
    assert ResolvePath(SelectorRoot(q), selector) == Err(ValueError);
    assert Checks(e, conditions, SelectorRoot(q))[0] == Err(ValueError);
  }

  /** This one too has an index with two dashes, and raises on none. */
  lemma ActionIndexNeverRaises(e: Patterns)
    ensures var doc := Indexed("action" + "." + "--5");
      Normalise(e, doc).Ok? && !Safe(Normalise(e, doc).value) && NeverRaisesOnRequests(e, Normalise(e, doc).value)
  {
    hide SelectorRoot, DoubleDashed, Normalise;
    var selector := "action" + "." + "--5";
    IndexedIsAccepted(e, "action");
    NormalisedIsCanonical(e, Indexed(selector));
    var c := Condition(selector, [Test("exists", Bool(true))]);
    assert c in [c] && "--5" in Segments(selector);
    assert !Trapped(Segments(selector));
    assert RequestSafe(Conditions([c]));
    NeverRaisesOnRequestsIff(e, Conditions([c]));
  }
}
