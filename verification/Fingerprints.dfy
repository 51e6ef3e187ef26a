/**
 What an approval is bound to: the fingerprint of the request it was granted for
 (control_plane/pdp.py, control_plane/audit/chain.py).
 */
module Fingerprints {
  import opened Wrappers
  import opened Ordering
  import opened Operators
  import opened MatchTree
  import opened AccessRequests
  import opened CanonicalJson

  /** A keyed digest, modelled by what it digests: the canonical text of the request's fields,
      and the text of its payload, whose own digest is one of them. */
  datatype Fingerprint = Digest(fields: string, payload: Option<string>)

  const SENSITIVE := {"authorization", "token", "api_key", "apikey", "password", "secret", "cookie"}

  function Lower(s: string): string {
    if s == "" then "" else [if 'A' <= s[0] <= 'Z' then (s[0] as int + 32) as char else s[0]] + Lower(s[1..])
  }

  predicate TooLong(v: Value) {
    v.Str? && |v.s| > 512
  }

  function SafeValue(key: string, v: Value): Value {
    if Lower(key) in SENSITIVE then Str("[dropped]")
    else if TooLong(v) then Str(v.s[..512] + "...")
    else v
  }

  function SafeContext(context: seq<Entry>): (r: seq<Entry>)
    ensures |r| == |context|
    ensures forall i | 0 <= i < |r| :: r[i] == Entry(context[i].key, SafeValue(context[i].key, context[i].value))
  {
    if context == [] then []
    else [Entry(context[0].key, SafeValue(context[0].key, context[0].value))] + SafeContext(context[1..])
  }

  function Sorted(labels: seq<string>): Value {
    Arr(Strs(SortBy(StringLe, labels)))
  }

  function DigestFields(a: AccessRequest): seq<Entry> {
    [Entry("principal_id", Str(a.principalId)), Entry("principal_type", Str(a.principalType)),
     Entry("action", Str(a.action)), Entry("resource_urn", Nullable(a.urn)),
     Entry("classifications", Sorted(a.classifications)), Entry("findings", Sorted(a.findings)),
     Entry("context", Obj(SafeContext(a.context)))]
  }

  /** The text a payload's digest is taken over: a string as it is, anything else as JSON. */
  function Body(payload: Value): string {
    if payload.Str? then payload.s else CanonicalJson.Text(payload)
  }

  /** A null payload is no payload. */
  function FingerprintOf(a: AccessRequest, payload: Value): Fingerprint {
    Digest(CanonicalJson.Text(Obj(DigestFields(a))), if payload == Null then None else Some(Body(payload)))
  }

  // --- which requests share an approval ------------------------------------------------

  /** In whatever letter case, the name of a credential. */
  ghost predicate CredentialName(key: string) {
    exists name :: name in {"authorization", "token", "api_key", "apikey", "password", "secret", "cookie"} && |name| == |key|
      && forall i | 0 <= i < |key| :: name[i] == if 'A' <= key[i] <= 'Z' then (key[i] as int + 32) as char else key[i]
  }

  lemma {:induction false} LowerIs(s: string)
    ensures |Lower(s)| == |s|
    ensures forall i | 0 <= i < |s| :: Lower(s)[i] == if 'A' <= s[i] <= 'Z' then (s[i] as int + 32) as char else s[i]
  {
    if s != "" {
      LowerIs(s[1..]);
    }
  }

  lemma CredentialIs(key: string)
    ensures Lower(key) in SENSITIVE <==> CredentialName(key)
  {
    LowerIs(key);
    if CredentialName(key) {
      var name :| name in SENSITIVE && |name| == |key| && forall i | 0 <= i < |key| :: name[i] == Lower(key)[i];
      assert name == Lower(key);
    }
  }

  /** The same but for what the record keeps of a context value. */
  ghost predicate LooksAlike(key: string, x: Value, y: Value) {
    || CredentialName(key)
    || SameJson(x, y)
    || (x.Str? && y.Str? && |x.s| > 512 && |y.s| > 512 && x.s[..512] == y.s[..512])
  }

  ghost predicate SameContext(a: seq<Entry>, b: seq<Entry>) {
    && (forall i | 0 <= i < |a| :: Find(b, a[i].key).Some? && LooksAlike(a[i].key, a[i].value, Find(b, a[i].key).value))
    && (forall j | 0 <= j < |b| :: Find(a, b[j].key).Some?)
  }

  /** The same JSON, or a string that spells the other out. */
  ghost predicate SamePayload(p: Value, q: Value) {
    if p == Null || q == Null then p == q
    else
      || SameJson(p, q)
      || (p.Str? && !q.Str? && p.s == CanonicalJson.Text(q))
      || (q.Str? && !p.Str? && q.s == CanonicalJson.Text(p))
  }

  lemma {:induction false} FindSafe(context: seq<Entry>, key: string)
    ensures Find(SafeContext(context), key) ==
            if Find(context, key) == None then None else Some(SafeValue(key, Find(context, key).value))
  {
    hide SafeValue;
    if context != [] {
      FindSafe(context[1..], key);
    }
  }

  lemma SafeValueForgets(key: string, x: Value, y: Value)
    ensures SameJson(SafeValue(key, x), SafeValue(key, y)) <==> LooksAlike(key, x, y)
  {
    CredentialIs(key);
    if TooLong(x) && TooLong(y) {
      assert (x.s[..512] + "...")[..512] == x.s[..512];
      assert (y.s[..512] + "...")[..512] == y.s[..512];
    } else if TooLong(x) {
      assert |x.s[..512] + "..."| == 515;
    } else if TooLong(y) {
      assert |y.s[..512] + "..."| == 515;
    }
  }

  lemma {:induction false} ContextForgets(a: seq<Entry>, b: seq<Entry>)
    ensures SameJson(Obj(SafeContext(a)), Obj(SafeContext(b))) <==> SameContext(a, b)
  {
    hide SafeValue, Find, LooksAlike;
    var x, y := SafeContext(a), SafeContext(b);
    forall i | 0 <= i < |a|
      ensures Find(y, x[i].key).Some? <==> Find(b, a[i].key).Some?
      ensures Find(y, x[i].key).Some? ==>
                (SameJson(x[i].value, Find(y, x[i].key).value) <==> LooksAlike(a[i].key, a[i].value, Find(b, a[i].key).value))
    {
      FindSafe(b, a[i].key);
      if Find(b, a[i].key).Some? {
        SafeValueForgets(a[i].key, a[i].value, Find(b, a[i].key).value);
      }
    }
    forall j | 0 <= j < |b| ensures Find(x, y[j].key).Some? <==> Find(a, b[j].key).Some? {
      FindSafe(a, b[j].key);
    }
    SameObjects(x, y, a, b);
  }

  lemma {:induction false} SameObjects(x: seq<Entry>, y: seq<Entry>, a: seq<Entry>, b: seq<Entry>)
    requires |x| == |a| && |y| == |b|
    requires forall i | 0 <= i < |a| ::
               && (Find(y, x[i].key).Some? <==> Find(b, a[i].key).Some?)
               && (Find(y, x[i].key).Some? ==>
                     (SameJson(x[i].value, Find(y, x[i].key).value) <==> LooksAlike(a[i].key, a[i].value, Find(b, a[i].key).value)))
    requires forall j | 0 <= j < |b| :: Find(x, y[j].key).Some? <==> Find(a, b[j].key).Some?
    ensures SameJson(Obj(x), Obj(y)) <==> SameContext(a, b)
  {
    hide Find, LooksAlike, SameJson;
    SameObjectMeans(x, y);
  }

  lemma {:induction false} SafeIsWellKeyed(context: seq<Entry>)
    requires WellKeyed(Obj(context))
    ensures WellKeyed(Obj(SafeContext(context)))
  {
    hide SafeContext, SafeValue;
    var safe := SafeContext(context);
    forall x | x in safe ensures WellKeyed(x.value) {
      var i :| 0 <= i < |safe| && safe[i] == x;
      assert context[i] in context;
      SafeValueWellKeyed(context[i].key, context[i].value);
    }
    ObjectWellKeyed(safe);
  }

  lemma SafeValueWellKeyed(key: string, v: Value)
    requires WellKeyed(v)
    ensures WellKeyed(SafeValue(key, v))
  {}

  lemma {:induction false} ObjectWellKeyed(entries: seq<Entry>)
    requires DistinctKeys(entries) && forall x | x in entries :: WellKeyed(x.value)
    ensures WellKeyed(Obj(entries))
  {
  }

  lemma FieldsWellKeyed(a: AccessRequest)
    requires WellKeyed(Obj(a.context))
    ensures WellKeyed(Obj(DigestFields(a)))
  {
    hide SafeContext, WellKeyed, SortBy, Strs;
    SafeIsWellKeyed(a.context);
    LabelsWellKeyed(SortBy(StringLe, a.classifications));
    LabelsWellKeyed(SortBy(StringLe, a.findings));
    FieldKeys(a);
    ScalarsWellKeyed(a);
    ObjectWellKeyed(DigestFields(a));
  }

  lemma ScalarsWellKeyed(a: AccessRequest)
    ensures WellKeyed(Str(a.principalId)) && WellKeyed(Str(a.principalType)) && WellKeyed(Str(a.action))
    ensures WellKeyed(Nullable(a.urn))
  {}

  lemma LabelsWellKeyed(labels: seq<string>)
    ensures WellKeyed(Arr(Strs(labels)))
  {
    forall v | v in Strs(labels) ensures WellKeyed(v) {
      var i :| 0 <= i < |labels| && Strs(labels)[i] == v;
    }
  }

  lemma FieldKeys(a: AccessRequest)
    ensures |DigestFields(a)| == 7 && DistinctKeys(DigestFields(a))
  {
    hide Sorted, SafeContext, Nullable;
    var keys := ["principal_id", "principal_type", "action", "resource_urn", "classifications", "findings", "context"];
    assert forall i, j | 0 <= i < j < 7 :: keys[i] != keys[j];
    assert forall i | 0 <= i < 7 :: DigestFields(a)[i].key == keys[i];
  }

  lemma {:induction false} SameKeysSameJson(x: seq<Entry>, y: seq<Entry>)
    requires |x| == |y| && DistinctKeys(x) && forall i | 0 <= i < |x| :: x[i].key == y[i].key
    ensures SameJson(Obj(x), Obj(y)) <==> forall i | 0 <= i < |x| :: SameJson(x[i].value, y[i].value)
  {
    forall i | 0 <= i < |x| ensures Find(y, x[i].key) == Some(y[i].value) && Find(x, y[i].key).Some? {
      FindAtKey(y, i);
      FindAtKey(x, i);
    }
    SameObjectIff(x, y);
  }

  lemma {:induction false} SameObjectIff(x: seq<Entry>, y: seq<Entry>)
    requires |x| == |y|
    requires forall i | 0 <= i < |x| :: Find(y, x[i].key) == Some(y[i].value) && Find(x, y[i].key).Some?
    ensures SameJson(Obj(x), Obj(y)) <==> forall i | 0 <= i < |x| :: SameJson(x[i].value, y[i].value)
  {
    hide SameJson, Find;
    SameObjectMeans(x, y);
  }

  lemma SameLabels(a: seq<string>, b: seq<string>)
    ensures SameJson(Sorted(a), Sorted(b)) <==> multiset(a) == multiset(b)
  {
    hide SameJson, SortBy, StringLe, Strs;
    StringLeOrders();
    var x, y := SortBy(StringLe, a), SortBy(StringLe, b);
    if multiset(a) == multiset(b) {
      SortUnique(StringLe, a, b);
    }
    SameStrings(x, y);
  }

  lemma {:induction false} SameStrings(x: seq<string>, y: seq<string>)
    ensures SameJson(Arr(Strs(x)), Arr(Strs(y))) <==> x == y
  {
    hide Strs;
    if |x| == |y| {
      forall i | 0 <= i < |x| ensures SameJson(Strs(x)[i], Strs(y)[i]) <==> x[i] == y[i] {}
    }
  }

  lemma FieldsBind(a: AccessRequest, b: AccessRequest)
    requires WellKeyed(Obj(a.context)) && WellKeyed(Obj(b.context))
    ensures CanonicalJson.Text(Obj(DigestFields(a))) == CanonicalJson.Text(Obj(DigestFields(b))) <==>
      && a.principalId == b.principalId && a.principalType == b.principalType && a.action == b.action && a.urn == b.urn
      && multiset(a.classifications) == multiset(b.classifications) && multiset(a.findings) == multiset(b.findings)
      && SameContext(a.context, b.context)
  {
    hide CanonicalJson.Text, WellKeyed, SafeContext, Sorted, SameContext, Find;
    FieldsWellKeyed(a);
    FieldsWellKeyed(b);
    var x, y := DigestFields(a), DigestFields(b);
    TextDecides(Obj(x), Obj(y));
    FieldKeys(a);
    SameKeysSameJson(x, y);
    SameLabels(a.classifications, b.classifications);
    SameLabels(a.findings, b.findings);
    ContextForgets(a.context, b.context);
    SevenFields(a, b);
  }

  lemma SevenFields(a: AccessRequest, b: AccessRequest)
    ensures var x, y := DigestFields(a), DigestFields(b);
      (forall i | 0 <= i < 7 :: SameJson(x[i].value, y[i].value)) <==>
      && a.principalId == b.principalId && a.principalType == b.principalType && a.action == b.action && a.urn == b.urn
      && SameJson(Sorted(a.classifications), Sorted(b.classifications)) && SameJson(Sorted(a.findings), Sorted(b.findings))
      && SameJson(Obj(SafeContext(a.context)), Obj(SafeContext(b.context)))
  {
    hide SafeContext, Sorted, Find;
    var x, y := DigestFields(a), DigestFields(b);
    assert SameJson(x[0].value, y[0].value) <==> a.principalId == b.principalId;
    assert SameJson(x[1].value, y[1].value) <==> a.principalType == b.principalType;
    assert SameJson(x[2].value, y[2].value) <==> a.action == b.action;
    assert SameJson(x[3].value, y[3].value) <==> a.urn == b.urn;
    assert x[4].value == Sorted(a.classifications) && x[5].value == Sorted(a.findings);
    assert x[6].value == Obj(SafeContext(a.context)) && y[6].value == Obj(SafeContext(b.context));
  }

  lemma BodiesBind(p: Value, q: Value)
    requires p != Null && q != Null && WellKeyed(p) && WellKeyed(q)
    ensures Body(p) == Body(q) <==> SamePayload(p, q)
  {
    hide CanonicalJson.Text;
    TextDecides(p, q);
  }

  /** Exactly which requests share an approval. The fingerprint is said to change with every
      policy-relevant input; OmittedInputs lists what the code leaves out. */
  lemma FingerprintBinds(a: AccessRequest, p: Value, b: AccessRequest, q: Value)
    requires WellKeyed(Obj(a.context)) && WellKeyed(Obj(b.context)) && WellKeyed(p) && WellKeyed(q)
    ensures FingerprintOf(a, p) == FingerprintOf(b, q) <==>
      && a.principalId == b.principalId && a.principalType == b.principalType && a.action == b.action && a.urn == b.urn
      && multiset(a.classifications) == multiset(b.classifications) && multiset(a.findings) == multiset(b.findings)
      && SameContext(a.context, b.context) && SamePayload(p, q)
  {
    hide CanonicalJson.Text, WellKeyed, SameContext, DigestFields, Body;
    FieldsBind(a, b);
    if p != Null && q != Null {
      BodiesBind(p, q);
    }
  }

  /** What a policy may match on and an approval does not notice: the attributes of the
      principal and the resource, the resource's kind, what the catalog knows of it, and
      whether all of the payload was scanned. */
  lemma OmittedInputs(a: AccessRequest, b: AccessRequest, p: Value)
    requires a.principalId == b.principalId && a.principalType == b.principalType && a.action == b.action
    requires a.urn == b.urn && a.classifications == b.classifications && a.findings == b.findings && a.context == b.context
    ensures FingerprintOf(a, p) == FingerprintOf(b, p)
  {}

  /** Nor what stands in a credential-named context key, or behind the 512th character. */
  lemma OmittedContext(a: AccessRequest, p: Value, key: string, x: Value, y: Value)
    requires CredentialName(key) || (x.Str? && y.Str? && |x.s| > 512 && |y.s| > 512 && x.s[..512] == y.s[..512])
    ensures FingerprintOf(a.(context := [Entry(key, x)]), p) == FingerprintOf(a.(context := [Entry(key, y)]), p)
  {
    CredentialIs(key);
    assert SafeValue(key, x) == SafeValue(key, y);
    assert SafeContext([Entry(key, x)]) == SafeContext([Entry(key, y)]);
  }

  /** Nor whether a payload is JSON or a string that spells it. */
  lemma OmittedEncoding(a: AccessRequest, p: Value)
    requires p != Null && !p.Str?
    ensures FingerprintOf(a, p) == FingerprintOf(a, Str(CanonicalJson.Text(p)))
  {}

  const MODELS_ONLY := Conditions([Condition("resource" + "." + "kind", [Test("eq", Str("model"))])])

  /** Two requests that differ in the kind of the resource alone: one approval serves both,
      and a policy on that kind matches one of them. */
  lemma OmittedKindDecides(e: Patterns)
    ensures var model := PLAIN.(kind := Some("model"));
      && FingerprintOf(model, Null) == FingerprintOf(PLAIN, Null)
      && Holds(e, MODELS_ONLY, SelectorRoot(model)) && !Holds(e, MODELS_ONLY, SelectorRoot(PLAIN))
  {
    hide SelectorRoot, CanonicalJson.Text, ResolvePath;
    var model := PLAIN.(kind := Some("model"));
    OmittedInputs(model, PLAIN, Null);
    KindResolves(model);
    KindResolves(PLAIN);
    var c := MODELS_ONLY.conditions[0];
    assert c in MODELS_ONLY.conditions && c.tests[0] in c.tests;
    assert Passes(e, c.selector, c.tests[0], SelectorRoot(model)) && !Passes(e, c.selector, c.tests[0], SelectorRoot(PLAIN));
  }

  lemma ResourceIsRoot(q: AccessRequest)
    ensures RootOf(q, "resource") == Some(ResourceRoot(q)) && ResourceRoot(q).Obj?
  {}

  lemma WalkOn(v: Value)
    ensures Walk(Some(v), []) == Ok(Some(v))
  {}

  lemma KindResolves(q: AccessRequest)
    requires q.resourceAttributes == []
    ensures ResolvePath(SelectorRoot(q), "resource" + "." + "kind") == Ok(Some(Nullable(q.kind)))
  {
    hide SelectorRoot, Find, Walk, RootOf, ResourceAttributes, Overlay, Labels;
    SegmentsOfTwo("resource", "kind");
    WalkRoot(q, ["resource", "kind"]);
    ResourceIsRoot(q);
    WalkOn(Nullable(q.kind));
    assert ["resource", "kind"][1..] == ["kind"] && ["kind"][1..] == [];
    WalkObject(ResourceRoot(q).entries, ["kind"]);
    FindNothing("kind");
    FindKnown(q, "kind");
    var base := [Entry("urn", Nullable(q.urn)), Entry("kind", Nullable(q.kind)),
                 Entry("classifications", Labels(q.classifications)), Entry("attributes", Obj(ResourceAttributes(q)))];
    FindOverlay(base, ResourceAttributes(q), "kind");
    assert base[0..] == base;
    FindAt(base, 0, "kind");
    FindAt(base, 1, "kind");
  }
}
