/**
 One stream of the audit log: records linked by keyed digests, the object that seals
 them, and the verifier that names the faulty ones (control_plane/audit/chain.py).

 A digest is modelled symbolically: an HMAC is a constructor applied to the key and to
 the field map that canonical JSON encodes, so it is injective in both and is never equal
 to a literal such as the genesis digest.
 */
module HashChain {
  import opened Ordering

  datatype Hash = Literal(text: string) | Hmac(key: string, body: map<string, Json>)

  datatype Json =
    | Text(text: string)
    | Number(num: int)
    | Digest(hash: Hash)
    | Items(items: seq<Json>)
    | Fields(fields: map<string, Json>)

  const GENESIS_HASH := Literal("0000000000000000000000000000000000000000000000000000000000000000")
  const NO_HASH := Literal("")
  const DEFAULT_STREAM := "default"
  const CHECKPOINT_STREAM := "_checkpoints"

  datatype Record = Record(
    stream: string,
    seqNo: int,
    timestamp: int,
    event: string,
    actor: string,
    subject: string,
    payload: map<string, Json>,
    prevHash: Hash,
    recordHash: Hash
  ) {
    /** What the digest covers: every field but the digest itself. The stream is left
        out for the default stream, so that records older than streams still verify. */
    function SigningBody(): map<string, Json> {
      var body := map[
        "seq" := Number(seqNo),
        "timestamp" := Number(timestamp),
        "event" := Text(event),
        "actor" := Text(actor),
        "subject" := Text(subject),
        "payload" := Fields(payload),
        "prev_hash" := Digest(prevHash)
      ];
      if stream != DEFAULT_STREAM then body["stream" := Text(stream)] else body
    }

    function ComputeHash(key: string): Hash {
      Hmac(key, SigningBody())
    }

    function WithHash(key: string): Record {
      this.(recordHash := ComputeHash(key))
    }

    predicate Verify(key: string) {
      recordHash == ComputeHash(key)
    }
  }

  /** Two records sign the same body exactly when they agree on everything signed, the
      stream included, although the default stream signs no stream field. */
  lemma SigningBodyInjective(a: Record, b: Record)
    ensures a.SigningBody() == b.SigningBody() <==> a == b.(recordHash := a.recordHash)
  {
    if a.SigningBody() == b.SigningBody() {
      var x, y := a.SigningBody(), b.SigningBody();
      assert ("stream" in x <==> a.stream != DEFAULT_STREAM) && ("stream" in y <==> b.stream != DEFAULT_STREAM);
      assert x["seq"] == y["seq"] && x["timestamp"] == y["timestamp"] && x["event"] == y["event"];
      assert x["actor"] == y["actor"] && x["subject"] == y["subject"];
      assert x["payload"] == y["payload"] && x["prev_hash"] == y["prev_hash"];
      if "stream" in x {
        assert x["stream"] == y["stream"];
      }
    }
  }

  /** Verified records with equal digests are equal, and no verified digest is a literal. */
  lemma VerifiedHashInjective(a: Record, b: Record, key: string)
    requires a.Verify(key)
    ensures a.recordHash.Hmac?
    ensures b.Verify(key) && a.recordHash == b.recordHash ==> a == b
  {
    SigningBodyInjective(a, b);
  }

  lemma WithHashVerifies(r: Record, key: string)
    ensures r.WithHash(key).Verify(key)
  {
    SigningBodyInjective(r, r.WithHash(key));
  }

  // --- sealing ---------------------------------------------------------------

  /** The digest a record at index i must name as its predecessor. */
  function LinkBefore(rs: seq<Record>, i: nat, firstPrev: Hash): Hash
    requires i <= |rs|
  {
    if i == 0 then firstPrev else rs[i - 1].recordHash
  }

  /** The record at index i is number i + 1 of the stream, sealed over its predecessor. */
  ghost predicate SealedAt(rs: seq<Record>, key: string, stream: string, i: nat)
    requires i < |rs|
  {
    && rs[i].stream == stream && rs[i].seqNo == i + 1
    && rs[i].prevHash == LinkBefore(rs, i, GENESIS_HASH)
    && rs[i].Verify(key)
  }

  /** One unforked stream: sequence 1..n, each record sealed over its predecessor. */
  ghost predicate IsChain(rs: seq<Record>, key: string, stream: string) {
    forall i | 0 <= i < |rs| :: SealedAt(rs, key, stream, i)
  }

  lemma ChainAt(rs: seq<Record>, key: string, stream: string, i: nat)
    requires IsChain(rs, key, stream) && i < |rs|
    ensures rs[i].stream == stream && rs[i].seqNo == i + 1 && rs[i].Verify(key) && rs[i].recordHash.Hmac?
    ensures rs[i].prevHash == LinkBefore(rs, i, GENESIS_HASH)
  {
    assert SealedAt(rs, key, stream, i);
  }

  function Seal(key: string, stream: string, seqNo: int, prevHash: Hash, event: string, actor: string,
                subject: string, payload: map<string, Json>, timestamp: int): Record
  {
    Record(stream, seqNo, timestamp, event, actor, subject, payload, prevHash, NO_HASH).WithHash(key)
  }

  /** A sealed record says what was to be recorded, where, and over what, under the key. */
  lemma SealSays(key: string, stream: string, seqNo: int, prevHash: Hash, event: string, actor: string,
                 subject: string, payload: map<string, Json>, timestamp: int)
    ensures var r := Seal(key, stream, seqNo, prevHash, event, actor, subject, payload, timestamp);
      && r.stream == stream && r.seqNo == seqNo && r.prevHash == prevHash && r.event == event && r.actor == actor
      && r.subject == subject && r.payload == payload && r.timestamp == timestamp
      && r.recordHash == Hmac(key, r.SigningBody())
  {
    SigningBodyInjective(Record(stream, seqNo, timestamp, event, actor, subject, payload, prevHash, NO_HASH),
                         Seal(key, stream, seqNo, prevHash, event, actor, subject, payload, timestamp));
  }

  class AuditChain {
    const key: string
    const stream: string
    var headHash: Hash
    var nextSeq: int

    /** The next record extends rs. */
    ghost predicate Extends(rs: seq<Record>)
      reads this
    {
      && IsChain(rs, key, stream)
      && nextSeq == |rs| + 1
      && headHash == LinkBefore(rs, |rs|, GENESIS_HASH)
    }

    constructor Resuming(key: string, headHash: Hash, nextSeq: int, stream: string)
      ensures this.key == key && this.stream == stream
      ensures this.headHash == if headHash == NO_HASH then GENESIS_HASH else headHash
      ensures this.nextSeq == if nextSeq < 1 then 1 else nextSeq
    {
      this.key := key;
      this.stream := stream;
      this.headHash := if headHash == NO_HASH then GENESIS_HASH else headHash;
      this.nextSeq := if nextSeq < 1 then 1 else nextSeq;
    }

    /** Seals one record. Whatever chain the object was extending, it now extends that
        chain with the new record at its end. */
    method Append(event: string, actor: string, subject: string, payload: map<string, Json>, timestamp: int)
      returns (record: Record)
      modifies this
      ensures record.stream == stream && record.event == event && record.actor == actor && record.subject == subject
      ensures record.payload == payload && record.timestamp == timestamp
      ensures record.seqNo == old(nextSeq) && record.prevHash == old(headHash) && record.Verify(key)
      ensures record == Seal(key, stream, old(nextSeq), old(headHash), event, actor, subject, payload, timestamp)
      ensures headHash == record.recordHash && nextSeq == old(nextSeq) + 1
      ensures forall rs | old(Extends(rs)) :: Extends(rs + [record])
    {
      hide IsChain, Record.WithHash;
      record := Record(stream, nextSeq, timestamp, event, actor, subject, payload, headHash, NO_HASH).WithHash(key);
      forall rs | Extends(rs) ensures IsChain(rs + [record], key, stream) {
        SealExtends(rs, key, stream, event, actor, subject, payload, timestamp);
      }
      SealSays(key, stream, nextSeq, headHash, event, actor, subject, payload, timestamp);
      headHash := record.recordHash;
      nextSeq := nextSeq + 1;
    }
  }

  lemma SealExtends(rs: seq<Record>, key: string, stream: string, event: string, actor: string,
                    subject: string, payload: map<string, Json>, timestamp: int)
    requires IsChain(rs, key, stream)
    ensures IsChain(rs + [Seal(key, stream, |rs| + 1, LinkBefore(rs, |rs|, GENESIS_HASH), event, actor,
                               subject, payload, timestamp)], key, stream)
  {
    var r := Seal(key, stream, |rs| + 1, LinkBefore(rs, |rs|, GENESIS_HASH), event, actor, subject, payload, timestamp);
    WithHashVerifies(r.(recordHash := NO_HASH), key);
    hide Record.SigningBody, Record.Verify;
    forall i | 0 <= i < |rs| ensures SealedAt(rs + [r], key, stream, i) {
      ChainAt(rs, key, stream, i);
    }
  }

  // --- verification ----------------------------------------------------------

  datatype ChainVerification = ChainVerification(
    valid: bool,
    checked: nat,
    corrupted: seq<int>,
    brokenLinks: seq<int>,
    sequenceErrors: seq<int>
  )

  datatype Fault = Corrupted | BrokenLink | SequenceError

  predicate BySeq(a: Record, b: Record) {
    a.seqNo <= b.seqNo
  }

  predicate Faulty(fault: Fault, o: seq<Record>, i: nat, key: string, firstPrev: Hash)
    requires i < |o|
  {
    match fault
    case Corrupted => !o[i].Verify(key)
    case BrokenLink => o[i].prevHash != LinkBefore(o, i, firstPrev)
    case SequenceError => i > 0 && o[i].seqNo != o[i - 1].seqNo + 1
  }

  /** The sequence numbers of the first n records that show the fault, in order. */
  function FaultsIn(fault: Fault, o: seq<Record>, n: nat, key: string, firstPrev: Hash): seq<int>
    requires n <= |o|
  {
    if n == 0 then []
    else FaultsIn(fault, o, n - 1, key, firstPrev)
         + (if Faulty(fault, o, n - 1, key, firstPrev) then [o[n - 1].seqNo] else [])
  }

  function Verification(records: seq<Record>, key: string, firstPrev: Hash): ChainVerification {
    var o := SortBy(BySeq, records);
    var corrupted := FaultsIn(Corrupted, o, |o|, key, firstPrev);
    var broken := FaultsIn(BrokenLink, o, |o|, key, firstPrev);
    var sequence := FaultsIn(SequenceError, o, |o|, key, firstPrev);
    ChainVerification(corrupted == [] && broken == [] && sequence == [], |o|, corrupted, broken, sequence)
  }

  method VerifyChain(records: seq<Record>, key: string, expectedFirstPrev: Hash) returns (v: ChainVerification)
    ensures v == Verification(records, key, expectedFirstPrev)
  {
    var corrupted, broken, sequenceErrors := [], [], [];
    var ordered := SortBy(BySeq, records);
    for i := 0 to |ordered|
      invariant corrupted == FaultsIn(Corrupted, ordered, i, key, expectedFirstPrev)
      invariant broken == FaultsIn(BrokenLink, ordered, i, key, expectedFirstPrev)
      invariant sequenceErrors == FaultsIn(SequenceError, ordered, i, key, expectedFirstPrev)
    {
      var record := ordered[i];
      if !record.Verify(key) {
        corrupted := corrupted + [record.seqNo];
      }
      var expectedPrev := if i == 0 then expectedFirstPrev else ordered[i - 1].recordHash;
      if record.prevHash != expectedPrev {
        broken := broken + [record.seqNo];
      }
      if i > 0 && record.seqNo != ordered[i - 1].seqNo + 1 {
        sequenceErrors := sequenceErrors + [record.seqNo];
      }
    }
    var valid := corrupted == [] && broken == [] && sequenceErrors == [];
    v := ChainVerification(valid, |ordered|, corrupted, broken, sequenceErrors);
  }

  ghost predicate Ascending(xs: seq<int>) {
    forall i, j | 0 <= i < j < |xs| :: xs[i] < xs[j]
  }

  /** Exactly one record per sequence number, as the table's primary key ensures. */
  ghost predicate DistinctSeqs(rs: seq<Record>) {
    forall i, j | 0 <= i < j < |rs| :: rs[i].seqNo != rs[j].seqNo
  }

  ghost predicate StrictlyOrdered(o: seq<Record>) {
    forall i, j | 0 <= i < j < |o| :: o[i].seqNo < o[j].seqNo
  }

  lemma {:induction false} FaultsInExactly(fault: Fault, o: seq<Record>, n: nat, key: string, firstPrev: Hash)
    requires n <= |o| && StrictlyOrdered(o)
    ensures var fs := FaultsIn(fault, o, n, key, firstPrev);
      && Ascending(fs)
      && (forall s :: s in fs <==> exists i | 0 <= i < n :: o[i].seqNo == s && Faulty(fault, o, i, key, firstPrev))
  {
    if n > 0 {
      FaultsInExactly(fault, o, n - 1, key, firstPrev);
      var before := FaultsIn(fault, o, n - 1, key, firstPrev);
      forall k | 0 <= k < |before| ensures before[k] < o[n - 1].seqNo {
        assert before[k] in before;
      }
    }
  }

  lemma SeqOrders()
    ensures TotalPreorder(BySeq)
  {}

  lemma TiesAreEqual(rs: seq<Record>)
    requires DistinctSeqs(rs)
    ensures NoTies(BySeq, rs)
  {
    forall a, b | a in rs && b in rs && BySeq(a, b) && BySeq(b, a) ensures a == b {
      var i :| 0 <= i < |rs| && rs[i] == a;
      var j :| 0 <= j < |rs| && rs[j] == b;
    }
  }

  lemma {:induction false} SortKeepsDistinct(rs: seq<Record>)
    requires DistinctSeqs(rs)
    ensures StrictlyOrdered(SortBy(BySeq, rs))
  {
    SortSorted(BySeq, rs);
    if rs != [] {
      SortKeepsDistinct(rs[1..]);
      InsertDistinct(rs[0], rs[1..]);
    }
  }

  lemma {:induction false} InsertDistinct(r: Record, tail: seq<Record>)
    requires forall t | t in tail :: t.seqNo != r.seqNo
    requires StrictlyOrdered(SortBy(BySeq, tail))
    ensures StrictlyOrdered(Insert(BySeq, r, SortBy(BySeq, tail)))
  {
    SameMembers(tail, SortBy(BySeq, tail));
    InsertStrict(r, SortBy(BySeq, tail));
  }

  lemma {:induction false} InsertStrict(r: Record, o: seq<Record>)
    requires StrictlyOrdered(o) && forall t | t in o :: t.seqNo != r.seqNo
    ensures StrictlyOrdered(Insert(BySeq, r, o))
  {
    if o != [] && !BySeq(r, o[0]) {
      var rest := Insert(BySeq, r, o[1..]);
      InsertStrict(r, o[1..]);
      SameMembers(rest, [r] + o[1..]);
      forall t | t in rest ensures o[0].seqNo < t.seqNo {
        assert t == r || t in o[1..];
      }
    }
  }

  /** The report does not depend on the order the records are read in. */
  lemma VerificationIgnoresInputOrder(records: seq<Record>, permuted: seq<Record>, key: string, firstPrev: Hash)
    requires multiset(records) == multiset(permuted) && DistinctSeqs(records)
    ensures Verification(records, key, firstPrev) == Verification(permuted, key, firstPrev)
  {
    SeqOrders();
    TiesAreEqual(records);
    SortUnique(BySeq, records, permuted);
  }

  // --- locating tampering ----------------------------------------------------

  /** What is left of an honest chain after records are deleted and the contents of some
      survivors edited, their place and both digests kept. In any order. */
  ghost predicate TamperedFrom(rs: seq<Record>, chain: seq<Record>) {
    && DistinctSeqs(rs)
    && forall r | r in rs ::
         && 1 <= r.seqNo <= |chain|
         && r.prevHash == chain[r.seqNo - 1].prevHash
         && r.recordHash == chain[r.seqNo - 1].recordHash
  }

  ghost predicate Survives(rs: seq<Record>, s: int) {
    exists r :: r in rs && r.seqNo == s
  }

  ghost predicate SurvivorBefore(rs: seq<Record>, s: int) {
    exists t :: t < s && Survives(rs, t)
  }

  ghost predicate Edited(rs: seq<Record>, chain: seq<Record>, s: int) {
    1 <= s <= |chain| && exists r :: r in rs && r.seqNo == s && r != chain[s - 1]
  }

  lemma HashesDistinct(chain: seq<Record>, key: string, stream: string, i: nat, j: nat)
    requires IsChain(chain, key, stream) && i < |chain| && j < |chain| && i != j
    ensures chain[i].recordHash != chain[j].recordHash
  {
    hide IsChain;
    ChainAt(chain, key, stream, i);
    ChainAt(chain, key, stream, j);
    VerifiedHashInjective(chain[i], chain[j], key);
  }

  lemma EditBreaksDigest(r: Record, sealed: Record, key: string)
    requires sealed.Verify(key) && r.recordHash == sealed.recordHash
    ensures r.Verify(key) <==> r == sealed
  {
    VerifiedHashInjective(sealed, r, key);
  }

  /** A survivor's link holds exactly when it is record 1 or its predecessor survives. */
  lemma SurvivorLinks(o: seq<Record>, chain: seq<Record>, key: string, stream: string, i: nat)
    requires IsChain(chain, key, stream) && StrictlyOrdered(o) && TamperedFrom(o, chain) && i < |o|
    ensures Faulty(BrokenLink, o, i, key, GENESIS_HASH) <==> o[i].seqNo > 1 && !Survives(o, o[i].seqNo - 1)
    ensures Faulty(SequenceError, o, i, key, GENESIS_HASH) <==> i > 0 && !Survives(o, o[i].seqNo - 1)
  {
    hide IsChain, Record.Verify, Survives, StrictlyOrdered, DistinctSeqs;
    var s := o[i].seqNo;
    PredecessorIsBefore(o, i);
    assert o[i] in o;
    ChainAt(chain, key, stream, s - 1);
    if s > 1 {
      ChainAt(chain, key, stream, s - 2);
    }
    if i > 0 {
      assert o[i - 1] in o;
      if o[i - 1].seqNo != s - 1 {
        HashesDistinct(chain, key, stream, o[i - 1].seqNo - 1, s - 2);
      }
    }
  }

  lemma PredecessorIsBefore(o: seq<Record>, i: nat)
    requires StrictlyOrdered(o) && i < |o|
    ensures Survives(o, o[i].seqNo - 1) <==> i > 0 && o[i - 1].seqNo == o[i].seqNo - 1
    ensures i > 0 ==> o[i - 1].seqNo < o[i].seqNo
  {
    if Survives(o, o[i].seqNo - 1) {
      var r :| r in o && r.seqNo == o[i].seqNo - 1;
      var j :| 0 <= j < |o| && o[j] == r;
      assert j == i - 1;
    }
    assert i > 0 ==> o[i - 1] in o;
  }

  /** The verifier's report on a tampered chain names exactly the damage: the edited
      records, and the survivors whose predecessor is gone. The first survivor shows a
      deletion before it as a broken link only, having nothing to be out of sequence with. */
  lemma VerificationLocatesTampering(records: seq<Record>, chain: seq<Record>, key: string, stream: string)
    requires IsChain(chain, key, stream) && TamperedFrom(records, chain)
    ensures var v := Verification(records, key, GENESIS_HASH);
      && v.checked == |records|
      && Ascending(v.corrupted) && Ascending(v.brokenLinks) && Ascending(v.sequenceErrors)
      && (forall s :: s in v.corrupted <==> Edited(records, chain, s))
      && (forall s :: s in v.brokenLinks <==> s > 1 && Survives(records, s) && !Survives(records, s - 1))
      && (forall s :: s in v.sequenceErrors <==>
            s in v.brokenLinks && SurvivorBefore(records, s))
  {
    hide IsChain, Record.Verify, Faulty, FaultsIn, SortBy;
    var o := SortBy(BySeq, records);
    SortKeepsDistinct(records);
    SameMembers(records, o);
    FaultsInExactly(Corrupted, o, |o|, key, GENESIS_HASH);
    FaultsInExactly(BrokenLink, o, |o|, key, GENESIS_HASH);
    FaultsInExactly(SequenceError, o, |o|, key, GENESIS_HASH);
    forall s ensures Survives(records, s) <==> Survives(o, s) {}
    forall i | 0 <= i < |o|
      ensures Faulty(Corrupted, o, i, key, GENESIS_HASH) <==> o[i] != chain[o[i].seqNo - 1]
    {
      assert o[i] in o;
      CorruptedIsEdited(o, chain, key, stream, i);
    }
    LocateCorrupted(records, o, chain, key);
    forall s {
      LocateBroken(o, chain, key, stream, s);
    }
  }

  lemma CorruptedIsEdited(o: seq<Record>, chain: seq<Record>, key: string, stream: string, i: nat)
    requires IsChain(chain, key, stream) && i < |o| && 1 <= o[i].seqNo <= |chain|
    requires o[i].recordHash == chain[o[i].seqNo - 1].recordHash
    ensures Faulty(Corrupted, o, i, key, GENESIS_HASH) <==> o[i] != chain[o[i].seqNo - 1]
  {
    hide IsChain, Record.Verify;
    ChainAt(chain, key, stream, o[i].seqNo - 1);
    EditBreaksDigest(o[i], chain[o[i].seqNo - 1], key);
  }

  lemma LocateCorrupted(records: seq<Record>, o: seq<Record>, chain: seq<Record>, key: string)
    requires StrictlyOrdered(o) && (forall r :: r in records <==> r in o)
    requires forall r | r in records :: 1 <= r.seqNo <= |chain|
    requires forall i | 0 <= i < |o| ::
               && o[i] in o && 1 <= o[i].seqNo <= |chain|
               && (Faulty(Corrupted, o, i, key, GENESIS_HASH) <==> o[i] != chain[o[i].seqNo - 1])
    ensures forall s :: s in FaultsIn(Corrupted, o, |o|, key, GENESIS_HASH) <==> Edited(records, chain, s)
  {
    hide Record.Verify;
    FaultsInExactly(Corrupted, o, |o|, key, GENESIS_HASH);
    forall s ensures s in FaultsIn(Corrupted, o, |o|, key, GENESIS_HASH) <==> Edited(records, chain, s) {
      if Edited(records, chain, s) {
        var r :| r in records && r.seqNo == s && r != chain[s - 1];
        var i :| 0 <= i < |o| && o[i] == r;
        assert Faulty(Corrupted, o, i, key, GENESIS_HASH);
      }
    }
  }

  lemma LocateBroken(o: seq<Record>, chain: seq<Record>, key: string, stream: string, s: int)
    requires IsChain(chain, key, stream) && StrictlyOrdered(o) && TamperedFrom(o, chain)
    ensures s in FaultsIn(BrokenLink, o, |o|, key, GENESIS_HASH) <==>
              s > 1 && Survives(o, s) && !Survives(o, s - 1)
    ensures s in FaultsIn(SequenceError, o, |o|, key, GENESIS_HASH) <==>
              s > 1 && Survives(o, s) && !Survives(o, s - 1) && SurvivorBefore(o, s)
  {
    hide IsChain, TamperedFrom, StrictlyOrdered;
    FaultsInExactly(BrokenLink, o, |o|, key, GENESIS_HASH);
    FaultsInExactly(SequenceError, o, |o|, key, GENESIS_HASH);
    if i :| 0 <= i < |o| && o[i].seqNo == s {
      SurvivorIndex(o, s, i);
      SurvivorLinks(o, chain, key, stream, i);
      EarlierSurvivor(o, chain, i);
    } else if Survives(o, s) {
      var i := IndexOfSurvivor(o, s);
    }
  }

  lemma SurvivorIndex(o: seq<Record>, s: int, i: nat)
    requires i < |o| && o[i].seqNo == s
    ensures Survives(o, s)
  {
    assert o[i] in o;
  }

  lemma IndexOfSurvivor(o: seq<Record>, s: int) returns (i: nat)
    requires Survives(o, s)
    ensures i < |o| && o[i].seqNo == s
  {
    var r :| r in o && r.seqNo == s;
    i :| 0 <= i < |o| && o[i] == r;
  }

  lemma EarlierSurvivor(o: seq<Record>, chain: seq<Record>, i: nat)
    requires StrictlyOrdered(o) && TamperedFrom(o, chain) && i < |o|
    ensures i > 0 <==> SurvivorBefore(o, o[i].seqNo)
    ensures i > 0 ==> o[i].seqNo > 1
    ensures forall j | 0 <= j < |o| && o[j].seqNo == o[i].seqNo :: j == i
  {
    assert o[i] in o;
    if i > 0 {
      assert o[0] in o && o[0].seqNo < o[i].seqNo;
      assert Survives(o, o[0].seqNo);
    }
  }

  // --- what an accepted chain is -----------------------------------------------

  lemma {:induction false} NoFaults(fault: Fault, o: seq<Record>, n: nat, key: string, firstPrev: Hash)
    requires n <= |o|
    ensures FaultsIn(fault, o, n, key, firstPrev) == [] <==> forall i | 0 <= i < n :: !Faulty(fault, o, i, key, firstPrev)
  {
    if n > 0 {
      NoFaults(fault, o, n - 1, key, firstPrev);
    }
  }

  /** Every record verifies, links to the one before it, and follows it in sequence. */
  ghost predicate LinkedFrom(o: seq<Record>, key: string, firstPrev: Hash) {
    forall fault, i | 0 <= i < |o| :: !Faulty(fault, o, i, key, firstPrev)
  }

  ghost predicate Linked(o: seq<Record>, key: string) {
    LinkedFrom(o, key, GENESIS_HASH)
  }

  lemma AcceptedIsLinkedFrom(records: seq<Record>, key: string, firstPrev: Hash)
    ensures Verification(records, key, firstPrev).valid <==> LinkedFrom(SortBy(BySeq, records), key, firstPrev)
  {
    var o := SortBy(BySeq, records);
    forall fault {
      NoFaults(fault, o, |o|, key, firstPrev);
    }
    if Verification(records, key, firstPrev).valid {
      forall i, fault | 0 <= i < |o| ensures !Faulty(fault, o, i, key, firstPrev) {
        match fault case Corrupted => case BrokenLink => case SequenceError =>
      }
    }
  }

  lemma AcceptedIsLinked(records: seq<Record>, key: string)
    ensures Verification(records, key, GENESIS_HASH).valid <==> Linked(SortBy(BySeq, records), key)
  {
    hide LinkedFrom;
    AcceptedIsLinkedFrom(records, key, GENESIS_HASH);
  }

  lemma LinkedFromAt(o: seq<Record>, key: string, firstPrev: Hash, i: nat)
    requires LinkedFrom(o, key, firstPrev) && i < |o|
    ensures o[i].Verify(key) && o[i].recordHash.Hmac? && o[i].prevHash == LinkBefore(o, i, firstPrev)
    ensures i > 0 ==> o[i].seqNo == o[i - 1].seqNo + 1
  {
    assert !Faulty(Corrupted, o, i, key, firstPrev);
    assert !Faulty(BrokenLink, o, i, key, firstPrev);
    assert !Faulty(SequenceError, o, i, key, firstPrev);
  }

  /** A shared digest pins what lies beneath it as far as the range goes, and the digest the
      range was started from. */
  lemma {:induction false} RangePinsHistory(o: seq<Record>, sealed: seq<Record>, key: string, stream: string,
                                            firstPrev: Hash, i: nat, j: nat)
    requires LinkedFrom(o, key, firstPrev) && IsChain(sealed, key, stream) && i < |o| && j < |sealed|
    requires o[i].recordHash == sealed[j].recordHash
    ensures i <= j && o[..i + 1] == sealed[j - i..j + 1] && firstPrev == LinkBefore(sealed, j - i, GENESIS_HASH)
    decreases i
  {
    hide LinkedFrom, IsChain, Record.Verify;
    LinkedFromAt(o, key, firstPrev, i);
    ChainAt(sealed, key, stream, j);
    VerifiedHashInjective(o[i], sealed[j], key);
    if i > 0 {
      LinkedFromAt(o, key, firstPrev, i - 1);
      if j > 0 {
        ChainAt(sealed, key, stream, j - 1);
        RangePinsHistory(o, sealed, key, stream, firstPrev, i - 1, j - 1);
        assert o[..i] == o[..(i - 1) + 1] && sealed[j - i..j] == sealed[(j - 1) - (i - 1)..(j - 1) + 1];
        OneMoreEach(o, i, sealed, j - i, j);
      }
    }
  }

  lemma OneMoreEach(o: seq<Record>, i: nat, sealed: seq<Record>, from: nat, j: nat)
    requires i < |o| && from <= j < |sealed| && o[..i] == sealed[from..j] && o[i] == sealed[j]
    ensures o[..i + 1] == sealed[from..j + 1]
  {
    assert o[..i + 1] == o[..i] + [o[i]] && sealed[from..j + 1] == sealed[from..j] + [sealed[j]];
  }

  /** Any contiguous part of a chain is accepted from the digest before it. */
  lemma PartIsLinked(chain: seq<Record>, key: string, stream: string, lo: nat, hi: nat)
    requires IsChain(chain, key, stream) && lo <= hi <= |chain|
    ensures SortBy(BySeq, chain[lo..hi]) == chain[lo..hi]
    ensures LinkedFrom(chain[lo..hi], key, LinkBefore(chain, lo, GENESIS_HASH))
  {
    hide IsChain, SortBy, Record.Verify;
    var part := chain[lo..hi];
    forall i | 0 <= i < |part| ensures part[i] == chain[lo + i] && part[i].seqNo == lo + i + 1 {
      ChainAt(chain, key, stream, lo + i);
    }
    SortedIsFixed(BySeq, part);
    forall i, fault | 0 <= i < |part| ensures !Faulty(fault, part, i, key, LinkBefore(chain, lo, GENESIS_HASH)) {
      PartHasNoFault(chain, key, stream, lo, part, i, fault);
    }
  }

  lemma PartHasNoFault(chain: seq<Record>, key: string, stream: string, lo: nat, part: seq<Record>, i: nat, fault: Fault)
    requires IsChain(chain, key, stream) && i < |part| && lo + |part| <= |chain|
    requires part[i] == chain[lo + i] && (i > 0 ==> part[i - 1] == chain[lo + i - 1])
    ensures !Faulty(fault, part, i, key, LinkBefore(chain, lo, GENESIS_HASH))
  {
    hide IsChain, Record.Verify;
    ChainAt(chain, key, stream, lo + i);
    if i > 0 {
      ChainAt(chain, key, stream, lo + i - 1);
    }
  }

  lemma LinkedAt(o: seq<Record>, key: string, i: nat)
    requires Linked(o, key) && i < |o|
    ensures o[i].Verify(key) && o[i].recordHash.Hmac? && o[i].prevHash == LinkBefore(o, i, GENESIS_HASH)
    ensures i > 0 ==> o[i].seqNo == o[i - 1].seqNo + 1
  {
    LinkedFromAt(o, key, GENESIS_HASH, i);
  }

  /** One shared digest pins the whole history beneath it: going backwards from it, the
      predecessor digests force equal records down to the genesis digest. */
  lemma {:induction false} HashPinsHistory(o: seq<Record>, sealed: seq<Record>, key: string, stream: string, i: nat, j: nat)
    requires Linked(o, key) && IsChain(sealed, key, stream) && i < |o| && j < |sealed|
    requires o[i].recordHash == sealed[j].recordHash
    ensures i == j && o[..i + 1] == sealed[..j + 1]
    decreases j
  {
    hide Linked, IsChain;
    LinkedAt(o, key, i);
    ChainAt(sealed, key, stream, j);
    VerifiedHashInjective(o[i], sealed[j], key);
    if i > 0 {
      LinkedAt(o, key, i - 1);
    }
    if j > 0 {
      ChainAt(sealed, key, stream, j - 1);
      HashPinsHistory(o, sealed, key, stream, i - 1, j - 1);
      assert o[..i + 1] == o[..i] + [o[i]] && sealed[..j + 1] == sealed[..j] + [sealed[j]];
    }
  }

  lemma ChainIsAccepted(chain: seq<Record>, key: string, stream: string)
    requires IsChain(chain, key, stream)
    ensures SortBy(BySeq, chain) == chain && Verification(chain, key, GENESIS_HASH).valid
  {
    hide IsChain, Record.Verify, SortBy, Verification;
    forall i, j | 0 <= i <= j < |chain| ensures BySeq(chain[i], chain[j]) {
      ChainAt(chain, key, stream, i);
      ChainAt(chain, key, stream, j);
    }
    SortedIsFixed(BySeq, chain);
    forall i, fault | 0 <= i < |chain| ensures !Faulty(fault, chain, i, key, GENESIS_HASH) {
      ChainAt(chain, key, stream, i);
      if i > 0 {
        ChainAt(chain, key, stream, i - 1);
      }
    }
    AcceptedIsLinked(chain, key);
  }

  /** What the verifier cannot see alone: a tampered chain is accepted exactly when the
      survivors are an unedited prefix of it. */
  lemma TamperedAcceptedIffPrefix(records: seq<Record>, chain: seq<Record>, key: string, stream: string)
    requires IsChain(chain, key, stream) && TamperedFrom(records, chain)
    ensures Verification(records, key, GENESIS_HASH).valid <==>
              |records| <= |chain| && multiset(records) == multiset(chain[..|records|])
  {
    hide IsChain, Linked;
    if Verification(records, key, GENESIS_HASH).valid {
      AcceptedIsPrefix(records, chain, key, stream);
    }
    if |records| <= |chain| && multiset(records) == multiset(chain[..|records|]) {
      var prefix := chain[..|records|];
      PrefixIsChain(chain, key, stream, |records|);
      ChainIsAccepted(prefix, key, stream);
      VerificationIgnoresInputOrder(records, prefix, key, GENESIS_HASH);
    }
  }

  lemma PrefixIsChain(chain: seq<Record>, key: string, stream: string, n: nat)
    requires IsChain(chain, key, stream) && n <= |chain|
    ensures IsChain(chain[..n], key, stream)
  {
    forall i | 0 <= i < n {
      ChainAt(chain, key, stream, i);
    }
  }

  lemma AcceptedIsPrefix(records: seq<Record>, chain: seq<Record>, key: string, stream: string)
    requires IsChain(chain, key, stream) && TamperedFrom(records, chain)
    requires Verification(records, key, GENESIS_HASH).valid
    ensures |records| <= |chain| && multiset(records) == multiset(chain[..|records|])
  {
    hide IsChain, Linked, Verification, DistinctSeqs, SortBy;
    var o, n := SortBy(BySeq, records), |records|;
    AcceptedIsLinked(records, key);
    if n > 0 {
      SameMembers(records, o);
      var last := o[n - 1];
      assert last in o && last in records;
      HashPinsHistory(o, chain, key, stream, n - 1, last.seqNo - 1);
      assert o[..n] == o;
    }
  }
}
