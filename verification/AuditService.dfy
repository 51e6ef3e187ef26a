/**
 The audit table and the operations over it: appending to a stream, sealing a checkpoint
 of every other stream's head, and verifying the streams and the last checkpoint
 (control_plane/audit/service.py, and the checkpoint half of chain.py).
 */
module AuditService {
  import opened Wrappers
  import opened Ordering
  import opened HashChain
  import opened Strings

  /** Rows in storage order. (stream, seq) is the primary key. */
  type Table = seq<Record>

  /** The rows of one stream, in storage order. */
  function Of(t: Table, stream: string): seq<Record> {
    if t == [] then [] else (if t[0].stream == stream then [t[0]] else []) + Of(t[1..], stream)
  }

  lemma {:induction false} OfMembers(t: Table, stream: string)
    ensures forall x :: x in Of(t, stream) <==> x in t && x.stream == stream
  {
    if t != [] {
      OfMembers(t[1..], stream);
      assert forall x :: x in t <==> x == t[0] || x in t[1..];
    }
  }

  function Ordered(t: Table, stream: string): seq<Record> {
    SortBy(BySeq, Of(t, stream))
  }

  /** One stream's current (next_seq, head_hash). */
  function Head(t: Table, stream: string): (int, Hash) {
    var o := Ordered(t, stream);
    if o == [] then (1, GENESIS_HASH) else (o[|o| - 1].seqNo + 1, o[|o| - 1].recordHash)
  }

  function StreamNames(t: Table): (names: seq<string>)
    ensures forall s :: s in names <==> exists r :: r in t && r.stream == s
    ensures Distinct(names)
  {
    if t == [] then []
    else
      var rest := StreamNames(t[1..]);
      assert forall r :: r in t <==> r == t[0] || r in t[1..];
      if t[0].stream in rest then rest else [t[0].stream] + rest
  }

  function WithoutCheckpoints(names: seq<string>): (r: seq<string>)
    requires Distinct(names)
    ensures forall s :: s in r <==> s in names && s != CHECKPOINT_STREAM
    ensures Distinct(r)
  {
    if names == [] then []
    else
      assert forall s :: s in names <==> s == names[0] || s in names[1..];
      assert names[0] !in names[1..];
      (if names[0] == CHECKPOINT_STREAM then [] else [names[0]]) + WithoutCheckpoints(names[1..])
  }

  function Streams(t: Table, includeCheckpoints: bool): seq<string> {
    var names := StreamNames(t);
    SortBy(StringLe, if includeCheckpoints then names else WithoutCheckpoints(names))
  }

  // --- stream heads and checkpoints ------------------------------------------

  datatype StreamHead = StreamHead(stream: string, seqNo: int, headHash: Hash) {
    function ToJson(): Json {
      Fields(map["stream" := Text(stream), "seq" := Number(seqNo), "head_hash" := Digest(headHash)])
    }
  }

  predicate ByStream(a: StreamHead, b: StreamHead) {
    StringLe(a.stream, b.stream)
  }

  function HeadsJson(heads: seq<StreamHead>): (r: seq<Json>)
    ensures |r| == |heads|
  {
    if heads == [] then [] else [heads[0].ToJson()] + HeadsJson(heads[1..])
  }

  function TotalRecords(heads: seq<StreamHead>): int {
    if heads == [] then 0 else heads[0].seqNo + TotalRecords(heads[1..])
  }

  function CheckpointPayload(heads: seq<StreamHead>): map<string, Json> {
    var ordered := SortBy(ByStream, heads);
    map["streams" := Items(HeadsJson(ordered)),
        "stream_count" := Number(|ordered|),
        "total_records" := Number(TotalRecords(ordered))]
  }

  /** Reading a stored head back. An entry of another shape makes the source raise. */
  function HeadFromJson(raw: Json): Result<StreamHead, string> {
    if !raw.Fields? then Err("not an object")
    else
      var m := raw.fields;
      var stream :- if "stream" !in m then Ok("")
                    else if m["stream"].Text? then Ok(m["stream"].text) else Err("stream");
      var seqNo :- if "seq" !in m then Ok(0)
                   else if m["seq"].Number? then Ok(m["seq"].num) else Err("seq");
      var headHash :- if "head_hash" !in m then Ok(NO_HASH)
                      else match m["head_hash"]
                           case Digest(h) => Ok(h)
                           case Text(t) => Ok(Literal(t))
                           case _ => Err("head_hash");
      Ok(StreamHead(stream, seqNo, headHash))
  }

  function HeadsFromJson(raw: seq<Json>): Result<seq<StreamHead>, string> {
    if raw == [] then Ok([])
    else
      var h :- HeadFromJson(raw[0]);
      var rest :- HeadsFromJson(raw[1..]);
      Ok([h] + rest)
  }

  function RecordedHeads(payload: map<string, Json>): Result<seq<StreamHead>, string> {
    if "streams" !in payload then Ok([])
    else if payload["streams"].Items? then HeadsFromJson(payload["streams"].items)
    else Err("streams")
  }

  lemma HeadRoundTrip(h: StreamHead)
    ensures HeadFromJson(h.ToJson()) == Ok(h)
  {
    var m := h.ToJson().fields;
    assert m["stream"] == Text(h.stream) && m["seq"] == Number(h.seqNo) && m["head_hash"] == Digest(h.headHash);
  }

  lemma {:induction false} HeadsRoundTrip(heads: seq<StreamHead>)
    ensures HeadsFromJson(HeadsJson(heads)) == Ok(heads)
  {
    hide HeadFromJson, StreamHead.ToJson;
    if heads != [] {
      HeadRoundTrip(heads[0]);
      HeadsRoundTrip(heads[1..]);
      assert HeadsJson(heads)[1..] == HeadsJson(heads[1..]);
      assert heads == [heads[0]] + heads[1..];
    }
  }

  /** A sealed checkpoint reads back as the heads that went into it, by stream name. */
  lemma CheckpointRoundTrip(heads: seq<StreamHead>)
    ensures RecordedHeads(CheckpointPayload(heads)) == Ok(SortBy(ByStream, heads))
  {
    HeadsRoundTrip(SortBy(ByStream, heads));
  }

  // --- verification ----------------------------------------------------------

  function InRange(rs: seq<Record>, start: int, end: Option<int>): (r: seq<Record>)
    ensures forall x :: x in r <==> x in rs && x.seqNo >= start && (end.Some? ==> x.seqNo <= end.value)
  {
    if rs == [] then []
    else (if rs[0].seqNo >= start && (end.Some? ==> rs[0].seqNo <= end.value) then [rs[0]] else [])
         + InRange(rs[1..], start, end)
  }

  function RowAt(rs: seq<Record>, seqNo: int): (r: Option<Record>)
    ensures r.Some? ==> r.value in rs && r.value.seqNo == seqNo
    ensures r.None? ==> forall x | x in rs :: x.seqNo != seqNo
  {
    if rs == [] then None else if rs[0].seqNo == seqNo then Some(rs[0]) else RowAt(rs[1..], seqNo)
  }

  /** Recomputes a contiguous range of one stream. A range that does not start at record
      1 needs the digest of the record before it. */
  function VerifyStream(t: Table, key: string, stream: string, start: int, end: Option<int>): ChainVerification {
    var rows := SortBy(BySeq, InRange(Of(t, stream), start, end));
    if start > 1 then
      match RowAt(Of(t, stream), start - 1)
      case None => ChainVerification(false, |rows|, [], [], [start])
      case Some(before) => Verification(rows, key, before.recordHash)
    else Verification(rows, key, GENESIS_HASH)
  }

  datatype CheckpointVerification = CheckpointVerification(
    valid: bool,
    checked: nat,
    missing: seq<string>,
    truncated: seq<string>,
    diverged: seq<string>
  )

  datatype HeadVerdict = Matches | Missing | Truncated | Diverged

  function JudgeHead(head: StreamHead, observed: map<string, (int, Hash)>): HeadVerdict {
    if head.stream !in observed then Missing
    else if observed[head.stream].0 < head.seqNo then Truncated
    else if observed[head.stream].1 != head.headHash then Diverged
    else Matches
  }

  function Judged(verdict: HeadVerdict, recorded: seq<StreamHead>, observed: map<string, (int, Hash)>): (r: seq<string>)
    ensures r == [] <==> forall h | h in recorded :: JudgeHead(h, observed) != verdict
    ensures forall s :: s in r <==> exists h :: h in recorded && h.stream == s && JudgeHead(h, observed) == verdict
  {
    if recorded == [] then []
    else
      var last := recorded[|recorded| - 1];
      assert recorded == recorded[..|recorded| - 1] + [last];
      Judged(verdict, recorded[..|recorded| - 1], observed)
      + (if JudgeHead(last, observed) == verdict then [last.stream] else [])
  }

  function AgainstCheckpoint(recorded: seq<StreamHead>, observed: map<string, (int, Hash)>): (v: CheckpointVerification)
    ensures v.valid <==> forall h | h in recorded :: JudgeHead(h, observed) == Matches
  {
    var missing := Judged(Missing, recorded, observed);
    var truncated := Judged(Truncated, recorded, observed);
    var diverged := Judged(Diverged, recorded, observed);
    CheckpointVerification(missing == [] && truncated == [] && diverged == [], |recorded|, missing, truncated, diverged)
  }

  method VerifyAgainstCheckpoint(recorded: seq<StreamHead>, observed: map<string, (int, Hash)>)
    returns (v: CheckpointVerification)
    ensures v == AgainstCheckpoint(recorded, observed)
  {
    var missing, truncated, diverged := [], [], [];
    for i := 0 to |recorded|
      invariant missing == Judged(Missing, recorded[..i], observed)
      invariant truncated == Judged(Truncated, recorded[..i], observed)
      invariant diverged == Judged(Diverged, recorded[..i], observed)
    {
      assert recorded[..i + 1][..i] == recorded[..i];
      var head := recorded[i];
      if head.stream !in observed {
        missing := missing + [head.stream];
      } else {
        var (seqNo, digest) := observed[head.stream];
        if seqNo < head.seqNo {
          truncated := truncated + [head.stream];
        } else if digest != head.headHash {
          diverged := diverged + [head.stream];
        }
      }
    }
    assert recorded[..|recorded|] == recorded;
    v := CheckpointVerification(missing == [] && truncated == [] && diverged == [], |recorded|,
                                missing, truncated, diverged);
  }

  /** What the table now shows where a checkpoint names a head: that record, or else how
      long the stream still is, or nothing. */
  function ObserveHead(t: Table, head: StreamHead): Option<(int, Hash)> {
    match RowAt(Of(t, head.stream), head.seqNo)
    case Some(row) => Some((row.seqNo, row.recordHash))
    case None =>
      var (next, _) := Head(t, head.stream);
      if next > 1 then Some((next - 1, NO_HASH)) else None
  }

  function Observed(t: Table, recorded: seq<StreamHead>): map<string, (int, Hash)> {
    if recorded == [] then map[]
    else
      var last := recorded[|recorded| - 1];
      var before := Observed(t, recorded[..|recorded| - 1]);
      match ObserveHead(t, last)
      case Some(seen) => before[last.stream := seen]
      case None => before
  }

  function LastCheckpoint(t: Table): Option<Record> {
    var o := Ordered(t, CHECKPOINT_STREAM);
    if o == [] then None else Some(o[|o| - 1])
  }

  function LastCheckpointVerdict(t: Table): Result<CheckpointVerification, string> {
    match LastCheckpoint(t)
    case None => Ok(CheckpointVerification(true, 0, [], [], []))
    case Some(latest) =>
      var recorded :- RecordedHeads(latest.payload);
      Ok(AgainstCheckpoint(recorded, Observed(t, recorded)))
  }

  datatype Report = Report(valid: bool, streams: map<string, ChainVerification>, checkpoint: CheckpointVerification)

  /** The record an append would seal: the next in its stream, over the stream's head. */
  function NextRecord(t: Table, key: string, event: string, actor: string, subject: string,
                      payload: map<string, Json>, stream: string, timestamp: int): Record
  {
    var (next, head) := Head(t, stream);
    Seal(key, stream, if next < 1 then 1 else next, if head == NO_HASH then GENESIS_HASH else head,
         event, actor, subject, payload, timestamp)
  }

  ghost predicate StreamsValid(t: Table, key: string) {
    forall r | r in t :: VerifyStream(t, key, r.stream, 1, None).valid
  }

  lemma StreamsCover(t: Table, key: string)
    ensures forall s :: s in Streams(t, true) <==> exists r :: r in t && r.stream == s
    ensures StreamsValid(t, key) <==> forall s | s in Streams(t, true) :: VerifyStream(t, key, s, 1, None).valid
  {
    hide VerifyStream;
    SameMembers(StreamNames(t), Streams(t, true));
  }

  class Service {
    const key: string
    const partitions: int
    const crc32: string -> nat
    var rows: Table

    constructor (key: string, partitions: int, crc32: string -> nat, rows: Table)
      ensures this.key == key && this.partitions == partitions && this.crc32 == crc32 && this.rows == rows
    {
      this.key, this.partitions, this.crc32, this.rows := key, partitions, crc32, rows;
    }

    /** The stream an actor's records go to. */
    function PartitionFor(actor: string): (stream: string)
      ensures stream != "" && stream != CHECKPOINT_STREAM
      ensures partitions <= 1 ==> stream == DEFAULT_STREAM
      ensures partitions > 1 ==> exists n | 0 <= n < partitions :: stream == "p" + Decimal(n) && n == crc32(actor) % partitions
    {
      if partitions <= 1 then DEFAULT_STREAM
      else
        var stream := "p" + Decimal(crc32(actor) % partitions);
        assert stream[0] == 'p';
        stream
    }

    /** Seals one record after the current head of its stream, which is the actor's unless one
        is named, and stores it. */
    method Append(event: string, actor: string, subject: string, payload: map<string, Json>,
                  stream: string, timestamp: int)
      returns (record: Record)
      modifies this`rows
      ensures var target := if stream != "" then stream else PartitionFor(actor);
        && record == NextRecord(old(rows), key, event, actor, subject, payload, target, timestamp)
        && record.stream == target && record.event == event && record.actor == actor && record.subject == subject
        && record.payload == payload && record.timestamp == timestamp && record.Verify(key)
      ensures rows == old(rows) + [record]
    {
      var target := if stream != "" then stream else PartitionFor(actor);
      var (nextSeq, headHash) := Head(rows, target);
      var chain := new AuditChain.Resuming(key, headHash, nextSeq, target);
      record := chain.Append(event, actor, subject, payload, timestamp);
      rows := rows + [record];
    }

    method StreamHeads() returns (heads: seq<StreamHead>)
      ensures heads == HeadsOf(rows, Streams(rows, false))
    {
      hide Streams, Head;
      heads := [];
      var names := Streams(rows, false);
      for i := 0 to |names|
        invariant heads == HeadsOf(rows, names[..i])
      {
        assert names[..i + 1][..i] == names[..i];
        var (nextSeq, headHash) := Head(rows, names[i]);
        if nextSeq > 1 {
          heads := heads + [StreamHead(names[i], nextSeq - 1, headHash)];
        }
      }
      assert names[..|names|] == names;
    }

    /** Seals a record of where every other stream has reached. */
    method Checkpoint(actor: string, timestamp: int) returns (record: Record)
      modifies this`rows
      ensures rows == old(rows) + [record]
      ensures record.stream == CHECKPOINT_STREAM && record.event == "audit.checkpoint" && record.actor == actor
      ensures record.subject == CHECKPOINT_STREAM && record.timestamp == timestamp
      ensures record.payload == CheckpointPayload(HeadsOf(old(rows), Streams(old(rows), false)))
      ensures old(Honest(rows, key)) ==> Honest(rows, key) && LastCheckpoint(rows) == Some(record)
    {
      ghost var before := rows;
      var heads := StreamHeads();
      record := Append("audit.checkpoint", actor, CHECKPOINT_STREAM, CheckpointPayload(heads), CHECKPOINT_STREAM, timestamp);
      if Honest(before, key) {
        HonestHeadsVouched(before, key);
        HonestNext(before, key, "audit.checkpoint", actor, CHECKPOINT_STREAM, CheckpointPayload(heads),
                   CHECKPOINT_STREAM, timestamp, heads);
        LatestIsLast(before, record, key);
      }
    }

    method VerifyLastCheckpoint() returns (r: Result<CheckpointVerification, string>)
      ensures r == LastCheckpointVerdict(rows)
    {
      var latest := LastCheckpoint(rows);
      if latest == None {
        return Ok(CheckpointVerification(true, 0, [], [], []));
      }
      var parsed := RecordedHeads(latest.value.payload);
      if parsed.Err? {
        return Err(parsed.error);
      }
      var recorded := parsed.value;
      var observed: map<string, (int, Hash)> := map[];
      for i := 0 to |recorded|
        invariant observed == Observed(rows, recorded[..i])
      {
        assert recorded[..i + 1][..i] == recorded[..i];
        var head := recorded[i];
        var row := RowAt(Of(rows, head.stream), head.seqNo);
        if row.Some? {
          observed := observed[head.stream := (row.value.seqNo, row.value.recordHash)];
        } else {
          var (current, _) := Head(rows, head.stream);
          if current > 1 {
            observed := observed[head.stream := (current - 1, NO_HASH)];
          }
        }
      }
      assert recorded[..|recorded|] == recorded;
      var v := VerifyAgainstCheckpoint(recorded, observed);
      r := Ok(v);
    }

    /** Every stream on its own, then all of them against the last checkpoint. */
    method VerifyAll() returns (r: Result<Report, string>)
      ensures r.Ok? <==> LastCheckpointVerdict(rows).Ok?
      ensures r.Ok? ==>
        && r.value.checkpoint == LastCheckpointVerdict(rows).value
        && (forall s :: s in r.value.streams <==> exists row :: row in rows && row.stream == s)
        && (forall s | s in r.value.streams :: r.value.streams[s] == VerifyStream(rows, key, s, 1, None))
        && (r.value.valid <==> StreamsValid(rows, key) && r.value.checkpoint.valid)
    {
      hide VerifyStream, LastCheckpointVerdict, Streams, StreamsValid;
      StreamsCover(rows, key);
      var results: map<string, ChainVerification> := map[];
      var names := Streams(rows, true);
      var chainsValid := true;
      for i := 0 to |names|
        invariant forall s :: s in results <==> s in names[..i]
        invariant forall s | s in results :: results[s] == VerifyStream(rows, key, s, 1, None)
        invariant chainsValid <==> forall s | s in results :: results[s].valid
      {
        assert names[..i + 1] == names[..i] + [names[i]];
        var v := VerifyStream(rows, key, names[i], 1, None);
        chainsValid := chainsValid && v.valid;
        results := results[names[i] := v];
      }
      assert names[..|names|] == names;
      var checkpoint := VerifyLastCheckpoint();
      if checkpoint.Err? {
        return Err(checkpoint.error);
      }
      r := Ok(Report(chainsValid && checkpoint.value.valid, results, checkpoint.value));
    }
  }

  /** Where each named stream has reached, as stream_heads collects it. */
  function HeadsOf(t: Table, names: seq<string>): seq<StreamHead> {
    if names == [] then []
    else
      var last := names[|names| - 1];
      var (next, hash) := Head(t, last);
      HeadsOf(t, names[..|names| - 1]) + (if next > 1 then [StreamHead(last, next - 1, hash)] else [])
  }

  // --- honest tables -----------------------------------------------------------

  /** The head is a record of the table. */
  ghost predicate Vouched(t: Table, h: StreamHead) {
    && h.stream != CHECKPOINT_STREAM
    && 1 <= h.seqNo <= |Of(t, h.stream)|
    && Of(t, h.stream)[h.seqNo - 1].recordHash == h.headHash
  }

  ghost predicate VouchedHeads(t: Table, heads: seq<StreamHead>) {
    && (forall h | h in heads :: Vouched(t, h))
    && (forall g, h | g in heads && h in heads && g.stream == h.stream :: g == h)
  }

  ghost predicate GoodCheckpoint(t: Table, r: Record) {
    exists heads :: r.payload == CheckpointPayload(heads) && VouchedHeads(t, heads)
  }

  /** Every stream is one unforked chain, and every checkpoint names records of the table. */
  ghost predicate Honest(t: Table, key: string) {
    && (forall s :: IsChain(Of(t, s), key, s))
    && (forall r | r in Of(t, CHECKPOINT_STREAM) :: GoodCheckpoint(t, r))
  }

  lemma {:induction false} OfConcat(t: Table, u: Table, stream: string)
    ensures Of(t + u, stream) == Of(t, stream) + Of(u, stream)
  {
    hide Of;
    if t == [] {
      assert t + u == u;
      OfNothing(stream);
      assert [] + Of(u, stream) == Of(u, stream);
    } else {
      var first := if t[0].stream == stream then [t[0]] else [];
      OfConcat(t[1..], u, stream);
      OfFirst(t, stream);
      OfFirst(t + u, stream);
      assert (t + u)[0] == t[0] && (t + u)[1..] == t[1..] + u;
      assert first + (Of(t[1..], stream) + Of(u, stream)) == (first + Of(t[1..], stream)) + Of(u, stream);
    }
  }

  lemma OfNothing(stream: string)
    ensures Of([], stream) == []
  {}

  lemma OfFirst(t: Table, stream: string)
    requires t != []
    ensures Of(t, stream) == (if t[0].stream == stream then [t[0]] else []) + Of(t[1..], stream)
  {}

  lemma VouchedExtends(t: Table, u: Table, heads: seq<StreamHead>)
    requires VouchedHeads(t, heads)
    ensures VouchedHeads(t + u, heads)
  {
    forall h | h in heads ensures Vouched(t + u, h) {
      OfConcat(t, u, h.stream);
    }
  }

  lemma ChainHead(t: Table, key: string, stream: string)
    requires IsChain(Of(t, stream), key, stream)
    ensures Ordered(t, stream) == Of(t, stream)
    ensures Head(t, stream) == (|Of(t, stream)| + 1, LinkBefore(Of(t, stream), |Of(t, stream)|, GENESIS_HASH))
  {
    hide IsChain, Of, SortBy, Verification;
    var rs := Of(t, stream);
    ChainIsAccepted(rs, key, stream);
    if rs != [] {
      ChainAt(rs, key, stream, |rs| - 1);
    }
  }

  lemma LatestIsLast(t: Table, record: Record, key: string)
    requires Honest(t + [record], key) && record.stream == CHECKPOINT_STREAM
    ensures LastCheckpoint(t + [record]) == Some(record)
  {
    hide IsChain;
    ChainHead(t + [record], key, CHECKPOINT_STREAM);
    OfConcat(t, [record], CHECKPOINT_STREAM);
    assert Of([record], CHECKPOINT_STREAM) == [record];
  }

  /** Storing the record that extends its stream keeps the table honest. */
  lemma HonestAppend(t: Table, key: string, record: Record, heads: seq<StreamHead>)
    requires Honest(t, key)
    requires IsChain(Of(t, record.stream) + [record], key, record.stream)
    requires record.stream == CHECKPOINT_STREAM ==> record.payload == CheckpointPayload(heads) && VouchedHeads(t, heads)
    ensures Honest(t + [record], key)
  {
    hide IsChain, CheckpointPayload, VouchedHeads;
    var u := t + [record];
    forall s ensures IsChain(Of(u, s), key, s) {
      OfConcat(t, [record], s);
      assert Of(u, s) == if s == record.stream then Of(t, s) + [record] else Of(t, s);
    }
    OfConcat(t, [record], CHECKPOINT_STREAM);
    forall r | r in Of(u, CHECKPOINT_STREAM) ensures GoodCheckpoint(u, r) {
      if r in Of(t, CHECKPOINT_STREAM) {
        var hs :| r.payload == CheckpointPayload(hs) && VouchedHeads(t, hs);
        VouchedExtends(t, [record], hs);
      } else {
        VouchedExtends(t, [record], heads);
      }
    }
  }

  /** Appending to a stream keeps the table honest; to the checkpoint stream, if the
      payload names heads the table vouches for. */
  lemma HonestNext(t: Table, key: string, event: string, actor: string, subject: string, payload: map<string, Json>,
                   stream: string, timestamp: int, heads: seq<StreamHead>)
    requires Honest(t, key)
    requires stream == CHECKPOINT_STREAM ==> payload == CheckpointPayload(heads) && VouchedHeads(t, heads)
    ensures Honest(t + [NextRecord(t, key, event, actor, subject, payload, stream, timestamp)], key)
  {
    hide IsChain, VouchedHeads;
    var record := NextRecord(t, key, event, actor, subject, payload, stream, timestamp);
    NextExtends(t, key, event, actor, subject, payload, stream, timestamp);
    HonestAppend(t, key, record, heads);
  }

  lemma NextExtends(t: Table, key: string, event: string, actor: string, subject: string, payload: map<string, Json>,
                    stream: string, timestamp: int)
    requires IsChain(Of(t, stream), key, stream)
    ensures var record := NextRecord(t, key, event, actor, subject, payload, stream, timestamp);
      && record.stream == stream && record.payload == payload
      && IsChain(Of(t, stream) + [record], key, stream)
  {
    hide IsChain;
    var rs := Of(t, stream);
    ChainHead(t, key, stream);
    SealExtends(rs, key, stream, event, actor, subject, payload, timestamp);
    if rs != [] {
      ChainAt(rs, key, stream, |rs| - 1);
    }
  }

  lemma {:induction false} HeadsOfAre(t: Table, key: string, names: seq<string>)
    requires forall s :: IsChain(Of(t, s), key, s)
    ensures forall h :: h in HeadsOf(t, names) <==> h.stream in names && AtHead(t, h)
  {
    hide IsChain, Head;
    if names != [] {
      var last, before := names[|names| - 1], names[..|names| - 1];
      assert names == before + [last];
      HeadsOfAre(t, key, before);
      ChainHead(t, key, last);
    }
  }

  /** The head of a stream that has records. */
  ghost predicate AtHead(t: Table, h: StreamHead) {
    && Of(t, h.stream) != [] && h.seqNo == |Of(t, h.stream)|
    && h.headHash == Of(t, h.stream)[|Of(t, h.stream)| - 1].recordHash
  }

  lemma StreamsAre(t: Table)
    ensures forall s :: s in Streams(t, false) <==> s != CHECKPOINT_STREAM && Of(t, s) != []
    ensures Distinct(Streams(t, false))
  {
    var names := WithoutCheckpoints(StreamNames(t));
    SameMembers(names, Streams(t, false));
    SortDistinct(StringLe, names);
    forall s ensures s in names <==> s != CHECKPOINT_STREAM && Of(t, s) != [] {
      OfMembers(t, s);
      if Of(t, s) != [] {
        assert Of(t, s)[0] in Of(t, s);
      }
    }
  }

  /** The heads a checkpoint is about to seal: one for every other stream, all vouched for. */
  lemma HonestHeadsVouched(t: Table, key: string)
    requires Honest(t, key)
    ensures VouchedHeads(t, HeadsOf(t, Streams(t, false)))
    ensures forall h :: h in HeadsOf(t, Streams(t, false)) <==> h.stream != CHECKPOINT_STREAM && AtHead(t, h)
  {
    hide IsChain, Streams, HeadsOf, AtHead, VouchedHeads;
    StreamsAre(t);
    HeadsOfAre(t, key, Streams(t, false));
    forall h | AtHead(t, h) {
      AtHeadHasRows(t, h);
    }
    HeadsVouched(t, HeadsOf(t, Streams(t, false)));
  }

  lemma AtHeadHasRows(t: Table, h: StreamHead)
    requires AtHead(t, h)
    ensures Of(t, h.stream) != []
  {}

  lemma HeadsVouched(t: Table, heads: seq<StreamHead>)
    requires forall h | h in heads :: h.stream != CHECKPOINT_STREAM && AtHead(t, h)
    ensures VouchedHeads(t, heads)
  {
    hide Of;
  }

  // --- what verify_all establishes -----------------------------------------------

  lemma {:induction false} ObservedAt(t: Table, recorded: seq<StreamHead>, h: StreamHead)
    requires h in recorded
    requires forall g | g in recorded && g.stream == h.stream :: g == h
    ensures match ObserveHead(t, h)
            case Some(seen) => h.stream in Observed(t, recorded) && Observed(t, recorded)[h.stream] == seen
            case None => h.stream !in Observed(t, recorded)
  {
    hide ObserveHead;
    var last, before := recorded[|recorded| - 1], recorded[..|recorded| - 1];
    assert recorded == before + [last];
    if h in before {
      ObservedAt(t, before, h);
    } else {
      UnobservedElsewhere(t, before, h.stream);
    }
  }

  lemma {:induction false} UnobservedElsewhere(t: Table, recorded: seq<StreamHead>, stream: string)
    requires forall g | g in recorded :: g.stream != stream
    ensures stream !in Observed(t, recorded)
  {
    if recorded != [] {
      var last, before := recorded[|recorded| - 1], recorded[..|recorded| - 1];
      assert recorded == before + [last];
      UnobservedElsewhere(t, before, stream);
    }
  }

  /** A head matches exactly when the table still holds that record under that digest.
      The digest fallback for a missing record is the empty one, which no head carries. */
  lemma HeadMatches(t: Table, recorded: seq<StreamHead>, h: StreamHead)
    requires h in recorded && h.headHash != NO_HASH
    requires forall g | g in recorded && g.stream == h.stream :: g == h
    ensures JudgeHead(h, Observed(t, recorded)) == Matches <==>
              RowAt(Of(t, h.stream), h.seqNo).Some? && RowAt(Of(t, h.stream), h.seqNo).value.recordHash == h.headHash
  {
    ObservedAt(t, recorded, h);
  }

  lemma {:induction false} WholeRange(rs: seq<Record>, key: string, stream: string)
    requires IsChain(rs, key, stream)
    ensures InRange(rs, 1, None) == rs
  {
    hide IsChain;
    forall r | r in rs ensures r.seqNo >= 1 {
      var i :| 0 <= i < |rs| && rs[i] == r;
      ChainAt(rs, key, stream, i);
    }
    RangeKeepsAll(rs);
  }

  lemma {:induction false} RangeKeepsAll(rs: seq<Record>)
    requires forall r | r in rs :: r.seqNo >= 1
    ensures InRange(rs, 1, None) == rs
  {
    if rs != [] {
      RangeKeepsAll(rs[1..]);
    }
  }

  lemma ChainRowAt(rs: seq<Record>, key: string, stream: string, n: nat)
    requires IsChain(rs, key, stream) && 1 <= n <= |rs|
    ensures RowAt(rs, n) == Some(rs[n - 1])
  {
    hide IsChain;
    ChainAt(rs, key, stream, n - 1);
    assert rs[n - 1] in rs;
    var row := RowAt(rs, n).value;
    var i :| 0 <= i < |rs| && rs[i] == row;
    ChainAt(rs, key, stream, i);
  }

  /** No honest table ever fails verification, however many records and checkpoints it has. */
  lemma HonestVerifies(t: Table, key: string)
    requires Honest(t, key)
    ensures StreamsValid(t, key)
    ensures LastCheckpointVerdict(t).Ok? && LastCheckpointVerdict(t).value.valid
  {
    hide IsChain, VerifyStream;
    forall r | r in t ensures VerifyStream(t, key, r.stream, 1, None).valid {
      HonestStreamVerifies(t, key, r.stream);
    }
    if LastCheckpoint(t).Some? {
      ChainHead(t, key, CHECKPOINT_STREAM);
      var latest := LastCheckpoint(t).value;
      assert latest in Of(t, CHECKPOINT_STREAM);
      var heads :| latest.payload == CheckpointPayload(heads) && VouchedHeads(t, heads);
      HonestCheckpointMatches(t, key, latest, heads);
    }
  }

  lemma HonestStreamVerifies(t: Table, key: string, stream: string)
    requires IsChain(Of(t, stream), key, stream)
    ensures VerifyStream(t, key, stream, 1, None).valid
  {
    WholeRange(Of(t, stream), key, stream);
    ChainIsAccepted(Of(t, stream), key, stream);
  }

  lemma HonestCheckpointMatches(t: Table, key: string, latest: Record, heads: seq<StreamHead>)
    requires forall s :: IsChain(Of(t, s), key, s)
    requires LastCheckpoint(t) == Some(latest) && latest.payload == CheckpointPayload(heads) && VouchedHeads(t, heads)
    ensures LastCheckpointVerdict(t).Ok? && LastCheckpointVerdict(t).value.valid
  {
    hide IsChain, CheckpointPayload, LastCheckpoint, Observed, ObserveHead, SortBy, RecordedHeads, RowAt;
    var recorded := SortBy(ByStream, heads);
    CheckpointRoundTrip(heads);
    SameMembers(heads, recorded);
    forall h | h in recorded ensures JudgeHead(h, Observed(t, recorded)) == Matches {
      ChainAt(Of(t, h.stream), key, h.stream, h.seqNo - 1);
      ChainRowAt(Of(t, h.stream), key, h.stream, h.seqNo);
      HeadMatches(t, recorded, h);
    }
  }

  /** Beneath the sealed length, the stream now holds exactly the sealed records. */
  ghost predicate IntactBeneath(sealed: Table, now: Table, stream: string) {
    var rs := Of(sealed, stream);
    forall r :: r in rs <==> r in Of(now, stream) && 1 <= r.seqNo <= |rs|
  }

  lemma {:induction false} ConsecutiveSeqs(o: seq<Record>, key: string, i: nat)
    requires Linked(o, key) && i < |o|
    ensures o[i].seqNo == o[0].seqNo + i
  {
    hide Linked;
    if i > 0 {
      ConsecutiveSeqs(o, key, i - 1);
      LinkedAt(o, key, i);
    }
  }

  /** A valid stream that still carries the sealed head carries the whole sealed history. */
  lemma SealedHeadPinsRows(rs: seq<Record>, now: Table, key: string, stream: string, row: Record)
    requires IsChain(rs, key, stream) && rs != []
    requires VerifyStream(now, key, stream, 1, None).valid
    requires row in Of(now, stream) && row.seqNo == |rs| && row.recordHash == rs[|rs| - 1].recordHash
    ensures forall r :: r in rs <==> r in Of(now, stream) && 1 <= r.seqNo <= |rs|
  {
    hide IsChain, Linked, SortBy, InRange, Of, VerifyStream;
    var rows := InRange(Of(now, stream), 1, None);
    var o, n := SortBy(BySeq, rows), |rs|;
    SameMembers(rows, o);
    ValidStreamLinked(now, key, stream);
    assert row in o;
    var i :| 0 <= i < |o| && o[i] == row;
    HashPinsHistory(o, rs, key, stream, i, n - 1);
    assert o[..n] == rs;
    NumberedFromOne(o, rs, key, stream);
    NumberedPrefix(o, rs);
    forall r ensures r in rs <==> r in Of(now, stream) && 1 <= r.seqNo <= n {}
  }

  lemma ValidStreamLinked(t: Table, key: string, stream: string)
    requires VerifyStream(t, key, stream, 1, None).valid
    ensures Linked(SortBy(BySeq, InRange(Of(t, stream), 1, None)), key)
  {
    hide Linked, SortBy, InRange, Of;
    var o := SortBy(BySeq, InRange(Of(t, stream), 1, None));
    SortSorted(BySeq, InRange(Of(t, stream), 1, None));
    SortedIsFixed(BySeq, o);
    AcceptedIsLinked(o, key);
  }

  lemma NumberedFromOne(o: seq<Record>, rs: seq<Record>, key: string, stream: string)
    requires Linked(o, key) && IsChain(rs, key, stream) && 0 < |rs| <= |o| && o[..|rs|] == rs
    ensures forall k | 0 <= k < |o| :: o[k].seqNo == k + 1
  {
    hide Linked, IsChain;
    ChainAt(rs, key, stream, 0);
    assert o[..|rs|][0] == o[0];
    forall k | 0 <= k < |o| {
      ConsecutiveSeqs(o, key, k);
    }
  }

  lemma NumberedPrefix(o: seq<Record>, rs: seq<Record>)
    requires |rs| <= |o| && o[..|rs|] == rs && forall k | 0 <= k < |o| :: o[k].seqNo == k + 1
    ensures forall r :: r in rs <==> r in o && 1 <= r.seqNo <= |rs|
  {
    forall r | r in rs ensures r in o && 1 <= r.seqNo <= |rs| {
      var k :| 0 <= k < |rs| && rs[k] == r;
      assert o[..|rs|][k] == o[k];
    }
    forall r | r in o && 1 <= r.seqNo <= |rs| ensures r in rs {
      var k :| 0 <= k < |o| && o[k] == r;
      assert o[..|rs|][k] == o[k];
    }
  }

  lemma IntactKeepsHead(rs: seq<Record>, rows: seq<Record>, key: string, stream: string)
    requires IsChain(rs, key, stream) && rs != []
    requires forall r | r in rs :: r in rows
    requires forall r | r in rows && 1 <= r.seqNo <= |rs| :: r in rs
    ensures RowAt(rows, |rs|).Some? && RowAt(rows, |rs|).value.recordHash == rs[|rs| - 1].recordHash
  {
    hide IsChain, RowAt;
    var n, last := |rs|, rs[|rs| - 1];
    ChainAt(rs, key, stream, n - 1);
    assert last in rs && last.seqNo == n;
    var row := RowAt(rows, n).value;
    assert row in rs;
    var i :| 0 <= i < n && rs[i] == row;
    ChainAt(rs, key, stream, i);
  }

  /** Of this stream's records 1..n, the table now holds exactly the sealed ones. */
  ghost predicate IntactUpTo(sealed: Table, now: Table, stream: string, n: int) {
    forall r :: r in Of(sealed, stream) && r.seqNo <= n <==> r in Of(now, stream) && 1 <= r.seqNo <= n
  }

  lemma UpToPrefix(rs: seq<Record>, key: string, stream: string, n: nat)
    requires IsChain(rs, key, stream) && n <= |rs|
    ensures forall r :: r in rs[..n] <==> r in rs && r.seqNo <= n
  {
    hide IsChain;
    forall r | r in rs[..n] ensures r in rs && r.seqNo <= n {
      var i :| 0 <= i < n && rs[..n][i] == r;
      ChainAt(rs, key, stream, i);
    }
    forall r | r in rs && r.seqNo <= n ensures r in rs[..n] {
      var i :| 0 <= i < |rs| && rs[i] == r;
      ChainAt(rs, key, stream, i);
      assert rs[..n][i] == r;
    }
  }

  lemma VouchedHeadMatches(sealed: Table, now: Table, key: string, recorded: seq<StreamHead>, h: StreamHead)
    requires IsChain(Of(sealed, h.stream), key, h.stream) && Vouched(sealed, h)
    requires h in recorded && forall g | g in recorded && g.stream == h.stream :: g == h
    requires StreamsValid(now, key)
    ensures JudgeHead(h, Observed(now, recorded)) == Matches <==> IntactUpTo(sealed, now, h.stream, h.seqNo)
  {
    hide IsChain, Observed, JudgeHead, StreamsValid, RowAt, IntactUpTo, Of;
    var all, n := Of(sealed, h.stream), h.seqNo;
    var rs := all[..n];
    PrefixIsChain(all, key, h.stream, n);
    UpToPrefix(all, key, h.stream, n);
    IntactMeans(sealed, now, h.stream, n, rs);
    ChainAt(rs, key, h.stream, n - 1);
    HeadMatches(now, recorded, h);
    HeadCarriedIff(rs, now, key, h.stream);
  }

  /** A valid stream carries the last digest of a chain exactly when it holds that chain. */
  lemma HeadCarriedIff(rs: seq<Record>, now: Table, key: string, stream: string)
    requires IsChain(rs, key, stream) && rs != [] && StreamsValid(now, key)
    ensures RowAt(Of(now, stream), |rs|).Some? && RowAt(Of(now, stream), |rs|).value.recordHash == rs[|rs| - 1].recordHash
            <==> forall r :: r in rs <==> r in Of(now, stream) && 1 <= r.seqNo <= |rs|
  {
    hide IsChain, VerifyStream, RowAt, Of;
    if forall r :: r in rs <==> r in Of(now, stream) && 1 <= r.seqNo <= |rs| {
      IntactKeepsHead(rs, Of(now, stream), key, stream);
    } else if RowAt(Of(now, stream), |rs|).Some? {
      var row := RowAt(Of(now, stream), |rs|).value;
      OfMembers(now, stream);
      assert row in now && VerifyStream(now, key, row.stream, 1, None).valid;
      if row.recordHash == rs[|rs| - 1].recordHash {
        SealedHeadPinsRows(rs, now, key, stream, row);
      }
    }
  }

  lemma IntactMeans(sealed: Table, now: Table, stream: string, n: int, rs: seq<Record>)
    requires forall r :: r in rs <==> r in Of(sealed, stream) && r.seqNo <= n
    ensures IntactUpTo(sealed, now, stream, n) <==> forall r :: r in rs <==> r in Of(now, stream) && 1 <= r.seqNo <= n
  {}

  /** The point of a checkpoint. Take a table whose streams are chains, and any heads that name
      records of it, read together or one at a time. Seal them, and let anything at all happen
      to the rows: while that checkpoint is the latest, verification passes exactly when every
      stream is internally valid and, up to each sealed head, no record was removed, added or
      changed. */
  lemma VouchedCheckpointSeals(sealed: Table, heads: seq<StreamHead>, now: Table, key: string)
    requires (forall s :: IsChain(Of(sealed, s), key, s)) && VouchedHeads(sealed, heads)
    requires LastCheckpoint(now).Some? && LastCheckpoint(now).value.payload == CheckpointPayload(heads)
    ensures LastCheckpointVerdict(now).Ok?
    ensures StreamsValid(now, key) && LastCheckpointVerdict(now).value.valid <==>
              StreamsValid(now, key) && forall h | h in heads :: IntactUpTo(sealed, now, h.stream, h.seqNo)
  {
    hide IsChain, CheckpointPayload, LastCheckpoint, Observed, VerifyStream, IntactUpTo, StreamsValid, Vouched, RecordedHeads;
    var recorded := SortBy(ByStream, heads);
    CheckpointRoundTrip(heads);
    SameMembers(heads, recorded);
    if StreamsValid(now, key) {
      forall h | h in recorded
        ensures JudgeHead(h, Observed(now, recorded)) == Matches <==> IntactUpTo(sealed, now, h.stream, h.seqNo)
      {
        VouchedHeadMatches(sealed, now, key, recorded, h);
      }
    }
  }

  /** So a checkpoint taken of an honest table at rest seals all of every other stream. */
  lemma CheckpointSealsHistory(sealed: Table, now: Table, key: string)
    requires Honest(sealed, key)
    requires LastCheckpoint(now).Some?
    requires LastCheckpoint(now).value.payload == CheckpointPayload(HeadsOf(sealed, Streams(sealed, false)))
    ensures LastCheckpointVerdict(now).Ok?
    ensures StreamsValid(now, key) && LastCheckpointVerdict(now).value.valid <==>
              StreamsValid(now, key) && forall s | s != CHECKPOINT_STREAM :: IntactBeneath(sealed, now, s)
  {
    hide IsChain, CheckpointPayload, LastCheckpoint, Streams, HeadsOf, StreamsValid, IntactUpTo, IntactBeneath,
      LastCheckpointVerdict, VouchedHeads, AtHead;
    var heads := HeadsOf(sealed, Streams(sealed, false));
    HonestHeadsVouched(sealed, key);
    VouchedCheckpointSeals(sealed, heads, now, key);
    forall s | s != CHECKPOINT_STREAM
      ensures IntactBeneath(sealed, now, s) <==> forall h | h in heads && h.stream == s :: IntactUpTo(sealed, now, s, h.seqNo)
    {
      BeneathIsUpToHead(sealed, now, key, heads, s);
    }
    HeadsAndStreams(sealed, now, heads);
  }

  lemma HeadsAndStreams(sealed: Table, now: Table, heads: seq<StreamHead>)
    requires forall h | h in heads :: h.stream != CHECKPOINT_STREAM
    requires forall s | s != CHECKPOINT_STREAM ::
      IntactBeneath(sealed, now, s) <==> forall h | h in heads && h.stream == s :: IntactUpTo(sealed, now, s, h.seqNo)
    ensures (forall h | h in heads :: IntactUpTo(sealed, now, h.stream, h.seqNo))
            <==> forall s | s != CHECKPOINT_STREAM :: IntactBeneath(sealed, now, s)
  {
    hide IntactBeneath, IntactUpTo;
    if forall s | s != CHECKPOINT_STREAM :: IntactBeneath(sealed, now, s) {
      forall h | h in heads ensures IntactUpTo(sealed, now, h.stream, h.seqNo) {
        assert IntactBeneath(sealed, now, h.stream);
      }
    }
  }

  lemma BeneathIsUpToHead(sealed: Table, now: Table, key: string, heads: seq<StreamHead>, s: string)
    requires IsChain(Of(sealed, s), key, s) && s != CHECKPOINT_STREAM
    requires forall h :: h in heads <==> h.stream != CHECKPOINT_STREAM && AtHead(sealed, h)
    ensures IntactBeneath(sealed, now, s) <==> forall h | h in heads && h.stream == s :: IntactUpTo(sealed, now, s, h.seqNo)
  {
    hide IsChain;
    var rs := Of(sealed, s);
    UpToPrefix(rs, key, s, |rs|);
    assert rs[..|rs|] == rs;
    if rs != [] {
      var h := StreamHead(s, |rs|, rs[|rs| - 1].recordHash);
      assert AtHead(sealed, h) && h in heads;
    }
  }

  // --- ranges --------------------------------------------------------------------------

  function Clamp(n: int, lo: int, hi: int): int {
    if n < lo then lo else if n > hi then hi else n
  }

  /** Where a range begins and ends among n records numbered from base. */
  function Bounds(start: int, end: Option<int>, base: int, n: nat): (r: (nat, nat))
    ensures r.0 <= r.1 <= n
  {
    var lo := Clamp(start - base, 0, n);
    (lo, if end == None then n else Clamp(end.value + 1 - base, lo, n))
  }

  lemma BoundsShift(start: int, end: Option<int>, base: int, n: nat)
    requires n > 0
    ensures var (lo, hi), (lo', hi') := Bounds(start, end, base, n), Bounds(start, end, base + 1, n - 1);
      if base >= start && (end.Some? ==> base <= end.value) then lo == lo' == 0 && hi == hi' + 1
      else if lo > 0 then lo == lo' + 1 && hi == hi' + 1
      else lo == hi == 0 && lo' == hi'
  {}

  /** The records a range selects of consecutively numbered ones. */
  lemma {:induction false} RangeOfConsecutive(rs: seq<Record>, base: int, start: int, end: Option<int>)
    requires forall i | 0 <= i < |rs| :: rs[i].seqNo == base + i
    ensures var (lo, hi) := Bounds(start, end, base, |rs|); InRange(rs, start, end) == rs[lo..hi]
  {
    hide InRange, Bounds;
    if rs == [] {
      NothingInRange(start, end);
    } else {
      RangeOfConsecutive(rs[1..], base + 1, start, end);
      InRangeFirst(rs, start, end);
      BoundsShift(start, end, base, |rs|);
      var (lo, hi) := Bounds(start, end, base, |rs|);
      SliceFirst(rs, lo, hi);
    }
  }

  lemma NothingInRange(start: int, end: Option<int>)
    ensures InRange([], start, end) == []
  {}

  lemma InRangeFirst(rs: seq<Record>, start: int, end: Option<int>)
    requires rs != []
    ensures InRange(rs, start, end) ==
            if rs[0].seqNo >= start && (end.Some? ==> rs[0].seqNo <= end.value) then [rs[0]] + InRange(rs[1..], start, end)
            else InRange(rs[1..], start, end)
  {
    assert [] + InRange(rs[1..], start, end) == InRange(rs[1..], start, end);
  }

  lemma SliceFirst(rs: seq<Record>, lo: nat, hi: nat)
    requires rs != [] && lo <= hi <= |rs|
    ensures rs[lo..hi] ==
            if lo > 0 then rs[1..][lo - 1..hi - 1] else if hi > 0 then [rs[0]] + rs[1..][0..hi - 1] else []
  {
    if lo > 0 {
      assert forall k | 0 <= k < hi - lo :: rs[lo..hi][k] == rs[1..][lo - 1..hi - 1][k];
    } else if hi > 0 {
      assert forall k | 0 <= k < hi :: rs[0..hi][k] == ([rs[0]] + rs[1..][0..hi - 1])[k];
    }
  }

  /** Verifying a range is verifying the records it selects, from the digest before it. */
  lemma RangeVerdict(t: Table, key: string, stream: string, start: int, end: Option<int>, part: seq<Record>)
    requires InRange(Of(t, stream), start, end) == part && SortBy(BySeq, part) == part
    ensures VerifyStream(t, key, stream, start, end).valid <==>
              if start > 1 then
                RowAt(Of(t, stream), start - 1).Some?
                && LinkedFrom(part, key, RowAt(Of(t, stream), start - 1).value.recordHash)
              else LinkedFrom(part, key, GENESIS_HASH)
  {
    hide SortBy, InRange, RowAt, LinkedFrom, Of, Verification;
    AcceptedIsLinkedFrom(part, key, GENESIS_HASH);
    if start > 1 && RowAt(Of(t, stream), start - 1).Some? {
      AcceptedIsLinkedFrom(part, key, RowAt(Of(t, stream), start - 1).value.recordHash);
    }
  }

  /** Every range of an honest chain is accepted, exactly if the record before it exists. */
  lemma HonestRangeVerifies(t: Table, key: string, stream: string, start: int, end: Option<int>)
    requires IsChain(Of(t, stream), key, stream)
    ensures VerifyStream(t, key, stream, start, end).valid <==> start <= |Of(t, stream)| + 1
  {
    hide IsChain, LinkedFrom, SortBy, InRange, RowAt, VerifyStream, Of;
    var rs := Of(t, stream);
    forall i | 0 <= i < |rs| ensures rs[i].seqNo == 1 + i {
      ChainAt(rs, key, stream, i);
    }
    RangeOfConsecutive(rs, 1, start, end);
    var lo := Clamp(start - 1, 0, |rs|);
    var hi := if end == None then |rs| else Clamp(end.value, lo, |rs|);
    PartIsLinked(rs, key, stream, lo, hi);
    RangeVerdict(t, key, stream, start, end, rs[lo..hi]);
    if 1 < start <= |rs| + 1 {
      ChainRowAt(rs, key, stream, start - 1);
    } else if start > 1 {
      NoRowBeyond(rs, key, stream, start - 1);
    }
  }

  lemma NoRowBeyond(rs: seq<Record>, key: string, stream: string, n: int)
    requires IsChain(rs, key, stream) && n > |rs|
    ensures RowAt(rs, n) == None
  {
    hide IsChain, RowAt;
    if RowAt(rs, n).Some? {
      var i :| 0 <= i < |rs| && rs[i] == RowAt(rs, n).value;
      ChainAt(rs, key, stream, i);
    }
  }

  /** What an accepted range pins. If a row of it still carries the digest the sealed chain has
      there, the rows of the range up to it are exactly the sealed ones from some point on: the
      point whose digest the row before the range carries. That row is not itself verified, and
      only if it is the sealed one is nothing missing at the start of the range. */
  lemma RangePinsRows(rs: seq<Record>, now: Table, key: string, stream: string, start: int, end: Option<int>, row: Record)
    returns (lo: nat)
    requires IsChain(rs, key, stream) && start >= 1 && VerifyStream(now, key, stream, start, end).valid
    requires row in InRange(Of(now, stream), start, end) && 1 <= row.seqNo <= |rs| && row.recordHash == rs[row.seqNo - 1].recordHash
    ensures start - 1 <= lo < row.seqNo
    ensures forall r :: r in Of(now, stream) && start <= r.seqNo <= row.seqNo <==> r in rs && lo < r.seqNo <= row.seqNo
    ensures start == 1 ==> lo == 0
    ensures start > 1 ==>
              && RowAt(Of(now, stream), start - 1).Some?
              && RowAt(Of(now, stream), start - 1).value.recordHash == LinkBefore(rs, lo, GENESIS_HASH)
              && (RowAt(Of(now, stream), start - 1).value.recordHash == rs[start - 2].recordHash ==> lo == start - 1)
  {
    hide IsChain, LinkedFrom, SortBy, RowAt, VerifyStream, InRange, Of;
    RangeIsLinked(now, key, stream, start, end);
    var rows := InRange(Of(now, stream), start, end);
    var o := SortBy(BySeq, rows);
    var firstPrev := if start > 1 then RowAt(Of(now, stream), start - 1).value.recordHash else GENESIS_HASH;
    SameMembers(rows, o);
    lo := PartIsPinned(o, rs, key, stream, firstPrev, row);
    assert o[0] in rows;
    RangeMembers(Of(now, stream), start, end, o, row);
    StartOfRange(rs, key, stream, start, lo, firstPrev);
  }

  lemma StartOfRange(rs: seq<Record>, key: string, stream: string, start: int, lo: nat, firstPrev: Hash)
    requires IsChain(rs, key, stream) && start >= 1 && start - 1 <= lo < |rs| && firstPrev == LinkBefore(rs, lo, GENESIS_HASH)
    ensures start == 1 && firstPrev == GENESIS_HASH ==> lo == 0
    ensures start > 1 && firstPrev == rs[start - 2].recordHash ==> lo == start - 1
  {
    hide IsChain;
    if lo > 0 {
      ChainAt(rs, key, stream, lo - 1);
    }
    if start > 1 && lo != start - 1 {
      HashesDistinct(rs, key, stream, lo - 1, start - 2);
    }
  }

  lemma PartIsPinned(o: seq<Record>, rs: seq<Record>, key: string, stream: string, firstPrev: Hash, row: Record)
    returns (lo: nat)
    requires LinkedFrom(o, key, firstPrev) && IsChain(rs, key, stream)
    requires row in o && 1 <= row.seqNo <= |rs| && row.recordHash == rs[row.seqNo - 1].recordHash
    ensures lo < row.seqNo && o != [] && o[0].seqNo == lo + 1 && firstPrev == LinkBefore(rs, lo, GENESIS_HASH)
    ensures forall r :: r in o && r.seqNo <= row.seqNo <==> r in rs && lo < r.seqNo <= row.seqNo
  {
    hide IsChain, LinkedFrom;
    var i :| 0 <= i < |o| && o[i] == row;
    var j := row.seqNo - 1;
    RangePinsHistory(o, rs, key, stream, firstPrev, i, j);
    lo := j - i;
    forall k | 0 <= k <= i ensures o[k] == rs[lo + k] && o[k].seqNo == lo + k + 1 {
      assert o[..i + 1][k] == rs[lo..j + 1][k];
      ChainAt(rs, key, stream, lo + k);
    }
    forall k | 0 <= k < |o| ensures o[k].seqNo == o[0].seqNo + k {
      NumberedOn(o, key, firstPrev, k);
    }
    PartMembers(o, rs, key, stream, i, lo);
  }

  lemma RangeMembers(all: seq<Record>, start: int, end: Option<int>, o: seq<Record>, row: Record)
    requires row in InRange(all, start, end) && forall r :: r in o <==> r in InRange(all, start, end)
    ensures forall r :: r in all && start <= r.seqNo <= row.seqNo <==> r in o && r.seqNo <= row.seqNo
  {
    hide InRange;
  }

  lemma RangeIsLinked(now: Table, key: string, stream: string, start: int, end: Option<int>)
    requires start >= 1 && VerifyStream(now, key, stream, start, end).valid
    ensures start > 1 ==> RowAt(Of(now, stream), start - 1).Some?
    ensures LinkedFrom(SortBy(BySeq, InRange(Of(now, stream), start, end)), key,
                       if start > 1 then RowAt(Of(now, stream), start - 1).value.recordHash else GENESIS_HASH)
  {
    hide LinkedFrom, SortBy, InRange, RowAt, Verification;
    assert start > 1 ==> RowAt(Of(now, stream), start - 1).Some?;
    var rows := InRange(Of(now, stream), start, end);
    var firstPrev := if start > 1 then RowAt(Of(now, stream), start - 1).value.recordHash else GENESIS_HASH;
    var o := SortBy(BySeq, rows);
    SortSorted(BySeq, rows);
    SortedIsFixed(BySeq, o);
    AcceptedIsLinkedFrom(o, key, firstPrev);
  }

  lemma {:induction false} NumberedOn(o: seq<Record>, key: string, firstPrev: Hash, k: nat)
    requires LinkedFrom(o, key, firstPrev) && k < |o|
    ensures o[k].seqNo == o[0].seqNo + k
  {
    hide LinkedFrom;
    if k > 0 {
      NumberedOn(o, key, firstPrev, k - 1);
      LinkedFromAt(o, key, firstPrev, k);
    }
  }

  lemma PartMembers(o: seq<Record>, rs: seq<Record>, key: string, stream: string, i: nat, lo: nat)
    requires IsChain(rs, key, stream) && i < |o| && lo + i < |rs|
    requires forall k | 0 <= k <= i :: o[k] == rs[lo + k]
    requires forall k | 0 <= k < |o| :: o[k].seqNo == lo + 1 + k
    ensures forall r :: r in o && r.seqNo <= lo + i + 1 <==> r in rs && lo < r.seqNo <= lo + i + 1
  {
    hide IsChain;
    forall r | r in o && r.seqNo <= lo + i + 1 ensures r in rs && lo < r.seqNo <= lo + i + 1 {
      var k :| 0 <= k < |o| && o[k] == r;
      assert rs[lo + k] in rs;
    }
    forall r | r in rs && lo < r.seqNo <= lo + i + 1 ensures r in o {
      var m :| 0 <= m < |rs| && rs[m] == r;
      ChainAt(rs, key, stream, m);
      assert o[m - lo] == r;
    }
  }

  // --- which verdict ---------------------------------------------------------------

  lemma HeadIsHighest(t: Table, stream: string)
    ensures Of(t, stream) == [] ==> Head(t, stream).0 == 1
    ensures Of(t, stream) != [] ==>
              && (exists x :: x in Of(t, stream) && x.seqNo == Head(t, stream).0 - 1)
              && forall x | x in Of(t, stream) :: x.seqNo <= Head(t, stream).0 - 1
  {
    hide Of;
    var o := Ordered(t, stream);
    SortSorted(BySeq, Of(t, stream));
    SameMembers(Of(t, stream), o);
    if o != [] {
      var last := o[|o| - 1];
      assert last in o;
      forall x | x in o ensures x.seqNo <= last.seqNo {
        var i :| 0 <= i < |o| && o[i] == x;
        assert i < |o| - 1 ==> BySeq(o[i], o[|o| - 1]);
      }
    }
  }

  ghost predicate HasRow(t: Table, stream: string, seqNo: int) {
    exists x :: x in t && x.stream == stream && x.seqNo == seqNo
  }

  ghost predicate HasRowAbove(t: Table, stream: string, bound: int) {
    exists x :: x in t && x.stream == stream && x.seqNo > bound
  }

  /** What verification against a checkpoint reports of each head it names. The stream is
      missing when it has no numbered row; truncated when its rows all come before the head;
      diverged when the head's row is there under another digest, or not there although later
      ones are. */
  lemma VerdictsSay(t: Table, recorded: seq<StreamHead>, h: StreamHead)
    requires h in recorded && h.headHash != NO_HASH
    requires forall g, g' | g in recorded && g' in recorded && g.stream == g'.stream :: g == g'
    requires DistinctSeqs(Of(t, h.stream))
    ensures var v := AgainstCheckpoint(recorded, Observed(t, recorded));
            var there := HasRow(t, h.stream, h.seqNo);
      && v.checked == |recorded|
      && (h.stream in v.missing <==> !there && !HasRowAbove(t, h.stream, 0))
      && (h.stream in v.truncated <==> !there && HasRowAbove(t, h.stream, 0) && !HasRowAbove(t, h.stream, h.seqNo - 1))
      && (h.stream in v.diverged <==>
            if there then forall x | x in t && x.stream == h.stream && x.seqNo == h.seqNo :: x.recordHash != h.headHash
            else HasRowAbove(t, h.stream, 0) && HasRowAbove(t, h.stream, h.seqNo))
  {
    hide Of, Observed, DistinctSeqs, Head;
    ObservedAt(t, recorded, h);
    OfMembers(t, h.stream);
    HeadIsHighest(t, h.stream);
    OneRow(Of(t, h.stream), h.seqNo);
    OnlyItsVerdict(recorded, Observed(t, recorded), h);
  }

  lemma OneRow(rs: seq<Record>, seqNo: int)
    requires DistinctSeqs(rs)
    ensures forall x | x in rs && x.seqNo == seqNo :: RowAt(rs, seqNo) == Some(x)
  {
    hide RowAt;
    forall x, y | x in rs && y in rs && x.seqNo == y.seqNo ensures x == y {
      var i :| 0 <= i < |rs| && rs[i] == x;
      var j :| 0 <= j < |rs| && rs[j] == y;
    }
  }

  lemma OnlyItsVerdict(recorded: seq<StreamHead>, observed: map<string, (int, Hash)>, h: StreamHead)
    requires h in recorded
    requires forall g, g' | g in recorded && g' in recorded && g.stream == g'.stream :: g == g'
    ensures var v := AgainstCheckpoint(recorded, observed);
      && (h.stream in v.missing <==> JudgeHead(h, observed) == Missing)
      && (h.stream in v.truncated <==> JudgeHead(h, observed) == Truncated)
      && (h.stream in v.diverged <==> JudgeHead(h, observed) == Diverged)
  {
    hide JudgeHead, Judged;
  }

  // --- how much a checkpoint covers ---------------------------------------------------

  function Rows(t: Table, names: seq<string>): nat {
    if names == [] then 0 else Rows(t, names[..|names| - 1]) + |Of(t, names[|names| - 1])|
  }

  lemma {:induction false} RowsCons(t: Table, names: seq<string>)
    requires t != [] && Distinct(names)
    ensures Rows(t, names) == Rows(t[1..], names) + if t[0].stream in names then 1 else 0
  {
    if names != [] {
      var before, last := names[..|names| - 1], names[|names| - 1];
      assert names == before + [last];
      RowsCons(t, before);
    }
  }

  lemma {:induction false} RowsAdd(t: Table, names: seq<string>)
    requires Distinct(names) && CHECKPOINT_STREAM !in names
    requires forall r | r in t :: r.stream in names || r.stream == CHECKPOINT_STREAM
    ensures Rows(t, names) == |t| - |Of(t, CHECKPOINT_STREAM)|
  {
    if t == [] {
      NoRows(names);
    } else {
      RowsCons(t, names);
      assert t[0] in t && forall r | r in t[1..] :: r in t;
      RowsAdd(t[1..], names);
    }
  }

  lemma {:induction false} NoRows(names: seq<string>)
    ensures Rows([], names) == 0
  {
    if names != [] {
      NoRows(names[..|names| - 1]);
    }
  }

  lemma {:induction false} TotalConcat(a: seq<StreamHead>, b: seq<StreamHead>)
    ensures TotalRecords(a + b) == TotalRecords(a) + TotalRecords(b)
  {
    if a == [] {
      assert a + b == b;
    } else {
      assert (a + b)[0] == a[0] && (a + b)[1..] == a[1..] + b;
      TotalConcat(a[1..], b);
    }
  }

  lemma {:induction false} HeadsTotal(t: Table, key: string, names: seq<string>)
    requires forall s :: IsChain(Of(t, s), key, s)
    ensures TotalRecords(HeadsOf(t, names)) == Rows(t, names)
  {
    hide IsChain, Head, Of;
    if names != [] {
      var before, last := names[..|names| - 1], names[|names| - 1];
      HeadsTotal(t, key, before);
      ChainHead(t, key, last);
      var (next, hash) := Head(t, last);
      TotalConcat(HeadsOf(t, before), if next > 1 then [StreamHead(last, next - 1, hash)] else []);
      OneTotal(StreamHead(last, next - 1, hash));
    }
  }

  lemma OneTotal(h: StreamHead)
    ensures TotalRecords([h]) == h.seqNo && TotalRecords([]) == 0
  {
    assert [h][1..] == [];
  }

  lemma TotalMove(a: seq<StreamHead>, h: StreamHead, b: seq<StreamHead>)
    ensures TotalRecords(a + [h] + b) == TotalRecords(a + b) + h.seqNo
  {
    TotalConcat(a + [h], b);
    TotalConcat(a, [h]);
    TotalConcat(a, b);
    OneTotal(h);
  }

  lemma WithOneMore(a: seq<StreamHead>, h: StreamHead, b: seq<StreamHead>)
    ensures multiset(a + [h] + b) == multiset(a + b) + multiset{h}
  {}

  lemma CancelOne(m: multiset<StreamHead>, n: multiset<StreamHead>, h: StreamHead)
    requires m + multiset{h} == n + multiset{h}
    ensures m == n
  {
    assert m == m + multiset{h} - multiset{h} && n == n + multiset{h} - multiset{h};
  }

  lemma Taken(b: seq<StreamHead>, i: nat)
    requires i < |b|
    ensures multiset(b) == multiset(b[..i] + b[i + 1..]) + multiset{b[i]}
    ensures TotalRecords(b) == TotalRecords(b[..i] + b[i + 1..]) + b[i].seqNo
  {
    hide TotalRecords;
    var before, after := b[..i], b[i + 1..];
    assert b == before + [b[i]] + after;
    WithOneMore(before, b[i], after);
    TotalMove(before, b[i], after);
  }

  lemma {:induction false} TotalPermutes(a: seq<StreamHead>, b: seq<StreamHead>)
    requires multiset(a) == multiset(b)
    ensures TotalRecords(a) == TotalRecords(b)
    decreases |a|
  {
    hide TotalRecords;
    if a == [] {
      assert |multiset(b)| == 0;
      assert b == [];
    } else {
      assert a[0] in multiset(a) && a[0] in multiset(b);
      var i :| 0 <= i < |b| && b[i] == a[0];
      Taken(a, 0);
      Taken(b, i);
      var x, y := a[..0] + a[1..], b[..i] + b[i + 1..];
      CancelOne(multiset(x), multiset(y), a[0]);
      TotalPermutes(x, y);
    }
  }

  /** The totals a checkpoint of an honest table states: the streams that have rows, and every
      row of the table but the checkpoints themselves. */
  lemma CheckpointTotals(t: Table, key: string)
    requires Honest(t, key)
    ensures var payload := CheckpointPayload(HeadsOf(t, Streams(t, false)));
      && payload["total_records"] == Number(|t| - |Of(t, CHECKPOINT_STREAM)|)
      && payload["stream_count"] == Number(|Streams(t, false)|)
      && Distinct(Streams(t, false))
      && (forall s :: s in Streams(t, false) <==> s != CHECKPOINT_STREAM && Of(t, s) != [])
  {
    hide Streams, HeadsOf, IsChain, Of, Head, HeadsJson, TotalRecords, Rows, VouchedHeads;
    var names := Streams(t, false);
    StreamsAre(t);
    forall r | r in t ensures r.stream in names || r.stream == CHECKPOINT_STREAM {
      OfMembers(t, r.stream);
    }
    HeadsTotal(t, key, names);
    RowsAdd(t, names);
    HeadsCount(t, key, names);
    TotalPermutes(SortBy(ByStream, HeadsOf(t, names)), HeadsOf(t, names));
  }

  lemma {:induction false} HeadsCount(t: Table, key: string, names: seq<string>)
    requires (forall s :: IsChain(Of(t, s), key, s)) && forall s | s in names :: Of(t, s) != []
    ensures |HeadsOf(t, names)| == |names|
  {
    hide IsChain, Head, Of;
    if names != [] {
      var last := names[|names| - 1];
      HeadsCount(t, key, names[..|names| - 1]);
      ChainHead(t, key, last);
    }
  }

  // --- what verifying a range reports ----------------------------------------------------

  /** A range whose predecessor is not there is reported at its start, and nothing else of it;
      any other report is over the rows of the range, however many there are. */
  lemma RangeSays(t: Table, key: string, stream: string, start: int, end: Option<int>)
    ensures var v, rows := VerifyStream(t, key, stream, start, end), InRange(Of(t, stream), start, end);
      && v.checked == |rows|
      && (start > 1 && !HasRow(t, stream, start - 1) ==>
            !v.valid && v.sequenceErrors == [start] && v.corrupted == [] && v.brokenLinks == [])
      && (start > 1 && HasRow(t, stream, start - 1) ==>
            exists x :: x in t && x.stream == stream && x.seqNo == start - 1
                        && v == Verification(SortBy(BySeq, rows), key, x.recordHash))
      && (start <= 1 ==> v == Verification(SortBy(BySeq, rows), key, GENESIS_HASH))
  {
    hide InRange, SortBy, Of, RowAt;
    OfMembers(t, stream);
    SameMembersCount(InRange(Of(t, stream), start, end));
    ChecksAll(SortBy(BySeq, InRange(Of(t, stream), start, end)), key);
  }

  lemma SameMembersCount(rs: seq<Record>)
    ensures |SortBy(BySeq, rs)| == |rs|
  {
    assert |multiset(SortBy(BySeq, rs))| == |multiset(rs)|;
  }

  lemma ChecksAll(rs: seq<Record>, key: string)
    ensures forall firstPrev :: Verification(rs, key, firstPrev).checked == |rs|
  {
    hide SortBy;
    SameMembersCount(rs);
  }

  /** A stored head without one of its fields reads as the empty stream, number nought, or no
      digest; one whose field is of another kind makes reading raise. */
  lemma ReadingSays(m: map<string, Json>)
    ensures var r := HeadFromJson(Fields(m));
      && ("stream" !in m && "seq" !in m && "head_hash" !in m ==> r == Ok(StreamHead("", 0, NO_HASH)))
      && ("stream" in m && !m["stream"].Text? ==> r.Err?)
      && ("seq" in m && !m["seq"].Number? ==> r.Err?)
      && (r.Ok? ==>
            && r.value.stream == (if "stream" in m then m["stream"].text else "")
            && r.value.seqNo == (if "seq" in m then m["seq"].num else 0))
  {}
}
