/**
 Appends as they really run: any number of concurrent transactions, each statement a step
 of its own, interleaved at will (control_plane/audit/service.py). A transaction locks a
 stream, reads its head, inserts over it, and holds its locks until it commits or aborts.
 A checkpoint reads the other streams' heads without locking them, one statement each.

 The database is read-committed: a statement sees the committed rows and its own
 transaction's. Lock keys are 32-bit checksums, so two streams may share one.
 */
module AuditTransactions {
  import opened Wrappers
  import opened Ordering
  import opened HashChain
  import opened AuditService

  datatype Phase =
    | Idle
    | Gathering(heads: seq<StreamHead>)
    | Locked(stream: string, heads: seq<StreamHead>)
    | HeadRead(stream: string, nextSeq: int, headHash: Hash, heads: seq<StreamHead>)
  {
    function Heads(): seq<StreamHead> {
      if Idle? then [] else heads
    }
  }

  datatype Txn = Txn(phase: Phase, locks: set<int>, pending: Table)

  datatype Db = Db(committed: Table, txns: map<nat, Txn>) {
    /** What transaction t's statements see. */
    function View(t: nat): Table
      requires t in txns
    {
      committed + txns[t].pending
    }

    function With(t: nat, txn: Txn): Db {
      Db(committed, txns[t := txn])
    }
  }

  datatype Step =
    | Begin(t: nat)
    | ReadStreamHead(t: nat, stream: string)
    | Lock(t: nat, stream: string)
    | ReadHead(t: nat)
    | Store(t: nat, event: string, actor: string, subject: string, payload: map<string, Json>, timestamp: int)
    | Commit(t: nat)
    | Abort(t: nat)

  /** The key the streams are sealed with, and the checksum locks are taken under. */
  datatype Config = Config(key: string, lockKey: string -> int)

  ghost predicate Enabled(db: Db, step: Step, c: Config) {
    match step
    case Begin(t) => t !in db.txns
    case ReadStreamHead(t, stream) =>
      && t in db.txns && (db.txns[t].phase.Idle? || db.txns[t].phase.Gathering?)
      && stream != CHECKPOINT_STREAM
      && forall h | h in db.txns[t].phase.Heads() :: h.stream != stream
    case Lock(t, stream) =>
      && t in db.txns
      && (db.txns[t].phase.Idle? || (db.txns[t].phase.Gathering? && stream == CHECKPOINT_STREAM))
      && forall u | u in db.txns && u != t :: c.lockKey(stream) !in db.txns[u].locks
    case ReadHead(t) => t in db.txns && db.txns[t].phase.Locked?
    case Store(t, _, _, _, payload, _) =>
      && t in db.txns && db.txns[t].phase.HeadRead?
      && (db.txns[t].phase.stream == CHECKPOINT_STREAM ==> payload == CheckpointPayload(db.txns[t].phase.heads))
    case Commit(t) => t in db.txns
    case Abort(t) => t in db.txns
  }

  /** The record a transaction seals from the head it read earlier. */
  function Sealed(phase: Phase, c: Config, event: string, actor: string, subject: string,
                  payload: map<string, Json>, timestamp: int): Record
    requires phase.HeadRead?
  {
    Seal(c.key, phase.stream, if phase.nextSeq < 1 then 1 else phase.nextSeq,
         if phase.headHash == NO_HASH then GENESIS_HASH else phase.headHash, event, actor, subject, payload, timestamp)
  }

  ghost function Apply(db: Db, step: Step, c: Config): Db
    requires Enabled(db, step, c)
  {
    match step
    case Begin(t) => db.With(t, Txn(Idle, {}, []))
    case ReadStreamHead(t, stream) =>
      var txn := db.txns[t];
      var (next, hash) := Head(db.View(t), stream);
      db.With(t, txn.(phase := Gathering(txn.phase.Heads()
                                         + if next > 1 then [StreamHead(stream, next - 1, hash)] else [])))
    case Lock(t, stream) =>
      var txn := db.txns[t];
      db.With(t, txn.(phase := Locked(stream, txn.phase.Heads()), locks := txn.locks + {c.lockKey(stream)}))
    case ReadHead(t) =>
      var txn := db.txns[t];
      var (next, hash) := Head(db.View(t), txn.phase.stream);
      db.With(t, txn.(phase := HeadRead(txn.phase.stream, next, hash, txn.phase.heads)))
    case Store(t, event, actor, subject, payload, timestamp) =>
      var txn := db.txns[t];
      db.With(t, txn.(phase := Idle,
                      pending := txn.pending + [Sealed(txn.phase, c, event, actor, subject, payload, timestamp)]))
    case Commit(t) => Db(db.View(t), db.txns - {t})
    case Abort(t) => Db(db.committed, db.txns - {t})
  }

  ghost predicate Reaches(from: Db, steps: seq<Step>, to: Db, c: Config)
    decreases |steps|
  {
    if steps == [] then to == from
    else Enabled(from, steps[0], c) && Reaches(Apply(from, steps[0], c), steps[1..], to, c)
  }

  const EMPTY := Db([], map[])

  // --- the invariant -----------------------------------------------------------

  /** What holds of one transaction, whatever the others do. */
  ghost predicate TxnInv(view: Table, txn: Txn, c: Config) {
    && Honest(view, c.key)
    && (forall r | r in txn.pending :: c.lockKey(r.stream) in txn.locks)
    && VouchedHeads(view, txn.phase.Heads())
    && (txn.phase.Locked? || txn.phase.HeadRead? ==> c.lockKey(txn.phase.stream) in txn.locks)
    && (txn.phase.HeadRead? ==> Head(view, txn.phase.stream) == (txn.phase.nextSeq, txn.phase.headHash))
  }

  ghost predicate LocksExclusive(db: Db) {
    forall t, u | t in db.txns && u in db.txns && t != u :: db.txns[t].locks !! db.txns[u].locks
  }

  ghost predicate Inv(db: Db, c: Config) {
    && Honest(db.committed, c.key)
    && LocksExclusive(db)
    && forall t | t in db.txns :: TxnInv(db.View(t), db.txns[t], c)
  }

  /** Rows of a stream whose lock another transaction holds cannot be pending here. */
  lemma NothingPendingUnlocked(txn: Txn, c: Config, stream: string)
    requires forall r | r in txn.pending :: c.lockKey(r.stream) in txn.locks
    requires c.lockKey(stream) !in txn.locks
    ensures Of(txn.pending, stream) == []
  {
    OfMembers(txn.pending, stream);
    if Of(txn.pending, stream) != [] {
      assert Of(txn.pending, stream)[0] in Of(txn.pending, stream);
    }
  }

  /** After u commits beside t, each stream of t's view reads as one of the two did. */
  lemma CommitBeside(db: Db, u: nat, t: nat, c: Config, s: string)
    requires Inv(db, c) && u in db.txns && t in db.txns && u != t
    ensures var after := db.View(u) + db.txns[t].pending;
      && (Of(after, s) == Of(db.View(t), s) || Of(after, s) == Of(db.View(u), s))
      && Of(db.View(t), s) <= Of(after, s)
      && (c.lockKey(s) in db.txns[t].locks ==> Of(after, s) == Of(db.View(t), s))
  {
    hide Honest, VouchedHeads, Head, Of;
    OfConcat(db.View(u), db.txns[t].pending, s);
    OfConcat(db.committed, db.txns[u].pending, s);
    OfConcat(db.committed, db.txns[t].pending, s);
    assert TxnInv(db.View(u), db.txns[u], c) && TxnInv(db.View(t), db.txns[t], c);
    if c.lockKey(s) in db.txns[u].locks {
      NothingPendingUnlocked(db.txns[t], c, s);
    } else {
      NothingPendingUnlocked(db.txns[u], c, s);
    }
  }

  lemma VouchedAlongPrefixes(t: Table, u: Table, heads: seq<StreamHead>)
    requires VouchedHeads(t, heads) && forall s :: Of(t, s) <= Of(u, s)
    ensures VouchedHeads(u, heads)
  {
    hide Of;
  }

  /** Honest tables combine: if every stream of w reads as in t or as in u, and w's streams
      extend those of both, w is honest. */
  lemma HonestMerge(t: Table, u: Table, w: Table, key: string)
    requires Honest(t, key) && Honest(u, key)
    requires forall s :: Of(w, s) == Of(t, s) || Of(w, s) == Of(u, s)
    requires forall s :: Of(t, s) <= Of(w, s) && Of(u, s) <= Of(w, s)
    ensures Honest(w, key)
  {
    hide IsChain, VouchedHeads, CheckpointPayload, Of;
    forall r | r in Of(w, CHECKPOINT_STREAM) ensures GoodCheckpoint(w, r) {
      if r in Of(t, CHECKPOINT_STREAM) {
        var heads :| r.payload == CheckpointPayload(heads) && VouchedHeads(t, heads);
        VouchedAlongPrefixes(t, w, heads);
      } else {
        var heads :| r.payload == CheckpointPayload(heads) && VouchedHeads(u, heads);
        VouchedAlongPrefixes(u, w, heads);
      }
    }
  }

  lemma CommitKeepsOthers(db: Db, u: nat, t: nat, c: Config)
    requires Inv(db, c) && u in db.txns && t in db.txns && u != t
    ensures TxnInv(db.View(u) + db.txns[t].pending, db.txns[t], c)
  {
    hide Honest, VouchedHeads, Of, SortBy;
    var view, after := db.View(t), db.View(u) + db.txns[t].pending;
    assert TxnInv(db.View(u), db.txns[u], c) && TxnInv(view, db.txns[t], c);
    forall s
      ensures Of(after, s) == Of(view, s) || Of(after, s) == Of(db.View(u), s)
      ensures Of(view, s) <= Of(after, s) && Of(db.View(u), s) <= Of(after, s)
      ensures c.lockKey(s) in db.txns[t].locks ==> Of(after, s) == Of(view, s)
    {
      CommitBeside(db, u, t, c, s);
      OfConcat(db.View(u), db.txns[t].pending, s);
    }
    HonestMerge(view, db.View(u), after, c.key);
    VouchedAlongPrefixes(view, after, db.txns[t].phase.Heads());
  }

  lemma StoreKeeps(view: Table, txn: Txn, c: Config, event: string, actor: string, subject: string,
                   payload: map<string, Json>, timestamp: int)
    requires TxnInv(view, txn, c) && txn.phase.HeadRead?
    requires txn.phase.stream == CHECKPOINT_STREAM ==> payload == CheckpointPayload(txn.phase.heads)
    ensures var r := Sealed(txn.phase, c, event, actor, subject, payload, timestamp);
      TxnInv(view + [r], txn.(phase := Idle, pending := txn.pending + [r]), c)
  {
    hide Honest, CheckpointPayload, Head;
    HonestNext(view, c.key, event, actor, subject, payload, txn.phase.stream, timestamp, txn.phase.heads);
  }

  lemma ReadStreamHeadKeeps(view: Table, txn: Txn, c: Config, stream: string)
    requires TxnInv(view, txn, c) && (txn.phase.Idle? || txn.phase.Gathering?) && stream != CHECKPOINT_STREAM
    requires forall h | h in txn.phase.Heads() :: h.stream != stream
    ensures var (next, hash) := Head(view, stream);
      TxnInv(view, txn.(phase := Gathering(txn.phase.Heads()
                                           + if next > 1 then [StreamHead(stream, next - 1, hash)] else [])), c)
  {
    hide IsChain, Of, Head, CheckpointPayload;
    ChainHead(view, c.key, stream);
  }

  lemma StepKeepsInv(db: Db, step: Step, c: Config)
    requires Inv(db, c) && Enabled(db, step, c)
    ensures Inv(Apply(db, step, c), c)
  {
    hide Honest, VouchedHeads, CheckpointPayload, Head, Of;
    var after := Apply(db, step, c);
    if step.t in db.txns {
      assert TxnInv(db.View(step.t), db.txns[step.t], c);
    }
    match step {
      case Begin(t) =>
        assert after.View(t) == db.committed;
        NoHeadsVouched(db.committed);
      case ReadStreamHead(t, stream) =>
        ReadStreamHeadKeeps(db.View(t), db.txns[t], c, stream);
      case Lock(t, stream) =>
      case ReadHead(t) =>
      case Store(t, event, actor, subject, payload, timestamp) =>
        StoreKeeps(db.View(t), db.txns[t], c, event, actor, subject, payload, timestamp);
        var r := Sealed(db.txns[t].phase, c, event, actor, subject, payload, timestamp);
        assert after.View(t) == db.View(t) + [r];
      case Commit(u) =>
        forall t | t in after.txns ensures TxnInv(after.View(t), after.txns[t], c) {
          CommitKeepsOthers(db, u, t, c);
        }
      case Abort(u) =>
    }
    forall t | t in after.txns && t != step.t && !step.Commit? ensures TxnInv(after.View(t), after.txns[t], c) {
      assert after.View(t) == db.View(t);
    }
  }

  lemma NoHeadsVouched(t: Table)
    ensures VouchedHeads(t, [])
  {}

  lemma {:induction false} RunKeepsInv(from: Db, steps: seq<Step>, to: Db, c: Config)
    requires Inv(from, c) && Reaches(from, steps, to, c)
    ensures Inv(to, c)
    decreases |steps|
  {
    if steps != [] {
      StepKeepsInv(from, steps[0], c);
      RunKeepsInv(Apply(from, steps[0], c), steps[1..], to, c);
    }
  }

  lemma EmptyIsHonest(c: Config)
    ensures Inv(EMPTY, c)
  {}

  // --- what every run guarantees ------------------------------------------------

  /** After any interleaving of any transactions, every stream's committed rows are one
      unforked chain 1..n, and verify_all accepts the whole log: the streams, and the last
      checkpoint against them, whatever was appended since. */
  lemma EveryRunVerifies(steps: seq<Step>, to: Db, c: Config)
    requires Reaches(EMPTY, steps, to, c)
    ensures forall s :: IsChain(Of(to.committed, s), c.key, s)
    ensures StreamsValid(to.committed, c.key)
    ensures LastCheckpointVerdict(to.committed).Ok? && LastCheckpointVerdict(to.committed).value.valid
  {
    EmptyIsHonest(c);
    RunKeepsInv(EMPTY, steps, to, c);
    HonestVerifies(to.committed, c.key);
  }

  /** No insert of any run can collide on (stream, seq): not with committed rows, and not
      with rows another open transaction has yet to commit. */
  lemma NoInsertCollides(steps: seq<Step>, db: Db, step: Step, c: Config, u: nat, x: Record)
    requires Reaches(EMPTY, steps, db, c)
    requires step.Store? && Enabled(db, step, c) && u in db.txns
    requires x in db.View(u)
    requires x.stream == db.txns[step.t].phase.stream
    ensures x.seqNo < Sealed(db.txns[step.t].phase, c, step.event, step.actor, step.subject,
                             step.payload, step.timestamp).seqNo
  {
    hide Of, Head, VouchedHeads, CheckpointPayload;
    EmptyIsHonest(c);
    RunKeepsInv(EMPTY, steps, db, c);
    var t, s := step.t, x.stream;
    assert TxnInv(db.View(t), db.txns[t], c) && TxnInv(db.View(u), db.txns[u], c);
    OfMembers(db.View(u), s);
    OfConcat(db.committed, db.txns[u].pending, s);
    OfConcat(db.committed, db.txns[t].pending, s);
    if u != t {
      NothingPendingUnlocked(db.txns[u], c, s);
    }
    ChainHead(db.View(t), c.key, s);
    var rs := Of(db.View(t), s);
    assert x in rs;
    var i :| 0 <= i < |rs| && rs[i] == x;
    ChainAt(rs, c.key, s, i);
  }

  /** Committed rows are never changed or removed. */
  lemma {:induction false} CommittedOnlyGrows(from: Db, steps: seq<Step>, to: Db, c: Config)
    requires Reaches(from, steps, to, c)
    ensures from.committed <= to.committed
    decreases |steps|
  {
    if steps != [] {
      CommittedOnlyGrows(Apply(from, steps[0], c), steps[1..], to, c);
    }
  }

  /** The checkpoints of such runs, whose heads were read one statement at a time while others
      committed, seal what lies beneath them all the same: while one is the latest, and
      whatever then happens to the rows, verification passes exactly when the streams are valid
      and, up to each head it names, hold exactly the records the run committed. */
  lemma EveryRunsCheckpointsSeal(steps: seq<Step>, to: Db, c: Config, checkpoint: Record, now: Table)
    returns (heads: seq<StreamHead>)
    requires Reaches(EMPTY, steps, to, c) && checkpoint in Of(to.committed, CHECKPOINT_STREAM)
    requires LastCheckpoint(now) == Some(checkpoint)
    ensures checkpoint.payload == CheckpointPayload(heads) && VouchedHeads(to.committed, heads)
    ensures LastCheckpointVerdict(now).Ok?
    ensures StreamsValid(now, c.key) && LastCheckpointVerdict(now).value.valid <==>
              StreamsValid(now, c.key) && forall h | h in heads :: IntactUpTo(to.committed, now, h.stream, h.seqNo)
  {
    hide CheckpointPayload, LastCheckpoint, StreamsValid, LastCheckpointVerdict, IntactUpTo, VouchedHeads, IsChain, Of;
    EmptyIsHonest(c);
    RunKeepsInv(EMPTY, steps, to, c);
    assert GoodCheckpoint(to.committed, checkpoint);
    heads :| checkpoint.payload == CheckpointPayload(heads) && VouchedHeads(to.committed, heads);
    VouchedCheckpointSeals(to.committed, heads, now, c.key);
  }

  // --- where committed rows come from --------------------------------------------

  ghost predicate Ends(steps: seq<Step>, j: nat, t: nat)
    requires j < |steps|
  {
    steps[j] == Commit(t) || steps[j] == Abort(t)
  }

  /** No commit or abort of t comes between these two steps. */
  ghost predicate OpenSince(steps: seq<Step>, i: nat, n: nat, t: nat)
    requires n <= |steps|
  {
    forall j | i < j < n :: !Ends(steps, j, t)
  }

  /** The step that stored a row, and the one that committed it. */
  datatype Origin = Origin(store: nat, commit: nat)

  ghost predicate CommittedBy(steps: seq<Step>, o: Origin) {
    && o.store < o.commit < |steps| && steps[o.store].Store? && steps[o.commit] == Commit(steps[o.store].t)
    && OpenSince(steps, o.store, o.commit, steps[o.store].t)
  }

  /** The stream t last locked before a step. */
  ghost predicate LockedLast(steps: seq<Step>, n: nat, t: nat, stream: string)
    requires n <= |steps|
  {
    exists l :: 0 <= l < n && steps[l] == Lock(t, stream) && forall j | l < j < n :: !(steps[j].Lock? && steps[j].t == t)
  }

  /** The row says what its step was to store, in the stream its transaction had locked. */
  ghost predicate Writes(steps: seq<Step>, i: nat, r: Record)
    requires i < |steps|
  {
    && steps[i].Store?
    && r.event == steps[i].event && r.actor == steps[i].actor && r.subject == steps[i].subject
    && r.payload == steps[i].payload && r.timestamp == steps[i].timestamp
    && LockedLast(steps, i, steps[i].t, r.stream)
  }

  ghost predicate Earlier(a: Origin, b: Origin) {
    a.commit < b.commit || (a.commit == b.commit && a.store < b.store)
  }

  /** Each committed row has its origin among the first n steps, in order, and no origin there
      is without its row. */
  ghost predicate Accounted(steps: seq<Step>, n: nat, committed: Table, origins: seq<Origin>) {
    && |origins| == |committed|
    && (forall m | 0 <= m < |origins| ::
          CommittedBy(steps, origins[m]) && origins[m].commit < n && Writes(steps, origins[m].store, committed[m]))
    && (forall l, m | 0 <= l < m < |origins| :: Earlier(origins[l], origins[m]))
    && (forall o | CommittedBy(steps, o) && o.commit < n :: o in origins)
  }

  /** So for what an open transaction has yet to commit. */
  ghost predicate PendingAccounted(steps: seq<Step>, n: nat, t: nat, txn: Txn, ids: seq<nat>)
    requires n <= |steps|
  {
    && |ids| == |txn.pending|
    && (forall m | 0 <= m < |ids| ::
          ids[m] < n && steps[ids[m]].Store? && steps[ids[m]].t == t && OpenSince(steps, ids[m], n, t)
          && Writes(steps, ids[m], txn.pending[m]))
    && (forall l, m | 0 <= l < m < |ids| :: ids[l] < ids[m])
    && (txn.phase.Locked? || txn.phase.HeadRead? ==> LockedLast(steps, n, t, txn.phase.stream))
  }

  ghost predicate OpenAccounted(steps: seq<Step>, n: nat, db: Db, open: map<nat, seq<nat>>)
    requires n <= |steps|
  {
    && open.Keys == db.txns.Keys
    && (forall t | t in open :: PendingAccounted(steps, n, t, db.txns[t], open[t]))
    && (forall i | 0 <= i < n && steps[i].Store? && OpenSince(steps, i, n, steps[i].t) ::
          steps[i].t in open && i in open[steps[i].t])
  }

  lemma LockStays(steps: seq<Step>, n: nat, t: nat, stream: string)
    requires n < |steps| && LockedLast(steps, n, t, stream) && !(steps[n].Lock? && steps[n].t == t)
    ensures LockedLast(steps, n + 1, t, stream)
  {
    var l :| 0 <= l < n && steps[l] == Lock(t, stream) && forall j | l < j < n :: !(steps[j].Lock? && steps[j].t == t);
  }

  lemma OpenStays(steps: seq<Step>, i: nat, n: nat, t: nat)
    requires i < n < |steps|
    ensures OpenSince(steps, i, n + 1, t) <==> OpenSince(steps, i, n, t) && !Ends(steps, n, t)
  {}

  /** A step of another transaction, or one of its own that stores and ends nothing. */
  lemma PendingStays(steps: seq<Step>, n: nat, t: nat, txn: Txn, after: Txn, ids: seq<nat>)
    requires n < |steps| && PendingAccounted(steps, n, t, txn, ids)
    requires after.pending == txn.pending && !Ends(steps, n, t)
    requires steps[n].Lock? && steps[n].t == t ==> after.phase.Locked? && after.phase.stream == steps[n].stream
    requires !(steps[n].Lock? && steps[n].t == t) && (after.phase.Locked? || after.phase.HeadRead?) ==>
               (txn.phase.Locked? || txn.phase.HeadRead?) && after.phase.stream == txn.phase.stream
    ensures PendingAccounted(steps, n + 1, t, after, ids)
  {
    hide LockedLast, OpenSince, Writes;
    forall m | 0 <= m < |ids| ensures OpenSince(steps, ids[m], n + 1, t) {
      OpenStays(steps, ids[m], n, t);
    }
    if steps[n].Lock? && steps[n].t == t {
      LockedHere(steps, n, t, steps[n].stream);
    } else if after.phase.Locked? || after.phase.HeadRead? {
      LockStays(steps, n, t, after.phase.stream);
    }
  }

  lemma LockedHere(steps: seq<Step>, n: nat, t: nat, stream: string)
    requires n < |steps| && steps[n] == Lock(t, stream)
    ensures LockedLast(steps, n + 1, t, stream)
  {}

  lemma StoreAccounted(steps: seq<Step>, n: nat, txn: Txn, after: Txn, ids: seq<nat>, r: Record)
    requires n < |steps| && steps[n].Store? && PendingAccounted(steps, n, steps[n].t, txn, ids)
    requires Writes(steps, n, r) && after == txn.(phase := Idle, pending := txn.pending + [r])
    ensures PendingAccounted(steps, n + 1, steps[n].t, after, ids + [n])
  {
    hide LockedLast, OpenSince, Writes;
    PendingStays(steps, n, steps[n].t, txn, txn.(phase := Idle), ids);
    OpenNow(steps, n, steps[n].t);
  }

  lemma OpenNow(steps: seq<Step>, n: nat, t: nat)
    requires n < |steps|
    ensures OpenSince(steps, n, n + 1, t)
  {}

  /** Committing adds a transaction's rows after all others, in the order it stored them. */
  lemma CommitAccounted(steps: seq<Step>, n: nat, t: nat, db: Db, open: map<nat, seq<nat>>, origins: seq<Origin>)
    returns (all: seq<Origin>)
    requires n < |steps| && steps[n] == Commit(t) && t in open
    requires Accounted(steps, n, db.committed, origins) && OpenAccounted(steps, n, db, open)
    ensures Accounted(steps, n + 1, db.View(t), all)
  {
    hide Writes, OpenSince;
    var ids, pending := open[t], db.txns[t].pending;
    assert PendingAccounted(steps, n, t, db.txns[t], ids);
    var added := seq(|ids|, m requires 0 <= m < |ids| => Origin(ids[m], n));
    all := origins + added;
    forall m | 0 <= m < |all|
      ensures CommittedBy(steps, all[m]) && all[m].commit < n + 1 && Writes(steps, all[m].store, (db.committed + pending)[m])
    {
      assert m >= |origins| ==> all[m] == added[m - |origins|] && (db.committed + pending)[m] == pending[m - |origins|];
    }
    forall o | CommittedBy(steps, o) && o.commit < n + 1 ensures o in all {
      if o.commit == n {
        assert o.store in ids;
        var m :| 0 <= m < |ids| && ids[m] == o.store;
        assert added[m] == o;
      }
    }
  }

  lemma AccountStays(steps: seq<Step>, n: nat, committed: Table, origins: seq<Origin>)
    requires n < |steps| && !steps[n].Commit? && Accounted(steps, n, committed, origins)
    ensures Accounted(steps, n + 1, committed, origins)
  {
    hide Writes, OpenSince;
  }

  lemma SealedWrites(steps: seq<Step>, n: nat, txn: Txn, ids: seq<nat>, c: Config)
    requires n < |steps| && steps[n].Store? && txn.phase.HeadRead? && PendingAccounted(steps, n, steps[n].t, txn, ids)
    ensures var s := steps[n]; Writes(steps, n, Sealed(txn.phase, c, s.event, s.actor, s.subject, s.payload, s.timestamp))
  {
    hide LockedLast, Seal;
    var s := steps[n];
    SealSays(c.key, txn.phase.stream, if txn.phase.nextSeq < 1 then 1 else txn.phase.nextSeq,
             if txn.phase.headHash == NO_HASH then GENESIS_HASH else txn.phase.headHash,
             s.event, s.actor, s.subject, s.payload, s.timestamp);
  }

  lemma StepAccounted(steps: seq<Step>, n: nat, db: Db, origins: seq<Origin>, open: map<nat, seq<nat>>, c: Config)
    returns (origins': seq<Origin>, open': map<nat, seq<nat>>)
    requires n < |steps| && Enabled(db, steps[n], c)
    requires Accounted(steps, n, db.committed, origins) && OpenAccounted(steps, n, db, open)
    ensures Accounted(steps, n + 1, Apply(db, steps[n], c).committed, origins')
    ensures OpenAccounted(steps, n + 1, Apply(db, steps[n], c), open')
  {
    hide Accounted, Writes, LockedLast, OpenSince, Head, VouchedHeads, CheckpointPayload, Of, PendingAccounted, Sealed;
    var step, after := steps[n], Apply(db, steps[n], c);
    var t := step.t;
    origins' := origins;
    match step {
      case Commit(_) =>
        origins' := CommitAccounted(steps, n, t, db, open, origins);
        open' := open - {t};
      case Abort(_) =>
        open' := open - {t};
      case Begin(_) =>
        open' := open[t := []];
        NothingPending(steps, n + 1, t);
      case Store(_, event, actor, subject, payload, timestamp) =>
        open' := open[t := open[t] + [n]];
        SealedWrites(steps, n, db.txns[t], open[t], c);
        StoreAccounted(steps, n, db.txns[t], after.txns[t], open[t],
                       Sealed(db.txns[t].phase, c, event, actor, subject, payload, timestamp));
      case _ =>
        open' := open;
        OwnStepStays(steps, n, db, open, c);
    }
    if !step.Commit? {
      AccountStays(steps, n, db.committed, origins);
    }
    forall u | u in open' && u != t ensures PendingAccounted(steps, n + 1, u, after.txns[u], open'[u]) {
      PendingStays(steps, n, u, db.txns[u], db.txns[u], open[u]);
    }
    forall i | 0 <= i < n + 1 && steps[i].Store? && OpenSince(steps, i, n + 1, steps[i].t)
      ensures steps[i].t in open' && i in open'[steps[i].t]
    {
      if i < n {
        OpenStays(steps, i, n, steps[i].t);
      }
    }
  }

  lemma OwnStepStays(steps: seq<Step>, n: nat, db: Db, open: map<nat, seq<nat>>, c: Config)
    requires n < |steps| && Enabled(db, steps[n], c) && OpenAccounted(steps, n, db, open)
    requires steps[n].ReadStreamHead? || steps[n].Lock? || steps[n].ReadHead?
    ensures PendingAccounted(steps, n + 1, steps[n].t, Apply(db, steps[n], c).txns[steps[n].t], open[steps[n].t])
  {
    hide PendingAccounted, Head, VouchedHeads, Of;
    PendingStays(steps, n, steps[n].t, db.txns[steps[n].t], Apply(db, steps[n], c).txns[steps[n].t], open[steps[n].t]);
  }

  lemma NothingPending(steps: seq<Step>, n: nat, t: nat)
    requires n <= |steps|
    ensures PendingAccounted(steps, n, t, Txn(Idle, {}, []), [])
  {}

  lemma {:induction false} RunAccounted(steps: seq<Step>, n: nat, db: Db, to: Db, c: Config, origins: seq<Origin>,
                                        open: map<nat, seq<nat>>)
    returns (all: seq<Origin>)
    requires n <= |steps| && Reaches(db, steps[n..], to, c)
    requires Accounted(steps, n, db.committed, origins) && OpenAccounted(steps, n, db, open)
    ensures Accounted(steps, |steps|, to.committed, all)
    decreases |steps| - n
  {
    hide Accounted, OpenAccounted, Enabled, Apply;
    all := origins;
    if n < |steps| {
      assert steps[n..][0] == steps[n] && steps[n..][1..] == steps[n + 1..];
      var origins', open' := StepAccounted(steps, n, db, origins, open, c);
      all := RunAccounted(steps, n + 1, Apply(db, steps[n], c), to, c, origins', open');
    }
  }

  /** After any run, the committed rows are exactly what the committed transactions stored,
      commit by commit and in each in the order of its inserts: each row says the event, actor,
      subject, payload and time of its own step, in the stream locked for it, and no committed
      insert is without its row. */
  lemma CommittedRowsAreTheStores(steps: seq<Step>, to: Db, c: Config) returns (origins: seq<Origin>)
    requires Reaches(EMPTY, steps, to, c)
    ensures |origins| == |to.committed|
    ensures forall m | 0 <= m < |origins| ::
              CommittedBy(steps, origins[m]) && Writes(steps, origins[m].store, to.committed[m])
    ensures forall l, m | 0 <= l < m < |origins| :: Earlier(origins[l], origins[m])
    ensures forall o | CommittedBy(steps, o) :: o in origins
  {
    hide Writes;
    assert steps[0..] == steps;
    origins := RunAccounted(steps, 0, EMPTY, to, c, [], map[]);
  }
}
