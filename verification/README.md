# Control plane: a verified model

A Dafny model of the parts of the control plane whose correctness is hardest to see by
reading them, with proofs of the properties they exist for. `dafny verify dfyconfig.toml`
checks all of it. Each module follows one component:

- **HashChain, AuditService, AuditTransactions** (`control_plane/audit`): the sharded,
  hash-linked audit log. What the chain verifier reports about a tampered chain; what a
  checkpoint guarantees against any later change to the table; and that any interleaving of
  concurrent transactions leaves one unforked chain per stream.
- **SseFraming, StreamGovernor** (`pep`): the incremental event-stream decoder, over every
  chunking of every text; and the hold-back window in front of a governed stream, over every
  run.
- **Scanning, Redaction, StructuredScan, Checksums** (`control_plane/classification`,
  `control_plane/redaction`): overlap arbitration, the right-to-left splicer, both lifted to
  JSON trees by pointer, and the checksums of the detectors.
- **Operators, MatchTree, AccessRequests, Obligations, PolicyEngine** (`control_plane/policy`):
  condition operators, the normaliser of match trees, the object selectors are resolved
  against, evaluation with and without short-circuiting, the combining algorithms, and the
  union of obligations.
- **CanonicalJson, Fingerprints, Approvals, Router, Enforcement, Decisions**
  (`control_plane/pdp.py`, the approval endpoint, `control_plane/routing`, the Python SDK): what
  an approval is bound to, single-use approvals as a state machine, the choice of a model, the
  contract across the wire that "allow, but redact" never becomes "allow", and decisions whole,
  from the policies to the caller.

`Wrappers`, `Ordering` and `Strings` hold what the others share: results, stable sorting,
decimal numerals.

Code that mutates an object is a class here, and its loops are loops; each such method is
proved equal to a specification function, and the properties are proved about that function.

## What is assumed of what is not modelled

- An HMAC is injective in its key and in what it is taken over, and is never one of the
  literals the code compares digests with. For audit records canonical JSON is taken to be
  injective on field maps; for fingerprints it is written out and proved so.
- Detectors, regular expressions, globs, keyed surrogates, CRC-32 and the remote governor are
  arbitrary functions. Where a theorem needs more it says so: `Detects` and `DetectsApart`
  (non-empty, in range, quoting the text, one detector's matches disjoint), `Settles` and
  `CoversTail` for a governor.
- The clock is a natural number that never goes back. Each decision and each resolution of an
  approval is one atomic step. Audit transactions interleave statement by statement, under
  read-committed isolation and locks held to the end.
- Numbers are integers: confidences are counted in ten-thousandths, policy numbers have no
  fraction. Text is ASCII where a character class matters.

## Where the code differs from what is said of it

The model follows the code.

- The approval fingerprint is described as covering every policy-relevant input
  (`control_plane/pdp.py:711-721`). It leaves out the attributes of the principal and the
  resource, the resource's kind, what the catalog knows of it, whether the payload was scanned
  whole, the values of context keys named like credentials, and a context string past its first
  512 characters; and a JSON payload has the digest of the string that spells it.
  `Fingerprints.FingerprintBinds` states exactly which requests share one, and the lemmas after
  it each omission.
- Building the response is meant to be safe once the guard has passed a decision, and happens
  outside the handler that fails closed. Authoring does not look at the lengths of a redaction,
  and `int()` raises on those that are no integers (`control_plane/policy/model.py:222-237`,
  `control_plane/redaction/transforms.py:126-127`). The caller gets a server error, which the
  client turns into an exception, not a payload. `Enforcement.AnsweredIff` states exactly when.
- Normalised trees are meant never to raise at decision time. A selector with a segment such
  as `--5` passes validation, and on a list it reaches `int()`, whose `ValueError` is not the
  `PolicyError` the engine catches (`control_plane/policy/operators.py:303-307`).
  `AccessRequests.NeverRaisesOnRequestsIff` states exactly which trees some request makes raise.
- Explaining is meant to change nothing. On a tree with such a selector it can raise where
  stopping early has already decided; `MatchTree.ExplainingChangesTheAnswerIff` states when.
- A range of a stream is verified from the digest of the row before it, and that row itself is
  not verified (`control_plane/audit/service.py:245-270`). `AuditService.RangePinsRows` states
  what acceptance of a range is then worth.
- Two routes that name one model by two of its names are refused, although that model meets
  both (`control_plane/routing/router.py:199-205`). `Router.MergeIsConjunction` states when
  merging succeeds.
- An approval answered too late is marked expired and then the request fails, which rolls the
  mark back (`control_plane/api/v1/approvals.py:129-133`). No approval is ever stored expired.
- An event with an id, name or payload the framing cannot carry is encoded anyway, as
  something else. `SseFraming.RoundTripsIffWellFormed` states which events survive.
- The verifier alone accepts a chain whose end has been cut off; that is what checkpoints are
  for. `HashChain.TamperedAcceptedIffPrefix` states exactly what it accepts.

## Model

| member | source | states |
|---|---|---|
| HashChain.SigningBodyInjective | control_plane/audit/chain.py:163-191 | Two records sign the same body exactly when every signed field agrees, stream included, although the default stream is left out of the body. |
| HashChain.VerifiedHashInjective | control_plane/audit/chain.py:193-211 | Verified records with equal digests are equal, and no verified digest is the genesis or the empty digest. |
| HashChain.AuditChain.Resuming | control_plane/audit/chain.py:236-246 | Resuming over a head takes the genesis digest and number 1 where the head is missing. |
| HashChain.AuditChain.Append | control_plane/audit/chain.py:248-270 | Appending seals one record over the current head, with the event, actor, subject, payload and time given, and advances head and number; whatever chain was being extended is extended by that record. |
| HashChain.SealSays | control_plane/audit/chain.py:248-270 | A sealed record has the stream, number, event, actor, subject, payload, time and predecessor it was given, and a digest over just those under the key. |
| HashChain.SealExtends | control_plane/audit/chain.py:248-270 | A record sealed over the last of a chain 1..n makes a chain 1..n+1. |
| HashChain.VerifyChain | control_plane/audit/chain.py:412-463 | The loop computes the three fault lists of the specification, over the records sorted by number. |
| HashChain.VerificationIgnoresInputOrder | control_plane/audit/chain.py:427-463 | The report is the same for every order of the input. |
| HashChain.VerificationLocatesTampering | control_plane/audit/chain.py:412-463 | With records deleted and contents edited at will: corrupted is exactly the edited ones, broken links exactly the survivors above 1 whose predecessor is gone, sequence errors those but the first survivor; each list ascending. |
| HashChain.TamperedAcceptedIffPrefix | control_plane/audit/chain.py:412-463 | A tampered chain is accepted exactly when what is left is an unedited prefix: a cut-off end is invisible, nothing else is. |
| HashChain.HashPinsHistory | control_plane/audit/chain.py:163-211 | Backward induction: one digest shared with a sealed chain forces the same number and the same records all the way to the first. |
| HashChain.RangePinsHistory | control_plane/audit/chain.py:163-211 | The same for a range verified from a given digest: the records beneath a shared digest are the sealed ones as far as the range goes, and the digest it was started from is the sealed chain's there. |
| HashChain.AcceptedIsLinked | control_plane/audit/chain.py:434-463 | Accepted means: every digest verifies, every link points at the record before it, numbers rise by one. |
| HashChain.ChainIsAccepted | control_plane/audit/chain.py:412-463 | Every honest chain is accepted. |
| HashChain.PartIsLinked | control_plane/audit/chain.py:412-463 | Any contiguous part of a chain is linked from the digest before it. |
| AuditService.CheckpointRoundTrip | control_plane/audit/chain.py:305-336 | The heads sealed in a checkpoint payload read back as those heads, in order of stream name. |
| AuditService.ReadingSays | control_plane/audit/chain.py:309-316 | A stored head reads its fields, with the empty stream and number nought where they are missing. |
| AuditService.VerifyAgainstCheckpoint | control_plane/audit/chain.py:364-409 | The loop sorts the recorded heads into missing, truncated and diverged, and passes exactly when all match. |
| AuditService.Service.PartitionFor | control_plane/audit/service.py:67-77 | An actor's stream is the default one or a numbered partition, never the checkpoint stream. |
| AuditService.Service.Append | control_plane/audit/service.py:140-168 | One record is stored, the next of the stream named or else of the actor's: sealed over that stream's head, with the event, actor, subject, payload and time given. |
| AuditService.Service.StreamHeads | control_plane/audit/service.py:131-138 | The heads are those of every stream but the checkpoint one, by name. |
| AuditService.Service.Checkpoint | control_plane/audit/service.py:170-185 | A checkpoint appends one record, in the reserved stream, holding every other stream's head; an honest table stays honest and that record is then its latest checkpoint. |
| AuditService.Service.VerifyLastCheckpoint | control_plane/audit/service.py:310-346 | The latest checkpoint is judged against what the table now shows of each head it names; it raises only on a malformed payload. |
| AuditService.Service.VerifyAll | control_plane/audit/service.py:272-308 | Reports every stream that has a row, each verified in full, and is valid exactly when all streams and the last checkpoint are. |
| AuditService.HonestNext | control_plane/audit/service.py:140-168 | Appending to any stream keeps every stream one chain 1..n and every checkpoint vouched for. |
| AuditService.HonestHeadsVouched | control_plane/audit/service.py:131-138 | The heads read for a checkpoint are exactly one for each other non-empty stream, each naming its last record. |
| AuditService.HeadMatches | control_plane/audit/service.py:320-346 | A recorded head matches exactly when that record is still there under that digest; the fallbacks for a missing record never match. |
| AuditService.HonestVerifies | control_plane/audit/service.py:272-346 | No honest table ever fails, whatever was appended and sealed since. |
| AuditService.VerdictsSay | control_plane/audit/chain.py:364-409 | Which verdict each head of a checkpoint gets, from the rows: missing without any numbered row, truncated when all rows come before it, diverged when its row has another digest or is absent though later ones are there. |
| AuditService.CheckpointTotals | control_plane/audit/chain.py:318-336 | The totals a checkpoint of an honest table states: the other streams that have rows, and every row but the checkpoints themselves. |
| AuditService.VouchedCheckpointSeals | control_plane/audit/service.py:310-346 | Seal any heads that name records of chains, however they were read, then let anything happen to the rows: while that checkpoint is the latest, verification passes exactly when every stream is valid and, up to each sealed head, the records are exactly those sealed. |
| AuditService.CheckpointSealsHistory | control_plane/audit/service.py:272-346 | So a checkpoint of an honest table at rest seals all of every other stream. |
| AuditService.RangeSays | control_plane/audit/service.py:222-270 | Verifying a range counts its rows; without the row before it the report is invalid at the range's start and says nothing else, and with it the range is verified from that row's digest. |
| AuditService.HonestRangeVerifies | control_plane/audit/service.py:222-270 | Any range of an honest chain is accepted, exactly if the record before it exists. |
| AuditService.RangePinsRows | control_plane/audit/service.py:222-270 | A row of an accepted range that carries a sealed digest pins the range up to it to the sealed records, from the point whose digest the row before the range carries; that row is not verified, and only if genuine is nothing missing at the start. |
| AuditTransactions.StepKeepsInv | control_plane/audit/service.py:95-168 | Every step of every transaction keeps each transaction's view of the log honest, under colliding lock keys and unlocked reads by checkpoints. |
| AuditTransactions.RunKeepsInv | control_plane/audit/service.py:95-185 | So does every interleaved run, from any state that has the invariant. |
| AuditTransactions.EveryRunVerifies | control_plane/audit/service.py:95-346 | After any interleaving of lock, read, insert, commit and abort, every stream's committed rows are one unforked chain 1..n, and streams and last checkpoint verify. |
| AuditTransactions.EveryRunsCheckpointsSeal | control_plane/audit/service.py:170-185 | Every checkpoint committed by any interleaved run, its heads read one statement at a time while others commit, seals exactly the records the run committed up to each head. |
| AuditTransactions.NoInsertCollides | control_plane/audit/service.py:140-168 | No insert repeats a number its stream already has, committed or pending in any open transaction. |
| AuditTransactions.CommittedOnlyGrows | control_plane/audit/service.py:140-168 | No step changes or removes a committed row. |
| AuditTransactions.CommittedRowsAreTheStores | control_plane/audit/service.py:140-168 | After any run the committed rows are exactly the inserts of committed transactions, commit by commit and in insert order, each with its own insert's event, actor, subject, payload and time, in the stream locked for it; none is lost or added. |
| SseFraming.SSEDecoder.constructor | pep/mcp_proxy/framing.py:71-79 | A new decoder has nothing pending. |
| SseFraming.SSEDecoder.Feed | pep/mcp_proxy/framing.py:81-107 | The events and the state after feeding a chunk are those of the specification run on buffer and chunk. |
| SseFraming.SSEDecoder.Close | pep/mcp_proxy/framing.py:109-124 | Closing emits the event left unterminated, if any, and leaves nothing pending. |
| SseFraming.IterSse | pep/mcp_proxy/framing.py:140-144 | Decoding a body is feeding it whole and closing. |
| SseFraming.FeedSplits | pep/mcp_proxy/framing.py:81-107 | Feeding a then b gives the events and the state of feeding a+b, wherever the cut falls, inside a CRLF too. |
| SseFraming.ChunkingIsIrrelevant | pep/mcp_proxy/framing.py:81-107 | However a text is cut into chunks, feeding them is feeding the text. |
| SseFraming.CloseIsBlankLine | pep/mcp_proxy/framing.py:109-124 | Closing is the same as feeding two newlines, from every reachable state. |
| SseFraming.RunIsProcess | pep/mcp_proxy/framing.py:81-124 | The incremental parser refines splitting the whole text into lines and taking them one by one. |
| SseFraming.TerminatorsAreEquivalent | pep/mcp_proxy/framing.py:45-144 | Rewriting every LF of CR-free text to CR or CRLF changes nothing that is decoded (section 9.2.5 of WHATWG HTML). |
| SseFraming.BuildRoundTrip | pep/mcp_proxy/framing.py:126-137 | The fields an event is written as build that event. |
| SseFraming.ParseFieldSays | pep/mcp_proxy/framing.py:81-124 | A line's name is what precedes its first colon, its value the rest but for one space; a line without a colon is a name alone. |
| SseFraming.BuildSays | pep/mcp_proxy/framing.py:126-137 | Fields make an event exactly when one is data; the first event field names it unless empty or absent, which is message; the first id and the first retry of digits count. |
| SseFraming.CommentsChangeNothing | pep/mcp_proxy/framing.py:81-107 | A comment line, wherever it stands among the lines, changes nothing that is decoded. |
| SseFraming.EncodedEventsSurviveAnyChunking | pep/mcp_proxy/framing.py:81-163 | Any list of well-formed events, encoded, concatenated and cut anywhere, decodes to exactly that list with nothing pending. |
| SseFraming.RoundTripsIffWellFormed | pep/mcp_proxy/framing.py:126-163 | An event survives encoding exactly when its name is non-empty, name and id have no line break, data has no CR, and retry is absent or not negative. |
| SseFraming.DecodedIsWellFormed | pep/mcp_proxy/framing.py:81-137 | Whatever arrives, every event fed out is one the encoder can carry, and what stays pending is clean. |
| SseFraming.ClosingIsWellFormed | pep/mcp_proxy/framing.py:109-124 | So is the event that closing emits. |
| SseFraming.WholeIsWellFormed | pep/mcp_proxy/framing.py:140-144 | So is every event of every body. |
| StreamGovernor.Governor.constructor | pep/reverse_proxy/streaming.py:140-159 | A new governor has seen and released nothing. |
| StreamGovernor.Governor.Feed | pep/reverse_proxy/streaming.py:161-168 | A feed is the specification's step on the old state: ignored once refused, buffered until enough is new, else drained. |
| StreamGovernor.Governor.Finish | pep/reverse_proxy/streaming.py:170-175 | Finishing is a final drain, unless refused. |
| StreamGovernor.Governor.Drain | pep/reverse_proxy/streaming.py:177-224 | A drain is the specification's step on the old state, every field included. |
| StreamGovernor.FeedDelivers | pep/reverse_proxy/streaming.py:161-224 | What a feed sends is what emitted gained; it ends a full window before the end of the governed text; nothing happens after a refusal. |
| StreamGovernor.DrainDelivers | pep/reverse_proxy/streaming.py:177-224 | A refusal carries no text and takes none back; an unrefused final drain leaves emitted equal to the governed whole. |
| StreamGovernor.EveryStream | pep/reverse_proxy/streaming.py:161-224 | Over every run: delivered text is emitted and only grows, nothing follows a refusal, an unrefused end delivers the whole governed text, and decisions are at most text/interval + 1. |
| StreamGovernor.FeedAsks | pep/reverse_proxy/streaming.py:161-224 | The governor is asked exactly when a batch of text is new, each question is counted once, and refusal and overrun are set exactly as the answer gives cause. |
| StreamGovernor.FinishAsks | pep/reverse_proxy/streaming.py:170-175 | The end asks once more about anything seen and records exactly how much was not yet out. |
| StreamGovernor.NeverFallsBehind | pep/reverse_proxy/streaming.py:161-224 | Along every run the decisions are the questions asked, and until a refusal less than a batch has arrived since the last one. |
| StreamGovernor.NeverOverrunsIffWindowSuffices | pep/reverse_proxy/streaming.py:177-224 | For a rewriting and a window: no stream of any governor that rewrites so whenever it does not refuse ever overruns, exactly when what the window releases of a text is a prefix of the rewriting of every longer text. |
| StreamGovernor.SufficientWindow | pep/reverse_proxy/streaming.py:161-224 | With such a window, and refusals at any time: only the governor refuses, no run overruns, and a run that is not refused delivers the rewriting of the complete answer. |
| StreamGovernor.SettledSpansSuffice | pep/reverse_proxy/streaming.py:177-224 | A rewriter of disjoint spans with a settled cut, and at most a window of rewritten text after it, has such a window. |
| StreamGovernor.SettledSpansAreDelivered | pep/reverse_proxy/streaming.py:161-224 | Then, whenever the governor may refuse, no run overruns, and the deliveries of a run that is not refused concatenate to the redaction of the complete answer. |
| StreamGovernor.RedactionIsDelivered | control_plane/redaction/transforms.py:297-323 | With the redactor behind the governor, the deliveries of every run that is not refused concatenate to the redactor's rewriting of the complete answer. |
| StreamGovernor.MaskingCharactersNeedsNoWindow | pep/reverse_proxy/streaming.py:177-224 | Such governors exist: one that masks single characters settles at once and needs no window. |
| Scanning.ResolveOverlaps | control_plane/classification/scanner.py:145-155 | The greedy loop over occupied spans computes the specified arbitration. |
| Scanning.ResolvedIsTheStableChoice | control_plane/classification/scanner.py:134-155 | The result is the one set of matches that is pairwise disjoint and in which every dropped match overlaps a kept one of strictly higher rank. |
| Scanning.ResolutionIgnoresOrder | control_plane/classification/scanner.py:134-155 | The result does not depend on the order of the matches. |
| Scanning.ResolvedIsDisjointInOrder | control_plane/classification/scanner.py:145-155 | The kept matches are disjoint and listed from left to right. |
| Scanning.ScanIsDisjoint | control_plane/classification/scanner.py:188-219 | Scanning a text, truncated or not, gives disjoint findings within it, each quoting it at its offsets and carrying the given path. |
| Scanning.ScanFinds | control_plane/classification/scanner.py:134-219 | What a scan finds, from the detectors alone: among the confident matches in the part that is read, the disjoint choice in which every other match is beaten by one that is graver, or else longer, more confident, or of a later detector name. |
| Redaction.Redactor.constructor | control_plane/redaction/transforms.py:185-196 | A new redactor's rule cache agrees with its rules. |
| Redaction.Redactor.CachedRuleFor | control_plane/redaction/transforms.py:215-225 | The cached lookup returns the first covering rule, whatever was asked before. |
| Redaction.Redactor.Apply | control_plane/redaction/transforms.py:297-323 | The splicing loop computes the specified rewriting, or raises what it raises. |
| Redaction.PartialText | control_plane/redaction/transforms.py:257-265 | A partial mask has the value's length, keeps exactly the last characters asked for, and leaves nothing alphanumeric before them. |
| Redaction.ReportAccounts | control_plane/redaction/transforms.py:229-323 | Every report entry accounts for a finding by the rule that covers it and says what stands there now: a mask exactly its label's token, a drop nothing, a partial mask the end and the punctuation, the others the derived text. |
| Redaction.RaisesIffUntokenizable | control_plane/redaction/transforms.py:229-255 | Rewriting raises exactly when a covered finding is to be tokenised and there is no vault. |
| Redaction.SplicingIsSubstitution | control_plane/redaction/transforms.py:297-323 | For disjoint findings in any order, splicing from the right is simultaneous substitution; applied and unhandled are the covered and the uncovered findings in text order. |
| Redaction.SubstituteLength | control_plane/redaction/transforms.py:297-323 | The result's length is the text's plus the sum of replacement minus span lengths. |
| Redaction.UncoveredSurvives | control_plane/redaction/transforms.py:297-323 | Every character outside the replaced spans survives, shifted by the growth before it. |
| Redaction.CoveredIsReplaced | control_plane/redaction/transforms.py:297-323 | Every covered span is its replacement, at the position the earlier edits moved it to. |
| Redaction.ReportReplays | control_plane/redaction/transforms.py:297-323 | The report is complete: making its replacements in the original text, all at once, gives the rewritten text. |
| Redaction.ConcealedIsGone | control_plane/redaction/transforms.py:229-323 | Nothing masked or dropped can be read off the result: two texts that differ only there are rewritten to one payload with one report, or raise alike. |
| StructuredScan.StructuredScanner.Visit | control_plane/classification/scanner.py:241-256 | The recursive walk adds to its counters exactly what the specification finds in the node. |
| StructuredScan.ScanStructured | control_plane/classification/scanner.py:221-264 | Scanning a tree is the specified walk from the root. |
| StructuredScan.StructuredRedactor.RewriteNode | control_plane/redaction/transforms.py:325-359 | The recursive rewrite returns the specified tree and extends both shared lists in tree order. |
| StructuredScan.EscapeRoundTrip | control_plane/classification/scanner.py:267-269 | Escaping a key is undone by unescaping and leaves no slash (section 3 of RFC 6901). |
| StructuredScan.SiblingsSeparate | control_plane/classification/scanner.py:241-269 | No pointer lies beneath two children of one node (sections 3 and 4 of RFC 6901). |
| StructuredScan.RedactIsLeafByLeaf | control_plane/redaction/transforms.py:325-363 | At any node, rewriting by pointer with all the findings is rewriting each leaf with its own. |
| StructuredScan.ScanThenRedact | control_plane/redaction/transforms.py:325-363 | Scanning a JSON tree and redacting it turns each string leaf within the depth limit into what scanning and redacting that leaf alone gives, and leaves deeper ones alone. |
| StructuredScan.RedactKeepsShape | control_plane/redaction/transforms.py:334-356 | Redaction keeps keys, order, container kinds and every leaf that is not a string. |
| StructuredScan.TruncatedIffNotFullyScanned | control_plane/classification/scanner.py:221-264 | The truncation flag is set exactly when some node is too deep or some string too long. |
| StructuredScan.ScannedLeafIsSubstituted | control_plane/classification/scanner.py:188-219 | The kept findings of a scanned text are disjoint, so redacting it with them is simultaneous substitution. |
| StructuredScan.FindingsPoint | control_plane/classification/scanner.py:221-269 | Every finding's pointer refers in the scanned tree to a string, and the finding is one that scanning that string alone gives, with the last key before it for a hint. |
| StructuredScan.WholeScanCountsAll | control_plane/classification/scanner.py:241-264 | A scan that reads a whole tree counts exactly the characters of its strings. |
| StructuredScan.TreesConceal | control_plane/redaction/transforms.py:325-359 | Two trees that differ only inside what is masked or dropped are redacted to one tree, with one report and one list of what no rule covers. |
| Checksums.Luhn | control_plane/classification/detectors.py:73-86 | The loop accepts exactly the digit strings whose weighted sum, counted from the right, is a multiple of ten. |
| Checksums.LuhnCatchesOneWrongDigit | control_plane/classification/detectors.py:73-86 | Two digit strings differing in one digit never both pass. |
| Checksums.LuhnMissesOnlyZeroNineSwap | control_plane/classification/detectors.py:73-86 | Swapping two different neighbours still passes exactly when they are 0 and 9. |
| Checksums.ExactlyOneCheckDigit | control_plane/classification/detectors.py:73-86 | Every body of eleven digits or more has exactly one check digit, and shorter ones none. |
| Checksums.NpiCatchesOneWrongDigit | control_plane/classification/detectors.py:128-133 | Two provider numbers differing in one digit never both pass. |
| Checksums.NpiAddsTwentyFour | control_plane/classification/detectors.py:128-133 | A provider number passes exactly when it has ten digits whose sum and twenty-four make tens. |
| Checksums.IbanCatchesOneWrongCharacter | control_plane/classification/detectors.py:136-148 | Two IBANs as written, spaced and cased at will, that differ in one digit, or in one letter for a letter other than its other case, never both pass. |
| Checksums.CaseDoesNotMatter | control_plane/classification/detectors.py:138 | The other case of a letter is no difference. |
| Checksums.ExactlyOneCheckPair | control_plane/classification/detectors.py:136-148 | For each country and account exactly one check pair from 02 to 98 passes (ISO 13616). |
| Checksums.NumberIsSpelled | control_plane/classification/detectors.py:136-148 | The number an IBAN is reduced to is the one denoted by its spelling in digits, A as 10 to Z as 35 (ISO 13616). |
| Checksums.IbanSays | control_plane/classification/detectors.py:136-148 | Without spaces and in capitals, exactly which texts pass: two letters, two digits and eleven to thirty more letters or digits which, the first four moved to the end, denote a number that leaves one modulo 97. |
| Checksums.NothingElseIsIban | control_plane/classification/detectors.py:136-148 | A text with any character but a letter, a digit or a space never passes. |
| Checksums.SpacesDoNotMatter | control_plane/classification/detectors.py:138 | White space does not matter, wherever it stands. |
| Checksums.SmallIsCapital | control_plane/classification/detectors.py:138 | A small letter is as good as its capital. |
| Operators.CompareLoop | control_plane/policy/operators.py:189-199 | The loop passes exactly when the value is present and one of its numbers passes the test; elements that are no numbers are skipped, and only an operand that is no number raises. |
| Operators.ValidateConditionLoop | control_plane/policy/operators.py:272-287 | The loop accepts or raises as the specified check of each operator in turn. |
| Operators.ResolvePathLoop | control_plane/policy/operators.py:290-315 | The loop resolves a dotted path as the specified walk, failed integer conversions included. |
| Operators.CheckedTestsNeverRaise | control_plane/policy/operators.py:261-287 | An operand is accepted at authoring exactly when no value present at decision time makes its operator raise. |
| Operators.CheckedIff | control_plane/policy/operators.py:232-287 | Authoring accepts exactly the twenty-one operators there are, each on the operands it takes. |
| Operators.OperatorsMean | control_plane/policy/operators.py:47-269 | What each of the operators says, for every value observed and every operand it takes, written out over the value's elements and the operand's alternatives. |
| Operators.BeneathIsPrefix | control_plane/policy/operators.py:64-70 | A label is another or lies beneath it exactly when the names between its dots begin with the other's. |
| Operators.ResolutionSafeIff | control_plane/policy/operators.py:290-315 | A path resolves without raising on every JSON value exactly when no segment is digits after two dashes. |
| Operators.SelectorReads | control_plane/policy/operators.py:290-315 | A selector reads what stands, name under name, beneath the root: under a key its value, under a number the item of that index from the front or, with a dash, from the end. |
| Operators.SelectorMisses | control_plane/policy/operators.py:290-315 | It reads nothing once a name is not there: under a scalar, in an object without it, or past a list's ends. |
| MatchTree.CanonicalIsFixed | control_plane/policy/model.py:264-337 | A canonical tree, written out and normalised again, is itself. |
| MatchTree.NormaliseIsIdempotent | control_plane/policy/model.py:251-337 | Every accepted document normalises to a canonical tree, a second pass changes nothing, and the canonical trees are exactly the normal forms. |
| MatchTree.AcceptedIff | control_plane/policy/model.py:251-337 | Exactly which documents are accepted: nothing, conditions under known roots with operators on operands they take, or one combinator over acceptable documents. |
| MatchTree.EvalConditions | control_plane/policy/engine.py:205-228 | The loop computes the specified fold over the tests, stopping early only when not explaining. |
| MatchTree.Evaluate | control_plane/policy/engine.py:230-281 | The recursive evaluation with its loops computes the specified result at every node. |
| MatchTree.EvalMeans | control_plane/policy/engine.py:205-281 | Short-circuiting or not, on a request where the selectors resolve, evaluation decides the tree read as a proposition, carries a failure exactly when it fails, and that failure is the first failing condition. |
| MatchTree.ExplainingChangesNothing | control_plane/policy/engine.py:205-281 | There, explaining changes neither the outcome nor the failing condition. |
| MatchTree.QuickDecides | control_plane/policy/engine.py:205-281 | Stopping early raises exactly when a selector that has to be read before the tree is decided does not resolve; otherwise it decides the proposition, whatever the others do. |
| MatchTree.ExplainingChangesTheAnswerIff | control_plane/policy/engine.py:205-281 | On a given request explaining raises exactly when some selector does not resolve, and changes the answer exactly when such a selector lies behind what decides the tree. |
| MatchTree.EvalRaises | control_plane/policy/engine.py:205-281 | An accepted tree never raises PolicyError. |
| MatchTree.ChecksTrace | control_plane/policy/engine.py:205-228 | Every check reported, the failing one given for a reason among them, is that of a condition of the node: its selector, operator and operand, what was read there, and whether the operator's claim is so. |
| MatchTree.NeverRaisesIffSafe | control_plane/policy/engine.py:205-281 | An accepted tree evaluates without raising on every JSON value exactly when no selector has digits after two dashes. |
| MatchTree.NormalisingKeepsMeaning | control_plane/policy/model.py:251-337 | The normal form holds of a request exactly when the sugared document does, with a scalar read as eq and a list as in. |
| MatchTree.EvaluationDecidesSugar | control_plane/policy/engine.py:230-281 | So evaluating the normal form decides what the author wrote. |
| AccessRequests.FindOverlay | control_plane/policy/model.py:494-507 | Attributes spread over the fixed entries of a principal or resource win. |
| AccessRequests.RootsRead | control_plane/policy/model.py:491-512 | What the action, findings, classifications and env selectors read of a request: each label once and in order, the classifications with the findings' added, and the extent of the scan. |
| AccessRequests.PrincipalReads | control_plane/policy/model.py:494-499 | What a principal selector reads: an attribute of that name, or else the identity's field. |
| AccessRequests.ResourceReads | control_plane/policy/model.py:501-507 | What a resource selector reads: what the catalog knows, or else an attribute of that name, or else the resource's field. |
| AccessRequests.SelectorRaisesIff | control_plane/policy/model.py:466-512 | Some request makes a selector raise exactly when it has digits after two dashes where a list can stand in a request: behind findings or classifications, or anywhere in the context and the attribute trees but for the two entries the pipeline sets itself. |
| AccessRequests.NeverRaisesOnRequestsIff | control_plane/policy/engine.py:205-281 | An accepted tree evaluates without raising on every request exactly when it has no such selector. |
| AccessRequests.FindingsIndexRaises | control_plane/policy/operators.py:303-307 | One accepted document that raises on every request. |
| AccessRequests.ActionIndexNeverRaises | control_plane/policy/operators.py:303-311 | One accepted document with digits after two dashes that raises on none. |
| Obligations.RulesConvertIff | control_plane/redaction/transforms.py:116-128 | Building a decision's redaction rules raises exactly when a length the author wrote is no integer. |
| Obligations.RedactingGivesTheRule | control_plane/redaction/transforms.py:198-225 | The rule applied to a label is that of the first redaction whose labels cover it. |
| Obligations.RuleSays | control_plane/redaction/transforms.py:101-128 | A rule has its obligation's strategy and lengths, four and sixteen unless given, and covers the labels named and all beneath them, or every label where none is named. |
| Obligations.NumeralsConvert | control_plane/redaction/transforms.py:126-127 | A number written out as text converts to that number, with its sign. |
| Obligations.TextConverts | control_plane/redaction/transforms.py:126-127 | Exactly which texts convert to an integer: digits with single underscores between them, a sign or none, white space around; and to which. |
| PolicyEngine.EvaluateRequest | control_plane/policy/engine.py:285-349 | The loop over enabled policies, collecting matches and errors, computes the specified decision. |
| PolicyEngine.DecisionIs | control_plane/policy/engine.py:285-405 | A decision from the policies alone: the default or the algorithm's winner among those that apply; as obligations, each once, exactly those of the policies that apply with that effect, none for a deny; exactly the policies that apply by name; and no error but those of loading. |
| PolicyEngine.DecideRaisesIff | control_plane/policy/engine.py:285-349 | Deciding raises exactly when an enabled policy comes to read a selector that does not resolve. |
| PolicyEngine.MatchedInOrder | control_plane/policy/engine.py:168-180 | With unique keys a decision names each policy that applies once, highest priority first and then by key. |
| PolicyEngine.UnionObligations | control_plane/policy/engine.py:380-392 | The nested loops with their seen set compute the specified union. |
| PolicyEngine.OrderOfPoliciesIsIrrelevant | control_plane/policy/engine.py:168-180 | With unique keys, permuting the policies changes nothing in the decision. |
| PolicyEngine.CombineDecides | control_plane/policy/engine.py:351-378 | Each algorithm's effect and determining policy, as a bound over all matches: highest rank, lowest rank, or highest priority and then rank. |
| PolicyEngine.MoreMatchesNeverLoosen | control_plane/policy/engine.py:351-378 | Under deny-overrides, growing a non-empty match set never lowers the effect. |
| PolicyEngine.UnionIs | control_plane/policy/engine.py:380-392 | The union has every owed obligation, each once, and no other. |
| PolicyEngine.MoreMatchesOnlyAddObligations | control_plane/policy/engine.py:394-405 | While the effect stays, matching more policies drops no obligation. |
| PolicyEngine.StrongestPolicyRedacts | control_plane/policy/engine.py:380-392 | The order of the union settles conflicts: each label is redacted as the strongest policy that redacts it says. |
| PolicyEngine.RedeemingKeepsObligations | control_plane/pdp.py:752-774 | With unique keys, redeeming an approval collects exactly the obligations of the parked decision and those of every matched allow. |
| PolicyEngine.RedeemingOwes | control_plane/policy/engine.py:407-420 | What is collected again on redeeming, from the policies alone: every obligation of those that apply and do not deny, each once. |
| PolicyEngine.DecisionIgnoresExplain | control_plane/policy/engine.py:285-349 | On a request where accepted policies' selectors resolve, explaining changes no part of the decision, and its errors are those of loading. |
| PolicyEngine.LoadErrorsAreAlwaysReported | control_plane/policy/engine.py:183-187 | Every decision names the policies that failed to load. |
| Router.MergeLoop | control_plane/routing/router.py:193-206 | The merging loop computes the specified constraints or raises on rival targets. |
| Router.Resolve | control_plane/routing/router.py:177-249 | The loop over candidates computes the specified routing, and rejects exactly the others, each for a reason that holds of it. |
| Router.NarrowIsConjunction | control_plane/routing/router.py:283-295 | A model satisfies narrowed requirements exactly when it satisfies those before and each new one. |
| Router.MergeIsConjunction | control_plane/routing/router.py:193-206 | Merging succeeds exactly when the named targets agree, and a model is then viable exactly when it is enabled and meets each route obligation by itself. |
| Router.ResolutionChoosesWell | control_plane/routing/router.py:208-249 | A target exists exactly when some enabled model meets every route; it is the original if that one does, else the least by priority and URN. |
| Router.RejectionSays | control_plane/routing/router.py:208-228 | A model is turned down for being switched off, else for going by another name than a route gives, else for not meeting some route, and for nothing else. |
| Router.ChoiceIsUnique | control_plane/routing/router.py:229-233 | That description fits one target only. |
| Router.RoutingIgnoresOrder | control_plane/routing/router.py:177-249 | Neither the order of the obligations nor that of the catalog matters. |
| CanonicalJson.TextCut | control_plane/audit/chain.py:103-117 | An escaped string can be told from what follows it. |
| CanonicalJson.ValueCut | control_plane/audit/chain.py:103-117 | So can a written value: no two values are written alike, nor one as the beginning of another with its punctuation. |
| CanonicalJson.CanonDecides | control_plane/audit/chain.py:103-117 | Sorting keys throughout identifies exactly the values that are the same JSON. |
| CanonicalJson.TextDecides | control_plane/audit/chain.py:103-117 | Two values have one canonical text exactly when they are the same JSON, key by key. |
| CanonicalJson.EqualIsSameJson | control_plane/policy/operators.py:64-100 | The equality conditions are evaluated with is being the same JSON, with truth values counted as numbers. |
| CanonicalJson.ValuesAreWritten | control_plane/audit/chain.py:103-117 | How values are written: without spaces, with commas and colons between. |
| CanonicalJson.CharactersAreWritten | control_plane/audit/chain.py:103-117 | How characters are written: as they are, by a letter, or in four hexadecimal digits. |
| CanonicalJson.OnlyAsciiIsWritten | control_plane/audit/chain.py:103-117 | Whatever the text, what is written is printable ASCII. |
| Fingerprints.FingerprintBinds | control_plane/pdp.py:711-734 | Exactly which requests share a fingerprint, hence an approval: the same principal, action, URN, labels and findings, contexts alike but for credentials and long tails, and payloads that are the same JSON or spell each other. |
| Fingerprints.OmittedInputs | control_plane/pdp.py:722-734 | Attributes, the kind of the resource, what the catalog knows of it and the scan's extent are in no fingerprint. |
| Fingerprints.OmittedContext | control_plane/pdp.py:868-883 | Nor are the values of credential-named context keys and what lies behind the 512th character. |
| Fingerprints.OmittedEncoding | control_plane/audit/chain.py:132-139 | A JSON payload and the string that spells it have one fingerprint. |
| Fingerprints.OmittedKindDecides | control_plane/pdp.py:711-734 | A policy on the kind of the resource tells two requests apart that one approval serves. |
| Approvals.RedeemableIff | control_plane/models/decision.py:161-190 | Redeemable exactly when granted, unspent, unexpired and bound to this fingerprint. |
| Approvals.RefusalSays | control_plane/models/decision.py:161-190 | Which reason is given against redeeming, from the approval's state: the first that holds. |
| Approvals.PresentingSays | control_plane/pdp.py:189-204 | A request that opts out of the record is refused before the approval is looked up; then it must exist; then its own reasons apply. |
| Approvals.RedeemsIff | control_plane/pdp.py:189-204 | Only the approval presented is redeemed, exactly where approval is required and it is granted, unspent, unexpired and bound to this request. |
| Approvals.Desk.constructor | control_plane/models/decision.py:103-152 | The desk opens with no approvals. |
| Approvals.Desk.Redeemable | control_plane/pdp.py:189-204 | The approval presented applies, or is refused for the first reason that holds. |
| Approvals.Desk.Record | control_plane/pdp.py:251-270 | Recording an answer spends the approval that applied, parks the request, or does neither. |
| Approvals.Desk.Park | control_plane/pdp.py:795-843 | Parking hands back the latest open ticket for the fingerprint, or opens one. |
| Approvals.Desk.Resolve | control_plane/api/v1/approvals.py:105-147 | An answer is recorded on a pending, unexpired approval only; otherwise nothing changes. |
| Approvals.StepKeepsInv | control_plane/pdp.py:736-843 | Each decision, answer and clock step keeps every row consistent and tickets opened in turn. |
| Approvals.EveryRunKeepsInv | control_plane/pdp.py:736-843 | Over every run, grants come before expiry, spending after the grant and before expiry. |
| Approvals.OnlyOneOpenTicket | control_plane/pdp.py:795-843 | In every such state a fingerprint has at most one pending unexpired ticket. |
| Approvals.SpendingIsJustified | control_plane/pdp.py:736-793 | An approval is spent exactly when a recorded decision needs one, presents it granted, unspent, unexpired and bound to this request, and can be answered; that row is marked spent by this decision and no other row changes. |
| Approvals.AnsweringIsJustified | control_plane/api/v1/approvals.py:118-139 | An answer takes exactly when the approval is pending and unexpired: that row gets the answer, the caller and the time, and no other changes; otherwise nothing does. |
| Approvals.AnsweringSays | control_plane/api/v1/approvals.py:105-139 | What somebody answering is told: no such approval, already answered, or too late, exactly then. |
| Approvals.ResendingKeepsTheTicket | control_plane/pdp.py:795-843 | A request parked again while its ticket is open gets that ticket back and opens no second one. |
| Approvals.SpentAtMostOnce | control_plane/pdp.py:776-793 | No run spends an approval twice. |
| Approvals.AnsweredAtMostOnce | control_plane/api/v1/approvals.py:118-139 | No run answers an approval twice. |
| Approvals.SpendsWereApproved | control_plane/pdp.py:736-843 | Whatever the rulings, every spend in every run was preceded by a decision parked on the very same fingerprint and, after it, a grant, and has not expired. |
| Decisions.Decide | control_plane/pdp.py:189-270 | A decision, from the policies through redemption, guard, routing and response, changes the approvals as its ruling says and replies as specified; nothing changes if building the response raises. |
| Decisions.SpendsIff | control_plane/pdp.py:189-270 | An approval is spent exactly by a recorded decision whose policies require one, which presents it granted, unspent, unexpired and bound to this request, and whose response as redeemed can be built; it is spent in the caller's name, and a ticket is opened in the principal's. |
| Decisions.UnrecordedOrDeniedTouchesNothing | control_plane/pdp.py:189-270 | An unrecorded request changes nothing, nor does one that raises; one that fails, or that is unrecorded and no simulation, or an engine deny, redeems nothing and is not let through. |
| Decisions.AllowedOnlyByRedeeming | control_plane/pdp.py:189-250 | What needed approval is allowed exactly when one was redeemed and the redeemed decision survives the tokenisation guard and routing. |
| Decisions.RedeemedAnswerReachesTheClientIff | control_plane/pdp.py:189-250 | From policies to caller: the answer to a redeeming request gives the client the payload exactly when the redeemed decision survives guard and routing, the response can be built, and every obligation of the parked decision and of each matched allow is carried out. |
| Decisions.PoliciesReachTheClientIff | control_plane/pdp.py:131-270 | From each policy to the caller: without a redemption the client hands out the payload exactly when the guard and routing leave an allow, the response can be built, and every obligation of every allowing policy that applies is carried out. |
| Decisions.RedeemedPoliciesReachTheClientIff | control_plane/pdp.py:189-250 | With a redemption, exactly when that is so of every obligation of every policy that applies and does not deny. |
| Decisions.ReplyCarries | control_plane/pdp.py:318-456 | Every reply has content exactly on an allow whose obligations are to be applied to some payload; then the payload itself where nothing is redacted or found and its redaction otherwise; without content no report; and the residual labels are those of uncovered findings of a pass over the whole payload. |
| Decisions.RoutesLeadWell | control_plane/pdp.py:653-707 | Every route of a decision that is not denied is resolved to the one model chosen well: the one the request names, if it meets them all. |
| Decisions.PayloadIsJson | control_plane/pdp.py:293-313 | A payload whose objects have distinct keys is a tree in which pointers are unambiguous. |
| Decisions.TreesDecide | control_plane/pdp.py:293-313 | The tree that is scanned has everything of the payload: different values are different trees, and its text leaves are exactly the strings. |
| Decisions.EverySpendWasApproved | control_plane/pdp.py:189-270 | In every run, under policies that may change at each step, every spend was preceded by a request with the very same fingerprint that its own policies parked and, after it, a person's grant of that approval, and has not expired. |
| Enforcement.SettlingShedsNothing | control_plane/pdp.py:606-707 | The guard and routing deny exactly when tokens cannot be issued, targets are rival, or no enabled model meets the routes; otherwise they keep every duty and rule and resolve each route to one model that meets them all. |
| Enforcement.SettledDenialSheds | control_plane/pdp.py:606-707 | A decision the guard or routing turns into a deny owes nothing any more and has one more error. |
| Enforcement.AnsweredIff | control_plane/pdp.py:237-246 | Building the response, outside the fail-closed handler, raises exactly when an allow comes to redact something found and a length an author wrote is no integer; the guard has ruled out everything else. |
| Enforcement.AcceptedRedactionMayRaise | control_plane/policy/model.py:222-237 | A redaction that authoring accepts, with a length of four in letters, makes every such allow raise. |
| Enforcement.OutstandingIs | sdk/python/control_plane_sdk/client.py:165-185 | Outstanding lists, once and sorted, exactly the imposed kinds that are neither the caller's nor executed by the plane as far as the response admits. |
| Enforcement.NoResponseWaivesDuties | sdk/python/control_plane_sdk/client.py:168-203 | No response at all, honest or not, gets a payload out of the client past a duty that is neither the caller's nor one the plane can execute and has not handed back. |
| Enforcement.EnforceReturnsIff | sdk/python/control_plane_sdk/client.py:187-203 | The client hands out a payload exactly when the response can be built, the effect is allow and every duty the policies imposed is the caller's own or redaction carried out over the whole payload on this decision; otherwise it refuses naming exactly the duties wanting. |
| Enforcement.PassIsFaithful | control_plane/pdp.py:436-456 | When the pass ran untruncated, the whole payload was read, every covered finding is substituted and nothing else changed, and the report lists exactly those. |
| Enforcement.ResponseCarries | control_plane/pdp.py:318-456 | Every response: content exactly on an allow to be applied to some payload, the payload itself where nothing is redacted or found, else its redaction, leaf by leaf; no report without content; residual labels and unexecuted duties exactly. |
| Enforcement.ConcealedNeverReturns | control_plane/pdp.py:318-456 | Nothing the decision's rules mask or drop comes back: requests that differ only there get one and the same response, and so the client the same payload. |
| Enforcement.UnhandledAreUncovered | control_plane/redaction/transforms.py:297-359 | What redacting a tree returns as not handled is exactly what no rule covers, in order. |
| Enforcement.RequiredRedactionReachesTheCaller | control_plane/pdp.py:318-456 | If the client hands out a payload that had to be redacted and the caller does not redact, then it was wholly scanned, is faithfully redacted, and the redactions and residual labels reported are exactly the covered findings and the labels of the others. |

## Left out

- Messages, reasons, traces, labels for display and every other text produced for people (`PolicyTrace`, `_summarise`, the wording of rejections): they decide nothing. The union of obligations compares obligations, not their printed form.
- HTTP, the database, migrations, adapters, metrics, both SDK transports, caches and API keys: plumbing.
- The configuration in which the decision pipeline does not fail closed, and faults in scanning, the catalog or the database: a request whose policies raise is answered with a deny, and only its count is kept of the record of that failure.
- How an access request is put together from a request, the catalog and the scan (control_plane/pdp.py:150-177): what is proved holds of every access request, so of that one, and nothing is claimed about which labels the scan adds to it.
- Row locks on redemption: the code takes none (control_plane/pdp.py:736-750), so each decision and each answer is one atomic step here, and a finer interleaving is not claimed to be safe.
- Stored outcome reports (control_plane/api/v1/decisions.py), policy storage and catalog merging: they would add easier members only.
- What vouches for the checkpoint stream itself: nothing does, and every statement about checkpoints is relative to the latest one that survives.
- Audit timestamps are integers, and the instant-to-text conversion is taken to be injective. A checkpoint entry of another JSON shape than the one sealed is taken to raise.
- The lock statement that SQLite skips (control_plane/audit/service.py:95-100): the interleavings are those of a database that locks.
- Lazy consumption of the decoder's generators: a feed is consumed whole. Digits outside ASCII, and the limit on the length of an integer literal, are not modelled.
- Message and content-block conversions of the proxies, and `govern_stream` over lines split across raw chunks, where the code gives no guarantee.
- Detector patterns, entropy and the remaining validators (`valid_ssn`, `valid_card_number`): library matching and range tests.
- Operators.ResolvePathLoop: treats an attribute of a value that is neither an object nor a list as absent, where the source looks it up on the Python value (control_plane/policy/operators.py:310-311), because what a string or a number offers as attributes is the language's. The statements about which selectors raise are to be read for segments that name none.
- Floating-point comparison and rounding, globs and regular expressions: parameters or integers.
- Route requirements with null or mixed-type values: requirement values are strings.
- Two approvals created at the same instant for one fingerprint: the code's query does not say which it returns, the model takes the later row.
