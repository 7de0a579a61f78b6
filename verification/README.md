# A verified model of the soft-aggregation engine and its sidecar

The repository is a Rust engine for softmax-weighted aggregation. This project models its parts that carry state or a
promise, and proves what they promise. Each class has the fields and the loops of the original and is proved against a
specification function; the theorems are lemmas about those functions, over every input, every run or every reachable
state.

| part | files |
|---|---|
| change-data-capture sidecar: byte decoding, transaction assembly, the mirror, its state file, and the whole protocol under cuts, lost acknowledgements and crashes | Pgoutput, PgoutputAccepts, Utf8, Parsing, Bytes, Words, TxAssembler, Mirror, MirrorTable, MirrorSnapshot, MirrorFile, MirrorFileAccepts, Fnv, CdcProtocol |
| approximate nearest-neighbour index | HnswCandidates, HnswSearch, HnswGraph, HnswIndex, Vectors, Counting |
| max-shifted soft aggregates: the accumulator and everything that computes with it | Exponential, SoftAccumulator, MaskedAttention, GroupedSoftavg, PgAggregate, Evaluators, PartitionReduce, Bags |
| exact unlearning | IncrementalMemory, ExactUnlearning |
| temperature and truncation certificates | Dequantization, CertifiedTruncation |
| Merkle audit log | MerkleTree, MerkleTurns, MerkleAuditLog |
| streaming join, key/value memory | StreamingJoin, KvMemory, KvAudit, KvSnapshots, KvQuery, KvStore |

## How to read it

- Numbers that the original keeps in floating point are reals. Scores are minus infinity, a real, or plus infinity, and
  temperatures are zero, a positive real, or infinite; `exp` is a parameter with its algebraic laws (`IsExp`), and where
  needed a logarithm (`IsLn`).
- SHA-256 is a parameter. Nothing assumes that it is injective: the theorems assume no collision among the strings that
  the log and the verifier actually hash, and underneath, soundness is a reduction that computes the collision.
- The server, the network and the disk are steps of a transition system; saving is one step (the original writes a new
  file and renames it). Clock readings, HNSW levels and parallel plans are arbitrary arguments.
- Texts are byte strings. What the sidecar receives is UTF-8, after the lossy conversion of the original; the log, the
  tables upstream and the rows of a snapshot in `Mirror` and `CdcProtocol` are in this received form, which is the text
  itself exactly when that is UTF-8.
- A mirror is claimed to equal the table upstream under what the original needs from upstream: keys stay different as
  numbers; values of scalar columns are finite numbers; no mapped column, label columns included, is NULL or is dropped,
  which the original refuses with an error it cannot get past; the table keeps its name and is the only one of that name
  that is published; positions increase. That no row is truncated is not assumed but is the exact condition.

## Where the code and its documentation or its own intent part

These are theorems about the code as it is.

- Deleting at temperature zero is exact if and only if a finite score survives, or a finite record was alone
  (`IncrementalMemory.DeleteExactIff`): `rescale_tropical` counts minus-infinite records when only those survive, and
  deleting a minus-infinite record while no finite one is live leaves a negative weight. The module documentation
  promises exact deletion without the condition.
- An update that fails on a dimension has already dropped the record (`ExactUnlearning.FailedUpdateKeepsIff`,
  `ExactUnlearning.RunLive`).
- `verify` compares neither the index with the number of leaves nor the number of proof entries with what it reads. An
  index outside the log, or one under a wrong size, passes if and only if its turns are those of a leaf
  (`MerkleAuditLog.AcceptsIff`, `MerkleAuditLog.IndexUnchecked`); acceptance still means the payload was logged.
- Partition-reduce is promised to be exact under arbitrary partitioning. It is so if and only if no part is empty, or
  all are, or the temperature is zero and the first part has rows (`PartitionReduce.CombineExactIff`). The triple of a
  part without rows has a vector of width zero: beside others it makes the addition panic, or, when it comes first and
  values have width one, loses the values (`PartitionReduce.CombineIs`).
- TRUNCATE is sent by the publication that the sidecar's documentation creates, and is ignored, as it says. Mirrors are
  exact and nothing is refused, in every run of a log, if and only if no truncation in it finds a row
  (`CdcProtocol.ExactIffClean`); after one that does, the rows stay (`CdcProtocol.TruncateKeepsRows`), and the
  delete of a row that was inserted again is refused, for good (`CdcProtocol.ReinsertedIsStuck`,
  `CdcProtocol.StuckForGood`).
- A transaction that fails midway leaves what came before the failing change (`Mirror.FailureLeavesPrefix`), so it is all
  or nothing if and only if those changes cancelled out (`Mirror.AllOrNothingIff`); under the promises above, and
  where no rows are truncated, no transaction fails (`CdcProtocol.ApplyNeverFails`).
- A process that dies before its first save cannot restart (`CdcProtocol.NoRestartBeforeFirstSave`), and a state file of
  an earlier slot is trusted. Exactly once survives such a file if and only if it holds the table at the consistent
  point under a watermark that skips nothing (`CdcProtocol.ExactlyOnceIffHarmless`).
- Names and values that are not UTF-8, as a database in another encoding sends them, are changed on the way in, and
  different ones can become equal (`Utf8.SurvivesIff`, `Pgoutput.ArrivesVerbatimIff`, `Utf8.TextsMerge`).
- A text of 4 GiB or more is saved with a truncated length (`MirrorFile.TextSurvivesIff`).
- `restore` promises the same insertion order, and gives it; but a deleted id keeps its place in the original and loses
  it in the restored memory, so a later write of that id may land elsewhere (`KvSnapshots.WriteAfterRestoreIff`).

## Model

| member | source | states |
|---|---|---|
| CdcProtocol.NextKeeps | engine/bruce-cdc/src/main.rs:88-116 | every step - commit, send, deliver, apply, save, ack, keepalive reply, flush, lost ack, cut, dial, crash, restart - keeps the invariant that ties log, slot, connection, assembler, mirror and state file together |
| CdcProtocol.InvHolds | engine/bruce-cdc/src/main.rs:41-116 | the invariant holds at every moment of every run from a fresh slot |
| CdcProtocol.SnapshotStarts | engine/bruce-cdc/src/main.rs:44-67 | a complete snapshot whose rows have different keys gives the process that runs start from, and the table they start with |
| CdcProtocol.ExactlyOnce | engine/bruce-cdc/src/apply.rs:168-251 | exactly once: in every state of every run the running mirror, and the saved one, is the table upstream after exactly the transactions with a position up to its watermark, if none of these truncates rows |
| CdcProtocol.ExactIffClean | engine/bruce-cdc/src/source.rs:163-234 | for every log: in all runs of it all mirrors are exact and no held transaction is refused, if and only if no truncation of the mirrored table in it finds a row |
| CdcProtocol.TruncateKeepsRows | engine/bruce-cdc/src/pgoutput.rs:236-246 | a failing run: a transaction that only truncates a table with rows moves the watermark and leaves the rows, in the running mirror and in the saved one |
| CdcProtocol.ReinsertedIsStuck | engine/bruce-cdc/src/apply.rs:175-246 | another: truncate, insert the row again, delete it; the delete removes two rows and is refused, with a state file for good |
| CdcProtocol.StuckForGood | engine/bruce-cdc/src/main.rs:88-116 | a saved mirror that refuses the first transaction it does not cover never moves again, in any continuation of the run |
| CdcProtocol.AcknowledgedIsCovered | engine/bruce-cdc/src/main.rs:94-101 | save before ack: the slot position and every acknowledgement in flight are at or below the saved watermark (without a state file: the running one) |
| CdcProtocol.NeverBack | engine/bruce-cdc/src/main.rs:88-116 | at any two moments of any run that starts without a state file: the slot and the saved watermark never go back, nor, while a process lives, what it has applied, counted and acknowledged |
| CdcProtocol.StatusSent | engine/bruce-cdc/src/source.rs:467-491 | every step: a status goes to the server only on a connection and only with the last acknowledged position, always with an acknowledgement and in answer to a keepalive |
| CdcProtocol.ApplyNeverFails | engine/bruce-cdc/src/apply.rs:168-251 | a transaction that reaches the mirror in any run is one of the log, and is not refused unless it or one before it truncates rows |
| CdcProtocol.CaughtUp | engine/bruce-cdc/src/main.rs:88-116 | a process that has read all that was committed has its watermark past all of it, and is level with the table upstream if nothing truncates rows |
| CdcProtocol.GetLevel | engine/bruce-cdc/src/main.rs:88-116 | every log whose truncations find no rows has a run in which the process reads, applies and acknowledges all of it |
| CdcProtocol.ApplyOnTrack | engine/bruce-cdc/src/apply.rs:169-174 | redelivered or new, a held transaction leaves the mirror at the upstream table of its watermark, or is refused, which happens only when rows were truncated; a redelivered one changes nothing |
| CdcProtocol.HeldIsNext | engine/bruce-cdc/src/apply.rs:169-174 | a held transaction above the watermark is the very next one of the log: the watermark filter can skip none |
| CdcProtocol.DialKeeps | engine/bruce-cdc/src/source.rs:353-368 | redialling, also in the middle of a transaction, keeps the invariant |
| CdcProtocol.NoRestartBeforeFirstSave | engine/bruce-cdc/src/main.rs:44-73 | a limit of the code, over runs: once no process runs and nothing was saved, none runs at any later moment, because the slot exists and the file does not |
| CdcProtocol.ExactlyOnceIffHarmless | engine/bruce-cdc/src/main.rs:44-73 | what an earlier slot left on disk: over all runs whose logs truncate no rows, exactly once holds if and only if no file is used, or none is there, or it is the table at the consistent point under a watermark that skips nothing that changes the table later |
| CdcProtocol.WrongTable | engine/bruce-cdc/src/main.rs:56-67 | a leftover file with any other table: a crash and a restart make the running mirror wrong |
| CdcProtocol.SkippedChange | engine/bruce-cdc/src/main.rs:56-67 | a leftover file with the right table under a watermark past the consistent point: a change committed up to that watermark is lost after a crash and a restart |
| CdcProtocol.StaleRowComesBack | engine/bruce-cdc/src/main.rs:56-67 | a concrete leftover file: an empty table is mirrored as one row after a crash and a restart |
| Pgoutput.DecodeEncode | engine/bruce-cdc/src/pgoutput.rs:156-245 | decoding the bytes of every message of the logical replication format that a server can write gives what that message says, every name and value after the lossy UTF-8 conversion |
| PgoutputAccepts.DecodesIff | engine/bruce-cdc/src/pgoutput.rs:156-276 | on all byte strings: a message comes out if and only if the bytes begin with a message of the documented format that says it; nothing else is accepted |
| PgoutputAccepts.PayloadIff | engine/bruce-cdc/src/pgoutput.rs:125-153 | the same for payloads of the stream, around messages and for keepalives |
| PgoutputAccepts.MarkerRefused | engine/bruce-cdc/src/pgoutput.rs:188-240 | any other marker before a tuple is reported as such, for inserts, deletes and updates |
| PgoutputAccepts.DatumRefused | engine/bruce-cdc/src/pgoutput.rs:250-276 | an unknown column kind, a negative length and a value cut short are each reported as such |
| PgoutputAccepts.CutRefused | engine/bruce-cdc/src/pgoutput.rs:156-186 | messages cut short inside their fixed part, and a name without an end |
| PgoutputAccepts.PayloadRefused | engine/bruce-cdc/src/pgoutput.rs:125-153 | an unknown type of payload and headers cut short; an error of the message inside is passed on |
| Pgoutput.ArrivesVerbatimIff | engine/bruce-cdc/src/pgoutput.rs:250-333 | a message arrives word for word if and only if every name and every text value in it is UTF-8 |
| Pgoutput.DecodedIsUtf8 | engine/bruce-cdc/src/pgoutput.rs:125-333 | whatever bytes are decoded, every text of the result is UTF-8 |
| Utf8.SurvivesIff | engine/bruce-cdc/src/pgoutput.rs:322-332 | a byte string is unchanged by the lossy conversion if and only if it is UTF-8 as in section 4 of RFC 3629 |
| Utf8.LossyIsValid | engine/bruce-cdc/src/pgoutput.rs:322-332 | the lossy conversion always gives UTF-8 |
| Utf8.ValidIff | engine/bruce-cdc/src/pgoutput.rs:322-332 | a text is valid exactly when it is a sequence of characters of the grammar in section 4 of RFC 3629 |
| Utf8.LossyIs | engine/bruce-cdc/src/pgoutput.rs:322-332 | the conversion, step by step: a character is copied, and the longest beginning of one, or else one byte, becomes U+FFFD |
| Utf8.ReachIs | engine/bruce-cdc/src/pgoutput.rs:322-332 | that beginning is the longest there is |
| Utf8.TextsMerge | engine/bruce-cdc/src/pgoutput.rs:250-276 | two different texts that are not UTF-8 become one and the same |
| Pgoutput.DecodeXLog | engine/bruce-cdc/src/pgoutput.rs:125-153 | the same through the XLogData wrapper, with its positions; texts after the lossy conversion |
| Pgoutput.DecodeKeepalive | engine/bruce-cdc/src/pgoutput.rs:125-153 | the same for keepalives and their reply flag |
| Pgoutput.ReadWal | engine/bruce-cdc/src/pgoutput.rs:125-153 | on all byte strings, malformed ones included, the cursor-based decoder returns exactly the result or error of the positional grammar, whose texts are converted as in the original |
| Pgoutput.Cursor.Take | engine/bruce-cdc/src/pgoutput.rs:288-296 | reads n bytes or reports the shortage without moving; the position never passes the end |
| Pgoutput.Cursor.Cstr | engine/bruce-cdc/src/pgoutput.rs:322-332 | a zero-terminated string, converted; the position moves past the zero, and an unterminated one is an error |
| Pgoutput.Cursor.ReadTupleData | engine/bruce-cdc/src/pgoutput.rs:250-276 | a tuple: its column count, then one datum per column by kind byte, texts converted; unknown kinds are errors |
| Pgoutput.Cursor.ReadMsg | engine/bruce-cdc/src/pgoutput.rs:156-245 | one message by its tag byte, names and texts converted; on every input the cursor stays inside the buffer |
| Words.BeRoundTrip | engine/bruce-cdc/src/pgoutput.rs:302-320 | big-endian words of any width come back, modulo the width |
| Words.FirstByteCounts | engine/bruce-cdc/src/pgoutput.rs:302-320 | the first byte of a big-endian word is the most significant |
| TxAssembler.TxAssembler.OnMsg | engine/bruce-cdc/src/source.rs:163-234 | the in-place step equals the specified step on every message and state, errors included |
| TxAssembler.TxAssembler.Reset | engine/bruce-cdc/src/source.rs:156-159 | forgets relations and pending changes |
| TxAssembler.ChangeStep | engine/bruce-cdc/src/source.rs:186-222 | a row change is buffered under the names of its relation, or refused with the right error and nothing changed: relation not announced, update under REPLICA IDENTITY NOTHING, tuple of the wrong width, the old one first |
| TxAssembler.StepOfChunk | engine/bruce-cdc/src/source.rs:163-234 | inside a transaction nothing is handed out; Commit hands out exactly the row changes that were sent, with names and positions; truncations are dropped |
| TxAssembler.ChunkSends | engine/bruce-cdc/src/source.rs:163-234 | every transaction can be sent on every connection: each change right after its relation |
| TxAssembler.CutAnywhere | engine/bruce-cdc/src/source.rs:163-234 | wherever a connection is cut, exactly the transactions whose Commit was delivered have come out, whole, in order, and without an error |
| TxAssembler.RestartAnywhere | engine/bruce-cdc/src/source.rs:156-256 | over any number of connections, each cut anywhere and restarted at a transaction boundary, only whole transactions of the log come out |
| TxAssembler.PgOutputSource.NextTx | engine/bruce-cdc/src/source.rs:467-491 | reads payloads until a transaction is complete or nothing is left, as the specified poll |
| TxAssembler.PgOutputSource.Ack | engine/bruce-cdc/src/source.rs:493-498 | the acknowledged position never goes back, and one status is sent |
| TxAssembler.PgOutputSource.Redial | engine/bruce-cdc/src/source.rs:353-368 | drops the half-assembled transaction, keeps what was acknowledged |
| TxAssembler.PumpIsRun | engine/bruce-cdc/src/source.rs:467-491 | keepalives between messages do not change which transactions come out |
| TxAssembler.AlivePasses | engine/bruce-cdc/src/source.rs:467-491 | a keepalive only moves the received position, and is answered with it when the server asks |
| TxAssembler.BytesToTransactions | engine/bruce-cdc/src/source.rs:163-256 | end to end from bytes: from the payloads of a connection cut anywhere come exactly the transactions committed before the cut, as received: every text after the lossy conversion |
| TxAssembler.TxKeptIff | engine/bruce-cdc/src/pgoutput.rs:250-333 | a transaction is received as it was sent if and only if all its texts are UTF-8 |
| Mirror.LiveMirror.ApplyTx | engine/bruce-cdc/src/apply.rs:168-251 | the loop that applies a transaction in place equals the specified outcome, errors and what they leave included; a replay touches nothing and counts zero, and counters and watermark move exactly with what was applied |
| Mirror.LiveMirror.ApplyOne | engine/bruce-cdc/src/apply.rs:175-246 | one change in place: other relations are ignored, inserts, deletes, updates by full, key-only or absent old tuple |
| Mirror.LiveMirror.BuildRow | engine/bruce-cdc/src/apply.rs:264-279 | a row from a tuple, unchanged datums taken from the current row, or the first error in column order |
| Mirror.RowFromOk | engine/bruce-cdc/src/apply.rs:264-279 | every row that is built has exactly the mapped columns, and its key vector equals its key-part scalars |
| Mirror.RowRoundTrip | engine/bruce-cdc/src/apply.rs:264-279 | a tuple that writes a row, unchanged datums included, gives back that row |
| Mirror.CurrentIsUpstream | engine/bruce-cdc/src/apply.rs:311-368 | the row that unchanged datums are resolved against is the row upstream |
| Mirror.ChangeSimulates | engine/bruce-cdc/src/apply.rs:175-246 | insert, delete and update with every kind of old tuple, key moves and unchanged datums do to the mirror what they did to the keyed table upstream |
| Mirror.KeyMoves | engine/bruce-cdc/src/apply.rs:199-242 | an update whose old tuple carries the key of a row of the mirror, and whose new tuple writes a row with a free key, replaces that row: the mirror follows the table upstream |
| Mirror.RowChanges | engine/bruce-cdc/src/apply.rs:199-242 | an update without an old tuple replaces the row under the key of the new tuple |
| Mirror.RowFromError | engine/bruce-cdc/src/apply.rs:264-279 | a row is built exactly when every mapped column can be read; else the error is that of the first that cannot, scalars before labels before key parts: missing, NULL, left out with nothing to take it from, or no number |
| Mirror.RefusedBecause | engine/bruce-cdc/src/apply.rs:175-246 | why any change is refused, by kind: the key sent cannot be read, no row to take left-out values from, a column of the row, or not exactly one row with that key; only in the last case is the table changed |
| Mirror.TxSimulates | engine/bruce-cdc/src/apply.rs:168-251 | a new transaction whose truncations find the table empty is applied whole, takes the mirror to the next upstream table, and moves watermark and counters |
| Mirror.TruncatedIsMissed | engine/bruce-cdc/src/apply.rs:168-251 | one with a truncation that finds rows is refused, or leaves a mirror with more rows than the table upstream |
| Mirror.SurplusStays | engine/bruce-cdc/src/apply.rs:175-246 | within a transaction the mirror never has fewer rows than the table upstream, and more from the first truncation that finds rows on |
| Mirror.SameGrowth | engine/bruce-cdc/src/apply.rs:175-246 | on any table with the mapped columns, a change that is not refused adds and removes as many rows as upstream |
| Mirror.SameRowCount | engine/bruce-cdc/src/apply.rs:254-262 | a mirror has as many rows as the table upstream has keys |
| Mirror.FailureLeavesPrefix | engine/bruce-cdc/src/apply.rs:175-246 | what any failed transaction leaves: the table upstream after exactly the changes before the failing one, under the old watermark and counters; the failing change itself deletes nothing |
| Mirror.AllOrNothingIff | engine/bruce-cdc/src/apply.rs:175-246 | a failed transaction leaves the mirror of the table it found if and only if the changes before the failing one cancelled out upstream |
| Mirror.NothingCountedNothingChanged | engine/bruce-cdc/src/apply.rs:175-246 | for any rectangular table, unique keys or not: an error with no change counted before it, whose failing change finds no row under the key it deletes by, leaves every row |
| Mirror.CancelledChangesCount | engine/bruce-cdc/src/apply.rs:175-246 | the converse fails: an insert and its delete count as two changes and leave the table as it was |
| Mirror.FailureLeavesChanges | engine/bruce-cdc/src/apply.rs:175-246 | the shortest example: an insert before a change that fails stays in the running mirror, under the old watermark |
| MirrorSnapshot.FromSnapshot | engine/bruce-cdc/src/apply.rs:92-161 | a mirror is built exactly when the snapshot is complete, and its rows are the snapshot rows in order |
| MirrorSnapshot.CompleteIff | engine/bruce-cdc/src/apply.rs:92-161 | complete means: every mapped column is there, every value is present and every scalar a number |
| MirrorSnapshot.SnapshotMirrorsIff | engine/bruce-cdc/src/apply.rs:92-161 | the columns built mirror a table, that of the rows by key, if and only if no two rows of the snapshot parse to one key |
| MirrorTable.InsertAppends | engine/bruce-query/src/db.rs:385-512 | into a table of the three column kinds a mirror has, a row is accepted exactly when it has one suitable value for every column; it becomes the last row and all others stay |
| MirrorTable.LabelKeepsCode | engine/bruce-query/src/db.rs:445-456 | a label that is in the dictionary keeps its first code, a new one is put at the end |
| MirrorTable.DeleteKeepsOthers | engine/bruce-query/src/db.rs:515-667 | delete by key removes exactly the rows with that key and keeps the others in order |
| MirrorFile.LoadSave | engine/bruce-cdc/src/durable.rs:149-354 | loading a saved image restores map, columns, counters and watermark and consumes the body exactly, for any sizes |
| MirrorFile.MirrorReloads | engine/bruce-cdc/src/durable.rs:149-354 | the state of any mirror, saved and loaded, is the same state, when lengths and counters fit their fields, texts are UTF-8 and numbers survive as bytes |
| MirrorFile.FileIs | engine/bruce-cdc/src/durable.rs:9-23 | the file, field by field in the documented layout, and its checksum |
| MirrorFileAccepts.LoadsIff | engine/bruce-cdc/src/durable.rs:245-340 | on all byte strings: a file loads if and only if it is the documented layout of some table map and columns, in any order, with the right checksum, texts in UTF-8, codes inside the dictionary and a shape a matrix can have; and what it says is what is loaded |
| MirrorFileAccepts.LoadRefused | engine/bruce-cdc/src/durable.rs:245-272 | too short, a wrong magic and a wrong checksum are reported as such, in this order |
| MirrorFileAccepts.ShapeRefused | engine/bruce-cdc/src/durable.rs:318-328 | a shape that no matrix has is reported as such once as many numbers are read as the product of its lengths is in 64 bits, else as a file cut short |
| MirrorFile.OneWrongByte | engine/bruce-cdc/src/durable.rs:245-269 | a state file with one byte changed, anywhere, is refused |
| MirrorFile.TextSurvivesIff | engine/bruce-cdc/src/durable.rs:70-73 | a text comes back if and only if its length fits in 32 bits and it is UTF-8; the length is truncated otherwise, and other bytes are refused |
| MirrorFile.Save | engine/bruce-cdc/src/durable.rs:149-214 | the bytes written in place are the specified file, and there are none exactly when a mapped column is missing |
| MirrorFile.LoadFile | engine/bruce-cdc/src/durable.rs:245-354 | on all byte strings the decoder returns exactly the specified image or error, with shapes that no matrix has refused |
| MirrorFile.Enc.WriteTable | engine/bruce-cdc/src/durable.rs:168-211 | the columns are appended in the order of the map, or a missing one is reported |
| MirrorFile.Dec.ReadTable | engine/bruce-cdc/src/durable.rs:286-343 | columns are read one after the other; a repeated name replaces the earlier one |
| MirrorFile.Dec.Take | engine/bruce-cdc/src/durable.rs:101-112 | reads n bytes or reports a truncated file |
| Words.LeRoundTrip | engine/bruce-cdc/src/durable.rs:58-69 | little-endian words of any width come back, modulo the width |
| Words.LastByteCounts | engine/bruce-cdc/src/durable.rs:58-69 | the last byte of a little-endian word is the most significant |
| Fnv.OneByteChanges | engine/bruce-cdc/src/durable.rs:84-91 | changing one byte always changes the checksum |
| Fnv.StepInjective | engine/bruce-cdc/src/durable.rs:84-91 | one round of the checksum is injective in the state and in the byte |
| Fnv.XorIs | engine/bruce-cdc/src/durable.rs:84-91 | the exclusive or of the checksum, bit by bit |
| Fnv.Published | engine/bruce-cdc/src/durable.rs:84-91 | the checksums of the empty text and of one letter are the published ones |
| HnswIndex.HnswIndex.constructor | engine/bruce-core/src/hnsw.rs:204-221 | an empty index is valid, with at least two neighbours and a build beam of at least one |
| HnswIndex.HnswIndex.SetSelection | engine/bruce-core/src/hnsw.rs:235-245 | the policy changes exactly when the index is empty |
| HnswIndex.HnswIndex.Insert | engine/bruce-core/src/hnsw.rs:352-431 | accepted exactly for a new id of the right dimension; what every list of neighbours becomes (own list, a list with room extended, a full list kept to its best or to a spread choice, all others unchanged), the new entry and top level; the graph stays well formed under both policies; on an error nothing changes |
| HnswIndex.HnswIndex.Delete | engine/bruce-core/src/hnsw.rs:498-507 | tombstones exactly a live id, counts it once, and leaves the graph alone |
| HnswIndex.HnswIndex.Search | engine/bruce-core/src/hnsw.rs:441-492 | for a query of the right dimension at most k results, each with an id that is not deleted and passes the filter, its own score, best first and ties by insertion; with fewer than k every such id reachable on layer 0 from the end of the descent is among them |
| HnswIndex.HnswIndex.Len | engine/bruce-core/src/hnsw.rs:299-301 | all nodes but the tombstoned ones |
| HnswIndex.ResultsAreAdmissible | engine/bruce-core/src/hnsw.rs:441-492 | that every result is live, passes the filter, and stands in order, for any beam the original may end with |
| HnswIndex.FewMeansAll | engine/bruce-core/src/hnsw.rs:441-492 | fewer than k results: every live id that passes the filter and is reachable on layer 0 from the end of the descent was returned |
| HnswIndex.WideIsTopK | engine/bruce-core/src/hnsw.rs:441-492 | with a beam as wide as the index the result is a true top-k of the live ids that pass the filter and are reachable |
| HnswIndex.NodeFits | engine/bruce-core/src/hnsw.rs:352-369 | while a 32-bit id is still free, the next node number fits in 32 bits |
| HnswIndex.GreedyAtLayers | engine/bruce-core/src/hnsw.rs:512-543 | the descent stays on nodes that have the layer, follows links, never loses score, and ends each layer at a local best |
| HnswIndex.ConnectLayers | engine/bruce-core/src/hnsw.rs:385-424 | connecting a new node layer by layer, own list and backlinks, keeps the graph well formed and changes nothing else |
| HnswIndex.InsertBelow | engine/bruce-core/src/hnsw.rs:375-424 | the same from the entry of the index, with the descent above the new level |
| HnswIndex.InsertLinks | engine/bruce-core/src/hnsw.rs:385-424 | what an insertion does to one list of neighbours, whichever the node and the layer |
| Vectors.DotSymmetric | engine/bruce-core/src/hnsw.rs:109-116 | the score of two vectors does not depend on which is the query |
| Vectors.DotLinear | engine/bruce-core/src/hnsw.rs:109-116 | it is linear in either vector |
| Vectors.DotUnit | engine/bruce-core/src/hnsw.rs:109-116 | against a unit vector it is that component; with linearity this determines it |
| Vectors.SquareUpTo | engine/bruce-core/src/crud.rs:124-127 | of a vector with itself it is never negative, and zero only for the zero vector |
| HnswSearch.SearchLayer | engine/bruce-core/src/hnsw.rs:552-619 | the two-heap beam terminates and returns a sorted list that is exhaustive: no reachable admitted node better than its worst is missed along good paths |
| HnswSearch.Expand | engine/bruce-core/src/hnsw.rs:584-613 | expanding a node keeps the beam invariant and explores all of its links |
| HnswSearch.Visit | engine/bruce-core/src/hnsw.rs:590-613 | a neighbour is scored once; it waits or is dropped only when it cannot improve the results |
| HnswSearch.Admit | engine/bruce-core/src/hnsw.rs:606-611 | a full result list gives up exactly its worst for a better candidate |
| HnswSearch.FewResultsAreAll | engine/bruce-core/src/hnsw.rs:552-619 | a beam that ends below its floor has returned every admitted reachable node |
| HnswSearch.WideBeamFindsAll | engine/bruce-core/src/hnsw.rs:552-619 | a beam and budget as wide as the graph return every admitted reachable node |
| HnswSearch.HillClimb | engine/bruce-core/src/hnsw.rs:512-543 | ends at a reachable node with no better neighbour, for any link lists |
| HnswGraph.Select | engine/bruce-core/src/hnsw.rs:264-291 | the loop computes the policy: truncation, or Algorithm 4 |
| HnswGraph.SelectionOk | engine/bruce-core/src/hnsw.rs:264-291 | at most cap different candidates under either policy |
| HnswGraph.DiverseSpread | engine/bruce-core/src/hnsw.rs:264-291 | no admitted node is closer to an earlier admitted one than to the base |
| HnswGraph.DiverseRefuses | engine/bruce-core/src/hnsw.rs:264-291 | a candidate is left out only for the base itself, a kept node that is nearer to it than the base is, or a full list |
| HnswGraph.KeepsBest | engine/bruce-core/src/hnsw.rs:264-291 | the default policy keeps as many as fit, and nothing left out scores better than anything kept |
| HnswGraph.SpreadsOut | engine/bruce-core/src/hnsw.rs:264-291 | the spread policy in full: which candidates are kept, which are left out, and why, in order of score |
| HnswGraph.BacklinkIs | engine/bruce-core/src/hnsw.rs:399-420 | a list with room gets the new node at its end; a full one becomes the best, or the spread choice, of itself with the new node |
| HnswGraph.Connect | engine/bruce-core/src/hnsw.rs:399-420 | own list and pruned backlinks on one layer; all other lists stay |
| HnswGraph.ConnectedOk | engine/bruce-core/src/hnsw.rs:399-420 | connecting keeps the graph invariant |
| HnswGraph.ReachesOnLayer | engine/bruce-core/src/hnsw.rs:552-619 | links never lead off a layer, nor to a node nobody links to |
| HnswCandidates.SortedUnique | engine/bruce-core/src/hnsw.rs:117-144 | the candidate order has no ties, so a set has one ranking: results are deterministic |
| HnswCandidates.Drain | engine/bruce-core/src/hnsw.rs:616-618 | emptying the heap gives that ranking |
| SoftAccumulator.FoldIsClosed | engine/bruce-core/src/mask.rs:98-167 | absorbing rows one by one computes maximum, shifted weight sum and shifted value sum, at temperature zero, finite and infinite, with infinite scores of either sign |
| SoftAccumulator.AbsorbClosed | engine/bruce-core/src/mask.rs:98-167 | every branch of absorb takes the closed form of some rows to that of one more |
| SoftAccumulator.MergeClosed | engine/bruce-core/src/mask.rs:172-221 | merging the accumulators of two parts is absorbing their union |
| SoftAccumulator.MergeIdentity | engine/bruce-core/src/mask.rs:172-221 | the empty accumulator is the identity of merge on both sides |
| SoftAccumulator.AbsorbIsMerge | engine/bruce-core/src/mask.rs:98-167 | absorbing a row is merging with the accumulator of that row |
| SoftAccumulator.OrderIrrelevant | engine/bruce-core/src/mask.rs:98-167 | any order of the same rows gives the same accumulator |
| SoftAccumulator.EmptyIffVacant | engine/bruce-core/src/mask.rs:71-73 | the test for empty (weight sum zero) holds exactly when no row carries weight |
| SoftAccumulator.AnchorCancels | engine/bruce-core/src/mask.rs:226-231 | the max shift cancels: the answer is the plain softmax mean with no anchor |
| SoftAccumulator.SoftMeanIs | engine/bruce-core/src/mask.rs:18-33 | the answer for any rows, temperature and infinite scores, with no shift: a weighted mean of the values, the weights being exp(score / temperature) (scores of plus infinity share it all among themselves), one for each row of the largest score at zero, and one for every row at infinity; none exactly when the weights add up to zero |
| SoftAccumulator.TotalRebase | engine/bruce-core/src/mask.rs:159-166 | moving the anchor up multiplies both sums by one factor |
| MaskedAttention.RowAcc.Absorb | engine/bruce-core/src/mask.rs:98-167 | the in-place update is, component by component, the specified absorb, infinity policy included |
| MaskedAttention.RowAcc.Merge | engine/bruce-core/src/mask.rs:172-221 | the in-place merge is, component by component, the specified merge |
| MaskedAttention.RowAcc.AbsorbRow | engine/bruce-core/src/mask.rs:98-167 | an accumulator that stands for some rows stands for one more |
| MaskedAttention.RowAcc.MergeRows | engine/bruce-core/src/mask.rs:172-221 | an accumulator takes over the rows of another |
| MaskedAttention.RowAcc.Finalize | engine/bruce-core/src/mask.rs:226-231 | no answer exactly for weight zero, else the quotient in every component |
| MaskedAttention.FoldSequential | engine/bruce-core/src/mask.rs:234-257 | row i of the fold stands for exactly the usable pairs of query i, in order |
| MaskedAttention.FoldParallel | engine/bruce-core/src/mask.rs:259-281 | the same under every chunking and every shape of the reduction tree |
| MaskedAttention.MaskedAttention | engine/bruce-core/src/mask.rs:318-366 | errors for mismatched shapes, and for the first pair out of range; else, however the work was split, component c of row i is the soft mean of the scores and the c-th value components of the pairs of query i in the inputs, NaN value rows left out, or the row is marked uncovered |
| MaskedAttention.SeenIs | engine/bruce-core/src/mask.rs:234-257 | the rows the fold sees for a query are, component by component, the usable pairs read off the inputs |
| MaskedAttention.EnumerationIrrelevant | engine/bruce-core/src/mask.rs:318-366 | every enumeration of the same mask answers every row alike |
| GroupedSoftavg.Grouped | engine/bruce-core/src/mask.rs:427-528 | accepted exactly for buffers of one shape and group numbers in range, with the error of the first thing wrong; else component c of a group is the soft mean of the selected rows of that group read off the inputs, under every chunking |
| GroupedSoftavg.StreamMembers | engine/bruce-core/src/mask.rs:393-426 | that mask holds exactly the selected rows, each under its own group |
| GroupedSoftavg.ScanIsMask | engine/bruce-core/src/mask.rs:473-492 | the grouped scan sees, group by group, exactly what that mask delivers |
| GroupedSoftavg.SeenIsMask | engine/bruce-core/src/mask.rs:393-426 | these are the rows that masked attention sees for the mask of (group, row) pairs |
| PgAggregate.ScalarAcc.Absorb | engine/bruce-pg/src/lib.rs:96-151 | the in-place scalar update is the specified absorb |
| PgAggregate.ScalarAcc.Merge | engine/bruce-pg/src/lib.rs:156-197 | the in-place scalar merge is the specified merge |
| PgAggregate.PgAcc.Absorb | engine/bruce-pg/src/lib.rs:260-266 | a NaN sets the sticky flag and stays out of the sums |
| PgAggregate.PgAcc.Merge | engine/bruce-pg/src/lib.rs:271-274 | sums merge and flags join |
| PgAggregate.DecodeEncode | engine/bruce-pg/src/lib.rs:292-327 | the five-slot transition state round-trips |
| PgAggregate.Sfunc | engine/bruce-pg/src/lib.rs:350-380 | NULL rows leave the state alone, temperature errors come only with a qualifying row, a changed temperature is refused |
| PgAggregate.Combine | engine/bruce-pg/src/lib.rs:386-410 | NULL sides, wrong lengths and disagreeing temperatures as specified; else the merged state |
| PgAggregate.PlanIsExpected | engine/bruce-pg/src/lib.rs:350-406 | every plan tree of scans and combines ends in the state of the serial scan over its rows: sums over the NaN-free rows and a flag that tells whether there was a NaN |
| PgAggregate.PlanState | engine/bruce-pg/src/lib.rs:292-410 | the five slots after any plan: maximum, weight sum and value sum of the NaN-free rows, the temperature, and the NaN flag; NULL without a qualifying row |
| PgAggregate.PlanAnswer | engine/bruce-pg/src/lib.rs:350-419 | the answer of every plan: NaN if a qualifying row held one, NULL if no row carries weight, else the soft mean of the numbers; zero means the mean of the maxima, infinity the plain mean |
| PgAggregate.PlanIrrelevant | engine/bruce-pg/src/lib.rs:350-406 | plans over the same bag of rows end in the same state, whatever partition, tree or order |
| PgAggregate.BadEps | engine/bruce-pg/src/lib.rs:329-380 | with a missing, negative, NaN or minus-infinite temperature every plan fails, with the error for it, exactly when some row qualifies, and else gives NULL |
| PgAggregate.Misused | engine/bruce-pg/src/lib.rs:350-410 | a state array of another length, and a temperature that changes between rows, are refused by every support function |
| PgAggregate.NotCombined | engine/bruce-pg/src/lib.rs:386-410 | partial states of different temperatures are not combined |
| ExactUnlearning.RunExact | engine/bruce-core/src/crud.rs:141-310 | after every run of inserts, deletes and updates, failed ones included, the state is the from-scratch accumulator of the live records: always with finite scores, and with minus-infinite ones at temperature zero whenever a record with a finite score is live |
| ExactUnlearning.RunSound | engine/bruce-core/src/crud.rs:141-310 | in every run the state is exact, or holds no maximum while no record with a finite score is live |
| ExactUnlearning.RunLive | engine/bruce-core/src/crud.rs:141-258 | which records any run leaves live, failed operations included: an update that fails on a dimension has dropped its record |
| ExactUnlearning.Unlearning | engine/bruce-core/src/crud.rs:211-310 | two runs that leave the same records live leave the same state, whatever was learned and unlearned on the way; with minus-infinite scores, if one of these records has a finite score |
| ExactUnlearning.InsertDelete | engine/bruce-core/src/crud.rs:141-234 | inserting a fresh record and deleting it restores state and live set, also when it was the maximum |
| ExactUnlearning.OutputIsSoftMean | engine/bruce-core/src/crud.rs:59-65 | the maintained output is the reference soft mean of the live records |
| ExactUnlearning.FailedUpdateKeepsIff | engine/bruce-core/src/crud.rs:250-258 | a failed update leaves the memory alone if and only if the record was not live: otherwise it is gone |
| ExactUnlearning.Store.Insert | engine/bruce-core/src/crud.rs:141-172 | duplicate ids and wrong dimensions are refused; else the specified insert |
| ExactUnlearning.Store.InsertContinuous | engine/bruce-core/src/crud.rs:174-188 | the in-place update is the specified one |
| ExactUnlearning.Store.InsertTropical | engine/bruce-core/src/crud.rs:190-207 | the in-place update at temperature zero is the specified one |
| ExactUnlearning.Store.Delete | engine/bruce-core/src/crud.rs:211-234 | unknown ids are refused; else the specified delete, and a rescale is counted exactly when the score is at most 10^-12 below the maximum, or, at temperature zero, when the last maximum leaves |
| ExactUnlearning.Store.DeleteTropical | engine/bruce-core/src/crud.rs:236-247 | the count of maximal records goes down, and the rescale happens exactly when it reaches zero |
| ExactUnlearning.Store.Rescale | engine/bruce-core/src/crud.rs:261-284 | recomputes the accumulator of the live records, in whatever order the map is walked |
| ExactUnlearning.Store.RescaleTropical | engine/bruce-core/src/crud.rs:286-310 | recomputes maximum and count, as the code does also when only minus-infinite scores are left |
| ExactUnlearning.Store.Update | engine/bruce-core/src/crud.rs:250-258 | a delete and then an insert, with the error of either |
| IncrementalMemory.DeleteExactIff | engine/bruce-core/src/crud.rs:211-310 | a delete restores the never-inserted state if and only if the temperature is positive, or a finite score survives, or a finite record was alone; false otherwise, for all inputs |
| IncrementalMemory.ScoresAre | engine/bruce-core/src/crud.rs:121-137 | each similarity: the product; minus half the squared distance, at most zero, zero exactly for the query itself, and twice it is 2xk - xx - kk; finite exactly for equality |
| IncrementalMemory.DeleteTropicalExactIff | engine/bruce-core/src/crud.rs:236-310 | the same for one component at temperature zero: minus-infinite survivors are counted |
| IncrementalMemory.InsertKeepsExact | engine/bruce-core/src/crud.rs:141-206 | an insert takes the from-scratch state to the from-scratch state with the record |
| IncrementalMemory.InsertIsAbsorb | engine/bruce-core/src/crud.rs:174-206 | below infinite temperature an insert is the absorb of the scan operators |
| IncrementalMemory.DropExact | engine/bruce-core/src/crud.rs:211-234 | a record below the maximum leaves by subtraction, exactly |
| IncrementalMemory.ScratchOrder | engine/bruce-core/src/crud.rs:261-310 | the from-scratch accumulator does not depend on the order of the hash map |
| Evaluators.SoftmaxIsSoftMean | engine/bruce-core/src/semiring.rs:39-63 | weighing by softmax weights gives the reference soft mean, at every temperature |
| Evaluators.SoftmaxIsDistribution | engine/bruce-core/src/semiring.rs:39-63 | the softmax weights are non-negative and sum to one |
| Evaluators.WalkUp | engine/bruce-core/src/tree.rs:80-85 | the loop collects a node and its ancestors |
| Evaluators.AncestorsAre | engine/bruce-core/src/tree.rs:80-85 | these are a chain of parents that ends at a root |
| Evaluators.TreeCausalAttention | engine/bruce-core/src/tree.rs:38-108 | dimension errors in the order of the original with its numbers, then the first parent that is not an earlier node; else every component of every output is the reference soft mean over the node and its ancestors |
| Evaluators.ChainIsCausal | engine/bruce-core/src/tree.rs:116-120 | on the chain tree this is causal attention, in every component |
| Evaluators.BalancedDepth | engine/bruce-core/src/tree.rs:124-128 | on the balanced binary tree a path is as long as the number of its node, counted from one, has binary digits |
| PartitionReduce.FromPairs | engine/bruce-core/src/distributed.rs:46-78 | the partial of a part with finite scores, with the width of its first value, zero for no rows; a panic exactly when a value that is added has neither this width nor width one |
| PartitionReduce.MisfitPanics | engine/bruce-core/src/distributed.rs:46-78 | which value that is: of a width that is neither one nor the first value's, and, at temperature zero, of a row with the largest score |
| PartitionReduce.Combine | engine/bruce-core/src/distributed.rs:86-119 | the two loops give, on any partials, the specified outcome: sums at the common maximum, sums that are not numbers, or a panic on a width that does not fit |
| PartitionReduce.CombineExactIff | engine/bruce-core/src/distributed.rs:86-119 | combining the partials of a split memory is the partial of all rows if and only if no part is empty, or all are, or the temperature is zero and the first part has rows, or values have no components |
| PartitionReduce.CombineIs | engine/bruce-core/src/distributed.rs:86-119 | and what comes out otherwise, in every case: a panic; with values of width one and an empty first part, no values, or NaN at infinite temperature |
| PartitionReduce.EmptyPartPanics | engine/bruce-core/src/distributed.rs:86-119 | a concrete failing input: one row in the first part, none in the second, temperature one |
| PartitionReduce.SumsOfRows | engine/bruce-core/src/distributed.rs:86-119 | while the sums are numbers, they are those of the rows added so far at the common maximum, in every component |
| PartitionReduce.PartRebased | engine/bruce-core/src/distributed.rs:86-119 | rescaling a partial to the common maximum gives the sums of its rows there, in every component |
| PartitionReduce.FinalizeIsSoftMean | engine/bruce-core/src/distributed.rs:122-128 | every component of the final answer is the reference soft mean; no components without rows |
| Dequantization.BoundHolds | engine/bruce-core/src/semiring.rs:121-183 | on every instance with bounded values, softmax mean and argmax mean differ by at most the bound, at every temperature |
| Dequantization.EpsStarKeeps | engine/bruce-core/src/semiring.rs:121-151 | at the certified temperature every instance that meets the gap, multiplicity and size promise stays within delta |
| Dequantization.EpsStarBound | engine/bruce-core/src/semiring.rs:121-151 | that temperature is positive, and the worst instance of the promise has a bound of exactly delta there |
| Dequantization.ProfileOf | engine/bruce-core/src/semiring.rs:159-183 | maximum, multiplicity and the gap to the next score, none exactly when all are tied |
| MerkleTree.MthUp | engine/bruce-core/src/merkle.rs:88-107 | one level of bottom-up pairing with odd-node promotion keeps the Merkle Tree Hash of section 2.1 of RFC 6962 |
| MerkleTree.PathUp | engine/bruce-core/src/merkle.rs:112-142 | the sibling at the bottom followed by the path one level up is PATH of section 2.1.1 of RFC 6962 |
| MerkleTree.SplitIsLargestPower | engine/bruce-core/src/merkle.rs:88-107 | the recursion splits at the largest power of two below the size, as the RFC says |
| MerkleTree.ClimbComplete | engine/bruce-core/src/merkle.rs:145-180 | the audit path climbs from its leaf to the tree hash |
| MerkleTree.ClimbSound | engine/bruce-core/src/merkle.rs:145-180 | a climb that arrives started at that leaf and read the audit path, or exhibits a collision |
| MerkleTree.SameTree | engine/bruce-core/src/merkle.rs:88-107 | trees of any two sizes with one hash have the same leaves, or there is evidence of a collision |
| MerkleTree.ChainFromLeaf | engine/bruce-core/src/merkle.rs:145-180 | a chain of hashes that ends at the tree hash starts at some leaf, or there is evidence of a collision |
| MerkleTurns.ClimbIsValue | engine/bruce-core/src/merkle.rs:145-180 | the verifier loop computes the hash along the turns of its index, and reads one proof entry for each |
| MerkleTurns.TurnsOfLeaf | engine/bruce-core/src/merkle.rs:145-180 | the turns of an index inside the log are those of the recursive tree |
| MerkleTurns.TurnsApart | engine/bruce-core/src/merkle.rs:145-180 | different leaves have different turns |
| MerkleTurns.ValueSound | engine/bruce-core/src/merkle.rs:145-180 | any turns that hash to the tree hash are the turns of a leaf with its audit path, or there is evidence of a collision |
| MerkleAuditLog.AcceptsExactly | engine/bruce-core/src/merkle.rs:145-180 | inside the log the verifier accepts exactly the logged payload with the audit path, up to trailing entries it never reads |
| MerkleAuditLog.AcceptsIff | engine/bruce-core/src/merkle.rs:145-180 | for every index and every claimed size, inside the log or not: accepted exactly when some leaf of the log is reached by the same left and right turns, with its payload and a proof that begins with its audit path |
| MerkleAuditLog.IndexUnchecked | engine/bruce-core/src/merkle.rs:145-180 | in a log of two, index 3 passes with the payload and proof of index 1, and index 2 with none |
| MerkleAuditLog.AnyIndexOfOne | engine/bruce-core/src/merkle.rs:145-180 | the only entry of a log of one is accepted under every index |
| MerkleAuditLog.ProofIsAccepted | engine/bruce-core/src/merkle.rs:112-180 | every proof of the log is accepted, without any assumption on the hash |
| MerkleAuditLog.AcceptedWasLogged | engine/bruce-core/src/merkle.rs:145-180 | whatever the index, an accepted payload was logged |
| MerkleAuditLog.RootsDistinct | engine/bruce-core/src/merkle.rs:88-107 | roots are equal exactly for equal logs, of any lengths |
| MerkleAuditLog.TreeHashIs | engine/bruce-core/src/merkle.rs:88-107 | the tree hash is that of section 2.1 of RFC 6962, with its prefixes and with left before right |
| MerkleAuditLog.AuditPathIs | engine/bruce-core/src/merkle.rs:112-142 | the audit path is that of section 2.1.1 of RFC 6962 |
| MerkleAuditLog.MerkleAuditLog.Append | engine/bruce-core/src/merkle.rs:70-74 | the log grows by one entry, under its index |
| MerkleAuditLog.MerkleAuditLog.Root | engine/bruce-core/src/merkle.rs:88-107 | the level loop computes the tree hash of RFC 6962 for every length |
| MerkleAuditLog.MerkleAuditLog.Proof | engine/bruce-core/src/merkle.rs:112-142 | the level loop computes the audit path of RFC 6962, and nothing out of range |
| MerkleAuditLog.MerkleAuditLog.Verify | engine/bruce-core/src/merkle.rs:145-180 | the verifier loop is the specified climb |
| CertifiedTruncation.PreDominatesTrue | experiments/rq4_contract/run_certified_perfacet.py:89-109 | at every prefix the estimate made before the tail is read is at least the true omitted fraction, and both lie between zero and one |
| CertifiedTruncation.FullSizeMeets | experiments/rq4_contract/run_certified_perfacet.py:93-109 | the full size meets every non-negative budget |
| CertifiedTruncation.MeanIs | experiments/rq4_contract/run_contract2.py:194-204 | the mean over a prefix is the sum of exp(score / t) times value over the sum of exp(score / t), whatever the shift |
| CertifiedTruncation.DeltaTrueIs | experiments/rq4_contract/run_certified_perfacet.py:89-109 | the true omitted fraction is the weight after the prefix over the weight of all rows |
| CertifiedTruncation.DeltaPreIs | experiments/rq4_contract/run_certified_perfacet.py:89-109 | the estimate puts every unread row at the score of the last read one |
| CertifiedTruncation.TruncationError | experiments/rq4_contract/run_contract2.py:194-204 | the mean over a prefix is within the omitted fraction times the value range of the mean over all |
| CertifiedTruncation.PlanFacet | experiments/rq4_contract/run_certified_perfacet.py:89-115 | the first prefix that meets the budget, by either estimate: it exists for a non-negative budget, the one chosen before reading is never the smaller, and the mean over it is within budget |
| CertifiedTruncation.ReadsIs | experiments/rq4_contract/run_certified_perfacet.py:99-115 | a facet without such a prefix is read whole |
| CertifiedTruncation.PlanAll | experiments/rq4_contract/run_certified_perfacet.py:80-115 | totals and decline counts over all facets; nothing is declined with a non-negative budget |
| CertifiedTruncation.AnswerFacet | experiments/rq4_contract/run_contract2.py:191-204 | the check of a proposed prefix and its repair |
| CertifiedTruncation.VerifyOrRepair | experiments/rq4_contract/run_contract2.py:188-210 | whatever was proposed, every non-empty facet is answered within the budget, repairs are made exactly where the proposal misses, and the planned and oracle totals are the sums they should be; without repairs the oracle reads no more |
| CertifiedTruncation.OracleRows | experiments/rq4_contract/run_contract2.py:208-209 | the loop finds the first prefix certified by the true fraction, or all rows |
| CertifiedTruncation.OracleAtMost | experiments/rq4_contract/run_contract2.py:196-210 | a certified share is never below what the oracle reads |
| CertifiedTruncation.ShareIs | experiments/rq4_contract/run_contract2.py:196-196 | the proposed share of a facet is the ceiling of its part of the budget, at least one row and at most all |
| StreamingJoin.StreamingChainJoin.ArriveR | engine/bruce-core/src/streaming.rs:59-77 | after the arrival the total is the number of joining row triples of all that has arrived, and the row lists are in order |
| StreamingJoin.StreamingChainJoin.ArriveS | engine/bruce-core/src/streaming.rs:80-96 | the same for a row of S; its number is the count of S rows before it |
| StreamingJoin.StreamingChainJoin.ArriveT | engine/bruce-core/src/streaming.rs:99-114 | the same for a row of T |
| StreamingJoin.TriplesWeigh | engine/bruce-core/src/streaming.rs:80-96 | the set of joining triples has the size of the sum over S rows of matching R rows times matching T rows |
| StreamingJoin.AnotherRow | engine/bruce-core/src/streaming.rs:59-77 | one more row of R adds what the S rows at its key contribute |
| StreamingJoin.WeightSwapped | engine/bruce-core/src/streaming.rs:99-114 | the count is the same from either end of the chain |
| StreamingJoin.OrderIrrelevant | engine/bruce-core/src/streaming.rs:59-114 | any order of arrival of the same rows gives the same total |
| StreamingJoin.CountIds | engine/bruce-core/src/streaming.rs:100-100 | the lengths of the lists, over the keys in any order, add up to the next row number |
| KvAudit.EveryRunIsAudited | engine/bruce-core/src/memory.rs:127-338 | after every run from empty the insertion order lists every id once, and replaying the log gives every row's owner, liveness and time; the log is legal entry by entry |
| KvAudit.OwnerKeepsRow | engine/bruce-core/src/memory.rs:127-212 | the owner of a live row keeps it until they delete it themselves |
| KvAudit.RunRefines | engine/bruce-core/src/memory.rs:127-338 | over every run from empty each id reads as the pair of the last accepted write of it that no accepted delete followed: the memory refines a plain map of facts |
| KvAudit.ServeKeeps | engine/bruce-core/src/memory.rs:127-338 | each request keeps that |
| KvMemory.BulkIsWrites | engine/bruce-core/src/memory.rs:253-338 | a batch does what writing its rows one by one at any times does, except for the times, and fails exactly when that loop does, with its error |
| KvMemory.BulkAcceptsIff | engine/bruce-core/src/memory.rs:269-306 | a batch goes in exactly when its buffers have its shape and no live row of another owner is in its way |
| KvMemory.WriteIs | engine/bruce-core/src/memory.rs:127-182 | a write is accepted exactly for vectors of the dimensions and an id no other owner has alive; then the id reads as the new pair, all other rows stay, and one log entry says who and whether it is new; the error otherwise |
| KvMemory.RemoveIs | engine/bruce-core/src/memory.rs:185-212 | a delete is accepted exactly for a live row of the caller; then the id reads as nothing and all other rows stay; the error otherwise |
| KvMemory.BulkReads | engine/bruce-core/src/memory.rs:300-338 | after a batch every id in it holds the buffer cells of its last occurrence, all other rows stay, and the log has one entry for each row |
| KvMemory.WriteTimeless | engine/bruce-core/src/memory.rs:127-182 | the clock affects nothing but the recorded times |
| KvMemory.RefusedLater | engine/bruce-core/src/memory.rs:287-299 | ids repeated within a batch cannot bring in a conflict the check missed |
| KvStore.KvStore.Write | engine/bruce-core/src/memory.rs:127-182 | the in-place write is the specified one, an accepted one can be read back at once, errors leave all as it was |
| KvStore.KvStore.Delete | engine/bruce-core/src/memory.rs:185-212 | the in-place delete is the specified one and leaves nothing to read; ownership is checked before the tombstone |
| KvStore.KvStore.BulkInsert | engine/bruce-core/src/memory.rs:269-338 | all or nothing, as specified |
| KvStore.KvStore.LenAlive | engine/bruce-core/src/memory.rs:117-119 | as many live rows as a snapshot lists |
| KvStore.KvStore.TakeSnapshot | engine/bruce-core/src/memory.rs:347-372 | the loop flattens exactly the live rows, in insertion order |
| KvStore.KvStore.AttentionQuery | engine/bruce-core/src/memory.rs:652-785 | nothing for a query of another dimension or without live rows; else, in every component, the reference soft mean over the live rows in insertion order, with the exact cases in which infinite scores give zero or NaN instead |
| KvQuery.SeenAreLive | engine/bruce-core/src/memory.rs:675-682 | the rows of a query are those a snapshot lists, scored by their keys |
| KvQuery.AnsweredIs | engine/bruce-core/src/memory.rs:652-785 | the answer, with its rows read off the memory: scores and value components of the live rows in insertion order |
| KvQuery.TiesAnswer | engine/bruce-core/src/memory.rs:714-754 | at temperature zero the mean of the values at the maximum is the answer, zero when there is no finite one |
| KvQuery.SumsAnswer | engine/bruce-core/src/memory.rs:755-785 | the quotient of the two sums is the reference soft mean in every component when no weight is NaN |
| KvQuery.SpoiledAnswer | engine/bruce-core/src/memory.rs:755-785 | a weight that is NaN, which is minus infinity less or over infinity, makes every component NaN |
| KvStore.RestoreFrom | engine/bruce-core/src/memory.rs:391-438 | rebuilds the specified memory, or reports the first thing wrong |
| KvSnapshots.RestoreSnapshot | engine/bruce-core/src/memory.rs:375-438 | restoring a snapshot gives the live rows, in their order, with owners and times, and an empty log |
| KvSnapshots.SnapshotIs | engine/bruce-core/src/memory.rs:347-372 | a snapshot holds every live row once, with its own cells, owner and time, in insertion order |
| KvSnapshots.ReadsSurvive | engine/bruce-core/src/memory.rs:375-390 | every read, the next snapshot and every ownership decision are as before |
| KvSnapshots.SnapshotRestore | engine/bruce-core/src/memory.rs:347-438 | what an accepted snapshot restores to has that very snapshot |
| KvSnapshots.RestoreAcceptsIff | engine/bruce-core/src/memory.rs:391-438 | accepted exactly with buffers of the right shape and no id twice |
| KvSnapshots.WriteAfterRestoreIff | engine/bruce-core/src/memory.rs:341-438 | a later write keeps the order the original would have had if and only if it does not bring back a deleted id that live rows follow |

## Left out

- Floating point: rounding, overflow, NaN produced by arithmetic, the f32 kernel of `grouped_softavg_f32`, and the uniform fallback of `softmax_eps`, which only a vanishing or overflowing sum reaches.
- Infinite and NaN values (the averaged numbers, not the scores) in `mask.rs` and `crud.rs`, and infinite ones in `bruce-pg`; NaN there is modelled.
- Scores of plus infinity in `crud.rs`; scores that are not finite in `distributed.rs`, where a part with an infinite maximum is dropped.
- ExactUnlearning.Store.Insert: scores of minus infinity only at temperature zero; at positive temperature the original divides infinities.
- PgAggregate.Combine: a state array of the right length that no support function writes (a maximum of NaN, sums that are not numbers, a temperature outside the domain) is marked `Unmodelled`; the original computes with it. 
- PgAggregate.Sfunc: the same for a state array that no support function writes.
- PartitionReduce.FromPairs: scores are finite, and the scores and values of a part come in pairs, as the debug assertion of the original demands.
- HnswIndex.HnswIndex.Insert: the level is an argument up to the cap; how the original draws it (`splitmix64`, `ln`) and what that means for recall or cost is not part of the model.
- HnswSearch.SearchLayer: the two binary heaps are finite sets with a best and a worst element; their array layout is not modelled.
- MaskedAttention.FoldParallel: the reduction tree is an arbitrary plan; thread scheduling is not modelled.
- CdcProtocol.ExactlyOnce: sockets, framing, timeouts, retry limits and sleeps are steps that may or may not happen; saving is atomic, so a torn file, `fsync` and rename are not part of the model.
- CdcProtocol.CaughtUp: that a process eventually reads everything is not claimed; there is no fairness.
- Mirror.TxSimulates: `parse_f64` is any partial function from text to numbers; text that parses to NaN or an infinity counts as not a number.
- MirrorTable.InsertAppends: maintained views, statistics and index entries that `Database` keeps beside a table are not part of the model, nor are the key columns of single precision (`KeyF32`) and those queried by similarity, which the sidecar does not create.
- MirrorFile.LoadSave: a number is eight bytes under a codec that round-trips.
- MirrorFile.LoadFile: the product of rows and columns wraps at 64 bits, as in a release build; a debug build panics there.
- CdcProtocol.ExactIffClean: a TRUNCATE that cascades to the mirrored table counts as one that names it, since the server sends both names.
- TxAssembler.BytesToTransactions: the lossy conversion replaces every maximal part of a well-formed sequence by one U+FFFD, as the standard library of Rust documents it.
- 64-bit wrap-around of counters (`n_emit`, `rows_applied`, `txs_applied`), which no reachable run gets near.
- Parquet persistence, Python bindings, command-line output, SQL declarations and HTTP examples: foreign libraries.
- `dp.rs`, `encrypted.rs`, `provenance.rs`: randomness and library cryptography; `join.rs`, `sketch.rs`, `operator.rs`, `anonymity.rs`, `cascade.rs`: easy members or evaluators that are covered already.
- The proposal stage of `run_contract2.py` and all statistics, figures and recall numbers of the experiments; the loop is proved for every proposal.
