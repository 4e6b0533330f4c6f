# Orbit in Dafny

Orbit is an embedded bitemporal graph database. Transactions are appended to a durable log, an in-memory store
keeps every committed version of every node and edge, and queries run on snapshots of one commit at one valid
time. This project models the three layers and proves what they promise each other.

## What is proved

**The log.** Bytes are pushed and taken one at a time, records carry two CRC-32C checksums computed by the bit
loop over 32-bit vectors, and a transaction is a group of records closed by a counted, digested commit record.
Cutting a store anywhere behind its superblock shows exactly the transactions it still holds whole
(`OgrSegments.CrashRecovery`); changing one byte is an error or costs a suffix of the transactions, never altered data
(`OgrDamage.SingleByteDamage`), because four bytes act on the checksum as one word and the bit step is injective
(`Crc32c.BurstDetected`). A record decodes only from its own encoding (`OgrExact.RecordExact`), and a transaction that
lost a record, or has one altered under right record checksums, is never shown (`OgrExact.PartialGroupUnreadable`,
`OgrExact.AlteredGroupUnreadable`). Groups abandoned at record boundaries are harmless, however many there are
(`OgrSegments.AbandonedGroupsHarmless`). A crash inside a record is not: what it does to every later append is
settled for each place of the tear (`OgrTears.AppendBehindTear` and the lemmas before it).

**The store.** `GraphStore` is a class whose ghost journal lists the committed transactions; its invariant ties
every field and the bytes on disk to that journal, so its contracts speak about all runs, with crashes at any byte
and reopenings in between. A commit succeeds under an exact condition, stated in terms of its operations, and applies
them in order; a refused one changes nothing in memory; a snapshot of commit c and a time holds exactly what is live
after the first c transactions with start <= time < end, whatever happened since; reopening rebuilds the live store,
or the part of it before a tear; and the self-check before compaction can never fail.

**Queries.** The queue-driven search is proved to list exactly the simple paths up to the hop bound, each once, by
length and then by edge ids. What a query answers, and when it succeeds, is stated in terms of the query and the
snapshot alone (`QueryMeaning.AnswerMeans`, `SeedMeaning.SeedsMean`, `QuerySuccess.SuccessMeans`), without the
execution mode, so serial and parallel execution agree. With COST every path follows its own prefixes. Query text
tokenizes to what was written (`Lexemes.LineTokens`), and the literal parser undoes the escaping printer.

## How it is organized

| modules | subject |
|---|---|
| Bytes, Results, Values, Checked, Ordering | integers, errors, values, checked arithmetic, sorting by contract |
| Crc32c, OgrCodec, OgrRecord, OgrLog | specification of the log |
| OgrLayout, OgrRefusals, OgrExact | byte offsets, refused versions, and the only records and groups that are accepted |
| OgrSegments, OgrTears, OgrCrashes, OgrDamage, StoreDisk | crashes, tears and damage, and what appends make of them |
| OgrWriter, OgrReader | the byte-pushing and offset-advancing code, proved against that specification |
| Canonical, Indexes, History, Staging, Snapshots, Leases | printed values, histories, transactions, snapshots, pins |
| Reopen, ChangeLog, Journal, GraphStore, Compaction | loading, the run invariant, the store object, compaction |
| Comparison, Partition, Paths, SearchOrder | predicates, worker chunks, simple paths, first-in-first-out order |
| Expansion, Search, Execution, Cursors, StoreQueries | what a query yields, the loops, execution, paging |
| SeedMeaning, Trails, QueryMeaning, QuerySuccess, Answers | which seeds, which rows in which order, and when, from query and snapshot alone |
| Tokens, Lexemes, Literals | tokenizer, query text, literals, hop bound |

Code that changes things step by step is a class or a method with loops, proved equal to a specification
function; the theorems are about those functions. `dafny verify dfyconfig.toml` checks everything.

## Choices that matter

- A double is its 64-bit pattern. Its order, and the rounding of integers to doubles in comparisons and costs, are
  computed exactly; addition of costs is a parameter of which only "never below its first operand" is used, which
  every rounding of non-negative doubles satisfies. How the library prints a double is a parameter that yields
  neither NUL nor quote.
- `std::sort` is any ordered permutation. Results that depend on how ties fall are not claimed.
- The writer does not check payload size or finiteness of doubles; the reader does. `Writable` and `Recoverable`
  separate the two, and `Sound` is both. `WellSized` says that payloads have 64-bit lengths.
- A worker is a run over its chunk, and workers are joined in order. One visiting loop serves both modes: a
  `Budget` says whether work and rows are checked on the way.
- `GraphStore.GraphStore.constructor` opens any bytes that read as transactions which a store committed. What is known
  about the bytes is a ghost value of `StoreDisk`. `Clean`: whole and abandoned groups; a commit succeeds exactly when
  the transaction is sound. `Torn`: the same, with a quiet tear behind them; a commit that the writer accepts succeeds
  and is lost while the tear stays quiet, and fails once the reader objects. `Unreadable`: no commit succeeds.
  `Unknown`: reading back decides; a run gets there only through a checksum that is right over bytes of different
  records. What is in memory is exact in all cases.

## Where the code does not meet an expectation

- A transaction that the writer accepts and the reader refuses, such as a put of an infinite property
  (`Staging.PoisonExample`), is reported as failed, but it stays in the file: every later commit fails and the file
  cannot be opened (`OgrSegments.PoisonedUnreadable`, `OgrSegments.AppendToUnreadable`).
- The writer never removes torn bytes. A tear on a record boundary is harmless. Inside a record it matters where:
  - in padding every later commit succeeds and is never read (`OgrTears.TearLosesAppends`);
  - with the first 36 header bytes intact, the same happens as long as fewer bytes were appended than the payload
    misses; the commit that supplies them makes the file unreadable (`OgrTears.TornPayloadEndsReading`) unless the
    checksum happens to fit, which with at most four missing bytes means that they were the right ones
    (`OgrTears.TornInPayloadEnd`);
  - after one to seven header bytes every later commit fails, and the first of them makes the whole file unreadable,
    because schema or flags come out wrong; after ten to fifteen too, because the length does
    (`OgrTears.TornHeaderBlocksAppends`);
  - after eight, nine, or 16 to 35 header bytes too, unless the header checksum happens to fit
    (`OgrTears.TornInHeader`); from 32 on that means that the appended bytes are the missing ones
    (`OgrTears.TornInHeaderChecksum`).
- Equality through the property index and equality by comparison differ exactly when integers of more than 53 bits
  round to one double (`Comparison.SeekIsScan`, `Comparison.CollisionExample`).
- A quoted string that begins with a dollar sign is taken for a parameter, and one that looks like a number or a
  boolean for that value (`Literals.OperandRoundTrip`).
- Reopening forgets commits that changed nothing from the change log (`GraphStore.ReopenedIsLive`).

## Model

| member | source | states |
|---|---|---|
| `Checked.CheckedMul` | src/base/checked.cpp:14-19 | the division test fails exactly when the 64-bit product does not fit, otherwise the result is the product |
| `Checked.CheckedAdd` | src/base/checked.cpp:7-12 | fails exactly when the sum does not fit in 64 bits |
| `Bytes.LittleEndianRoundTrip` | src/format/ogr.cpp:35-39 | the bytes pushed for a number read back as that number, for every width that holds it |
| `Bytes.LittleEndianOnto` | src/format/ogr.cpp:122-142 | every byte string is the encoding of the number it reads as |
| `Bytes.LittleEndianPushBack` | src/format/ogr.cpp:29-39 | pushing the byte at the next shift extends the little-endian encoding, as the put loops do |
| `Values.LessTrichotomy` | src/query/query.cpp:453-457 | bytewise text order is a strict total order |
| `Values.LookupEntry` | src/query/query.cpp:479-483 | a lookup in a key-ordered map returns the value stored under each of its keys |
| `Values.LessMeans` | src/query/query.cpp:453-457 | one text comes before another exactly when it ends or has the smaller byte where they first differ |
| `Values.IntervalsPartitionTime` | src/base/value.cpp:9-19 | intervals that meet share no instant and leave none out, because an interval holds its start and not its end; it is valid exactly when it starts before it ends |
| `Crc32c.MaskedBitStep` | src/format/ogr.cpp:513-516 | the mask of the bit step selects the polynomial exactly when the low bit is set |
| `Crc32c.FeedByte` | src/format/ogr.cpp:511-517 | the eight-round inner loop is the bit step taken eight times on the register with the byte folded in |
| `Crc32c.ComputeCrc` | src/format/ogr.cpp:509-519 | the loop over all bytes computes the checksum function the theorems are about |
| `Crc32c.StepsInjective` | src/format/ogr.cpp:513-516 | any number of bit steps is injective on 32-bit states |
| `Crc32c.FourBytesAsWord` | src/format/ogr.cpp:511-517 | four bytes act on the register as one 32-bit word folded in at once |
| `Crc32c.BurstDetected` | src/format/ogr.cpp:509-519 | equal-length byte strings that differ only inside a window of four consecutive bytes have different checksums |
| `Crc32c.SingleByteDetected` | src/format/ogr.cpp:509-519 | changing any one byte changes the checksum |
| `Crc32c.CheckValue` | src/format/ogr.cpp:509-519 | the checksum of the characters 1 to 9 is the check value of CRC-32C, 0xe3069283 |
| `OgrCodec.NodeRoundTrip` | src/format/ogr.cpp:278-306 | decoding an encoded node gives back node and tombstone flag exactly when all its doubles are finite; otherwise it is a format error |
| `OgrCodec.EdgeRoundTrip` | src/format/ogr.cpp:308-341 | the same for edges |
| `OgrCodec.TakeEntriesAt` | src/format/ogr.cpp:214-239 | reading the written entries of a key-ordered map rebuilds that map entry by entry, up to the first non-finite double |
| `OgrCodec.TakeValueAt` | src/format/ogr.cpp:168-212 | a written value reads back as itself and moves the offset by its length, or fails on a non-finite double |
| `OgrRefusals.FiniteMeans` | src/format/ogr.cpp:192-200 | a double is finite exactly when its bits without the sign are below those of infinity |
| `OgrRefusals.EncodeNodeMeans` | src/format/ogr.cpp:278-306 | which node versions are refused, with which error, in terms of id, label, interval and limits |
| `OgrRefusals.EncodeEdgeMeans` | src/format/ogr.cpp:308-341 | the same for edges |
| `OgrRefusals.DecodeNodeRefuses` | src/format/ogr.cpp:435-463 | a node payload with bytes behind it is a format error, an empty interval of a put a temporal error; otherwise the node comes back with the commit of its group |
| `OgrRefusals.DecodeEdgeRefuses` | src/format/ogr.cpp:465-496 | the same for edges |
| `OgrRefusals.LongStringRefused` | src/format/ogr.cpp:152-166 | a text longer than the limit or the payload is a format error |
| `OgrRefusals.ManyPropertiesRefused` | src/format/ogr.cpp:214-222 | too many properties are refused before any is read |
| `OgrRefusals.TagsMean` | src/format/ogr.cpp:168-212 | tags one to four are boolean, with any nonzero byte true, integer, double and text; all others are unsupported |
| `OgrRefusals.DuplicateRefused` | src/format/ogr.cpp:223-237 | a key that occurs twice is a format error |
| `OgrLayout.SuperblockLayout` | src/format/ogr.cpp:241-256 | magic, versions, size, generation, latest commit, record count and checksum at their offsets, zeros behind |
| `OgrLayout.ValidateMeans` | src/format/ogr.cpp:258-276 | which files are opened, and the error otherwise, in terms of twelve bytes |
| `OgrLayout.RecordLayout` | src/format/ogr.cpp:343-363 | type, schema, flags, length, ids and both checksums at their offsets, then the payload, then zeros up to a multiple of eight |
| `OgrLayout.GroupLayout` | src/format/ogr.cpp:628-678 | what the first and last record of a transaction hold, and kind, id and payload of each record between them |
| `OgrLayout.MutationOrder` | src/format/ogr.cpp:639-672 | node puts, node tombstones, edge puts, edge tombstones, each in the order given |
| `OgrLayout.AppendUpdatesSuperblock` | src/format/ogr.cpp:680-711 | a successful append adds the bytes of the group and leaves generation one, its commit and its number of records in the superblock |
| `OgrRecord.RecordAt` | src/format/ogr.cpp:373-433 | a written record at an aligned offset reads back as itself and ends where its bytes end; over the size limit it is refused |
| `OgrRecord.RecordCut` | src/format/ogr.cpp:375-420 | a record cut anywhere reads as a format error |
| `OgrRecord.RecordDamaged` | src/format/ogr.cpp:391-420 | a record with one wrong byte anywhere is never accepted, and the error is a format error exactly when the byte lies in the padding |
| `OgrExact.RecordExact` | src/format/ogr.cpp:373-433 | a record decodes exactly from its own encoding: no other type, schema, flags, checksum or padding is accepted |
| `OgrLog.SuperblockValid` | src/format/ogr.cpp:241-276 | every superblock the writer produces passes validation |
| `OgrLog.CloseWrittenGroup` | src/format/ogr.cpp:571-618 | closing a written group applies exactly its mutations when its doubles are finite, and is a format error otherwise |
| `OgrLog.AcceptGroup` | src/format/ogr.cpp:558-618 | a whole written group commits its transaction whatever group was open before |
| `OgrLog.ScanRecords` | src/format/ogr.cpp:547-620 | scanning whole records is the fold of the group state machine over them |
| `OgrExact.CloseExact` | src/format/ogr.cpp:571-590 | a group is closed by exactly one payload: its commit number, its number of records and the checksum of their payloads; a wrong size is a format error, anything else an integrity error |
| `OgrExact.ForeignGroupRefused` | src/format/ogr.cpp:571-590 | the commit record of a transaction closes no group with another number of records or another digest |
| `OgrExact.PartialGroupUnreadable` | src/format/ogr.cpp:571-583 | a store in which a transaction lost or repeats some of its records cannot be read, so no partial transaction is shown |
| `OgrExact.AlteredGroupUnreadable` | src/format/ogr.cpp:584-590 | nor one in which up to four neighbouring bytes of a record were altered and its own checksums made right again |
| `OgrExact.StrayRecordUnreadable` | src/format/ogr.cpp:558-566 | nor one with a record outside any group |
| `OgrExact.DataRecordMeans` | src/format/ogr.cpp:592-614 | a data record adds the version in its payload, begun at the commit of its group, to the list of its kind and flag, whatever its own header says |
| `OgrDamage.SingleByteDamage` | src/format/ogr.cpp:549-590 | one changed byte behind the superblock of a store, abandoned groups included, gives an error, or, exactly when it lies in padding, the transactions before the damaged segment; never altered or partial data |
| `OgrSegments.AbandonedGroupsHarmless` | src/format/ogr.cpp:547-620 | a file of whole groups and any number of groups abandoned at record boundaries, anywhere among them, reads as exactly its whole transactions |
| `OgrSegments.FittingIsLongest` | src/format/ogr.cpp:549-621 | the recovery count is the longest run of segments whose bytes fit in the cut |
| `OgrSegments.CutStoreReads` | src/format/ogr.cpp:534-621 | cut anywhere behind the superblock, such a file reads as the whole transactions among the segments that fit |
| `OgrSegments.CrashRecovery` | src/format/ogr.cpp:534-621 | for every list of sound transactions and every cut of at least 4096 bytes, reading succeeds with exactly the longest run of transactions whose bytes are all there |
| `OgrSegments.CrashAtRecord` | src/format/ogr.cpp:549-569 | a cut that keeps whole records is such a file again, with some of the same transactions first to last |
| `OgrSegments.AppendedSegment` | src/format/ogr.cpp:680-690 | a whole group, or whole records of one that an interrupted append left, behind such a file make such a file again |
| `OgrSegments.AppendToStore` | src/format/ogr.cpp:623-711 | appending succeeds exactly for transactions that writer and reader both accept, and then adds one whole group; one that only the reader refuses still changes the file and poisons it |
| `OgrSegments.PoisonedUnreadable` | src/format/ogr.cpp:394-396 | a poisoned file cannot be read at all, whatever follows |
| `OgrSegments.UnreadableForGood` | src/format/ogr.cpp:549-556 | whatever made a file unreadable, bytes appended to it leave it unreadable with the same error |
| `OgrSegments.AppendToUnreadable` | src/format/ogr.cpp:680-699 | every append to an unreadable file fails and leaves it unreadable |
| `OgrCrashes.CrashAnywhere` | src/format/ogr.cpp:343-363 | a crash that keeps any number of bytes of a store leaves a store or a quiet tear, with exactly the whole transactions that fit |
| `OgrCrashes.CrashInAppend` | src/format/ogr.cpp:680-690 | a crash inside any record of the group being appended leaves a tear behind the same transactions |
| `OgrCrashes.CutTear` | src/format/ogr.cpp:680-690 | a torn file cut behind the start of the torn record is a torn file again, and quiet if it was |
| `OgrTears.TearReads` | src/format/ogr.cpp:549-556 | a quiet tear reads as the committed transactions before it, whatever was appended since; an objection makes the whole file unreadable with that error |
| `OgrTears.OnlyChecksumsDecide` | src/format/ogr.cpp:373-420 | every tear is quiet, objected to, or saved by a checksum that is right over bytes of different records |
| `OgrTears.PaddingOverrun` | src/format/ogr.cpp:411-420 | a record of any kind whose padding ends early or runs into a nonzero byte is a format error |
| `OgrTears.TornInSchema` | src/format/ogr.cpp:379-393 | one to seven header bytes followed by a transaction always read as a wrong schema or wrong flags |
| `OgrTears.TornInLength` | src/format/ogr.cpp:394-396 | ten to fifteen header bytes followed by a transaction always read as a length of 2^32 or more |
| `OgrTears.TornInHeader` | src/format/ogr.cpp:391-401 | eight to 35 header bytes leave schema and flags intact, so length and header checksum decide; from 16 on the length is intact too |
| `OgrTears.TornInHeaderChecksum` | src/format/ogr.cpp:397-401 | a tear in the header checksum goes unnoticed exactly when the appended bytes continue it |
| `OgrTears.TornInPayload` | src/format/ogr.cpp:402-410 | once the missing payload bytes are supplied by others, the file is refused exactly when the patched payload has another checksum |
| `OgrTears.TornInPayloadEnd` | src/format/ogr.cpp:402-410 | with at most four payload bytes missing, exactly when the appended bytes differ from the missing ones |
| `OgrTears.AppendBehindTear` | src/format/ogr.cpp:623-711 | behind any tear an append is refused by the writer and changes nothing, or writes its bytes; then it reports success and is never read while the tear is quiet, and fails with the objection otherwise |
| `OgrTears.TearLosesAppends` | src/format/ogr.cpp:680-711 | behind a tear in padding, or with an intact header and a payload that stays incomplete, every append reports success and is never read; the file is torn there again |
| `OgrTears.TornHeaderBlocksAppends` | src/format/ogr.cpp:680-699 | behind a tear in the first seven header bytes, or in bytes 10 to 15, every append fails and the whole file cannot be read |
| `OgrTears.TornPayloadEndsReading` | src/format/ogr.cpp:680-699 | with at least 36 header bytes intact, the append that supplies the missing payload bytes fails and makes the file unreadable, unless the payload checksum happens to be right |
| `OgrWriter.ByteVector.PutString` | src/format/ogr.cpp:45-53 | pushes length and bytes, or refuses an oversized string and leaves the vector alone |
| `OgrWriter.ByteVector.PutValue` | src/format/ogr.cpp:55-81 | pushes tag and value as the codec specification says |
| `OgrWriter.ByteVector.PutProperties` | src/format/ogr.cpp:83-101 | the entry loop pushes the whole map or reports the limit it breaks |
| `OgrWriter.WriteNode` | src/format/ogr.cpp:278-306 | the node encoder computes the encoding the round trip is about, with the same refusals |
| `OgrWriter.WriteEdge` | src/format/ogr.cpp:308-341 | the edge encoder likewise |
| `OgrWriter.WriteRecord` | src/format/ogr.cpp:343-363 | header, two checksums, payload and the padding loop produce the framed record |
| `OgrWriter.WriteSuperblock` | src/format/ogr.cpp:241-256 | pushes the superblock field by field, its checksum and the zeros behind it |
| `OgrWriter.BuildGroup` | src/format/ogr.cpp:628-678 | the records pushed one by one are the bytes of the whole transaction, or the first refusal |
| `OgrWriter.AppendTransaction` | src/format/ogr.cpp:623-711 | the imperative append computes the append specification: file bytes and reported result |
| `OgrReader.Cursor.TakeProperties` | src/format/ogr.cpp:214-239 | the entry loop on a moving offset computes the codec specification, duplicates included |
| `OgrReader.ReadNode` | src/format/ogr.cpp:435-463 | the node decoder computes the specification decoder |
| `OgrReader.ReadEdge` | src/format/ogr.cpp:465-496 | the edge decoder likewise |
| `OgrReader.TakeHeader` | src/format/ogr.cpp:375-401 | takes the eight header fields at the moving offset and checks schema, flags, size and header checksum in that order |
| `OgrReader.CheckSuperblock` | src/format/ogr.cpp:258-276 | checks size, magic, major version and superblock size; the minor version may be anything |
| `OgrReader.ReadRecord` | src/format/ogr.cpp:373-433 | the record reader computes the specification, first failed check first |
| `OgrReader.PassPadding` | src/format/ogr.cpp:411-420 | the padding loop stops at the next multiple of eight or at the first nonzero byte |
| `OgrReader.Close` | src/format/ogr.cpp:571-618 | the checks and the decode loop of a closed group compute its specification, which OgrExact.CloseExact pins down |
| `OgrReader.ReadStoreFile` | src/format/ogr.cpp:534-621 | the scan loop over offset, group and image computes the store reader the recovery theorems are about |
| `Ordering.Sort` | src/store/graph_store.cpp:424-427 | sorting returns some ordered permutation; nothing more is relied on |
| `Ordering.OrderedUnique` | src/store/graph_store.cpp:424-427 | two ordered permutations agree when distinct elements are never tied |
| `Ordering.OrderedTied` | src/query/query.cpp:1149-1154 | two ordered permutations are tied position by position, however ties are broken |
| `Ordering.SortById` | src/store/graph_store.cpp:424-427 | sorting versions with distinct ids puts the same versions in strict id order |
| `Indexes.IndexesPush` | src/store/graph_store.cpp:250-259 | filing one more item keeps an index equal to a scan for every key |
| `Indexes.Gather` | src/store/graph_store.cpp:298-309 | the items at the indexed positions are the in-order filter |
| `Canonical.PrintValue` | src/base/value.cpp:29-58 | the escaping loop prints the canonical value |
| `Canonical.Spelled` | src/base/value.cpp:29-58 | the printed booleans, the quote, the escape and the arrow, spelled out |
| `Canonical.PlainTextStays` | src/base/value.cpp:45-53 | only quotes and backslashes are escaped |
| `Canonical.EscapeInjective` | src/base/value.cpp:47-53 | escaped texts are equal only for equal texts |
| `Canonical.CanonicalInjective` | src/base/value.cpp:29-58 | on booleans, integers and strings, equal printed values are equal values |
| `Canonical.IndexKeyInjective` | src/store/graph_store.cpp:112-117 | equal index keys mean equal property names and equal printed values, whatever bytes they contain |
| `Canonical.PrintPath` | src/query/query.cpp:580-589 | the joining loop prints the path string |
| `Canonical.PathStringInjective` | src/query/query.cpp:580-589 | a path string determines its node list |
| `Canonical.PathStringGrows` | src/query/query.cpp:580-589 | the string of a path precedes the string of every one-node extension |
| `History.GroupPushBack` | src/store/graph_store.cpp:772-786 | pushing a version onto its history keeps the map equal to the log grouped by id |
| `History.LiveIsLast` | src/store/graph_store.cpp:94-106 | replaying puts and tombstones leaves an entity live exactly when its history ends in a put |
| `History.VisibleIsLive` | src/store/graph_store.cpp:94-106 | what a commit sees is the replay of the versions begun by then; later versions play no part |
| `History.TimeTravel` | src/store/graph_store.cpp:94-106 | whatever a numbered log holds after its first c transactions, commit c sees their replay |
| `Staging.StagedIsTidy` | src/store/graph_store.cpp:661-712 | after any operations, staged puts and deletes are disjoint and filed under their own ids |
| `Staging.StagingIsSequential` | src/store/graph_store.cpp:661-712 | committing what was staged has the effect of applying the operations one by one |
| `Staging.LastOperationWins` | src/store/graph_store.cpp:661-712 | after the operations an entity is as the last operation on it left it: put, with the commit as its begin, or gone |
| `Staging.UntouchedStays` | src/store/graph_store.cpp:661-712 | an entity that no operation concerns is as it was |
| `Journal.EndpointsMean` | src/store/graph_store.cpp:730-742 | the endpoint check passes exactly when every edge whose last operation is a put has both endpoints once the operations are done |
| `Staging.ReplayLogged` | src/store/graph_store.cpp:750-786 | replaying the log with the logged transaction appended is committing the staged changes |
| `Staging.PoisonExample` | src/store/graph_store.cpp:615-631 | one accepted put of a node with an infinite property is a transaction that the writer accepts and the reader refuses |
| `Staging.Transaction.PutNode` | src/store/graph_store.cpp:661-673 | records the operation, or refuses it with the first failing check and changes nothing |
| `Staging.Transaction.PutEdge` | src/store/graph_store.cpp:675-688 | the same for edges |
| `Staging.Transaction.DeleteNode` | src/store/graph_store.cpp:690-700 | records the delete, or refuses it and changes nothing |
| `Staging.Transaction.DeleteEdge` | src/store/graph_store.cpp:702-712 | the same for edges |
| `Staging.Transaction.Abort` | src/store/graph_store.cpp:805-809 | closes the transaction; its staged changes reach nothing |
| `Snapshots.FindLatest` | src/store/graph_store.cpp:94-106 | the loop over a history finds the last version begun no later than the commit |
| `Snapshots.CollectVisible` | src/store/graph_store.cpp:392-399 | collects the visible entities in id order |
| `Snapshots.SelectActive` | src/store/graph_store.cpp:126-160 | sorting by start and breaking early selects exactly the candidates with start <= time < end |
| `Snapshots.KeyTestIsPropertyTest` | src/store/graph_store.cpp:252-254 | a node is filed under an index key exactly when it has the property with a value that prints the same |
| `Snapshots.GraphSnapshot.RebuildIndexes` | src/store/graph_store.cpp:245-260 | afterwards every index answers every key with what a scan would |
| `Snapshots.GraphSnapshot.Node` | src/store/graph_store.cpp:288-296 | binary search finds a node exactly when one with that id is there |
| `Snapshots.GraphSnapshot.NodesWithLabel` | src/store/graph_store.cpp:298-309 | equals the in-order label filter |
| `Snapshots.GraphSnapshot.NodesWithProperty` | src/store/graph_store.cpp:311-323 | equals the in-order filter for the property with an equally printed value, each node once |
| `Snapshots.GraphSnapshot.OutEdges` | src/store/graph_store.cpp:325-340 | equals the in-order filter by source and type |
| `Snapshots.GraphSnapshot.InEdges` | src/store/graph_store.cpp:342-357 | equals the in-order filter by target and type |
| `Snapshots.Materialize` | src/store/graph_store.cpp:378-430 | a snapshot is the naive view: live active nodes by id, and live active edges by id with both endpoints active |
| `Snapshots.NaiveViewMeans` | src/store/graph_store.cpp:378-430 | the naive view holds, by id, exactly the live nodes with start <= time < end, and exactly such edges between such nodes |
| `Snapshots.VerifySnapshot` | src/store/graph_store.cpp:44-91 | the self-check accepts exactly id-ordered snapshots without dangling edges |
| `Snapshots.NaiveViewsPass` | src/store/graph_store.cpp:44-91 | every naive view satisfies what the self-check demands |
| `Leases.LeaseRegistry.Pin` | src/store/graph_store.cpp:177-182 | the pin counts stay equal to the number of live snapshots per generation; pinned generations are known |
| `Leases.LeaseRegistry.Unpin` | src/store/graph_store.cpp:184-195 | one live snapshot fewer; an unknown generation is ignored |
| `Leases.LeaseRegistry.RegisterGeneration` | src/store/graph_store.cpp:171-175 | no known generation exceeds the latest |
| `Leases.LeaseRegistry.Stats` | src/store/graph_store.cpp:197-207 | reports known generations, distinct pinned generations and live snapshots |
| `Leases.LeaseRegistry.HasPinnedOlderThan` | src/store/graph_store.cpp:209-217 | answers whether a live snapshot has an older generation |
| `Leases.LeaseRegistry.EvictUnpinned` | src/store/graph_store.cpp:219-231 | forgets exactly the known, unpinned generations older than the latest, and counts them |
| `Reopen.RegroupedKeepsVersions` | src/store/graph_store.cpp:494-517 | regrouping puts before tombstones keeps every history as a multiset |
| `Reopen.SortRestores` | src/store/graph_store.cpp:525-538 | sorting a regrouped history restores it, although the sort is not stable |
| `Reopen.LoadVersions` | src/store/graph_store.cpp:494-538 | filing and sorting what was read rebuilds the live histories |
| `Reopen.LogRises` | src/store/graph_store.cpp:525-531 | every history of a numbered log that changes each entity at most once per commit has strictly increasing begin commits |
| `ChangeLog.SortIds` | src/store/graph_store.cpp:119-124 | sorting distinct ids gives the ascending list of the set |
| `ChangeLog.SummaryOfStaged` | src/store/graph_store.cpp:787-797 | the summary a commit publishes is the summary of the transaction it logged |
| `ChangeLog.ChangeMeans` | src/store/graph_store.cpp:787-797 | the four lists of a summary ascend and hold exactly the ids of the node and edge puts and tombstones |
| `ChangeLog.LoadChanges` | src/store/graph_store.cpp:493-524 | the change log rebuilt from the image is the list of summaries of all commits that changed something |
| `ChangeLog.EmptyChangesDroppedLater` | src/store/graph_store.cpp:518-524 | dropping empty summaries from a partly reloaded log gives the reloaded log of the whole |
| `Journal.JournalGrows` | src/store/graph_store.cpp:730-748 | a transaction that passes the endpoint check keeps the run invariant: numbering, one change per entity, every edge born with both endpoints live |
| `Journal.JournalPrefix` | src/store/graph_store.cpp:486-540 | every prefix of a journal is a journal |
| `GraphStore.GraphStore.constructor` | src/store/graph_store.cpp:814-830 | opening any bytes that read as committed transactions, torn groups and torn records among them included, rebuilds their state and establishes the invariant |
| `GraphStore.Rebuild` | src/store/graph_store.cpp:486-540 | loading bytes that read as a journal, whatever torn bytes follow, gives its head, histories and change log |
| `GraphStore.StoreReads` | src/store/graph_store.cpp:486-490 | over all runs the bytes of a store read as its journal if clean, and if torn as the part of it committed before the tear |
| `GraphStore.OpenAgain` | src/store/graph_store.cpp:814-830 | opening the file of a store again gives its journal if clean, only the transactions before the tear if torn, and the read error if an append made it unreadable |
| `GraphStore.CrashedFileOpens` | src/store/graph_store.cpp:486-540 | after any cut of a clean or torn file the bytes open as a clean or torn store, with a prefix of the same transactions; of a clean file, those still whole |
| `GraphStore.CrashAtRecordOpensClean` | src/store/graph_store.cpp:486-540 | after a cut that keeps whole records they open as a clean store, so this can be repeated any number of times |
| `GraphStore.ReopenedIsLive` | src/store/graph_store.cpp:486-540 | a reopened store equals the live one in head and histories, and in the change log without its empty commits |
| `GraphStore.CheckEndpoints` | src/store/graph_store.cpp:736-748 | accepts exactly the staged edges whose endpoints are live or staged and not being deleted |
| `GraphStore.GraphStore.Admit` | src/store/graph_store.cpp:714-748 | the checks of a commit in order, first failure first |
| `GraphStore.GraphStore.AppendAndPublish` | src/store/graph_store.cpp:766-803 | a logged transaction becomes visible exactly when the append succeeds; otherwise memory is unchanged; the file is the appended one either way |
| `GraphStore.GraphStore.Commit` | src/store/graph_store.cpp:714-803 | success exactly when store and transaction are open, a commit number is left, no edge put dangles after the operations, and the bytes accept it, with the error of each refusal; success advances the head by one, logs the transaction and applies the operations in order; the resulting file and what is known about it are given |
| `GraphStore.GraphStore.Begin` | src/store/graph_store.cpp:832-841 | hands out an empty transaction unless shutting down |
| `GraphStore.GraphStore.Snapshot` | src/store/graph_store.cpp:843-854 | the view of a commit at a time holds, by id, exactly the nodes that are live after its first transactions with start <= time < end, and such edges between them, whatever happened since; it is pinned; newer commits are not found |
| `GraphStore.GraphStore.ViewStays` | src/store/graph_store.cpp:378-430 | a snapshot keeps showing the naive view of its commit however the journal grows |
| `GraphStore.GraphStore.Release` | src/store/graph_store.cpp:262-266 | dropping a snapshot unpins exactly its generation |
| `GraphStore.GraphStore.Evict` | src/store/graph_store.cpp:882-887 | eviction leaves exactly the generations that are current or pinned and returns how many it forgot |
| `GraphStore.GraphStore.Shutdown` | src/store/graph_store.cpp:1043-1050 | keeps the invariant |
| `StoreDisk.DiskAfterAppend` | src/format/ogr.cpp:680-699 | every append succeeds exactly when accepted, and takes clean, torn, unreadable or unknown bytes to bytes of the stated kind |
| `StoreDisk.UnknownByCoincidence` | src/format/ogr.cpp:397-410 | what is known about the bytes is lost only to a checksum that is right over bytes of different records |
| `StoreDisk.CrashedDisk` | src/format/ogr.cpp:534-556 | a crash at any byte takes clean and torn files to clean and torn files |
| `Compaction.PlanCompaction` | src/store/graph_store.cpp:935-988 | retained range, counts of touched entities, and publishability exactly when no live snapshot is older than the range |
| `Compaction.RetainedFrom` | src/store/graph_store.cpp:949-953 | as many commits are retained as asked for, or all of them |
| `Compaction.TouchedMeans` | src/store/graph_store.cpp:955-981 | an entity counts as retained exactly when a version of it was begun in the range, both ends included |
| `Compaction.RetainedPutsProbed` | src/store/graph_store.cpp:438-455 | every retained put contributes its start and its last instant to the probe times |
| `Compaction.HistoryTimesMean` | src/store/graph_store.cpp:438-455 | a history is probed at the start and the last instant of its retained puts and at no other time |
| `Compaction.ProbeTimesMean` | src/store/graph_store.cpp:438-455 | the probe times are zero and those of the histories |
| `Compaction.Probe` | src/store/graph_store.cpp:461-473 | the self-check passes at any commit and time of any reachable store |
| `Compaction.VerifyCompaction` | src/store/graph_store.cpp:437-484 | verification terminates, always passes, leaves pins alone, and counts one snapshot per retained commit and probe time and the nodes and edges they hold |
| `Compaction.ExtentWithout` | src/store/graph_store.cpp:459-476 | the totals over the probe times do not depend on the order of probing |
| `Compaction.ExtentMeans` | src/store/graph_store.cpp:459-476 | what one probe counts is the size of any list of what the commit and the time show |
| `Compaction.Compact` | src/store/graph_store.cpp:990-1026 | compaction fails exactly for the stated reasons, in terms of the pinned generations, and never in verification; the report counts one snapshot per retained commit and probe time and what they hold; histories and pins stay, and remaining generations are current or pinned |
| `Comparison.NearestMagnitude` | src/query/query.cpp:400-405 | integers up to 53 bits convert to doubles exactly, longer ones never fall below 2^53 |
| `Comparison.NearestInjective` | src/query/query.cpp:400-405 | an integer below 2^53 in magnitude shares its double with no other integer; nor do two of at most 2^53 |
| `Comparison.NearestRounds` | src/query/query.cpp:443-451 | an integer is converted to the nearest double of 53 bits, ties to even, and the sign makes no difference |
| `Comparison.BitsOrderDoubles` | src/query/query.cpp:443-451 | positive doubles are ordered as their bits, and the sign bit negates |
| `SeedMeaning.CompareMeans` | src/query/query.cpp:425-472 | which pairs of values an operator decides, and how: numbers by value, texts bytewise, booleans by equality, mixed types as unequal |
| `Comparison.EqualMeans` | src/query/query.cpp:443-472 | comparing for equality accepts equal values and integers that round to one double, and nothing else |
| `Comparison.OperatorsAgree` | src/query/query.cpp:425-472 | values that can be ordered are below, equal or above, exactly one of the three, and the six operators agree on which |
| `Comparison.OrderingFails` | src/query/query.cpp:443-472 | an ordering predicate is a type error exactly on booleans, mixed types and non-finite numbers |
| `Comparison.SeekIsScan` | src/query/query.cpp:941-961 | index seek and label filter select the same seeds in the same order as label scan and comparison, exactly when no labelled node holds another integer that rounds to the same double |
| `Comparison.SmallNeverCollides` | src/query/query.cpp:941-961 | that condition holds when the sought integer is below 2^53 in magnitude, or all are at most 2^53 |
| `Comparison.CollisionExample` | src/query/query.cpp:443-451 | 2^53 and 2^53 + 1 compare equal although they print differently |
| `Comparison.FilterSeeds` | src/query/query.cpp:507-524 | the serial filter returns the matching seeds in order, or the type error of one that cannot be compared |
| `Partition.Split` | src/query/query.cpp:537-546 | at most four non-empty chunks that follow each other and cover all seeds, all but the last of the size that four workers, or one per seed, need |
| `Paths.LevelExact` | src/query/query.cpp:1086-1144 | level k holds exactly the simple paths of k edges of the type and direction |
| `Paths.LevelOrdered` | src/query/query.cpp:1102-1142 | each level is ordered by the edge ids of its paths |
| `Paths.PathsExact` | src/query/query.cpp:1076-1144 | the levels up to the bound list exactly the simple paths of one to h edges, by length and then by edge ids |
| `Paths.OrderedPathsDistinct` | src/query/query.cpp:1076-1144 | a list in that order repeats no path |
| `SearchOrder.DiscoveredIsClosed` | src/query/query.cpp:1086-1144 | what the level list discovers is the level list |
| `SearchOrder.NextVisit` | src/query/query.cpp:1094-1142 | a first-in-first-out queue visits the walks in level order and grows by their offspring |
| `SearchOrder.QueueNotEmpty` | src/query/query.cpp:1086-1144 | the queue does not run dry before the last path is visited |
| `Expansion.EdgeCostMeans` | src/query/query.cpp:659-683 | an edge has a cost exactly when the property holds a finite non-negative number, and the cost is that number as a double; everything else is a type error |
| `Expansion.TotalYieldConcat` | src/query/query.cpp:645-655 | expanding chunks apart and joining them in order is expanding the whole |
| `Search.StepFrom` | src/query/query.cpp:998-1024 | an adjacency step gathers one row per leaving edge, and fails exactly when a limit is exceeded |
| `Search.Visit` | src/query/query.cpp:1102-1142 | one visit reports and queues exactly the fresh extensions, in order, or fails for a limit or a cost |
| `Search.SearchFrom` | src/query/query.cpp:1084-1144 | the queue loop terminates; it succeeds exactly when costs, frontier, work and rows allow and then gathers the rows of the bounded simple paths in order |
| `Execution.FilterSeedsInParallel` | src/query/query.cpp:531-574 | the chunked filter returns the same result as the serial one, errors included |
| `Execution.FindSeeds` | src/query/query.cpp:940-961 | equality goes through the property index, everything else through the label index; the result is in id order |
| `SeedMeaning.SeedsMean` | src/query/query.cpp:486-501 | the seeds are exactly the labelled nodes that have the property and satisfy the bound predicate, by id; there are none to be had exactly when a parameter is missing or a labelled node cannot be compared |
| `Execution.ExpandSeeds` | src/query/query.cpp:998-1024 | incremental polling succeeds exactly when the totals over all seeds are within the limits |
| `Execution.RunWorker` | src/query/query.cpp:709-770 | a worker without work or row checks computes its chunk or reports why it cannot |
| `Execution.ExpandInParallel` | src/query/query.cpp:685-788 | joining the shares in worker order gives the totals over all seeds; an error in any share is an error of the whole |
| `Execution.Expand` | src/query/query.cpp:974-1048 | both modes succeed under the same condition and return the same rows |
| `Execution.Execute` | src/query/query.cpp:876-1168 | success and answer are stated without the mode: a query succeeds exactly when binding, seeds, hop bound, costs, frontier, work and rows allow, and its cursor offers an answer |
| `Execution.Arrange` | src/query/query.cpp:1146-1168 | with COST a permutation that rises by cost and key, otherwise the rows as expanded; reversed for descending order |
| `Trails.SeedWalksExact` | src/query/query.cpp:998-1144 | what a seed is expanded into are exactly the trails from it: itself, single edges of the type in the direction asked for, or chains of one to the bound of them without a repeated node |
| `Trails.TotalTrails` | src/query/query.cpp:998-1144 | expansion lists every trail from the seeds once, by seed id, length and edge ids |
| `Trails.TotalRows` | src/query/query.cpp:885-938 | each row says about its trail what the query asks for: last node, last edge or the joined path, the key that begins with scan, adj or path, and the sum of the edge costs |
| `QueryMeaning.AnswerMeans` | src/query/query.cpp:974-1168 | the answer of a successful query is the listing of its trails; with COST ordered by cost and key; turned round by ORDER DESC |
| `QueryMeaning.CostOrder` | src/query/query.cpp:1149-1154 | with COST the costs rise from row to row, or fall with ORDER DESC, and equal costs are in key order |
| `QueryMeaning.ExecuteAnswers` | src/query/query.cpp:876-1168 | the cursor of an execution holds values and keys of such an answer, in either mode |
| `QuerySuccess.TotalWork` | src/query/query.cpp:894-902 | the work units of a query: one per seed, two per trail, and in a path search one per edge looked at from a trail shorter than the bound |
| `QuerySuccess.SuccessMeans` | src/query/query.cpp:876-1168 | a query succeeds exactly when its seeds are to be had, its hop bound, queues, rows and work units are within the limits, and every path has a cost |
| `Answers.PathRowsExact` | src/query/query.cpp:1076-1144 | the rows of a path query report the simple paths of one to the bound edges from its seeds, all of them and nothing else |
| `Answers.AnswerMembers` | src/query/query.cpp:1146-1167 | ordering and reversing neither lose nor invent rows |
| `Answers.PrefixIsCheaper` | src/query/query.cpp:1111-1121 | a path never costs less than its prefix, and its key comes later |
| `Answers.PrefixesComeFirst` | src/query/query.cpp:1146-1165 | with COST every path of two or more edges comes strictly after the path without its last edge, which is also listed |
| `Answers.AnswersTied` | src/query/query.cpp:1149-1154 | two answers for the same expansion have the same costs and keys at every position |
| `Answers.AnswerUnique` | src/query/query.cpp:974-1168 | any two executions of a query, whatever their modes, give the same keys and the same rows; with COST and edge.id rows of equal cost and key may trade places |
| `Answers.ExecuteInBothModes` | src/query/query.cpp:876-1168 | serial and parallel execution succeed together and return the same keys and the same rows, one by one; with COST and edge.id the same rows in some order |
| `StoreQueries.SnapshotIsFit` | src/store/graph_store.cpp:378-430 | every snapshot a store hands out satisfies what execution requires |
| `StoreQueries.PastAnswersStay` | src/store/graph_store.cpp:378-430 | snapshots of a commit and time hold the same contents in all stores that share the log up to that commit |
| `Cursors.ResultCursor.constructor` | src/query/query.cpp:822-827 | starts at the first row; keys that do not pair up with the rows are dropped |
| `Cursors.ResultCursor.Next` | src/query/query.cpp:829-849 | whatever the budgets, the pages delivered one after the other are the rows from the first on; the complete page delivers the last row; the key is that of the last row delivered |
| `Cursors.ResultCursor.Done` | src/query/query.cpp:855-857 | done exactly when every row was delivered |
| `Tokens.ReadToken` | src/query/query.cpp:95-140 | one token: quoted string, operator, comma or dot, or word |
| `Tokens.Tokenize` | src/query/query.cpp:81-143 | the loop splits the query into the tokens of the specification with their ranges, or reports the limit, or the syntax error with its range |
| `Tokens.RefusedIsUnterminated` | src/query/query.cpp:96-109 | the only syntax error is a string that never ends, and its range runs from the opening quote to the end |
| `Lexemes.LineTokens` | src/query/query.cpp:81-143 | words, decimals, the seven comparison signs, commas, dots and strings in either quotes, with any white space or, where nothing can be mistaken, none between them, tokenize to themselves with their exact ranges |
| `Literals.UnquoteEscaped` | src/query/query.cpp:96-112 | unquoting undoes escaping for every text |
| `Literals.PrintedLine` | src/query/query.cpp:81-143 | a line of printed booleans, integers and strings tokenizes to one token per value with its text and exact range |
| `Literals.ParseLiteral` | src/query/query.cpp:362-389 | the scan decides boolean, number with or without a dot, or text |
| `Literals.LiteralRoundTrip` | src/query/query.cpp:362-389 | a boolean or integer is recovered from its token, and a string exactly when it does not look like a boolean or a number |
| `Literals.BooleanLiterals` | src/query/query.cpp:362-368 | the booleans are the two words in any mixture of cases |
| `Literals.NumberLiterals` | src/query/query.cpp:369-388 | an optional minus sign and digits are an integer if it fits, with one dot a decimal |
| `Literals.OperandRoundTrip` | src/query/query.cpp:190-199 | a value written into a predicate means itself exactly when, in addition, a string does not begin with a dollar sign |
| `Literals.ParameterNames` | src/query/query.cpp:190-199 | a dollar sign and a name name a parameter; a dollar sign alone is a syntax error |
| `Literals.ParseU64` | src/query/query.cpp:300-319 | reads exactly the digit strings below 2^64 |
| `Literals.ParseHopBound` | src/query/query.cpp:225-238 | accepts exactly the numbers from one to the configured bound |

## Left out

- File streams, existence checks and the two-step rewriting of the superblock on disk; the file is its bytes. The
  generation, latest-commit and record-count fields of the superblock are not read back.
- Threads, futures and mutexes: locked sections are atomic steps. Cancellation and background index builds.
- Byte counts and work units are unbounded; size_t arithmetic cannot wrap in the model.
- GraphStore.GraphStore.constructor: files that read well but were not written by commits of a store, with commit
  numbers or endpoints of their own.
- GraphStore.Rebuild: the same restriction to files that a store's commits wrote.
- GraphStore.OpenAgain: bytes of which nothing is known.
- GraphStore.GraphStore.Commit: payload lengths are assumed to be below 2^64, as memory guarantees.
- Expansion.EdgeCostMeans: rounding of cost sums is a parameter, see above.
- Canonical.CanonicalInjective: claims nothing about doubles, because how they are printed is the library's choice.
- Comparison.SeekIsScan: claims nothing when doubles are stored under the property or sought.
- Answers.AnswerUnique: with COST and edge.id, rows of parallel edges with equal cost and key are not ordered.
- Literals.ParseLiteral: where the library throws on an out-of-range integer or a malformed decimal the result is None.
- StoreDisk.DiskAfterAppend: behind a tear, once a checksum is right over bytes of different records, what such a record
  makes of the rest of the file is not pursued; the bytes are then `Unknown`.
- The clause parser, explain output, fingerprints, error texts, inspection, the command line, benchmarks and packaging.
- Commit subscriptions: a scan of the change log for the first newer entry.
- The index coverage test of verification, which is true by construction.
- Features that only the design documents describe: dual superblocks, segments, checkpoints, relocation, statistics.
