# RescueNet: a verified model

RescueNet keeps search-and-rescue teams reporting while they are offline.  A phone
writes events to a local log and an outbox; they reach the server over HTTPS or as a
120-byte bit-packed SMS batch; the server keeps one append-only log, gives each event a
position, and computes every read model from that log when it is read.

This project models those parts and proves what they promise; `dafny verify
dfyconfig.toml` covers every file.

| part | files |
|---|---|
| bits, bytes and the wire format, with its printed layout | BitStrings, BitIo, Wire, WireParse, WireLayout |
| the phone's codec and the server's encoder | SmsCodec, BackendWire |
| packing a batch and rebuilding its MAC input | SmsBatchEncoder, BatchMac |
| what the trim before packing costs, and when it blocks a phone | SmsTrim, DroppedReport, BlockedQueue |
| the event log and batch ingestion | EventStore, Ingestion |
| the phone's database and its retry schedule | FieldStore, OutboxEngine, Backoff |
| one uplink pass, over any transport and over SMS | Transport, SyncEngine, SmsUplink |
| phones, gateway, server and network as a transition system | SyncProtocol, SyncSafety, BackoffRuns |
| delta paging and the downlink watermark | Queries, DeltaPull |
| the folds, their convergence and their scoping | Latest, Folds, FoldSets, Coverage, Scoping, Projections |
| issuing and revoking assignments | Assignments |
| cell labels | Grid |
| shared | Domain, Results, Sorting |

Objects whose fields the source updates are classes (`BitIo.BitWriter`, `BitIo.BitReader`,
`BitIo.ListBitWriter`, `Ingestion.Server`, `FieldStore.FieldDatabase`); their loops are
methods tied to functions, and the laws are lemmas about the functions.  Beside the laws,
the layout on the wire, the verdicts, the table of delays and the fields of every record are
stated in the values of the format and of the events themselves.  The protocol is a
step relation over those same functions, and its laws quantify over every finite run; the
imperative uplink passes are proved to be runs of it.

## What the source says and what its code does

The model follows the code.  Where comments or documents promise more, the true
statement is proved instead.

- Re-sending is called safe because ingestion is idempotent.  The log is
  (`Ingestion.ReplayAddsNothing`), the verdicts are not: any `seq` below the device's
  maximum is refused, and the outbox drains survivor reports before older routine ones.
  `SyncSafety.DeliverableIff` says exactly which queued events can still arrive;
  `DeltaPull.CriticalFirstStrandsRoutine` is a run that loses one.
- The server recomputes a relayed batch's MAC from its lowest relayed event, the phone
  from its lowest loaded one.  They agree exactly when that one was included
  (`BatchMac.ServerRebuildsMacInputIff`); `BatchMac.PositionFixFirstBreaksTheMac` is a
  queue where they do not.
- A message handed over to the SMS sender is reported as a failed request, although its
  comment has the events stay IN_FLIGHT until an ACK: every row of the pass, packed or left
  out, waits again at once with one attempt more (`SmsUplink.SmsPassReturnsAll`).
- The cheap trim before packing keeps the first 22 rows of the drain order whether or not they
  have an SMS form, and the packer then counts from the lowest `seq` among them.  The trim
  leaves the batch as it was exactly under the row-by-row condition of
  `SmsTrim.TrimKeepsTheBatchIff`; counting from one base, exactly when no trimmed row fits
  beside what the kept ones pack (`SmsTrim.TrimCostsNothingIff`); and with a clock that climbs,
  exactly when besides no kept row was out of reach of the old base
  (`SmsTrim.TrimMovesTheBaseIff`).  `DroppedReport.TrimDropsAReport` is a queue that loses a
  report the batch had room for.
- An old row without an SMS form can block every report of a phone.  `BlockedQueue.BlockedUntil`:
  nothing is packed if and only if fewer CRITICAL rows wait than a pass keeps.  Until then every
  pass raises an exception, whatever else the phone writes (`BlockedQueue.BlockedForAsLong`); 64
  position fixes written offline and then a survivor report are enough
  (`BlockedQueue.FixesThenSurvivor`).
- The backoff delay collapses to zero for a few attempts just below the overflow guard
  (`Backoff.DelayIsDocumentedIff`).
- The carve-out that keeps CRITICAL events with an unknown cell is unreachable, because
  validation bounds the cell first (`Ingestion.UnknownCellNeverRaised`).
- The packer's 31-event limit never applies; the byte budget does at 22
  (`SmsBatchEncoder.BudgetBoundsCount`).
- The assignment folds trust that only the desk writes assignment events; ingestion does
  not enforce it.  Snapshots and whole log agree at every point if and only if no revocation
  is filed under another incident than the last issuance of its id
  (`Scoping.EverySnapshotAgreesIff`); a field device can submit one, and the snapshot then
  still shows who held the cells (`Assignments.FieldRevocationIsLost`).
- `DecodeBatch` raises the encoding exception, not the decoding one, for part numbers
  other than 1/1.
- A reported cell is checked against the largest possible grid, not against the
  incident's own, so coverage counts can exceed the grid: exactly when more cells are
  reported or held than it has (`Coverage.CountsSumToGridIff`), as in
  `Coverage.CountsCanExceedTheGrid`, a log the server stores.

## Model

| member | source | states |
|---|---|---|
| BitIo.BitWriter.constructor | mobile/app/src/main/kotlin/ai/rescuenet/field/codec/BitIo.kt:10-20 | a new writer holds no bits |
| BitIo.BitWriter.Ensure | mobile/app/src/main/kotlin/ai/rescuenet/field/codec/BitIo.kt:55-59 | growing the buffer makes room and keeps every bit written, with zeros beyond the cursor |
| BitIo.BitWriter.Write | mobile/app/src/main/kotlin/ai/rescuenet/field/codec/BitIo.kt:23-38 | a value is refused exactly when it does not fit its width; otherwise the bits held are the old ones followed by its binary numeral; 64-bit fields take the pattern of a signed long |
| BitIo.BitWriter.WriteSigned | mobile/app/src/main/kotlin/ai/rescuenet/field/codec/BitIo.kt:46-53 | refuses exactly the values outside the two's-complement range and appends the complement otherwise |
| BitIo.BitWriter.ToByteArray | mobile/app/src/main/kotlin/ai/rescuenet/field/codec/BitIo.kt:61-62 | the bytes are the bits held, zero-padded to an octet |
| BitIo.BitReader.Read | mobile/app/src/main/kotlin/ai/rescuenet/field/codec/BitIo.kt:71-83 | reads fail exactly when bits run out, leave the cursor alone then, and otherwise consume the field and give its numeral |
| BitIo.BitReader.ReadInt | mobile/app/src/main/kotlin/ai/rescuenet/field/codec/BitIo.kt:85 | narrowing to 32 bits, which is the identity up to 31-bit fields |
| BitIo.BitReader.ReadSigned | mobile/app/src/main/kotlin/ai/rescuenet/field/codec/BitIo.kt:88-95 | sign extension of the field read |
| BitIo.BitReader.RequireOnlyZeroPaddingLeft | mobile/app/src/main/kotlin/ai/rescuenet/field/codec/BitIo.kt:98-106 | accepts exactly fewer than eight remaining bits, all zero |
| BitIo.ListBitWriter.Write | backend/src/rescuenet/codec/bitio.py:19-31 | the server's list of bits grows by the same numeral, refusing the same values |
| BitIo.ListBitWriter.WriteSigned | backend/src/rescuenet/codec/bitio.py:33-38 | two's complement on the list of bits |
| BitIo.ListBitWriter.ToBytes | backend/src/rescuenet/codec/bitio.py:44-50 | setting bits in a byte array one by one gives the same padded bytes as the phone's buffer |
| SmsCodec.WriteHeader | mobile/app/src/main/kotlin/ai/rescuenet/field/codec/SmsCodec.kt:75-85 | the nine header fields in order, in front of nothing else |
| SmsCodec.WriteEvent | mobile/app/src/main/kotlin/ai/rescuenet/field/codec/SmsCodec.kt:87-123 | an event is refused exactly when its validator refuses it; otherwise its layout is appended, presence mask and optional fields included |
| SmsCodec.EncodePayload | mobile/app/src/main/kotlin/ai/rescuenet/field/codec/SmsCodec.kt:30-46 | succeeds exactly on a valid header and strictly climbing valid events, and gives the packed header and events, laid out bit by bit as the format prints them: the bytes the MAC covers |
| SmsCodec.EncodeBatch | mobile/app/src/main/kotlin/ai/rescuenet/field/codec/SmsCodec.kt:49-73 | a wrong-sized MAC is an argument error; otherwise a valid batch within 120 bytes gives its blob, laid out bit by bit, and everything else an encoding error |
| SmsCodec.DecodeBatch | mobile/app/src/main/kotlin/ai/rescuenet/field/codec/SmsCodec.kt:128-151 | decoding is the parse of the bit string: same value or same exception, with bad part numbers raising the encoding exception |
| SmsCodec.DecodePayload | mobile/app/src/main/kotlin/ai/rescuenet/field/codec/SmsCodec.kt:157-170 | the same for header and events alone |
| SmsCodec.ReadHeader | mobile/app/src/main/kotlin/ai/rescuenet/field/codec/SmsCodec.kt:172-189 | header parse, with protocol version and zero count refused |
| SmsCodec.ReadEvent | mobile/app/src/main/kotlin/ai/rescuenet/field/codec/SmsCodec.kt:191-231 | event parse, with the mask deciding which optional fields are present |
| WireParse.DecodesIffEncodes | mobile/app/src/main/kotlin/ai/rescuenet/field/codec/SmsCodec.kt:49-231 | the codec is a bijection: bytes decode to a batch if and only if the batch is valid, of protocol 1 and within budget, and the bytes are its encoding |
| WireParse.EncodeThenDecode | mobile/app/src/main/kotlin/ai/rescuenet/field/codec/SmsCodec.kt:49-151 | every transportable batch survives encoding and decoding |
| WireParse.DecodeThenEncode | mobile/app/src/main/kotlin/ai/rescuenet/field/codec/SmsCodec.kt:128-231 | every accepted byte string is canonical: it re-encodes to itself, padding included |
| WireParse.PayloadEncodeThenDecode | mobile/app/src/main/kotlin/ai/rescuenet/field/codec/SmsCodec.kt:30-170 | the MAC'd bytes decode to the header and events they were made from |
| Wire.ValidEventsIff | mobile/app/src/main/kotlin/ai/rescuenet/field/codec/SmsCodec.kt:297-338 | the phone's range checks are exactly the field widths, the climbing deltas and the reserved cell 8191 |
| Wire.ValidHeaderIff | mobile/app/src/main/kotlin/ai/rescuenet/field/codec/SmsCodec.kt:277-295 | the phone's header checks are exactly the field widths, a count of at least one and the right count |
| Wire.EventsSizeExact | mobile/app/src/main/kotlin/ai/rescuenet/field/codec/SmsCodec.kt:236-249 | predicted event sizes add up to the bits written; the server predicts with the same table |
| Wire.BatchSizeExact | mobile/app/src/main/kotlin/ai/rescuenet/field/codec/SmsCodec.kt:236-251 | the predicted batch size is the length of the blob, so the budget test and the encoder agree |
| WireLayout.PayloadIsLaidOut | mobile/app/src/main/kotlin/ai/rescuenet/field/codec/SmsCodec.kt:75-123 | every bit slice of header and events by number: nine header fields in 89 bits, events of 48, 48, 35 or 57 bits and up, type codes 7, 8, 9 and 11, the codes of every status, triage and mask bit, signed fields in two's complement, zero padding |
| WireLayout.BatchIsLaidOut | mobile/app/src/main/kotlin/ai/rescuenet/field/codec/SmsCodec.kt:49-73 | the whole message: 68 bits of framing in front of that |
| WireLayout.EventsAcceptedIff | mobile/app/src/main/kotlin/ai/rescuenet/field/codec/SmsCodec.kt:297-338 | events are encoded exactly when every field is in its printed range and the deltas climb |
| WireLayout.BatchAcceptedIff | mobile/app/src/main/kotlin/ai/rescuenet/field/codec/WireLimits.kt:65-96 | a message can be sent exactly when its fields are in range, its events climb and are counted right, it is part 1 of 1 of protocol 1, and 157 bits and its events fit 960 |
| WireLayout.SizesAgree | mobile/app/src/main/kotlin/ai/rescuenet/field/codec/SmsCodec.kt:236-249 | the table of predicted sizes is the printed one |
| WireLayout.DecodeErrorExact | mobile/app/src/main/kotlin/ai/rescuenet/field/codec/SmsCodec.kt:128-189 | a message is refused with the encoding exception exactly when its framing is complete and says anything but part 1 of 1; every other refusal raises the decoding exception |
| BackendWire.PackHeader | backend/src/rescuenet/codec/wire.py:83-93 | the server writes the header layout, refusing exactly what overflows a field |
| BackendWire.PackEvent | backend/src/rescuenet/codec/wire.py:103-144 | the server writes the event layout for the four types that have one |
| BackendWire.EncodePayload | backend/src/rescuenet/codec/wire.py:166-185 | accepts exactly a matching count, fitting fields, eligible types and climbing deltas, and gives the packed header and events |
| BackendWire.PhoneAcceptsIffServerDoes | mobile/app/src/main/kotlin/ai/rescuenet/field/codec/SmsCodec.kt:277-338 | the phone accepts exactly what the server accepts minus empty batches and the reserved cell |
| BackendWire.EncodeOnBothSides | mobile/app/src/main/kotlin/ai/rescuenet/field/codec/SmsCodec.kt:30-46 | on every batch the phone accepts both implementations give the same bytes |
| Sorting.SortIgnoresOrder | backend/src/rescuenet/projections/folds.py:29-39 | a sort by a key without ties gives one result for every arrangement of its input |
| Sorting.SortRecovers | backend/src/rescuenet/services/batch_mac.py:118-124 | sorting any arrangement of an ascending list recovers the list |
| SmsBatchEncoder.SelectRows | mobile/app/src/main/kotlin/ai/rescuenet/field/codec/SmsBatchEncoder.kt:94-117 | the loop with its running bit count makes the greedy selection |
| SmsBatchEncoder.SelectWellChosen | mobile/app/src/main/kotlin/ai/rescuenet/field/codec/SmsBatchEncoder.kt:94-117 | included and excluded rows partition the candidates; the budget holds; a row left out for space still would not fit at the end; the count limit is never the reason |
| SmsBatchEncoder.SelectKeepsOrder | mobile/app/src/main/kotlin/ai/rescuenet/field/codec/SmsBatchEncoder.kt:86-117 | included rows keep the candidates' order |
| SmsBatchEncoder.IncludedAscend | mobile/app/src/main/kotlin/ai/rescuenet/field/codec/SmsBatchEncoder.kt:83-117 | included rows ascend by seq and are the given rows' own events from the local log |
| SmsBatchEncoder.FormExact | mobile/app/src/main/kotlin/ai/rescuenet/field/codec/SmsBatchEncoder.kt:86-108 | an event has a form exactly within 63 seqs and 4095 seconds of the first, the start clamped to the incident's, and the form holds its own differences, responder and payload |
| SmsBatchEncoder.MessageExact | mobile/app/src/main/kotlin/ai/rescuenet/field/codec/SmsBatchEncoder.kt:86-136 | header fields from the first row, event fields from the included rows |
| Domain.SecondsExact | mobile/app/src/main/kotlin/ai/rescuenet/field/codec/SmsBatchEncoder.kt:89 | milliseconds to whole seconds, cut off toward zero |
| SmsBatchEncoder.BudgetBoundsCount | mobile/app/src/main/kotlin/ai/rescuenet/field/codec/SmsBatchEncoder.kt:95-98 | no batch in budget has more than 22 events, so the 5-bit count never binds |
| SmsBatchEncoder.PackRows | mobile/app/src/main/kotlin/ai/rescuenet/field/codec/SmsBatchEncoder.kt:75-136 | succeeds exactly on the listed conditions; the blob is within 120 bytes and decodes to the chosen events under the device's MAC; the reported rows are those chosen and left out |
| SmsBatchEncoder.NoBatchOutgrowsFit | mobile/app/src/main/kotlin/ai/rescuenet/field/codec/SmsBatchEncoder.kt:60-66 | no batch in budget is longer than what the trim keeps |
| SmsTrim.FitKeepsFirst | mobile/app/src/main/kotlin/ai/rescuenet/field/codec/SmsBatchEncoder.kt:60-66 | at the SMS budget the trim keeps the first 22 rows of the drain order |
| SmsTrim.SelectNonEmptyIff | mobile/app/src/main/kotlin/ai/rescuenet/field/codec/SmsBatchEncoder.kt:99-119 | the greedy pass packs something if and only if some loaded row can be represented from the base |
| SmsTrim.PackedExact | mobile/app/src/main/kotlin/ai/rescuenet/field/codec/SmsBatchEncoder.kt:99-117 | a row is packed exactly when it has a form and fits the 960 bits behind 157 of overhead and the events packed before its turn |
| SmsTrim.TrimmedQueuePacksIff | mobile/app/src/main/kotlin/ai/rescuenet/field/codec/SmsBatchEncoder.kt:60-119 | a trimmed queue gives a non-empty selection if and only if one of its first 22 loaded rows can be represented from the base of those 22 |
| SmsTrim.NothingPackable | mobile/app/src/main/kotlin/ai/rescuenet/field/codec/SmsBatchEncoder.kt:60-119 | when none of them can, packing fails whatever follows in the queue |
| SmsTrim.TrimPicks | mobile/app/src/main/kotlin/ai/rescuenet/field/codec/SmsBatchEncoder.kt:60-86 | the kept rows in seq order are the trimmed drain order picked out of all rows in seq order |
| SmsTrim.SameBatchIff | mobile/app/src/main/kotlin/ai/rescuenet/field/codec/SmsBatchEncoder.kt:94-117 | picking rows and moving the base leaves the batch as it was if and only if at every turn both passes decide alike, judged by what the picked rows have packed by then |
| SmsTrim.TrimKeepsTheBatchIff | mobile/app/src/main/kotlin/ai/rescuenet/field/codec/SmsBatchEncoder.kt:60-117 | the trim leaves the batch as it was if and only if each row, at its place in seq order, fits from the base of all rows exactly when it is kept and fits from the base of the kept rows |
| SmsTrim.TrimLosesNothingIff | mobile/app/src/main/kotlin/ai/rescuenet/field/codec/SmsBatchEncoder.kt:60-117 | the trim loses no report if and only if every row the whole queue takes at its turn is kept and taken by the trimmed queue at its turn |
| SmsTrim.TrimCostsNothingIff | mobile/app/src/main/kotlin/ai/rescuenet/field/codec/SmsBatchEncoder.kt:60-117 | from one base the trim costs nothing if and only if no trimmed row fits, at its place in seq order, beside what the kept rows pack by then; equivalently, all that the whole queue packs was kept |
| SmsTrim.LaterBaseIff | mobile/app/src/main/kotlin/ai/rescuenet/field/codec/SmsBatchEncoder.kt:87-108 | with a later base a form is never lost, and gained exactly by what was out of reach of the earlier one |
| SmsTrim.TrimMovesTheBaseIff | mobile/app/src/main/kotlin/ai/rescuenet/field/codec/SmsBatchEncoder.kt:60-117 | with a climbing clock, also where the trim drops the lowest seq: same batch if and only if no trimmed row fits from the old base and no kept row that fits from the new one was out of reach of the old |
| DroppedReport.QueuedIsNextBatch | mobile/app/src/main/kotlin/ai/rescuenet/field/store/Daos.kt:101-107 | 21 position fixes, a team status and a newest survivor report: the select with its default limit returns all 23, the survivor report first |
| DroppedReport.TrimDropsAReport | mobile/app/src/main/kotlin/ai/rescuenet/field/codec/SmsBatchEncoder.kt:60-66 | that queue: the trim drops the team status from the middle of the seq order although more than 700 bits stay free; untrimmed, both reports are packed from the same base |
| BlockedQueue.OldRowBlocksSurvivor | mobile/app/src/main/kotlin/ai/rescuenet/field/codec/SmsBatchEncoder.kt:86-119 | any list of waiting rows of a blocked phone that holds the blocking row packs to nothing |
| BlockedQueue.BlockedUntil | mobile/app/src/main/kotlin/ai/rescuenet/field/codec/SmsBatchEncoder.kt:60-119 | a blocked phone packs nothing if and only if fewer CRITICAL rows wait than a pass keeps; untrimmed, a list with the blocking row packs nothing whatever waits |
| BlockedQueue.BlockedPassThrows | mobile/app/src/main/kotlin/ai/rescuenet/field/sync/SyncEngine.kt:51-66 | until then a pass over SMS raises an exception when a CRITICAL row waits and SMS is available, finds nothing to do otherwise, and leaves the database as it was |
| BlockedQueue.BlockedForAsLong | mobile/app/src/main/kotlin/ai/rescuenet/field/sync/SyncEngine.kt:40-83 | over every run of writing, restarting and trying with few CRITICAL rows at each try: every try does so, and the phone stays blocked |
| BlockedQueue.FixesThenSurvivor | mobile/app/src/main/kotlin/ai/rescuenet/field/codec/SmsBatchEncoder.kt:86-119 | a new phone that wrote 64 or more position fixes and then a survivor report is blocked: the report is due, and a pass over SMS raises an exception |
| BatchMac.VerifyGatewayBatch | backend/src/rescuenet/services/batch_mac.py:90-162 | a gateway batch passes exactly when origin, secret and incident are known and the tag of the rebuilt bytes is the presented one |
| BatchMac.Rebuild | backend/src/rescuenet/services/batch_mac.py:118-152 | the loop rebuilds header and deltas from the lowest seq on and packs them again |
| BatchMac.RebuiltIffFirstIsBase | backend/src/rescuenet/services/batch_mac.py:118-152 | for every payload a device can send, in any relayed order, the rebuilt bytes equal the device's if and only if the first packed event has both deltas zero |
| BatchMac.FirstDeltasZero | mobile/app/src/main/kotlin/ai/rescuenet/field/codec/SmsBatchEncoder.kt:86-117 | that holds if and only if the lowest-seq loaded event was included, which is if and only if it has an SMS layout and does not predate the incident |
| BatchMac.ServerRebuildsMacInputIff | backend/src/rescuenet/services/batch_mac.py:118-159 | for a batch packed from one device's rows the server rebuilds the MAC input if and only if the lowest-seq loaded event can be packed |
| BatchMac.RelayedEventsAreTheIncluded | mobile/app/src/main/kotlin/ai/rescuenet/field/codec/SmsBatchEncoder.kt:94-123 | what is relayed are the included events' own values under the first event's attribution |
| BatchMac.PackRelayVerify | backend/src/rescuenet/services/batch_mac.py:90-162 | pack, decode, relay and verify, run on the methods: under that condition the batch is verified |
| BatchMac.PositionFixFirstBreaksTheMac | mobile/app/src/main/kotlin/ai/rescuenet/field/codec/SmsBatchEncoder.kt:86-89 | a concrete queue, a position fix before a status report, whose MAC input the server cannot rebuild |
| Ingestion.Server.AppendEvent | backend/src/rescuenet/store/events.py:79-106 | inserts, or returns the position of the row already there; a conflict burns an identity value |
| EventStore.AppendKeepsOrder | backend/src/rescuenet/store/events.py:90-106 | an insert at or above the device's maximum keeps one row per identity, climbing positions and climbing seq per device |
| EventStore.FindUnique | backend/src/rescuenet/store/events.py:99-106 | the row returned for an identity is the only one |
| EventStore.AppendReports | backend/src/rescuenet/store/events.py:90-106 | a new identity is stored under the next position; a known one is answered with the position of the row that has it; an identity value is drawn either way |
| EventStore.AuthoredFields | backend/src/rescuenet/services/server_events.py:37-64 | device 0, schema 1, the next seq of device 0 from 1, and the commander's own values |
| EventStore.AuthorInserts | backend/src/rescuenet/services/server_events.py:27-64 | a server-authored event is always new and keeps the log in order |
| Ingestion.Server.AuthorEvent | backend/src/rescuenet/services/server_events.py:37-64 | writes the next event of device 0, or nothing when it is not canonical |
| Ingestion.Server.IngestBatch | backend/src/rescuenet/services/ingestion.py:38-111 | the loop with its cache of highest seqs gives the log and the verdict lists of cacheless, event-by-event judgement |
| Ingestion.AcceptedIff | backend/src/rescuenet/services/ingestion.py:55-105 | exact acceptance: eligible, and at least the stored maximum and every earlier eligible seq of its device |
| Ingestion.VerdictExact | backend/src/rescuenet/services/ingestion.py:55-105 | the verdict of every event of a batch: malformed, unknown schema, invalid, foreign device, foreign incident in that order, and past these only a higher seq of its device already held |
| Ingestion.AddedRowsInScope | backend/src/rescuenet/services/ingestion.py:76-101 | every row added is a submitted valid event of the caller's own device, if it is a phone, and own incident, if it has one |
| Ingestion.FirstEventAcceptedIff | backend/src/rescuenet/services/ingestion.py:55-105 | a first event from an unbounded caller is accepted exactly when every field, per type, is in range and names its subject |
| Ingestion.IngestConcat | backend/src/rescuenet/services/ingestion.py:53-105 | one batch or two: same log, concatenated verdicts |
| Ingestion.RejectedEventsAreInert | backend/src/rescuenet/services/ingestion.py:55-105 | deleting the rejected events changes neither log nor acceptances |
| Ingestion.IngestKeepsOrder | backend/src/rescuenet/services/ingestion.py:90-101 | ingestion only appends, and raises each maximum to what was submitted |
| Ingestion.RunKeepsOrder | backend/src/rescuenet/services/ingestion.py:90-101 | over every run of ingestion, authoring and rollback: one row per identity, and per device ascending position is ascending seq |
| Ingestion.ReplayAddsNothing | backend/src/rescuenet/services/ingestion.py:55-105 | a request processed once adds no row when submitted again, after anything else |
| Ingestion.StorableIff | backend/src/rescuenet/services/ingestion.py:90-98 | an event not yet stored can still be stored by some run if and only if its seq is above its device's maximum |
| Ingestion.NeverStored | backend/src/rescuenet/services/ingestion.py:90-98 | below the maximum no run ever stores it |
| Ingestion.UnknownCellNeverRaised | backend/src/rescuenet/services/ingestion.py:66-74 | no verdict is UNKNOWN_CELL, so the branch and its CRITICAL exception are unreachable, and none is transient |
| FieldStore.FieldDatabase.Append | mobile/app/src/main/kotlin/ai/rescuenet/field/store/LocalEventStore.kt:43-99 | counter, event and outbox row change together or not at all |
| FieldStore.FieldDatabase.MarkBatchInFlight | mobile/app/src/main/kotlin/ai/rescuenet/field/sync/OutboxEngine.kt:58-61 | guarded update row by row; the count is the growth of the in-flight set |
| FieldStore.FieldDatabase.ApplyRequestFailure | mobile/app/src/main/kotlin/ai/rescuenet/field/sync/OutboxEngine.kt:76-89 | every in-flight row of the batch waits again, none is rejected; the count is what left flight |
| FieldStore.FieldDatabase.ApplyVerdict | mobile/app/src/main/kotlin/ai/rescuenet/field/sync/OutboxEngine.kt:115-143 | acceptances, then refusals; the three counts are exactly the rows that left flight |
| FieldStore.FieldDatabase.RecoverAfterRestart | mobile/app/src/main/kotlin/ai/rescuenet/field/sync/OutboxEngine.kt:48 | all in-flight rows and only those wait again, attempts and times as persisted |
| FieldStore.FieldDatabase.ApplyDeltaPage | mobile/app/src/main/kotlin/ai/rescuenet/field/sync/DeltaApplier.kt:53-63 | page and watermark in one commit; the count is the events that were new |
| FieldStore.FieldDatabase.NextSendable | mobile/app/src/main/kotlin/ai/rescuenet/field/store/Daos.kt:101-107 | at most limit rows, all pending and due, distinct, in drain order, and nothing left out drains before them |
| FieldStore.AuthoredEntry | mobile/app/src/main/kotlin/ai/rescuenet/field/store/LocalEventStore.kt:43-99 | what authoring adds: counter, event and a fresh waiting row of its tier, the first seq being 1; nothing when the identity is taken |
| FieldStore.RowTransitions | mobile/app/src/main/kotlin/ai/rescuenet/field/store/Daos.kt:109-148 | each guarded transition, column by column, and nothing when the guard fails |
| FieldStore.ReclaimAndPruneExact | mobile/app/src/main/kotlin/ai/rescuenet/field/store/Daos.kt:86-161 | a restart returns exactly the in-flight rows with attempts and times; pruning removes exactly the ACKED rows |
| FieldStore.PageExact | mobile/app/src/main/kotlin/ai/rescuenet/field/sync/DeltaApplier.kt:53-63 | a page adds each unknown event once with its position, changes no known one, and never moves the watermark back |
| FieldStore.CriticalGoesFirst | mobile/app/src/main/kotlin/ai/rescuenet/field/store/Daos.kt:93-107 | a waiting CRITICAL row is in every batch that holds a ROUTINE row, and before it |
| FieldStore.NextBatchUnique | mobile/app/src/main/kotlin/ai/rescuenet/field/store/Daos.kt:101-107 | on a phone of one device the select determines its answer |
| OutboxEngine.FailAllReturns | mobile/app/src/main/kotlin/ai/rescuenet/field/sync/OutboxEngine.kt:76-89 | after a failed request each in-flight row of the batch waits with one attempt more and its own drawn time; every other row is as before |
| OutboxEngine.SettleDecides | mobile/app/src/main/kotlin/ai/rescuenet/field/sync/OutboxEngine.kt:115-143 | what a verdict makes of an in-flight row: ACKED, waiting, REJECTED or untouched, by the lists and the flag alone |
| OutboxEngine.SettleLeavesSettled | mobile/app/src/main/kotlin/ai/rescuenet/field/sync/OutboxEngine.kt:106-109 | a late or repeated verdict changes no settled row |
| OutboxEngine.WaitIsDocumented | mobile/app/src/main/kotlin/ai/rescuenet/field/sync/OutboxEngine.kt:129-134 | the time drawn is the documented delay for the row's own priority and attempts, a fifth either way, now itself in the collapsed band, and the first ROUTINE delay for a row outside the batch |
| OutboxEngine.NextTimeExact | mobile/app/src/main/kotlin/ai/rescuenet/field/sync/OutboxEngine.kt:76-143 | and from its own random draw, exactly |
| Transport.SelectTransport | mobile/app/src/main/kotlin/ai/rescuenet/field/transport/TransportSelector.kt:22-51 | the first available free and fast transport if there is one, otherwise the first of the highest-ranked available ones that a ROUTINE batch may use; none exactly when none is usable |
| Transport.RankOrder | mobile/app/src/main/kotlin/ai/rescuenet/field/transport/TransportSelector.kt:41-51 | free before metered; then one step of latency weighs as much as a downlink |
| Transport.UsableIff | mobile/app/src/main/kotlin/ai/rescuenet/field/transport/TransportSelector.kt:30-38 | a ROUTINE batch may use any available transport that is not both metered and very slow, a CRITICAL one any |
| SyncProtocol.NextKeepsInv | mobile/app/src/main/kotlin/ai/rescuenet/field/sync/SyncEngine.kt:51-83 | each of the thirteen steps keeps the system invariant, messages being lost, late or repeated |
| SyncProtocol.ReachableOk | mobile/app/src/main/kotlin/ai/rescuenet/field/sync/SyncEngine.kt:40-83 | so every reachable state satisfies it |
| SyncProtocol.AuthoredPhoneOk | mobile/app/src/main/kotlin/ai/rescuenet/field/store/LocalEventStore.kt:43-99 | the counter is above every own seq, so authoring never collides |
| SyncProtocol.IngestGrows | backend/src/rescuenet/services/ingestion.py:55-105 | new rows come after every drawn position and are eligible events of the batch |
| SyncSafety.EveryRunIsSafe | mobile/app/src/main/kotlin/ai/rescuenet/field/store/Daos.kt:86-161 | in every run, gateway relays included: an ACKED row's event is on the server; every own event is queued or on the server; the server has nothing of a device it did not author; everything at or below the watermark is local; content is identical, or the same report up to whole seconds and attribution for an event that was ever relayed |
| SyncSafety.NothingRelayed | mobile/app/src/main/kotlin/ai/rescuenet/field/transport/SmsTransport.kt:56-79 | in a run without SMS nothing counts as relayed, so there content is identical |
| SyncSafety.LogsAgree | backend/src/rescuenet/store/events.py:90-106 | two phones that know an identity agree on the report, and on the whole event if it was never relayed |
| SyncSafety.RejectedIsFinal | mobile/app/src/main/kotlin/ai/rescuenet/field/store/Daos.kt:114-161 | no step changes or removes a REJECTED row |
| SyncSafety.RejectedForever | mobile/app/src/main/kotlin/ai/rescuenet/field/store/Daos.kt:114-161 | over every run |
| SyncSafety.AckedIsFinal | mobile/app/src/main/kotlin/ai/rescuenet/field/store/Daos.kt:86-161 | ACKED is left only by pruning, and a pruned row never returns |
| SyncSafety.DeliveredForever | mobile/app/src/main/kotlin/ai/rescuenet/field/store/Daos.kt:86-161 | over every run |
| SyncSafety.AttemptsCountFailures | mobile/app/src/main/kotlin/ai/rescuenet/field/store/Daos.kt:128-161 | the attempt count is the number of failed deliveries; restarts consume none |
| SyncSafety.DeliverableIff | mobile/app/src/main/kotlin/ai/rescuenet/field/store/Daos.kt:101-107 | a queued event the server lacks can still reach it by some continuation if and only if its seq is above everything the server has from its device |
| SyncSafety.ServerPartIsARun | backend/src/rescuenet/services/ingestion.py:38-111 | the server's part of any run is a run of ingestion and authoring |
| SyncSafety.CrashExact | mobile/app/src/main/kotlin/ai/rescuenet/field/sync/SyncEngine.kt:35-43 | a restart leaves nothing in flight, keeps attempts, times and tiers, and changes nothing else |
| SyncSafety.PruneExact | mobile/app/src/main/kotlin/ai/rescuenet/field/store/Daos.kt:75-87 | pruning drops the acknowledged rows, no event and nothing else |
| SyncSafety.FetchThenPage | mobile/app/src/main/kotlin/ai/rescuenet/field/sync/DeltaApplier.kt:53-63 | a page fetched and applied without delay brings every row between the old watermark and the new |
| SyncSafety.IngestStepInScope | backend/src/rescuenet/services/ingestion.py:76-88 | a phone's request adds rows of that phone alone, and of the incident it is bound to |
| SyncSafety.RelayedReportArrives | backend/src/rescuenet/services/ingestion.py:76-101 | a report relayed by SMS is stored under its author's identity, though another device submits it |
| BackoffRuns.RunKeepsSchedule | mobile/app/src/main/kotlin/ai/rescuenet/field/store/Daos.kt:123-161 | over every run the time persisted with a row is the one the policy drew at its last failed delivery |
| BackoffRuns.BackoffOverRuns | mobile/app/src/main/kotlin/ai/rescuenet/field/sync/BackoffPolicy.kt:53-72 | in every run a waiting row with n > 0 failed deliveries is not sendable before four fifths of the documented delay for attempt n - 1 after the last of them and is sendable after six fifths; in the collapsed band at once |
| SyncEngine.Choose | mobile/app/src/main/kotlin/ai/rescuenet/field/sync/SyncEngine.kt:51-64 | what a pass decides: the select, the transport for the priority of its rows, and the encoder's trim; idle when any gives nothing |
| SyncEngine.FitExact | mobile/app/src/main/kotlin/ai/rescuenet/field/sync/JsonBatchCodec.kt:41-47 | how many rows each encoder keeps, for every byte budget |
| SyncEngine.RefusalOnTheWire | backend/src/rescuenet/services/ingestion.py:66-101 | the name of every refusal in a reply, and that only an outage is retryable |
| SyncEngine.DrainOnce | mobile/app/src/main/kotlin/ai/rescuenet/field/sync/SyncEngine.kt:51-83 | one pass leaves the database as marked and answered, with times from the policy, or untouched when there is nothing to send, no transport or an encoder exception; its counts are what left flight |
| SyncEngine.BatchIsSelected | mobile/app/src/main/kotlin/ai/rescuenet/field/sync/SyncEngine.kt:51-64 | every batch is pending and distinct, and over a metered and very slow link it starts with a CRITICAL row |
| SyncEngine.FailedPassReturnsAll | mobile/app/src/main/kotlin/ai/rescuenet/field/sync/SyncEngine.kt:66-75 | after a failed request every row of the batch, packed or left out, waits with one attempt more and the drawn time |
| SyncEngine.FateOfSentRow | mobile/app/src/main/kotlin/ai/rescuenet/field/sync/OutboxEngine.kt:115-143 | after an evaluated pass a row is ACKED if accepted, waiting or REJECTED as a refusal's flag says, and in flight if not mentioned |
| SyncEngine.LossFreePassSettles | mobile/app/src/main/kotlin/ai/rescuenet/field/sync/SyncEngine.kt:51-83 | against the server, without loss: a row of the batch ends ACKED exactly when eligible and not below the server's maximum nor an earlier eligible seq of the batch, and REJECTED otherwise |
| SyncEngine.ReturnedRowWaits | mobile/app/src/main/kotlin/ai/rescuenet/field/sync/OutboxEngine.kt:76-143 | whichever way a row of the batch goes back to waiting, it waits the documented delay for its attempts, a fifth either way, or not at all in the collapsed band |
| SyncEngine.StrangerWaitsAsNew | mobile/app/src/main/kotlin/ai/rescuenet/field/sync/OutboxEngine.kt:130-134 | a refused row outside the batch waits the first ROUTINE delay, whatever its own priority and attempts |
| SyncEngine.PassIsARun | mobile/app/src/main/kotlin/ai/rescuenet/field/sync/SyncEngine.kt:66-81 | refinement: an evaluated pass with the verdicts of the server is a run of the protocol, on phone and server |
| SyncEngine.FailedPassIsARun | mobile/app/src/main/kotlin/ai/rescuenet/field/sync/SyncEngine.kt:66-75 | refinement: a failed pass is a run of the protocol after which the server may still ingest what was sent |
| SmsUplink.DrainOverSms | mobile/app/src/main/kotlin/ai/rescuenet/field/transport/SmsTransport.kt:56-79 | a pass over SMS: idle, an exception or a message exactly as selection, secret and packing decide; a message starts with a CRITICAL row, and leaves the database as after a failed request |
| SmsUplink.SmsComesLast | mobile/app/src/main/kotlin/ai/rescuenet/field/transport/SmsTransport.kt:36-43 | SMS carries 120 bytes, is for CRITICAL batches alone, and ranks below every transport that is free or faster |
| SmsUplink.PackedComesFromRows | mobile/app/src/main/kotlin/ai/rescuenet/field/codec/SmsBatchEncoder.kt:94-117 | the rows reported included or excluded are rows of the batch |
| SmsUplink.SmsPassReturnsAll | mobile/app/src/main/kotlin/ai/rescuenet/field/transport/SmsTransport.kt:70-78 | after it every row of the batch is pending again, packed or left out, and every other row is as before |
| SmsUplink.RelayedAreReports | mobile/app/src/main/kotlin/ai/rescuenet/field/codec/SmsBatchEncoder.kt:94-123 | every event a gateway relays of a packed batch is the report of one of its rows |
| SmsUplink.SmsPassIsARun | mobile/app/src/main/kotlin/ai/rescuenet/field/transport/SmsTransport.kt:56-79 | refinement: the pass is a run of the protocol with a relay step |
| Queries.Delta | backend/src/rescuenet/services/queries.py:35-84 | both branches give the same page; limits outside 1..1000 are refused |
| Queries.PageIsAWindow | backend/src/rescuenet/services/queries.py:71-84 | a page holds exactly the matching rows between its cursors, and no match lies beyond a last page |
| Queries.PageFields | backend/src/rescuenet/services/queries.py:71-84 | a page climbs, its next cursor is its last position, and it reports the highest position of the table |
| Queries.ReadSinceExact | backend/src/rescuenet/store/events.py:118-127 | exactly the rows above the cursor, in order |
| Queries.MaxServerSeqExact | backend/src/rescuenet/store/events.py:143-148 | the maximum position, attained when there are rows |
| DeltaPull.PageMakesProgress | mobile/app/src/main/kotlin/ai/rescuenet/field/sync/DeltaApplier.kt:53-63 | the next page keeps the coverage and gets strictly closer while there is more |
| DeltaPull.PullAll | mobile/app/src/main/kotlin/ai/rescuenet/field/sync/DeltaApplier.kt:53-63 | against a quiescent server fetching and applying terminates, within one page per missing event, with the whole log held |
| Queries.PagePassesOverIff | backend/src/rescuenet/services/queries.py:71-84 | a filtered page moves its cursor past a row it hides if and only if fewer than limit matches precede that row and one follows |
| DeltaPull.FilteredPageKeepsCoverageIff | backend/src/rescuenet/services/queries.py:35-84 | a law of the endpoint: applying a filtered page keeps coverage if and only if every hidden row it passes over, told by filter, rows and limit, was already local |
| DeltaPull.FilteredPageHidesAReport | backend/src/rescuenet/services/queries.py:35-84 | such a page: a team status of limit one, past a survivor report |
| DeltaPull.SurvivorDrainsFirst | mobile/app/src/main/kotlin/ai/rescuenet/field/store/Daos.kt:101-107 | the select takes the survivor report of that run before the older routine one, both in one batch |
| DeltaPull.CriticalFirstStrandsRoutine | mobile/app/src/main/kotlin/ai/rescuenet/field/store/Daos.kt:101-107 | a concrete loss-free pass with both rows: the survivor report ends ACKED, the routine one REJECTED, and no continuation ever stores it |
| Latest.LastExists | backend/src/rescuenet/projections/folds.py:29-39 | where some event of a kind exists there is exactly one last |
| Folds.OrderedIgnoresArrangement | backend/src/rescuenet/projections/folds.py:29-39 | the canonical order does not depend on the arrangement |
| Folds.OrderedExact | backend/src/rescuenet/projections/folds.py:29-39 | the canonical order is an arrangement: committed events by position, then the others, ties by device and seq |
| Folds.FoldAssignmentState | backend/src/rescuenet/projections/folds.py:113-135 | the loop over two dictionaries is the step-by-step fold |
| Folds.AssignFoldIsLastTouch | backend/src/rescuenet/projections/folds.py:113-135 | per cell the state left by the last issue or revocation touching it, a revocation touching the cells of the issuance it names; no entry for an untouched cell |
| Folds.CellsOfIsLastIssue | backend/src/rescuenet/projections/folds.py:121-134 | the id dictionary remembers the last issuance of each id |
| Folds.FoldCellState | backend/src/rescuenet/projections/folds.py:52-68 | the loops give reports first, then live holders of unreported cells |
| Folds.CellFoldMeaning | backend/src/rescuenet/projections/folds.py:52-68 | a cell shows its last report; failing that ASSIGNED exactly when the last assignment event touching it is an issue; failing that nothing |
| FoldSets.FoldDuplicateSearch | backend/src/rescuenet/projections/folds.py:83-101 | the loop over sets of teams |
| FoldSets.DuplicateFoldMeaning | backend/src/rescuenet/projections/folds.py:83-101 | a cell is flagged exactly when two different teams reported it searched, with exactly those teams |
| FoldSets.FoldResourceStock | backend/src/rescuenet/projections/folds.py:190-200 | the running totals are the sums of signed deltas |
| FoldSets.TotalIgnoresArrangement | backend/src/rescuenet/projections/folds.py:190-200 | totals do not depend on the order of arrival |
| FoldSets.StockOfUnion | backend/src/rescuenet/projections/folds.py:190-200 | stock over a concatenation of logs is the pointwise sum |
| FoldSets.StockAddsOne | backend/src/rescuenet/projections/folds.py:190-200 | each delta adds its quantity to the total of its own team and item and to no other |
| FoldSets.FoldTeamState | backend/src/rescuenet/projections/folds.py:148-166 | the loop with its two branches is the step-by-step fold |
| FoldSets.TeamKnownIff | backend/src/rescuenet/projections/folds.py:148-166 | a team appears exactly when some event registers it or gives its status |
| FoldSets.CallsignFromLastRegistration | backend/src/rescuenet/projections/folds.py:148-166 | callsign and agency come from the last registration |
| FoldSets.StatusFromLastReport | backend/src/rescuenet/projections/folds.py:148-166 | status comes from the last status report |
| FoldSets.TeamSeqFromLastEvent | backend/src/rescuenet/projections/folds.py:148-166 | a team's entry carries the position of the last event about it |
| Projections.FoldTeamPosition | backend/src/rescuenet/projections/folds.py:178-186 | the loop is the step-by-step fold |
| Projections.PositionIsLastReport | backend/src/rescuenet/projections/folds.py:178-186 | a team is where its last position report put it, under that report's position |
| Projections.FoldSurvivorReports | backend/src/rescuenet/projections/folds.py:218-230 | the loop is the step-by-step fold |
| Projections.SurvivorsNeverSuppressed | backend/src/rescuenet/projections/folds.py:218-230 | one record per report, field by field, in log order, none merged or dropped |
| Coverage.CountStates | backend/src/rescuenet/projections/folds.py:255-258 | the nested dictionaries count the cells of each incident by status |
| Coverage.FoldCoverageMetrics | backend/src/rescuenet/projections/folds.py:244-272 | the three loops give each incident with a grid or a touched cell its line |
| Coverage.TotalIsLastGrid | backend/src/rescuenet/projections/folds.py:250-253 | the grid that counts is the last one generated |
| Coverage.CountsExact | backend/src/rescuenet/projections/folds.py:255-272 | each count by itself, on events: cells whose last report says searched, in progress or needs-research, unreported cells held, the last grid, and what is left of it; and which incidents have a line |
| Folds.ShownIffMarked | backend/src/rescuenet/projections/folds.py:52-68 | a cell has a state if and only if it is reported or its last touch is an issuance |
| Coverage.CountsSumToGridIff | backend/src/rescuenet/projections/folds.py:260-271 | the five counts add up to rows x cols if and only if the cells reported or last touched by an issuance are no more than the grid has |
| Coverage.CountsCanExceedTheGrid | backend/src/rescuenet/projections/folds.py:260-271 | a 1 x 1 grid with two reported cells: counts of two against a total of one |
| Coverage.OverfullIsStored | backend/src/rescuenet/services/ingestion.py:66-101 | the server stores that log: the grid is authored and both reports are accepted |
| Coverage.CoverageConserved | backend/src/rescuenet/projections/folds.py:244-272 | when reports and issuances name cells of the grid the counts are conserved and the clamp at zero never fires |
| Projections.FoldAll | backend/src/rescuenet/projections/folds.py:289-300 | all eight projections in one pass |
| Projections.AllIgnoresArrangement | backend/src/rescuenet/projections/folds.py:289-300 | convergence: every arrangement of a log with distinct identities gives the same eight projections |
| Scoping.OrderedOnly | backend/src/rescuenet/services/queries.py:112-114 | selecting an incident before or after ordering is the same |
| Scoping.SnapshotAgreesIff | backend/src/rescuenet/projections/folds.py:113-135 | snapshot and whole log agree on a cell if and only if the last event to reach it is no revocation filed under another incident than the last issuance of its id |
| Scoping.EverySnapshotAgreesIff | backend/src/rescuenet/services/queries.py:112-114 | they agree at every prefix and on every cell if and only if no revocation is so misfiled |
| Scoping.AssignmentsScopedIff | backend/src/rescuenet/services/queries.py:112-114 | folding one incident's events restricts the whole assignment fold if and only if no cell of it was last reached by a misfiled revocation |
| Scoping.CellSnapshotAgreesIff | backend/src/rescuenet/projections/folds.py:52-68 | for cell states the same cell by cell, except where a report hides the assignment or neither view has a holder |
| Scoping.CellsScopedIff | backend/src/rescuenet/services/queries.py:112-114 | and for the incident's cell states as a whole |
| Scoping.DuplicatesScoped | backend/src/rescuenet/services/queries.py:112-114 | duplicate search restricts without condition |
| Scoping.CoverageScopedIff | backend/src/rescuenet/services/queries.py:112-114 | coverage restricts if and only if as many unreported cells are held in the incident's own view as in the whole log |
| Scoping.CoverageScoped | backend/src/rescuenet/services/queries.py:112-114 | in particular where cell states do |
| Projections.SnapshotIsRestriction | backend/src/rescuenet/services/queries.py:97-160 | a snapshot shows what the whole log's projections say of its incident: for assignments and cell states if and only if the incident is clean, for duplicate search always, for coverage if and only if both hold as many unreported cells |
| Assignments.IssueAssignment | backend/src/rescuenet/services/assignments.py:24-64 | refuses the first cell out of range, otherwise authors the issuance under the next id and lists the collisions |
| Assignments.RevokeAssignment | backend/src/rescuenet/services/assignments.py:67-87 | refuses an unknown assignment, otherwise authors the revocation under the incident of its first issuance |
| Assignments.BadCellMeaning | backend/src/rescuenet/services/assignments.py:31-36 | the range check stops exactly when some cell is out of range |
| Assignments.LogIsOrdered | backend/src/rescuenet/services/assignments.py:38 | the table is already in fold order |
| Assignments.CollisionsSurfaceExactly | backend/src/rescuenet/services/assignments.py:38-45 | a collision is listed exactly when the last touch on the cell gave it to another team |
| Assignments.NextIdIsFresh | backend/src/rescuenet/services/assignments.py:15-21 | the next id belongs to no earlier issuance |
| Assignments.NextIdExact | backend/src/rescuenet/services/assignments.py:15-21 | one above the highest id issued, or 1 |
| Assignments.IssuedRow | backend/src/rescuenet/services/assignments.py:47-64 | the row an issuance adds, field by field |
| Assignments.RevokedRow | backend/src/rescuenet/services/assignments.py:67-87 | the row a revocation adds, filed under the incident of the first issuance of the id |
| Assignments.RefusedCell | backend/src/rescuenet/services/assignments.py:31-36 | refused at the first cell outside 0..8190, and the log untouched |
| Assignments.IssueTakesEffect | backend/src/rescuenet/services/assignments.py:47-64 | issuing gives the team every cell asked for and moves nothing else |
| Assignments.RevokeTakesEffect | backend/src/rescuenet/services/assignments.py:80-87 | revoking frees every cell of the issuance, even one issued again since, and moves nothing else |
| Assignments.DeskRunKeepsManaged | backend/src/rescuenet/services/assignments.py:15-87 | over every run of issuing, revoking and traffic without assignment events: ids issued once, revocations after and under the incident of their issuance |
| Assignments.ManagedMeansWellFiled | backend/src/rescuenet/services/assignments.py:67-87 | such a log has no misfiled revocation |
| Assignments.SnapshotsOfEveryRun | backend/src/rescuenet/services/queries.py:97-160 | so in every such run each snapshot restricts the whole |
| Assignments.FieldRevocationIsLost | backend/src/rescuenet/services/ingestion.py:76-101 | ingestion takes a field device's revocation under its own incident; the whole log then frees the cells, the snapshot of their incident does not change, and the two differ |
| Backoff.DelayIsDocumentedIff | mobile/app/src/main/kotlin/ai/rescuenet/field/sync/BackoffPolicy.kt:53-57 | the delay is min(base x 2^attempt, cap) if and only if the attempt is not in the band below 62 where the 64-bit product wraps to zero; there it is zero |
| Backoff.CollapseExact | mobile/app/src/main/kotlin/ai/rescuenet/field/sync/BackoffPolicy.kt:34-57 | the product is a multiple of 2^64 exactly from attempt 59 (60 s), 60 (2 s and 10 s) or 61 (1 s) on |
| Backoff.DelayWithinAFifth | mobile/app/src/main/kotlin/ai/rescuenet/field/sync/BackoffPolicy.kt:60-64 | jitter moves the delay by at most a fifth and never below zero |
| Backoff.NextAttemptWindow | mobile/app/src/main/kotlin/ai/rescuenet/field/sync/BackoffPolicy.kt:53-72 | the next attempt is now plus the documented delay, a fifth either way, or now itself exactly in the collapsed band |
| Backoff.NextAttemptExact | mobile/app/src/main/kotlin/ai/rescuenet/field/sync/BackoffPolicy.kt:34-72 | the exact wait for every link, priority, attempt and draw, from the four printed pairs of base and cap: the documented delay swung by a fifth of the draw and cut off toward zero, or no wait in the printed bands below 62 |
| Grid.ColumnLetters | backend/src/rescuenet/domain/grid.py:163-175 | the loop writes the bijective base-26 numeral; negative columns are refused |
| Grid.ColumnIndex | backend/src/rescuenet/domain/grid.py:178-186 | the loop reads it back; anything but letters is refused |
| Grid.ValueOfLetters | backend/src/rescuenet/domain/grid.py:163-186 | columns to letters and back, for every column |
| Grid.LettersOfValue | backend/src/rescuenet/domain/grid.py:163-186 | letters to columns and back, for every word |
| Grid.LabelRoundTrip | backend/src/rescuenet/domain/grid.py:124-151 | every cell of every grid is found from its own label |
| Grid.LabelCanonicalIff | backend/src/rescuenet/domain/grid.py:124-151 | a label understood is the cell's own exactly when its row number has no leading zero |
| Grid.LabelExact | backend/src/rescuenet/domain/grid.py:124-175 | cells are numbered row by row; the label is the column counted A to Z, AA, AB and the row counted from one |
| Grid.SpelledIsUnderstood | backend/src/rescuenet/domain/grid.py:133-151 | a column's word, a hyphen and a row's number behind any zeros is understood as that cell |
| Grid.UnderstoodIsSpelled | backend/src/rescuenet/domain/grid.py:133-151 | and no other text is |

## Left out

- HTTP routes, authentication, JSON and date parsing, base64url, logging, settings, migrations, MQTT and the dashboard; ingestion starts from candidate events, with whatever is not even the shape of an event as `Garbage`.
- HMAC-SHA256 is any function of secret and bytes to four octets; credentials and incident starts are parameters.
- SQL and Room: tables are sequences and maps, each transaction is one atomic step, writers are serial, and a conflicting insert draws an identity value.  The ordered, limited SELECT is the predicate `FieldStore.NextBatch`, which leaves nothing open on one phone's own rows.
- Free text in payloads (names, notes, reasons), the float fields of incident and grid payloads, `received_via`, server and device clock strings, and `t_srv` in positions: no modelled code computes with them.
- The gateway's own program is not part of this model: relaying a batch is one step of `SyncProtocol`, a batch whose MAC is refused is a request never ingested, and a relayed event keeps identity, payload, responder and whole seconds but takes its batch's attribution, which is what `SyncProtocol.SameReport` compares.
- The transports themselves, the ACK codec, SMS segments and inbound messages: `SyncEngine.DrainOnce` takes as parameters whether the JSON encoder raises an exception and what the transport reports; `SmsUplink.DrainOverSms` runs the SMS packer itself.
- 32-bit overflow of the bit cursor (past 268 million bytes), and signed fields wider than 32 bits, which the wire format does not have.
- 64-bit overflow of the clock plus a delay.
- Backoff.DelayWithinAFifth: jitter is computed over real numbers, so the rounding of a double product is not modelled; the same holds of Backoff.NextAttemptWindow and everything built on it.
- Enrolment, snapshots' presentation order, exports, diagnostics, the snapshot threshold, and geometry of the grid.
- Grid.ColumnIndex: does not strip spaces or fold case, and takes letters to be A to Z and digits 0 to 9, where the source accepts any Unicode letter or digit.
- Rebuilding the local tables after a schema change, and outbox audit columns (messages, batch ids, timestamps of rejection).
