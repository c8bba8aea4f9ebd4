# Verified model of the relay's state machines

The relay is a store-and-forward service between computers and phones. It runs twice: as a Node
process over SQLite, and as a Durable Object over key/value storage. This project models the state
machines both share, and both storage adapters, and proves what they promise over every input and
every run.

Check it with `dafny verify dfyconfig.toml` (Dafny 4.11).

| file | what it models |
|---|---|
| `Lists.dfy`, `Text.dfy`, `Wire.dfy` | array operations, JavaScript strings and their UTF-8 size, envelopes and their validation |
| `RetainedPolicy.dfy` | the latest-revision cache: replacement, group ranks, eviction, as functions |
| `RetainedState.dfy` | the same policy as the loops that run it, and runs of it |
| `RetainedEviction.dfy` | what a replacement leaves, said of visits and rows alone, in closed form |
| `RetainedWorker.dfy`, `RetainedNode.dfy` | its two adapters: chunks under an index, and a table |
| `TaskPolicy.dfy` | the state machine of one durable task job |
| `TaskJobs.dfy` | a room's jobs as an abstract map, runs of it, and the agreement of the two stores |
| `TaskReplies.dfy` | what the replies of either store carry, in terms of the requests made before |
| `TaskNode.dfy` | the indexed SQLite store |
| `TaskRecords.dfy`, `TaskCiphertext.dfy`, `TaskWorker.dfy` | cursor paging, chunked ciphertext, and the scanning store with its alarm deadlines |
| `Wake.dfy` | background wakes, one persisted write or one send at a time, with crashes and purges |
| `WakeOutcomes.dfy` | what is accepted and what a send leaves to do, over whole runs |
| `RoomAlarm.dfy` | the one alarm shared by jobs, configurations, endpoints and wakes |
| `MailboxPolicy.dfy`, `Mailbox.dfy` | the durable mailbox of each store |
| `MailboxReplies.dfy` | what a sender may rely on, with every limit written out |
| `CoolDown.dfy` | the reconnect cool-down registry against an unbounded reference |
| `CoolDownHistory.dfy` | its answers in terms of the strikes and admissions before |
| `SocketDelivery.dfy`, `DeliveryAnswers.dfy` | the ledger of bytes in flight, and what each sender is told |
| `TokenBucket.dfy`, `FallbackOutcome.dfy` | the fallback token buckets and local leases, and what one request does |
| `FrameAdmission.dfy`, `CreditHistory.dfy` | the fixed frame window and the single-use acknowledgement allowances, and which are credited |

`RetainedEviction`, `TaskReplies`, `WakeOutcomes`, `MailboxReplies`, `CoolDownHistory`,
`DeliveryAnswers`, `FallbackOutcome` and `CreditHistory` state what the operations come to without
naming the functions that compute it: limits are numbers, and what happened before is said of the
events of the run.

Functions and lemmas speak about values; the classes and methods are the loops and in-place updates
of the source, each tied to those functions by its `ensures`. Whole-run statements quantify over
sequences of events from the empty state (or, where it says so, from any sound state).

## Conventions

- Time is a parameter of every operation, in milliseconds; runs assume a clock that does not go
  back. An operation reads the clock once, except where two readings matter (a wake request and the
  send that follows it, the endpoint purge and the job maintenance of one alarm).
- SHA-256 is taken to be injective, so a digest is represented by what it digests.
- Storage is a map with atomic transactions and key-ordered listing; one room is modelled at a time,
  except for wakes, whose table holds all rooms.
- The shape of a JSON value that no check accepts is a flag (`wellTyped`, `wellFormed`); everything
  the checks look at is a field.
- Token arithmetic is exact over `real`.

## Where the code and its promises differ

The code is followed in each case.

- `src/relay/README.md:83` says that a full mailbox evicts its oldest rows. The code evicts only
  transient rows, oldest first, and refuses with `full` when the promised rows and the new one do
  not fit (`MailboxPolicy.RetainSubmission`).
- In the Durable Object a full read of a queued job at or after its expiry fails: `getPublic` writes
  the expired copy, which deletes the chunks, and then reads chunks by the cipher field of the row it
  still holds (`src/taskDispatch/worker.js:36-38`). Node answers the expired job
  (`TaskJobs.FirstReadAtExpiry`). With `metadata=1`
  the Durable Object also keeps the `nonce` that Node strips. `TaskJobs.ReadReply` states both, and
  `TaskJobs.BackendsAgree` that these are the only differences.
- An endpoint record refused for capacity leaves the room's alarm at the endpoints' earliest expiry:
  the purge sets it before the refusal and nothing schedules it again
  (`src/relay/endpointRetention.js:17-21`, `src/relay/room.js:275`). `RoomAlarm.Room.HandleEndpointPut`
  says exactly when that loses a deadline, and `RoomAlarm.RefusalLosesDeadline` carries out such a case.
- Deleting a wake row also forgets when the room was last woken (`src/node/store.js:190-192`), so the
  one-minute spacing holds for runs without such an early purge and fails after every one
  (`Wake.ClaimsAndSendsSpaced`, `Wake.EarlyPurgeBreaksSpacing`). The spacing is of the persisted claim
  stamps; a send that waits for its record to be written goes out later than its stamp.
- A retained row that expired but is still stored no longer guards its slot: a lower revision may
  replace it. `RetainedPolicy.EntersIffUnguarded` says exactly what guards a slot, and
  `RetainedState.ExpiredRowLosesItsRevision` is a run that goes back from revision 9 to 1.
- SQLite returns retained rows in no stated order, so ties in the eviction order may break
  differently from the Durable Object; each adapter is proved relative to the order it reads.

## Model

| member | source | states |
|---|---|---|
| RetainedPolicy.EvictionOrderSorted | src/retainedState/policy.js:55-58 | the eviction order covers every group with the rank computed from all its rows; any earlier group goes before a later one: priority 1 only before priority 1, else its phone was seen no later, then its priority number is no smaller, its save no newer, and in a tie it was found first |
| RetainedState.OrderNamesOnce | src/retainedState/policy.js:45-55 | the order names no group twice |
| RetainedPolicy.TrimIsShortestPrefix | src/retainedState/policy.js:32-38 | what eviction leaves is the rows less the groups of one prefix of the order, and every shorter prefix would still be over a bound |
| RetainedPolicy.RetainedWithinBounds | src/retainedState/policy.js:29-40 | after an insertion at most 512 rows and 16 MiB are held, whatever was held before |
| RetainedPolicy.EvictionRespectsRank | src/retainedState/policy.js:33-38 | of two candidates, when one is evicted and the other stays, they are in different groups, a priority-1 group goes only when the survivor is one too, and otherwise the group that goes was seen no later, then has no smaller priority number, then no newer save |
| RetainedPolicy.RetainedStep | src/retainedState/policy.js:20-40 | slots stay unique, nothing expired remains, every row is an old one or the new one, and a live row keeps its slot or gives it to a strictly newer revision |
| RetainedPolicy.NewRowOwnsSlot | src/retainedState/policy.js:27-31 | an inserted row is the only one left in its slot |
| RetainedPolicy.EntersIffUnguarded | src/retainedState/policy.js:21-31 | an admissible row enters if and only if every row stored in its slot has expired or has a strictly lower revision: an expired row guards nothing |
| RetainedState.EvictionGroups | src/retainedState/policy.js:42-59 | the grouping loop and sort compute the reference order, each group with all its rows in order |
| RetainedState.EvictGroups | src/retainedState/policy.js:32-38 | the eviction loop with its running total removes exactly what the reference removes |
| RetainedState.RetainState | src/retainedState/policy.js:20-40 | the imperative algorithm returns the reference result for every input |
| RetainedState.ReachableCache | src/retainedState/policy.js:20-40 | over any run of replacements from the empty room: unique slots, both bounds, true byte sizes |
| RetainedState.RevisionsRise | src/retainedState/policy.js:27-28 | over any stretch of a run in which a slot stays held by unexpired rows, its row changes only to strictly newer revisions |
| RetainedState.ExpiredRowLosesItsRevision | src/retainedState/policy.js:21-31 | a witness of RetainedPolicy.EntersIffUnguarded: a run in which a slot goes back from revision 9 to 1 because its row had expired |
| RetainedState.ReplayExact | src/retainedState/policy.js:61-65 | a recipient gets exactly its own unexpired rows, each as often as stored, ordered by priority number, then revision, then place; anyone without a valid digest gets nothing |
| RetainedEviction.RetainedExactly | src/retainedState/policy.js:20-40 | the whole policy in closed form: a row that may not enter leaves the unexpired rows; one that enters leaves exactly those candidates for which the rows that stay at least as long number at most 512 and weigh at most 16,777,216 bytes |
| RetainedEviction.SurvivesIffRestFits | src/retainedState/policy.js:32-38 | a candidate survives if and only if the candidates that go no sooner than it fit the room |
| RetainedEviction.LeastUrgentStays | src/retainedState/policy.js:55-58 | of an evicted and a surviving row: priority 1 goes only when the survivor is priority 1; else the phone of the group that goes was seen no later, then its priority number is no smaller, its latest save no newer, and in a full tie it comes first; what these are is said of visits and rows |
| RetainedEviction.RankMeans | src/retainedState/policy.js:43-53 | what the loop computes of a group: its first row's phone last seen by the last record of the week (0 without one), the largest nonzero priority number or 2 or 4 for bare grants, and the latest save of its bodies or of all rows |
| RetainedEviction.EntersMeans | src/retainedState/policy.js:9-28 | exactly which envelopes enter: machine to phone, digests, linked or priority 1, within a week, at most 1,800,000 bytes, revision at most five minutes ahead, and newer than every unexpired row of its slot |
| RetainedEviction.CandidatesMean | src/retainedState/policy.js:28-31 | the rows weighed against the bounds: the unexpired rows of the other slots, and last the envelope's own row with its text, true size and time |
| RetainedEviction.GroupsShareRecipientAndLabel | src/retainedState/policy.js:47 | two rows are in one group if and only if they have the same recipient and the same group, or key where there is none |
| RetainedWorker.WorkerRetainedState.ReadRow | src/retainedState/worker.js:35-41 | metadata and chunks read back to the very row that is held, text included, or to nothing when the slot is not held |
| RetainedWorker.WorkerRetainedState.Rows | src/retainedState/worker.js:32-43 | reading the index and all chunks gives back exactly the held rows |
| RetainedWorker.WorkerRetainedState.Remove | src/retainedState/worker.js:27-31 | deletes the metadata key and as many chunk keys as the byte size covers, and no other key |
| RetainedWorker.WorkerRetainedState.Write | src/retainedState/worker.js:14-19 | writes exactly the chunks of the text and their metadata |
| RetainedWorker.RemovingStep | src/retainedState/worker.js:27-31 | ceil(bytes/60000) deletions cover ceil(length/60000) chunks, so no orphan chunk of a removed row survives |
| RetainedWorker.StorageShape | src/retainedState/worker.js:14-19 | storage holds a slot exactly when a row does: the row without its text, and the text in consecutive pieces of at most 60,000 units, as many as the metadata says |
| RetainedWorker.WorkerRetainedState.Put | src/retainedState/worker.js:9-24 | the difference applied to keys leaves storage representing exactly the policy result: no missing and no orphan chunk, index included |
| RetainedWorker.WorkerRetainedState.List | src/retainedState/worker.js:44 | replays the recipient's rows out of storage |
| RetainedWorker.PutAll | src/retainedState/worker.js:9-24 | over a whole run of puts the stored room is the policy run, text for text |
| Text.JoinSlices | src/retainedState/worker.js:15-16 | cutting a text into 60,000-unit slices and joining them gives the text back |
| Text.SizeOfPoints | src/retainedState/policy.js:25 | the size of a text is the sum over its code points of one to four bytes, with three for a surrogate that stands alone |
| RetainedNode.PolicyIgnoresText | src/retainedState/node.js:25-27 | running the policy on rows without their texts keeps the same rows as running it on the full rows |
| RetainedNode.DifferenceApplied | src/retainedState/node.js:31-36 | deleting the dropped rows and inserting the added ones leaves the full policy result, texts included |
| RetainedNode.NodeRetainedState.Put | src/retainedState/node.js:24-39 | the table afterwards holds exactly the rows the policy keeps in the order the database returned them; bounds, sizes and rising revisions hold for every scan order |
| RetainedNode.NodeRetainedState.List | src/retainedState/node.js:41-45 | the recipient's unexpired rows in priority, revision order |
| RetainedNode.NodeRetainedState.Purge | src/retainedState/node.js:46 | exactly the expired rows go, and the table stays unique, bounded and truly sized |
| RetainedNode.ReachableTable | src/retainedState/node.js:19-46 | over any run of puts, each with its own scan order, and purges: every table has unique slots, both bounds and true sizes |
| RetainedNode.TableRevisionsRise | src/retainedState/node.js:19-46 | over any stretch of such a run, a slot held by rows unexpired at each event changes only to strictly newer revisions |
| RetainedNode.RunAll | src/retainedState/node.js:19-46 | every run carried out on the store is such a history |
| RetainedNode.StepKeepsTable | src/retainedState/node.js:19-39 | whatever the order of a scan, one put keeps the table unique, within both bounds, truly sized, and its revisions rising |
| TaskPolicy.NormalizeJob | src/taskDispatch/policy.js:15-35 | whatever is accepted is addressed to this id and room, unexpired, within 30 days and 22,000,000 bytes, with a valid box of matching expiry |
| TaskPolicy.NormalizesExactly | src/taskDispatch/policy.js:15-35 | a request is accepted if and only if every stated condition holds, and the work carries its times, hash, envelope and, as writer, the id with the source key |
| TaskPolicy.JobIdMeans | src/taskDispatch/policy.js:10-13 | a job id is 8 to 120 letters, digits, underscores and hyphens that begin with a letter or digit |
| TaskPolicy.ResultMeans | src/taskDispatch/policy.js:73-81 | a result is accepted only for the writer's own source key, in the job's room, unexpired, within 30 days and 32,000 bytes |
| Wire.EnvelopeMeans | src/relay/relayValidation.js:32-51 | what every accepted envelope satisfies, field by field |
| Wire.RoomMeans | src/relay/relayValidation.js:5-7 | a room is 16 to 64 lower-case hexadecimal digits |
| Wire.BoxMeans | src/relay/relayValidation.js:49-50 | a box is at least 24 characters: base64 digits, then none, one or two padding signs |
| Wire.LastsAtMost | src/relay/relayValidation.js:32-52 | an accepted envelope lasts at most what the caller allows, else a week, 31 days or 25 hours by its kind |
| TaskPolicy.ExpireJob | src/taskDispatch/policy.js:43-46 | a job changes if and only if it is queued and at or past its expiry; it then loses its box and weight, and the job invariant is kept |
| TaskPolicy.ClaimJob | src/taskDispatch/policy.js:48-56 | granted if and only if recipient, token and hash match, the attempt is valid, and the job is queued with the time in [notBefore, expiresAt) or accepted by the same attempt; refused with 403, 400 or 409 by cause; the job then evolves legally and carries the presented claim |
| TaskPolicy.CancelJob | src/taskDispatch/policy.js:58-62 | only queued or failed work is cancelled; cancelling again changes nothing |
| TaskPolicy.FinishJob | src/taskDispatch/policy.js:65-87 | accepted if and only if the proof and the claim match and a valid outcome of an accepted job is reported or repeated; the job then carries exactly the reported state, code and result, and a repeat changes nothing |
| TaskPolicy.FinishRefused | src/taskDispatch/policy.js:65-81 | the status of every refused report by its cause |
| TaskJobs.JobsDescend | src/taskDispatch/policy.js:43-97 | over any stretch of any run a stored job only moves forward, keeps its identity fields and its claim once made, until it is purged, never to return |
| TaskJobs.ReachableStore | src/taskDispatch/node.js:74-140 | in every reachable store of either backend every job satisfies the lifecycle invariant, and at most 100 active jobs, 48,000,000 active bytes and 10,000 receipts are held |
| TaskJobs.PutSound | src/taskDispatch/node.js:78-96 | only an admitting put adds work and only within capacity; a 429 changes nothing but lazy expiry |
| TaskJobs.TransitionSound | src/taskDispatch/node.js:102-110 | claims, outcomes and cancellations never add weight and keep every job sound |
| TaskJobs.PurgeSound | src/taskDispatch/node.js:127-140 | a purge removes exactly the jobs that are not accepted and whose expiry and last update both lie more than 7 days back; the others are kept or marked expired |
| TaskJobs.CreatedOnce | src/taskDispatch/node.js:78-96 | over any run, the same work under one id is answered 201 at most once, even after its receipt was purged |
| TaskJobs.GrantedToOneReceiver | src/taskDispatch/policy.js:48-56 | over any run, the same work is granted to at most one receiver attempt |
| TaskJobs.RetryIsIdempotent | src/taskDispatch/node.js:84-86 | while its receipt is kept, repeating the same request is answered 200 and changes nothing |
| TaskReplies.ReportLasts | src/taskDispatch/policy.js:65-87 | over any run on either store: once a report on an accepted job is answered 200, every later reply about that work carries the reported state and its time, result code and result envelope, or Cancelled with the result of a failed job |
| TaskReplies.RequestLasts | src/taskDispatch/policy.js:37-41 | over any run on either store: the 201 and every later reply about the same work carry the request's id, times, writer, addressing and the time of the 201; a full read of retained work carries the whole envelope and no other reply a box |
| TaskReplies.ReplyTells | src/taskDispatch/policy.js:37-41 | every reply with a job shows, field by field, the stored job as it is after the request, with as much of its envelope as that request discloses |
| TaskReplies.PutAnswers | src/taskDispatch/node.js:78-96 | the status of every request for work; new work is refused with 429 if and only if 10,000 receipts or 100 active jobs are held or 48,000,000 active bytes would be exceeded |
| TaskReplies.ChangeHasCause | src/taskDispatch/policy.js:43-87 | a job's state changes only by the claim, report or cancellation asked of it, or by expiring while queued |
| TaskReplies.OfferMeans | src/taskDispatch/node.js:59-67 | an offer is empty if and only if nothing waits for the recipient; else it is one waiting job with its original box, first by notBefore, then by creation |
| TaskReplies.UnknownJob | src/taskDispatch/node.js:102-104 | a request about a job is answered 404 if and only if no such job is held |
| TaskReplies.ReadAnswered | src/taskDispatch/worker.js:33-39 | every read of a held job is answered, but for the Durable Object's full read that finds it expired |
| TaskJobs.BackendsAgreeStep | src/taskDispatch/worker.js:33-81 | one event leaves the two backends equal up to lazy expiry, and answered alike exactly unless it is one of the reads named by ReadsDiffer |
| TaskJobs.BackendsAgree | src/taskDispatch/worker.js:20-93 | over any run both backends stay equal up to lazy expiry and answer alike if and only if the event is neither a metadata read of a job that still has its nonce nor the full read that first finds a job expired |
| TaskJobs.FirstReadAtExpiry | src/taskDispatch/worker.js:33-39 | whatever work is stored in an empty room, its first full read at its expiry fails in the Durable Object and is answered by Node |
| TaskJobs.BackendsDifferSomewhere | src/taskDispatch/worker.js:33-39 | such work exists: the two backends do differ on a reachable store |
| TaskNode.NodeTaskDispatchStore.Save | src/taskDispatch/node.js:117-123 | the indexed columns stay equal to the record |
| TaskNode.NodeTaskDispatchStore.ExpireQueued | src/taskDispatch/node.js:69-72 | the rows the index finds are exactly the jobs that expire |
| TaskNode.NodeTaskDispatchStore.ActiveTotals | src/taskDispatch/node.js:89-90 | the SQL count and sum equal the number and weight of active jobs |
| TaskNode.NodeTaskDispatchStore.Put | src/taskDispatch/node.js:78-96 | table and reply are those of the abstract job map; the reply shows the stored job field by field |
| TaskNode.NodeTaskDispatchStore.Transition | src/taskDispatch/node.js:102-110 | table and reply are those of the abstract job map; the reply shows the stored job field by field |
| TaskNode.NodeTaskDispatchStore.GetPublic | src/taskDispatch/node.js:41-48 | expires every queued job that is due to, then shows the stored job field by field, with its whole envelope or without box and nonce |
| TaskNode.NodeTaskDispatchStore.Due | src/taskDispatch/node.js:59-67 | offers nothing exactly when nothing is eligible, else an eligible job that no other eligible job precedes in (notBefore, createdAt) |
| TaskNode.NodeTaskDispatchStore.PurgeInTransaction | src/taskDispatch/node.js:127-140 | the prefiltered purge deletes and expires exactly what the full rule does |
| TaskNode.NodeTaskDispatchStore.Serve | src/taskDispatch/node.js:41-140 | one request or timer event makes of table and reply what it makes of the abstract map |
| TaskNode.ServeAll | src/taskDispatch/node.js:41-140 | over any run the table is the abstract store of that run, and every reply is its reply |
| TaskNode.PrefilterExact | src/taskDispatch/node.js:130-131 | the SQL prefilter finds exactly the queued rows at or past expiry and the rows not accepted whose expiry and last update both lie more than 7 days back |
| TaskNode.PrefilterMissesNothing | src/taskDispatch/node.js:130-131 | a row outside the SQL prefilter neither expires now nor is past its retention |
| TaskRecords.ListTaskJobRecords | src/taskDispatch/worker-records.js:4-16 | paging returns every key once and in order, or refuses exactly when there are more than 10,100; the cursor always advances |
| TaskRecords.RestBeyondCursor | src/taskDispatch/worker-records.js:8-14 | after n keys have been read, the keys beyond the cursor are exactly the rest |
| TaskCiphertext.ChunkBound | src/taskDispatch/worker-ciphertext.js:15-28 | no accepted box needs more than 344 chunks, so the limit of 350 is never met |
| TaskCiphertext.RewriteKeeps | src/taskDispatch/worker-ciphertext.js:8-23 | writing a later version of a job keeps storage exact: chunks remain or go with the payload |
| TaskCiphertext.RewriteCreates | src/taskDispatch/worker-ciphertext.js:13-19 | writing a new job stores exactly its box's chunks |
| TaskCiphertext.EraseExact | src/taskDispatch/worker-ciphertext.js:41-44 | deleting a record and the chunks it counts leaves no key of the job |
| TaskCiphertext.StorageShape | src/taskDispatch/worker-ciphertext.js:8-23 | one record for each job, without its box, and exactly while the payload is retained the box in consecutive pieces of at most 64,000 units; no other key |
| TaskCiphertext.BoxlessAct | src/taskDispatch/worker-ciphertext.js:20-21 | the policy acts the same on a record whose box is in chunks |
| TaskWorker.WorkerTaskDispatchStore.WriteTaskJob | src/taskDispatch/worker-ciphertext.js:8-23 | the resulting storage, key by key |
| TaskWorker.WorkerTaskDispatchStore.DeleteCiphertext | src/taskDispatch/worker-ciphertext.js:41-44 | deletes exactly the chunk keys the record counts |
| TaskWorker.WorkerTaskDispatchStore.Hydrate | src/taskDispatch/worker-ciphertext.js:25-39 | returns the job with its original box for every stored job, tripping no guard; it fails exactly when the job read still carries chunks that an expiry has just deleted |
| TaskWorker.WorkerTaskDispatchStore.Rows | src/taskDispatch/worker.js:20-27 | the scan expires every queued job that is due to and returns every record |
| TaskWorker.WorkerTaskDispatchStore.Put | src/taskDispatch/worker.js:49-68 | storage afterwards represents the abstract map; the reply is its reply, less the box when an existing record is answered |
| TaskWorker.WorkerTaskDispatchStore.Transition | src/taskDispatch/worker.js:70-81 | storage afterwards represents the abstract map; the reply shows the stored job field by field, without its box |
| TaskWorker.WorkerTaskDispatchStore.GetPublic | src/taskDispatch/worker.js:33-39 | the abstract reply, which shows the stored job field by field, including the failure of the full read that first finds a queued job expired |
| TaskWorker.WorkerTaskDispatchStore.Due | src/taskDispatch/worker.js:41-47 | the same minimality as the indexed store's due, with the original box |
| TaskWorker.ListingTotals | src/taskDispatch/worker.js:60-63 | counting and summing over a listing of the room gives the totals of the abstract map |
| TaskWorker.WorkerTaskDispatchStore.MaintainOne | src/taskDispatch/worker.js:88-99 | one record is purged with its chunks, or expired, as the policy says, and its deadline joins the minimum |
| TaskWorker.WorkerTaskDispatchStore.Maintain | src/taskDispatch/worker.js:83-102 | purges and expires exactly as the policy says, leaves no orphan chunk, and returns a time that is one of the deadlines and no later than any |
| TaskWorker.WorkerTaskDispatchStore.Serve | src/taskDispatch/worker.js:20-102 | one request or alarm event makes of storage and reply what it makes of the abstract map |
| TaskWorker.ServeAll | src/taskDispatch/worker.js:20-102 | over any run storage represents the abstract store of that run, and every reply is its reply |
| TaskWorker.DeadlineSound | src/taskDispatch/worker.js:95-98 | strictly before its deadline a job does not expire, reach its purge time or, for a connected recipient, become due |
| TaskWorker.DeadlineNotPast | src/taskDispatch/worker.js:95-98 | a deadline is never in the past |
| TaskWorker.ConnectedMeans | src/taskDispatch/worker.js:96 | a recipient counts as connected if and only if it is listed, and always when there is no list |
| TaskWorker.DeadlineTight | src/taskDispatch/worker.js:95-98 | only accepted work has no deadline; at any other job's deadline it expires, may be offered, or its second offer is due 15 seconds later, or its receipt's seven days are over |
| RoomAlarm.Room.PurgeEndpointDirectory | src/relay/endpointRetention.js:5-15 | drops exactly the expired records; the alarm and the result are the earliest remaining expiry |
| RoomAlarm.Room.PutDirectoryEndpoint | src/relay/endpointRetention.js:17-25 | stores if and only if the recipient is known or fewer than 32 live ones are; at most 32 are held if at most 32 were; the alarm covers every endpoint either way |
| RoomAlarm.Room.Schedule | src/taskDispatch/worker-room.js:38-53 | the alarm is no later than any job, configuration, endpoint or wake deadline, and is one of them |
| RoomAlarm.AlarmSound | src/taskDispatch/worker-room.js:38-53 | strictly before a covering alarm nothing in the room expires, becomes due, reaches its purge time or is sent |
| RoomAlarm.Room.HandleEndpointPut | src/relay/room.js:260-277 | a stored record leaves every deadline covered; a refused one leaves the alarm at the endpoints' earliest expiry, covering the room if and only if some endpoint expires before all other work |
| RoomAlarm.EndpointAlarmCovers | src/relay/endpointRetention.js:12-13 | an alarm set for the endpoints alone covers the room's work if and only if some endpoint expires no later than every job, configuration and wake deadline |
| RoomAlarm.RefusalLosesDeadline | src/relay/endpointRetention.js:17-25 | carries out a reachable case: a stored job, 32 later endpoint records, and a refused 33rd that leaves the expiry of the job uncovered |
| Wake.ReachableWorld | src/relay/wakeDelivery.js:20-69 | in every reachable state, crashes and purges included: at most 256 distinct receipts, and never more sends than three times the accepted wakes |
| Wake.ClaimsAndSendsSpaced | src/relay/wakeDelivery.js:35-62 | in a run that never purges a room within a minute of its last claim, claims are at least 60,000 ms apart, and two sends at least that less the time the first waited for its record to be written |
| Wake.EarlyPurgeBreaksSpacing | src/node/store.js:190-192 | after every purge that comes earlier, the next new wake is claimed less than a minute after the forgotten claim: the condition is needed |
| Wake.DelayedSendComesCloser | src/relay/wakeDelivery.js:60-64 | the bound on sends is reached for every delay up to a minute |
| Wake.AcceptancesDeduplicated | src/relay/wakeDelivery.js:28-37 | over any run, a key accepted with expiry e is accepted again only from e on or after 256 other acceptances |
| Wake.JoinedWakeDue | src/relay/wakeDelivery.js:33-35 | after a new wake joins, a send is due exactly from a minute after the last claim until the latest joined expiry |
| Wake.NextAtIsExact | src/relay/wakeDelivery.js:46-59 | sendDue does nothing before nextAt and something from then on, save to give up on a spent retry budget |
| Wake.ActionsAreSteps | src/relay/wakeDelivery.js:20-69 | an uninterrupted action is the protocol steps one after the other |
| Wake.WakeDelivery.SendDue | src/relay/wakeDelivery.js:51-69 | sends if and only if an unexpired wake with an attempt left is due; an answered or third send leaves nothing pending, an earlier failure leaves it pending with one more attempt, due a minute later; otherwise only a spent or expired wake is cleared |
| WakeOutcomes.SettledForGood | src/relay/wakeDelivery.js:60-68 | over any run, crashes and purges included: after a send that was answered or failed a third time there is no other claim or send until another wake is accepted |
| WakeOutcomes.SettledExactly | src/relay/wakeDelivery.js:60-68 | how a send ends: nothing pending after success or the third attempt; else the wake stays pending and is claimed exactly from a minute after its claim and before its expiry |
| WakeOutcomes.ClaimedExactly | src/relay/wakeDelivery.js:51-62 | each claim of a run is of a due unexpired wake with an attempt left, counts one attempt, and keeps receipts and expiry |
| WakeOutcomes.RequestedExactly | src/relay/wakeDelivery.js:20-39 | what a request leaves: the latest 255 unexpired receipts and its own, the later expiry, three attempts afresh, due no sooner than a minute after the last claim; an expired or repeated wake changes nothing |
| WakeOutcomes.RefusedOnlyIfKnown | src/relay/wakeDelivery.js:28-29 | over any run, an unexpired wake an idle room does not accept repeats one accepted before that has not expired |
| WakeOutcomes.SameWake | src/relay/wakeDelivery.js:23-24 | two wakes are the same if and only if sender and recipient agree and either the delivery id does, or neither has one and the ciphertext does |
| Wake.WakeDelivery.Request | src/relay/wakeDelivery.js:20-42 | an expired wake does nothing; otherwise the receipt is recorded unless known, then what is due is sent |
| Wake.WakeDelivery.NextDue | src/relay/wakeDelivery.js:46-49 | the earlier of the time a pending wake is next due and its expiry; nothing without a pending wake |
| Wake.WakeDelivery.Purge | src/node/store.js:190-192 | deletes exactly the rooms with nothing pending and no unexpired receipt |
| MailboxPolicy.RetainSubmission | src/relay/submissionReceipts.js:14-23 | answers full, with the queue unchanged, if and only if the durable rows and the incoming row exceed a bound; otherwise gives up the fewest oldest transient rows |
| MailboxPolicy.RetainKeepsPromises | src/relay/submissionReceipts.js:14-23 | every durable row stays in order, the transient rows kept are the latest ones, the incoming row comes last, and both bounds hold |
| MailboxPolicy.WithoutTransientKeeps | src/relay/submissionReceipts.js:18-20 | removing the first k transient rows leaves the durable rows and the later transient rows in their order |
| MailboxPolicy.RetainIsExact | src/relay/submissionReceipts.js:14-23 | that outcome is unique |
| Mailbox.StepSound | src/node/store.js:75-112 | unique ids, at most 100 rows, 32,000,000 bytes for the Node machine queue and 1,800,000 otherwise, through every operation of either store |
| Mailbox.ReachableSound | src/node/store.js:75-112 | the same in every reachable queue |
| Mailbox.StepKeepsPromise | src/node/store.js:75-112 | no operation but its own acknowledgement takes away a durable row that has not expired |
| Mailbox.Promise | src/node/store.js:85-112 | over any interleaving: after a durable submission was answered stored or duplicate, a row with its id is in every later queue until its acknowledgement or expiry; when stored, it is its own text, size and id, for as long as it asked or 15 minutes |
| Mailbox.ForwardedIffHeld | src/relay/connectionPolicy.js:35-42 | a frame is forwarded if and only if it fits, has not expired, has a room and is now held; a durable one never closes the sender |
| Mailbox.FlushKeeps | src/relay/room.js:180-196 | a flush that rewrites the queue keeps every reliable row, and drops another only after sending it |
| Mailbox.NodeMailbox.Queue | src/node/store.js:75-83 | returns and leaves exactly the rows whose expiry lies ahead |
| Mailbox.NodeMailbox.Enqueue | src/node/store.js:86-101 | reply and queue of the specification, the other role untouched, the bounds kept |
| Mailbox.NodeMailbox.Acknowledge | src/node/store.js:103-112 | removes the acknowledged and the expired rows and nothing else |
| Mailbox.WorkerMailbox.Enqueue | src/relay/room.js:136-149 | reply and queue of the specification, the other role untouched, the bounds kept |
| Mailbox.WorkerMailbox.Acknowledge | src/relay/room.js:151-156 | removes the acknowledged row and nothing else; an empty queue has no key |
| Mailbox.WorkerMailbox.FlushTo | src/relay/room.js:158-199 | sends the texts of the unexpired rows for this socket, in order, cut to what the socket takes; a queue of reliable rows is left alone, any other keeps what awaits an acknowledgement or is for others, and everything from the refused row on |
| Mailbox.FlushLoop | src/relay/room.js:180-196 | the rewriting loop against its specification |
| Mailbox.SentExactly | src/relay/room.js:172-179 | what the sending loop sends is the matching texts in order, cut to what the socket takes |
| Mailbox.FlushedExactly | src/relay/room.js:180-196 | and so does the rewriting loop, over the rows that have text |
| Mailbox.FlushStops | src/relay/room.js:180-196 | where the rewriting loop stops: before it only rows for others and reliable ones remain, from it on every row |
| Mailbox.NodeMailbox.Serve | src/node/store.js:75-112 | one event of a run does to the table what it does to the queue of the run |
| Mailbox.WorkerMailbox.Serve | src/relay/room.js:136-199 | one event of a run does to storage what it does to the queue of the run |
| MailboxReplies.AnsweredExactly | src/node/store.js:86-101 | the answer to every frame; full if and only if with it the promised rows alone are more than 100 or larger than 32,000,000 bytes for a submission to a Node machine, else 1,800,000 |
| MailboxReplies.StoredExactly | src/relay/submissionReceipts.js:14-23 | the queue after storing: the unexpired rows cut at the first place that makes room, where only rows not promised go, and last the frame with its text, id and expiry |
| MailboxReplies.OthersLeaveQueue | src/node/store.js:75-101 | a frame that is not stored changes nothing, save that Node forgets expired rows |
| MailboxReplies.SoundMeans | src/node/store.js:75-112 | what the invariant comes to: at most 100 rows, the byte limits on the texts themselves, and no delivery id twice |
| MailboxReplies.ToldExactly | src/relay/connectionPolicy.js:35-42 | what the sender is told for each answer; only an oversize frame that is no submission closes its socket |
| MailboxReplies.DurableMeans | src/relay/submissionReceipts.js:2-5 | a submission is an id of one of the three prefixes and at least one character more |
| Mailbox.SendAll | src/relay/room.js:172-179 | sends the matching texts in order, cut where the socket refuses; a row for another recipient holds up nothing |
| CoolDown.CoolDownRegistry.Strike | src/relay/coolDown.js:24-36 | the new backoff, base doubled with each strike that continues and cut at the maximum, and the entries with the struck identity last, swept |
| CoolDown.CoolDownRegistry.Remaining | src/relay/coolDown.js:42-56 | what is left of the backoff, 0 for a cleared, unknown or empty identity, and the entries less the cleared or stale one |
| CoolDown.CoolDownRegistry.Sweep | src/relay/coolDown.js:58-65 | the loop that deletes while iterating, against its specification |
| CoolDown.CutOffUnobservable | src/relay/coolDown.js:29 | the exponent cut-off never changes a backoff if and only if the base is 0 or reaches the maximum within 30 doublings |
| CoolDown.DefaultsCutOffUnobservable | src/relay/coolDown.js:9-12 | so it is with the default settings |
| CoolDown.SummaryExtends | src/relay/coolDown.js:27-31 | an entry's count and admission flag are those of its whole streak: admission-only if and only if every strike since creation or reset was an admission strike |
| CoolDown.StruckBounded | src/relay/coolDown.js:32-34 | a strike leaves at most maxEntries identities, each once |
| CoolDown.FullMapDropsOldest | src/relay/coolDown.js:58-65 | a full map gives up its least recently struck identity and otherwise only stale ones |
| CoolDown.AlwaysBounded | src/relay/coolDown.js:24-65 | in every reachable state at most maxEntries identities are held, each once |
| CoolDown.RegistryRefines | src/relay/coolDown.js:24-65 | over any ordered run, every backoff and wait is that of a map that is never swept, as long as each overflow before it pushed out a stale entry |
| CoolDownHistory.AskedExactly | src/relay/coolDown.js:42-56 | over any ordered run that forgets nothing: the wait of an identity with n strikes in a row, the last at s, is what is left at the time asked of s plus min(maximum, base doubled n-1 times); 0 without strikes or for a proven admission after admission strikes only |
| CoolDownHistory.StruckExactly | src/relay/coolDown.js:24-36 | over any such run: a strike answers the backoff of the row of strikes it continues or begins |
| CoolDownHistory.AdmissionClears | src/relay/coolDown.js:46-49 | after a proven admission on admission strikes only, every answer is 0 until the next strike |
| CoolDownHistory.SweptExactly | src/relay/coolDown.js:58-65 | a sweep looks at the first eight slots and drops the stale ones; with one slot too many it drops the first and looks at seven more |
| CoolDownHistory.DefaultsMean | src/relay/coolDown.js:9-12 | with the default settings: 5, 10, 20, 40, 80 and 160 seconds, then 5 minutes, forgotten 15 minutes after the end, for 10,000 identities |
| CoolDown.ForgettingSeen | src/relay/coolDown.js:58-65 | when a full map gives up an entry that is not stale, some next event is answered differently if and only if the backoff grows after a first strike or the entry was still waiting |
| CoolDown.RefinementExact | src/relay/coolDown.js:24-65 | with a growing backoff, at no point of a run could a next event tell the registry from the unbounded map if and only if no overflow pushed out an entry that was not stale |
| CoolDown.DefaultsExact | src/relay/coolDown.js:9-12 | the same for the default times, whatever the number of identities that fit |
| SocketDelivery.ReachableLedger | src/node/socketDelivery/index.js:14-51 | over any order of sends, write callbacks, closes and throws: outstanding bytes within the cap, an answer for every call that is not in flight |
| SocketDelivery.CompletedExactlyOnce | src/node/socketDelivery/index.js:28-40 | a flight whose write reports back or whose socket closes is answered exactly once, and never again |
| SocketDelivery.AnswerLasts | src/node/socketDelivery/index.js:34-40 | an answer once given is never changed by anything later |
| DeliveryAnswers.AnsweredExactly | src/node/socketDelivery/index.js:14-51 | over any run, what each call of send was answered: false at once when not taken; nothing while neither its write reports nor its socket closes; then once and for good what the first of these says, true only for a write without error on a socket still open |
| DeliveryAnswers.SentExactly | src/node/socketDelivery/index.js:14-51 | a frame is taken if and only if its socket is open, it fits behind the waiting bytes and under the cap and writing does not fail; any other ends an open socket |
| SocketDelivery.RoomMeans | src/node/socketDelivery/index.js:17-20 | a frame of any size passes an idle socket; behind waiting bytes it must fit the buffer with them |
| SocketDelivery.Delivery.SendFrame | src/node/socketDelivery/index.js:14-51 | accepted if and only if the socket is open, there is room and nothing throws; charged exactly then |
| SocketDelivery.Delivery.Release | src/node/socketDelivery/index.js:34-40 | uncharges and answers on its first invocation only, keeping the counter equal to the outstanding bytes |
| SocketDelivery.Delivery.OnClose | src/node/socketDelivery/index.js:28-32 | releases every flight of the socket, once each |
| TokenBucket.SpendTakesOne | src/node/hostwatch-client.mjs:26-33 | spending takes one token from its own bucket exactly when allowed and none from any other, sweeps included |
| FallbackOutcome.SpentExactly | src/node/hostwatch-client.mjs:26-33 | whether a token is spent and the whole map afterwards, with capacity, refill, sweep and room for a new bucket written out |
| FallbackOutcome.GrantedExactly | src/node/hostwatch-client.mjs:34-57 | a request is granted if and only if each of its buckets has a token, there is room under every ceiling for a connection, and the service has a token; a granted connection holds its lease, a refused one none |
| FallbackOutcome.RefusedExactly | src/node/hostwatch-client.mjs:42-56 | the reason of every refusal |
| FallbackOutcome.ChargedExactly | src/node/hostwatch-client.mjs:42-57 | which buckets a request pays from: a granted one all of them, a refused account none of its own, a refused visitor what it had paid |
| FallbackOutcome.FreeExactly | src/node/hostwatch-client.mjs:38-39 | a release removes its lease and a renewal of a held one replaces it; neither costs a token |
| TokenBucket.DeletionUnobservable | src/node/hostwatch-client.mjs:27-31 | deleting a bucket idle for over 120 s is unobservable if and only if the rate is at least 180000/120001 a minute; so for every whole rate from 2, and not for 1 |
| TokenBucket.GrantsWithinBudget | src/node/hostwatch-client.mjs:26-59 | in any stretch of any run of requests, those granted against one bucket at a fixed rate number at most its capacity plus time times rate, through refusals, refunds and sweeps |
| TokenBucket.DeniedIsRefunded | src/node/hostwatch-client.mjs:43-57 | a denied request of a known account leaves its account and device buckets as they were |
| TokenBucket.FallbackBounded | src/node/hostwatch-client.mjs:26-59 | the map never exceeds 32,768 buckets, and leases never pass the service ceiling |
| TokenBucket.GrantedConnectionFits | src/node/hostwatch-client.mjs:48-54 | a granted connection leaves the service, account, device and network ceilings it counts against respected |
| TokenBucket.FallbackTakesOne | src/node/hostwatch-client.mjs:34-59 | a granted request takes a token from each bucket it needs, and no request puts one in |
| TokenBucket.ClientAccess.SpendOne | src/node/hostwatch-client.mjs:26-33 | the map and answer of the specification |
| TokenBucket.ClientAccess.BoundedFallback | src/node/hostwatch-client.mjs:34-59 | the maps and reply of the specification |
| FrameAdmission.FrameWindow.Accept | src/relay/connectionPolicy.js:49-56 | the window continues within 1000 ms of its start and begins anew otherwise; accepted while its count is within the limit |
| FrameAdmission.AtMostTwoWindows | src/relay/connectionPolicy.js:49-56 | any stretch of less than 1000 ms accepts at most twice the limit |
| FrameAdmission.TwoWindowsReached | src/relay/connectionPolicy.js:49-56 | that bound is reached for every positive limit |
| FrameAdmission.ResponseAcknowledgements.Issue | src/responseAcknowledgements/index.js:11-18 | only this socket's allowances change; the newest is last and at most 512 remain |
| FrameAdmission.ResponseAcknowledgements.Consume | src/responseAcknowledgements/index.js:19-30 | credited exactly for an unexpired allowance of this socket, which is then gone; other sockets untouched |
| FrameAdmission.HeldSound | src/responseAcknowledgements/index.js:11-30 | over any run of a socket: at most 512 allowances, one for each id, none that the run does not grant |
| FrameAdmission.CreditedExactly | src/responseAcknowledgements/index.js:19-30 | credited if and only if, on this socket, the id was sent less than 30 s ago, not acknowledged since, and never had 512 other ids behind it since: sent later and not acknowledged either |
| CreditHistory.CreditedFromHistory | src/responseAcknowledgements/index.js:11-30 | the same of the positions in the run: credited if and only if the id was sent at some event less than 30 s ago, neither sent again nor acknowledged after it, and at no moment since were 512 ids sent later and still open |
| FrameAdmission.PushedOut | src/responseAcknowledgements/index.js:17 | 512 other ids sent after it push an allowance out |
| FrameAdmission.CreditsWithinSends | src/responseAcknowledgements/index.js:11-30 | an id is credited no more often than it was sent |
| CreditHistory.CountedExactly | src/node/socket-messages.js:21 | the window counts exactly the received frames that are not credited, in order |
| FrameAdmission.GateAdmitsAtMostTwice | src/node/socket-messages.js:21 | besides credited acknowledgements, any stretch of less than 1000 ms on one socket takes at most twice the limit |

## Left out

- HTTP routing, WebSocket upgrade and framing, deployment, backups and the legacy proxy: plumbing without an invariant of its own.
- SQLite and Durable Object internals, schema migration, rows with a NULL state and corrupt JSON: storage is assumed to be a map with atomic transactions.
- HMAC tickets, hashing, signatures and constant-time comparison: taken as given predicates and injective functions.
- Base64 of endpoint records, push-token lists, APNs senders, presence, metrics and logging.
- Writer grants, configurations and the endpoint directory, beyond the deadlines they give the alarm.
- `list` and `listActive` of both job stores, and `rows` of the Node store: the same scans and filters as the operations that are modelled.
- Fairness of repeated offers (`src/taskDispatch/socket-offers.js`): after 15 seconds an unclaimed earlier job ranks first again, and freedom from starvation is not claimed.
- The limit of 129 on stored configurations and their contents.
- The admission service itself (`remote`, `admit`, `close`), and leases it grants.
- Promise scheduling: actions of one room are taken to be serialised, as `serial`, `pending` and `taskAlarmWork` arrange; crashes between writes are modelled for wakes.
- Storage key strings: keys are data (slot, chunk number) rather than text; room and slot digests have fixed length, so no two texts collide.
- Identity strings of the cool-down (`upgradeIdentity`, `socketIdentity`, the FNV digest): an identity is any string.
- Lists.Sort: models the comparator sort as a stable insertion sort, because only its order and stability are used.
- Wake.ReachableWorld: the retry budget counts sends against accepted wakes; it does not say which wake a coalesced send was for.
- TokenBucket.GrantsWithinBudget: for buckets charged at one rate throughout; a category change in between mixes two rates, and floating-point rounding is not modelled.
- CoolDown.RefinementExact: for settings whose backoff grows (0 < base < maximum), as the default times do; for the others CoolDown.ForgettingSeen says exactly when the next answer differs, not what may follow later.
- RoomAlarm.AlarmSound: the alarm may be due at once, since a deadline can equal the time of maintenance; the interval between repeated alarms is not bounded here.
- CoolDownHistory.AskedExactly: for settings whose maximum is reached before the exponent is cut off (CoolDown.CutOffUnobservable says which) and runs that push out no entry still alive (CoolDown.RefinementExact says what the others do).
- RetainedEviction.RetainedExactly: for caches that hold each slot once, as every reachable cache and table does (RetainedState.ReachableCache, RetainedNode.ReachableTable).
