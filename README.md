# Recurring-reminder scheduler of AutoEmail, in Dafny

AutoEmail sends each recipient a reminder every 60 seconds until the recipient
replies. `emailService.js` keeps the recipients with a running reminder in the
module-level set `activeEmailServices`. Each reminder is a repeatable job of the
`email-queue` queue, with the job id `recurring-<email>`. Five operations change
these two pieces of state:

- starting a recipient's reminder;
- stopping it;
- stopping all reminders;
- restoring the active set from the queue at startup;
- handling a mailbox notification, where a reply from an active recipient stops that recipient's reminder.

Starting, stopping and handling a notification report their outcomes through
`logEmailEvent`. The model's audit log is the sequence of those calls, in order;
a call whose write to the `email-logs` index fails is still in it, because the
helper swallows that error. Stopping all reminders and restoring at startup
make no such call.

The project models these parts of the source:

- `options.dfy` (`Options`): the optional value used for `null`/`undefined`.
- `sequences.dfy` (`Sequences`): the front-to-back search behind `Array.prototype.find`, used for the job list and the header list.
- `text.dfy` (`Text`): `replace` with a string pattern, and the first-occurrence search it performs. `replace` swaps only the first occurrence, wherever it is.
- `job_store.dfy` (`JobStore`): the queue's repeatable jobs as a sequence of id and repeat-key pairs.
  - `add` with a repeat option, `getRepeatableJobs().find(...)` and `removeRepeatableByKey`.
  - The job id and the key a recipient's reminder gets.
  - `Faults` says which queue calls throw and with what message. It is a parameter, so a proof holds for every combination of failures.
- `from_header.dfy` (`FromHeader`): reading the sender address out of a message's headers.
  - It follows the `/<(.+)>/` match of JavaScript exactly: the leftmost start wins, `.+` is greedy, and `.` stops at line terminators.
  - It also gives the match in closed form.
- `audit.dfy` (`Audit`): the audit events and their `eventType` tags.
- `scheduler.dfy` (`Scheduler`): each operation as a function from the state (active set, jobs, audit log) to the new state. A call is run to completion as one step.
- `scheduler_properties.dfy` (`SchedulerProperties`): what the operations guarantee together.
  - The main invariant is `Consistent`: the active set mirrors the queue, and every job is the reminder job of one recipient.
  - This module also proves that start and stop are idempotent, that recovery inverts the job id, that a reply cancels a reminder, and the finding below.
- `email_service.dfy` (`Service`): the class `EmailService`, which holds the module-level state in fields and updates it in place.
  - Its methods use the loops the source uses.
  - Each method is proved to end in the state the matching `Scheduler` function gives. Everything proved about those functions therefore holds of the class.

## Model

| member | source | states |
|---|---|---|
| Sequences.FirstIndex | emailService.js:243 | the index found is the first whose element satisfies the test; none is found exactly when no element does |
| Text.ReplaceFirstSpec | emailService.js:288 | characterises `Text.ReplaceFirst`: without an occurrence the string is unchanged; otherwise exactly the first occurrence, and nothing else, is replaced |
| Text.IndexOf | emailService.js:288 | the result is the first index at or after `from` where the pattern occurs, or none when it occurs nowhere from there |
| Text.ReplaceFirstOfPrefix | emailService.js:288 | removing `recurring-` from `recurring-` + u gives u back, whatever u contains |
| JobStore.JobId | emailService.js:220 | recovery's `replace` gives back the address the id was built from, for every address (round trip of lines 220 and 288) |
| JobStore.KeyFor | emailService.js:213-221 | the key carries an id from which recovery reads back the recipient, and its interval is 60000 ms |
| JobStore.JobFor | emailService.js:213-221 | the job registered for a recipient carries the recipient's key and the key's id, and recovery reads the recipient back from it |
| JobStore.RecoveredUserSpec | emailService.js:288 | characterises `JobStore.RecoveredUser`: an id that starts with `recurring-` loses exactly that prefix; an id without `recurring-` is kept whole |
| JobStore.KeyForInjective | emailService.js:213-221 | two recipients with the same job key are the same recipient |
| JobStore.AddRepeatable | emailService.js:213-222 | `add` leaves the key present and keeps the earlier jobs in order; a new key appends the job, a key already held leaves the list unchanged; unique keys are preserved |
| JobStore.FindById | emailService.js:243 | `find` gives none exactly when no job has the id, and otherwise the FIRST listed job with that id |
| JobStore.FindOnlyLast | emailService.js:243 | a job appended after jobs with other ids is the one found by its id |
| JobStore.RemoveKeys | emailService.js:246 | after removal by keys a job remains exactly when it was listed and its key was not removed; unique keys are preserved |
| JobStore.RemoveByKey | emailService.js:246 | after `removeRepeatableByKey` a job remains exactly when it was listed and has another key; a key no job has changes nothing |
| JobStore.RemoveKeysAppend | emailService.js:273 | removal by keys treats each job on its own key (a job added last is kept or dropped by itself) |
| JobStore.AddFindRemove | emailService.js:213-247 | adding a job with a fresh id and key, finding it by id and removing it by key restores the original list |
| JobStore.RemoveKeysTwice | emailService.js:273 | removing one more key after a set of keys equals removing the union |
| JobStore.RemoveNextKey | emailService.js:272-274 | one more iteration of the removal loop extends the removed prefix by one job |
| JobStore.KeysOfNext | emailService.js:272-274 | the keys of one more listed job are the earlier keys and that job's key |
| JobStore.RemoveLeadingKeys | emailService.js:272-274 | with unique keys, removing the keys of the first k listed jobs leaves exactly the jobs from k on |
| JobStore.RemoveAllKeys | emailService.js:272-274 | removing every listed key empties the list, duplicates or not |
| JobStore.FirstFailingRemoval | emailService.js:272-274 | the index is that of the first job whose removal throws, or the list length when none does |
| FromHeader.HeaderValue | emailService.js:340 | none exactly when no header has the name; otherwise the value of the FIRST header with that name |
| FromHeader.CaptureAt | emailService.js:341 | a capture at p is a real match of `<`, one or more non-terminator characters and `>`, and it is the longest one (greedy) |
| FromHeader.SearchFrom | emailService.js:341 | the position found is the leftmost where the pattern matches, or none matches |
| FromHeader.SenderAddress | emailService.js:340-341 | the sender is null exactly when there is no `From` header; otherwise it is the address read from the value of the FIRST `From` header |
| FromHeader.CaptureSpec | emailService.js:341 | characterises `FromHeader.Capture`: none exactly when the pattern matches nowhere; otherwise the capture of the leftmost match, and the longest match there |
| FromHeader.AddressOfSpec | emailService.js:341 | characterises `FromHeader.AddressOf`: the whole value when the pattern matches nowhere, otherwise a non-empty captured part |
| FromHeader.SenderAddressClosedForm | emailService.js:340-341 | with v the first `From` value on one line, the sender is what lies between the first `<` and the last `>` of v when they are at least two apart, and v otherwise |
| FromHeader.CaptureClosedForm | emailService.js:341 | on one line the pattern matches iff the last `>` lies at least two characters after the first `<`, and it captures exactly what lies between them |
| FromHeader.DisplayNameForm | emailService.js:341 | `Name <address>` yields the address, for any name without `<` and any non-empty one-line address |
| FromHeader.BareAddress | emailService.js:341 | a value without `<` is used whole |
| Scheduler.Start | emailService.js:201-238 | the skip, success and failure paths are each one event: an active recipient is untouched; otherwise it becomes active exactly when the add succeeds, with the job added; no other recipient changes |
| Scheduler.Stop | emailService.js:240-267 | one event always; the recipient is stopped exactly when listing finds its job and the removal succeeds, then only that key is removed; otherwise nothing but the log changes; the skip is logged exactly when no job has the id; a failed listing or a failed removal logs `email_service_stop_failed` with the thrown message |
| Scheduler.StopAll | emailService.js:269-280 | with no failing removal the jobs and the active set are empty; after a failing removal the active set is unchanged and the jobs from the failing one on remain; nothing is logged |
| Scheduler.RemoveOne | emailService.js:273 | one removal attempt: a throwing removal changes nothing; otherwise the job's key goes and so does its recovered recipient |
| Scheduler.RemoveEach | emailService.js:272-274 | a job remains exactly when it was not attempted or its removal threw; exactly the recipients whose removal succeeded leave the active set |
| Scheduler.StopAllBestEffort | emailService.js:269-280 | the intended stop-all: a failed listing changes nothing; otherwise exactly the jobs whose removal throws remain, the active set loses the recipients of the removed jobs and every recipient left without a job, so it stays within the recovered recipients; when no removal throws, no job and no active recipient remain; the log is untouched |
| Scheduler.Restore | emailService.js:286-291 | jobs and log unchanged; every listed job's recovered recipient joins the active set, existing members are kept and nothing else is added; a failed listing changes nothing |
| Scheduler.StopsReminder | emailService.js:352 | a sender that stops a reminder is present and, in a consistent state, has its reminder job listed |
| Scheduler.ReplyStep | emailService.js:339-358 | the arrival is logged first; without an active non-empty sender nothing else changes; otherwise the stop's event and a second stopped event follow, the sender leaves the active set exactly when the stop's event is a stop, and no other recipient changes; the jobs, the active set and the second event are those of `stopEmailServiceForUser` on the sender; the active set and the jobs only shrink |
| Scheduler.Deliver | emailService.js:330-361 | no error is thrown exactly when every message was fetched, and a thrown error is that of the first failed fetch; the active set and the jobs only shrink; the log only grows |
| Scheduler.HandleNewEmail | emailService.js:312-370 | no history changes nothing; a failed listing logs exactly one processing error and changes nothing else; with records, the jobs, the active set and the thrown error are those of the message loop, and the log is the loop's with exactly one processing error appended when it throws; an error is thrown exactly when some fetch fails, is that of the first failed fetch of the flattened history, and is then the last event logged; the active set and the jobs only shrink; the log only grows |
| SchedulerProperties.CountId | emailService.js:243 | the count is zero exactly when no job has the id |
| SchedulerProperties.CountIdIsCardinality | emailService.js:243 | the count is the number of positions in the job list whose job has the id |
| SchedulerProperties.CountIdFrom | emailService.js:243 | the count of a suffix is the number of its positions whose job has the id |
| SchedulerProperties.OneJobPerRecipient | emailService.js:220 | in a list of reminder jobs with unique keys a recipient has one job if recovered from it, none otherwise |
| SchedulerProperties.AtMostOneJob | emailService.js:220 | in a consistent state an active recipient has exactly one job and an inactive one none |
| SchedulerProperties.JobOfRecipient | emailService.js:220 | in a consistent state a job with a recipient's id, key or recovered name is that recipient's reminder job |
| SchedulerProperties.NoJobForInactive | emailService.js:243 | in a consistent state no job has an inactive recipient's id or key |
| SchedulerProperties.RemoveRecipientKeepsConsistent | emailService.js:246-247 | removing a recipient's key and the recipient together keeps the state consistent |
| SchedulerProperties.StartKeepsConsistent | emailService.js:201-238 | start keeps the state consistent, whatever fails |
| SchedulerProperties.StopKeepsConsistent | emailService.js:240-267 | stop keeps the state consistent, whatever fails |
| SchedulerProperties.StopWithoutJobIsSkipped | emailService.js:253-258 | in a consistent state a recipient without a job is not active, and stopping it only logs the skip |
| SchedulerProperties.StartTwice | emailService.js:201-209 | after a start that leaves the recipient active it has exactly one job, and a second start only logs the skip |
| SchedulerProperties.StartThenStop | emailService.js:201-252 | start then stop, with no failure, restores active set and jobs and logs started then stopped |
| SchedulerProperties.RestoreKeepsConsistent | emailService.js:286-291 | restoring a consistent state changes nothing |
| SchedulerProperties.JobsFor | emailService.js:220 | the jobs registered for a list of recipients are, index by index, their reminder jobs |
| SchedulerProperties.JobsForConsistent | emailService.js:220 | the reminder jobs of distinct recipients, with those recipients active, form a consistent state |
| SchedulerProperties.RecoveryFidelity | emailService.js:286-291 | after a restart recovery brings back exactly the recipients whose jobs the queue kept, in a consistent state |
| SchedulerProperties.ReplyCancels | emailService.js:351-358 | a reply from an active recipient, with no queue failure, removes exactly that recipient and its key and logs received, stopped (manual stop), stopped (response received) |
| SchedulerProperties.ReplyStopsListedJob | emailService.js:351-358 | the same outcome, for a sender whose listed job is its reminder job |
| SchedulerProperties.ActiveRecipientJob | emailService.js:243 | in a consistent state looking up an active recipient's id finds its reminder job |
| SchedulerProperties.SenderOfDisplayName | emailService.js:340-341 | a first `From` header `Name <u>` gives sender u |
| SchedulerProperties.ReplyStepKeepsConsistent | emailService.js:339-358 | one received message keeps the state consistent |
| SchedulerProperties.DeliverKeepsConsistent | emailService.js:330-361 | the loops over the added messages keep the state consistent |
| SchedulerProperties.HandleNewEmailKeepsConsistent | emailService.js:312-370 | handling a notification keeps the state consistent, whatever fails |
| SchedulerProperties.NotificationReplyCancels | emailService.js:312-370 | a notification whose history holds one reply `Name <u>` from an active recipient u, with no queue failure, throws nothing, removes u from the active set and removes exactly u's key |
| SchedulerProperties.HandleOneMessage | emailService.js:330-358 | a notification whose history holds one fetched message is one reply step and throws nothing |
| SchedulerProperties.ReplyInHistoryCancels | emailService.js:312-370 | in any history, a fetched reply from u that comes before every failed fetch, with no queue failure, leaves the state consistent, u inactive and no job with u's key, whatever comes after it |
| SchedulerProperties.DeliverReplyCancels | emailService.js:330-361 | the same for the messages of one record: u is not active afterwards |
| SchedulerProperties.DeliverSplit | emailService.js:332-360 | while the first messages were fetched, delivering a history is delivering them and then the rest |
| SchedulerProperties.DeliverAppend | emailService.js:332-360 | delivering fetched messages and then more is delivering them all in one pass |
| SchedulerProperties.DeliverAt | emailService.js:339-358 | from a fetched message on, delivery is that message's reply step followed by the remaining messages |
| SchedulerProperties.DeliverFromReply | emailService.js:339-358 | delivering from a fetched reply from u on leaves u inactive |
| SchedulerProperties.ReplyLeavesInactive | emailService.js:339-358 | after the reply step for a reply from u, with no queue failure, u is not active |
| Scheduler.DeliverAfterFetched | emailService.js:332-360 | the delivery contract for a history that starts with a fetched message follows from the contract for the rest |
| SchedulerProperties.RestoreFromNothing | emailService.js:286-291 | restoring into an empty active set makes it exactly the recovered recipients |
| SchedulerProperties.InactiveSendersChangeNothing | emailService.js:351-352 | messages none of whose senders would stop a reminder change neither jobs nor active set |
| SchedulerProperties.ReplyStepOnlyStopsSender | emailService.js:339-358 | one message takes at most its sender out of the active set and, in a consistent state, removes at most its sender's job |
| SchedulerProperties.RepliedByTail | emailService.js:332-360 | a sender of a later message or of the first fetched message is a sender of the history |
| SchedulerProperties.DeliverOnlyStopsRepliers | emailService.js:330-361 | every recipient the message loop takes out of the active set, and in a consistent state every recipient whose job it removes, sent a fetched message of the history |
| SchedulerProperties.HandleNewEmailOnlyStopsRepliers | emailService.js:312-370 | a notification stops only senders of fetched messages of its history; a failed or empty listing stops none; every other recipient and job stays |
| SchedulerProperties.DeliverStopsAtFailure | emailService.js:332-336 | the message loop ends at the first failed fetch with its error, in the state the earlier messages left, logging nothing for the failed message |
| SchedulerProperties.HandleNewEmailFailedFetch | emailService.js:312-370 | a failed fetch keeps the effects of the earlier messages, logs exactly one `email_processing_error` after them and rethrows its error |
| SchedulerProperties.StopAllCompletes | emailService.js:269-276 | when no removal throws, stop-all leaves no job, no active recipient and a consistent state |
| SchedulerProperties.StopAllPartialFailureStrandsRecipient | emailService.js:269-280 | a stop-all whose second removal throws leaves the first recipient active without a job, breaks consistency, and a later start for it adds nothing |
| SchedulerProperties.TwoRemindersConsistent | emailService.js:220 | two distinct recipients with their reminder jobs form a consistent state |
| SchedulerProperties.StopAllStopsAtSecond | emailService.js:269-280 | in that state stop-all removes the first job, keeps the second and clears nobody |
| SchedulerProperties.RemoveEachKeepsConsistent | emailService.js:272-274 | attempting each removal independently keeps the state consistent, whatever fails |
| SchedulerProperties.StopAllBestEffortKeepsConsistent | emailService.js:269-280 | the intended stop-all keeps the state consistent, whatever fails |
| Audit.EventTypeIdentifiesKind | emailService.js:79-88 | two events share a stored `eventType` exactly when they are of the same kind |
| Service.EmailService.constructor | emailService.js:43 | a process starts with an empty active set, the jobs the queue kept and an empty log |
| Service.EmailService.LogEmailEvent | emailService.js:79-92 | writing an event appends it and changes nothing else |
| Service.EmailService.StartEmailServiceForUser | emailService.js:201-238 | ends in the state `Scheduler.Start` gives |
| Service.EmailService.StopEmailServiceForUser | emailService.js:240-267 | ends in the state `Scheduler.Stop` gives |
| Service.EmailService.StopAllEmailServices | emailService.js:269-280 | ends in the state `Scheduler.StopAll` gives |
| Service.EmailService.RemoveListedKeys | emailService.js:272-274 | the removal loop stops at the first removal that throws and has removed exactly the keys before it |
| Service.EmailService.StopAllEmailServicesBestEffort | emailService.js:269-280 | ends in the state `Scheduler.StopAllBestEffort` gives |
| Service.EmailService.RemoveListedJob | emailService.js:273 | one removal attempt of the intended stop-all |
| Service.EmailService.InitializeEmailServices | emailService.js:286-291 | the `forEach` loop ends in the state `Scheduler.Restore` gives |
| Service.EmailService.HandleNewEmail | emailService.js:312-370 | the loop over the records ends in the state and with the error `Scheduler.HandleNewEmail` gives |
| Service.EmailService.ProcessMessages | emailService.js:332-360 | the inner loop over a record's messages does what `Scheduler.Deliver` does with them and stops with the first failed fetch |
| Service.EmailService.ReceiveMessage | emailService.js:339-358 | one fetched message ends in the state `Scheduler.ReplyStep` gives |
| Service.RecoveredAppend | emailService.js:287-289 | one more listed job adds its recovered recipient |
| Service.FlattenAt | emailService.js:330-333 | the messages from a record on are its own, then those of the later records |

## Left out

- The Gmail API is left out: `readEmails`, the push-notification setup and stop, `renewGmailWatch` and its daily `node-cron` schedule in `initializeEmailServices`. The history listing and the message fetch inside `handleNewEmail` become inputs (`HistoryReply`, `Fetch`).
- A message whose payload has no `headers` array throws a `TypeError` in the source. The model gives every fetched message a header list. A history record without `messagesAdded` is modelled as one with no messages.
- `sendMail`, nodemailer and the OAuth2 transport are left out. This is I/O the scheduler does not inspect.
- The BullMQ `Worker` is left out: its timers, its three-attempt retry policy, the events it logs, Redis and the `email_sent_by_worker` events. The model keeps only the list of repeatable jobs.
- The repeat key's text format is BullMQ's. The model treats the key as an opaque value made of the job name, id and interval.
- `add` with a key the queue already holds is modelled as adding nothing. That is the queue's behaviour for a repeatable job.
- The job sequence is taken to be the order in which `getRepeatableJobs()` lists the jobs, and `add` is taken to put a new job last. Nothing in the source fixes that order. It is an assumption about the queue, and it decides which jobs remain after a stop-all that fails part way.
- A queue call fails by its argument alone. One map of faults decides every call of an operation, so a call made twice within one operation cannot succeed once and fail once.
- Elasticsearch is left out: the `esClient.index` document, its timestamp, `getEmailLogs`, and `elastic-mapping.js`. A write is an append to a sequence. The source catches a failed write inside `logEmailEvent`, so a write never fails the caller.
- `console.log` output is left out. So are the HTTP layer in `server.js`, `emailDashboard.js` and `initializeServices.js`.
- Concurrency is left out. Every operation runs to completion before the next starts. The source has no locking, so interleaved calls are not covered.
- A Dafny `char` is a Unicode scalar value, while JavaScript strings are UTF-16 code units. Addresses with characters outside the Basic Multilingual Plane are compared by scalar here.
- Scheduler.StopAll: when a removal throws and the listed keys are not unique, the contract states only that the active set is unchanged. The jobs left over are stated as a suffix of the list only for unique keys, which `Consistent` guarantees.
- Some of the source's behaviour is kept as the code has it, not as a best-effort design would have it:
  - stop-all stops at the first removal that throws and then does not clear the active set, and it logs no event;
  - a failed listing at startup is swallowed, and the process runs with an empty active set;
  - stop-all does not report a failure to its caller;
  - a stop that finds no job leaves an existing active-set entry in place;
  - a reply that stops a reminder logs `email_service_stopped` twice, with reasons "Manual stop" and "Response received".

## Findings

| source | as written | input that shows it | evidently intended | confidence | as-written member | corrected member |
|---|---|---|---|---|---|---|
| emailService.js:269-280 | the first `removeRepeatableByKey` that throws ends the loop and skips `activeEmailServices.clear()`, so the recipients whose jobs were already removed stay active with no job | active recipients a and b with jobs `[recurring-a, recurring-b]`; removing b's key throws. Afterwards a is active with no job, and every later start for a is skipped as "already running" | every removal attempted; the recipients whose jobs were removed leave the active set, and so does any recipient left active without a job, which is what `clear()` would have done for them | not executed | SchedulerProperties.StopAllPartialFailureStrandsRecipient | SchedulerProperties.StopAllBestEffortKeepsConsistent |

`Scheduler.StopAll`, and the method `Service.EmailService.StopAllEmailServices` proved against it, model the loop as written. `Scheduler.StopAllBestEffort` and `Service.EmailService.StopAllEmailServicesBestEffort` are the corrected operation, and it keeps `Consistent` whatever fails. After its removals it keeps only the active recipients that still have a job, which also clears recipients a previous failure left active without one; when no removal throws it empties the jobs and the active set, as the source does when nothing fails. The class provides both methods.
