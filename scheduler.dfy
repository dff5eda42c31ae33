/** The recurring-reminder lifecycle as functions on the scheduler's state:
    the set of recipients with a running reminder (`activeEmailServices`), the
    queue's repeatable jobs and the audit log. Each function is one call of
    the source run to completion; the class in module Service is proved to
    compute the same states step by step. */
module Scheduler {
  import opened Options
  import opened JobStore
  import opened FromHeader
  import opened Audit

  datatype State = State(active: set<string>, jobs: seq<RepeatableJob>, log: seq<Event>)

  /** A message listed as added in a history record, and what fetching it gave. */
  datatype Fetch = Fetched(headers: seq<Header>) | FetchFailed(error: string)
  datatype AddedMessage = AddedMessage(id: string, fetch: Fetch)
  datatype HistoryRecord = HistoryRecord(messagesAdded: seq<AddedMessage>)

  /** What listing the mailbox history since the notified `historyId` gave:
      a thrown error, a reply without a `history` field, or the records. */
  datatype HistoryReply = HistoryFailed(error: string) | NoHistory | History(records: seq<HistoryRecord>)

  /** The state after handling a notification, and the error it rethrows, if any. */
  datatype Handled = Handled(state: State, thrown: Option<string>)

  /** The recipients recovery reads back from the listed jobs. */
  function Recovered(jobs: seq<RepeatableJob>): set<string>
  {
    set j | j in jobs :: RecoveredUser(j.id)
  }

  /** The active set mirrors the queue: every job is a reminder job, each key
      occurs once, and the active recipients are exactly those with a job. */
  predicate Consistent(s: State)
  {
    && UniqueKeys(s.jobs)
    && (forall j :: j in s.jobs ==> j == JobFor(RecoveredUser(j.id)))
    && s.active == Recovered(s.jobs)
  }

  /** `startEmailServiceForUser`. */
  function Start(s: State, userEmail: string, faults: Faults): (r: State)
    ensures |r.log| == |s.log| + 1 && r.log[..|s.log|] == s.log
    ensures r.active - {userEmail} == s.active - {userEmail}
    ensures userEmail in s.active ==>
      r.active == s.active && r.jobs == s.jobs && r.log[|s.log|] == ServiceStartSkipped(userEmail, AlreadyRunning)
    ensures userEmail !in s.active ==> (userEmail in r.active <==> Add(KeyFor(userEmail)) !in faults)
    ensures userEmail !in s.active && userEmail in r.active ==>
      r.jobs == AddRepeatable(s.jobs, JobFor(userEmail)) && r.log[|s.log|] == ServiceStarted(userEmail, IntervalMs)
    ensures userEmail !in s.active && userEmail !in r.active ==>
      r.jobs == s.jobs && r.log[|s.log|] == ServiceStartFailed(userEmail, faults[Add(KeyFor(userEmail))])
  {
    if userEmail in s.active then
      s.(log := s.log + [ServiceStartSkipped(userEmail, AlreadyRunning)])
    else if Add(KeyFor(userEmail)) in faults then
      s.(log := s.log + [ServiceStartFailed(userEmail, faults[Add(KeyFor(userEmail))])])
    else
      State(s.active + {userEmail}, AddRepeatable(s.jobs, JobFor(userEmail)),
            s.log + [ServiceStarted(userEmail, IntervalMs)])
  }

  /** The job `stopEmailServiceForUser` removes, when listing succeeds and finds one. */
  function JobToStop(s: State, userEmail: string, faults: Faults): Option<RepeatableJob>
  {
    if GetRepeatableJobs in faults then None else FindById(s.jobs, JobId(userEmail))
  }

  /** `stopEmailServiceForUser`: never throws; every outcome is one event. */
  function Stop(s: State, userEmail: string, faults: Faults): (r: State)
    ensures |r.log| == |s.log| + 1 && r.log[..|s.log|] == s.log
    ensures r.active - {userEmail} == s.active - {userEmail}
    ensures r.log[|s.log|].ServiceStopped? <==>
      JobToStop(s, userEmail, faults).Some? &&
      RemoveRepeatableByKey(JobToStop(s, userEmail, faults).value.key) !in faults
    ensures r.log[|s.log|].ServiceStopped? ==>
      && r.active == s.active - {userEmail}
      && r.jobs == RemoveByKey(s.jobs, JobToStop(s, userEmail, faults).value.key)
      && r.log[|s.log|] == ServiceStopped(userEmail, ManualStop)
    ensures !r.log[|s.log|].ServiceStopped? ==> r.active == s.active && r.jobs == s.jobs
    ensures r.log[|s.log|] == ServiceStopSkipped(userEmail, NoServiceRunning) <==>
      GetRepeatableJobs !in faults && forall k :: 0 <= k < |s.jobs| ==> s.jobs[k].id != JobId(userEmail)
    ensures GetRepeatableJobs in faults ==> r.log[|s.log|] == ServiceStopFailed(userEmail, faults[GetRepeatableJobs])
    ensures JobToStop(s, userEmail, faults).Some? &&
            RemoveRepeatableByKey(JobToStop(s, userEmail, faults).value.key) in faults ==>
      r.log[|s.log|] == ServiceStopFailed(userEmail, faults[RemoveRepeatableByKey(JobToStop(s, userEmail, faults).value.key)])
  {
    if GetRepeatableJobs in faults then
      s.(log := s.log + [ServiceStopFailed(userEmail, faults[GetRepeatableJobs])])
    else
      match FindById(s.jobs, JobId(userEmail))
      case None =>
        s.(log := s.log + [ServiceStopSkipped(userEmail, NoServiceRunning)])
      case Some(job) =>
        if RemoveRepeatableByKey(job.key) in faults then
          s.(log := s.log + [ServiceStopFailed(userEmail, faults[RemoveRepeatableByKey(job.key)])])
        else
          State(s.active - {userEmail}, RemoveByKey(s.jobs, job.key), s.log + [ServiceStopped(userEmail, ManualStop)])
  }

  /** `stopAllEmailServices`: removes the listed jobs one by one and clears
      the active set only when every removal succeeded; the first removal that
      throws ends the operation. It writes no audit event. */
  function StopAll(s: State, faults: Faults): (r: State)
    ensures r.log == s.log
    ensures GetRepeatableJobs in faults ==> r == s
    ensures GetRepeatableJobs !in faults && FirstFailingRemoval(s.jobs, faults) == |s.jobs| ==>
      r.jobs == [] && r.active == {}
    ensures GetRepeatableJobs !in faults && FirstFailingRemoval(s.jobs, faults) < |s.jobs| ==>
      r.active == s.active &&
      (UniqueKeys(s.jobs) ==> r.jobs == s.jobs[FirstFailingRemoval(s.jobs, faults)..])
  {
    if GetRepeatableJobs in faults then s
    else
      var k := FirstFailingRemoval(s.jobs, faults);
      if k == |s.jobs| then s.(active := {}, jobs := [])
      else
        RemoveLeadingKeysIfUnique(s.jobs, k);
        s.(jobs := RemoveKeys(s.jobs, KeysOf(s.jobs[..k])))
  }

  lemma RemoveLeadingKeysIfUnique(jobs: seq<RepeatableJob>, k: nat)
    requires k <= |jobs|
    ensures UniqueKeys(jobs) ==> RemoveKeys(jobs, KeysOf(jobs[..k])) == jobs[k..]
  {
    if UniqueKeys(jobs) {
      RemoveLeadingKeys(jobs, k);
    }
  }

  /** The recipients whose jobs among `jobs` the queue removes without error. */
  function RemovedRecipients(jobs: seq<RepeatableJob>, faults: Faults): set<string>
  {
    set j | j in jobs && RemoveRepeatableByKey(j.key) !in faults :: RecoveredUser(j.id)
  }

  /** Attempts the removal of one listed job; when it succeeds, the job's
      recipient leaves the active set. */
  function RemoveOne(s: State, job: RepeatableJob, faults: Faults): (r: State)
    ensures r.log == s.log
    ensures RemoveRepeatableByKey(job.key) in faults ==> r == s
    ensures RemoveRepeatableByKey(job.key) !in faults ==>
      && (forall j :: j in r.jobs <==> j in s.jobs && j.key != job.key)
      && r.active == s.active - {RecoveredUser(job.id)}
  {
    if RemoveRepeatableByKey(job.key) in faults then s
    else s.(jobs := RemoveByKey(s.jobs, job.key), active := s.active - {RecoveredUser(job.id)})
  }

  /** Attempts the removal of each of `pending` in turn, independently of the
      others; a recipient leaves the active set when its job's removal succeeds. */
  function RemoveEach(s: State, pending: seq<RepeatableJob>, faults: Faults): (r: State)
    ensures r.log == s.log
    ensures forall j :: j in r.jobs <==>
      j in s.jobs && (j.key !in KeysOf(pending) || RemoveRepeatableByKey(j.key) in faults)
    ensures r.active == s.active - RemovedRecipients(pending, faults)
    decreases |pending|
  {
    if pending == [] then s
    else
      var job := pending[0];
      var next := RemoveOne(s, job, faults);
      var r := RemoveEach(next, pending[1..], faults);
      assert forall j :: j in pending <==> j == job || j in pending[1..];
      assert KeysOf(pending) == {job.key} + KeysOf(pending[1..]);
      assert RemovedRecipients(pending, faults) ==
        (if RemoveRepeatableByKey(job.key) in faults then {} else {RecoveredUser(job.id)}) +
        RemovedRecipients(pending[1..], faults);
      r
  }

  /** `stopAllEmailServices` as evidently intended: every listed job's
      removal is attempted; the recipients whose jobs were removed leave the
      active set, and so does every recipient left active without a job, as
      `clear()` would have it. */
  function StopAllBestEffort(s: State, faults: Faults): (r: State)
    ensures r.log == s.log
    ensures GetRepeatableJobs in faults ==> r == s
    ensures GetRepeatableJobs !in faults ==>
      && (forall j :: j in r.jobs <==> j in s.jobs && RemoveRepeatableByKey(j.key) in faults)
      && r.active == (s.active - RemovedRecipients(s.jobs, faults)) * Recovered(r.jobs)
    ensures GetRepeatableJobs !in faults ==> r.active <= Recovered(r.jobs)
    ensures GetRepeatableJobs !in faults && (forall j :: j in s.jobs ==> RemoveRepeatableByKey(j.key) !in faults) ==>
      r.jobs == [] && r.active == {}
  {
    if GetRepeatableJobs in faults then s
    else
      var removed := RemoveEach(s, s.jobs, faults);
      assert (forall j :: j in s.jobs ==> RemoveRepeatableByKey(j.key) !in faults) ==> removed.jobs == [] by {
        if |removed.jobs| > 0 {
          assert removed.jobs[0] in removed.jobs;
        }
      }
      removed.(active := removed.active * Recovered(removed.jobs))
  }

  /** The restore loop of `initializeEmailServices`: each listed job's id,
      with `recurring-` removed, joins the active set. */
  function Restore(s: State, faults: Faults): (r: State)
    ensures r.jobs == s.jobs && r.log == s.log
    ensures s.active <= r.active
    ensures GetRepeatableJobs in faults ==> r.active == s.active
    ensures GetRepeatableJobs !in faults ==> forall j :: j in s.jobs ==> RecoveredUser(j.id) in r.active
    ensures forall u :: u in r.active && u !in s.active ==> exists j :: j in s.jobs && RecoveredUser(j.id) == u
  {
    if GetRepeatableJobs in faults then s else s.(active := s.active + Recovered(s.jobs))
  }

  /** The stop rule of `handleNewEmail` for one fetched message: the sender's
      reminder is stopped only if the sender address is non-empty and active. */
  predicate StopsReminder(s: State, sender: Option<string>)
    ensures StopsReminder(s, sender) ==> sender.Some? && (Consistent(s) ==> JobFor(sender.value) in s.jobs)
  {
    sender.Some? && sender.value != "" && sender.value in s.active
  }

  /** One fetched message, given the sender address and subject read from its
      headers: log its arrival, then stop the sender's reminder if the sender
      is active, logging the stop a second time with the reply as reason. */
  function ReplyStep(s: State, messageId: string, sender: Option<string>, subject: Option<string>,
                     historyId: string, faults: Faults): (r: State)
    ensures |r.log| > |s.log| && r.log[..|s.log|] == s.log
    ensures r.log[|s.log|] == EmailReceived(sender, subject, messageId, historyId)
    ensures r.active <= s.active && forall j :: j in r.jobs ==> j in s.jobs
    ensures !StopsReminder(s, sender) ==> r.active == s.active && r.jobs == s.jobs && |r.log| == |s.log| + 1
    ensures StopsReminder(s, sender) ==>
      && |r.log| == |s.log| + 3
      && r.log[|s.log| + 2] == ServiceStopped(sender.value, ResponseReceived)
      && r.active - {sender.value} == s.active - {sender.value}
      && (r.log[|s.log| + 1].ServiceStopped? <==> sender.value !in r.active)
      && r.jobs == Stop(s, sender.value, faults).jobs
      && r.active == Stop(s, sender.value, faults).active
      && r.log[|s.log| + 1] == Stop(s, sender.value, faults).log[|s.log|]
  {
    var received := s.(log := s.log + [EmailReceived(sender, subject, messageId, historyId)]);
    if StopsReminder(s, sender) then
      var stopped := Stop(received, sender.value, faults);
      stopped.(log := stopped.log + [ServiceStopped(sender.value, ResponseReceived)])
    else received
  }

  /** The messages of the history records, in order. */
  function Flatten(records: seq<HistoryRecord>): (r: seq<AddedMessage>)
  {
    if records == [] then [] else records[0].messagesAdded + Flatten(records[1..])
  }

  /** `e` is the error of the first message whose fetch throws. */
  predicate FirstFetchError(messages: seq<AddedMessage>, e: string)
  {
    exists k :: 0 <= k < |messages| && messages[k].fetch == FetchFailed(e) &&
                forall q :: 0 <= q < k ==> messages[q].fetch.Fetched?
  }

  /** `v` is the sender address of some message that was fetched. */
  predicate RepliedBy(messages: seq<AddedMessage>, v: string)
  {
    exists k :: 0 <= k < |messages| && messages[k].fetch.Fetched? &&
                SenderAddress(messages[k].fetch.headers) == Some(v)
  }

  /** The loops of `handleNewEmail` over the added messages; the first
      message whose fetch throws ends them with that error. Replies only ever
      stop reminders: no recipient becomes active and no job is added. */
  function Deliver(s: State, messages: seq<AddedMessage>, historyId: string, faults: Faults): (r: Handled)
    ensures r.thrown.None? <==> forall k :: 0 <= k < |messages| ==> messages[k].fetch.Fetched?
    ensures r.thrown.Some? ==> FirstFetchError(messages, r.thrown.value)
    ensures r.state.active <= s.active && forall j :: j in r.state.jobs ==> j in s.jobs
    ensures |s.log| <= |r.state.log| && r.state.log[..|s.log|] == s.log
    decreases |messages|
  {
    if messages == [] then Handled(s, None)
    else
      match messages[0].fetch
      case FetchFailed(e) =>
        assert FirstFetchError(messages, e) by {
          assert messages[0].fetch == FetchFailed(e);
        }
        Handled(s, Some(e))
      case Fetched(headers) =>
        var next := ReplyStep(s, messages[0].id, SenderAddress(headers), HeaderValue(headers, "Subject"), historyId, faults);
        var r := Deliver(next, messages[1..], historyId, faults);
        DeliverAfterFetched(s, next, messages, r);
        r
  }

  /** What holds of the delivery after a fetched first message, given what
      holds of the delivery of the messages after it. */
  lemma DeliverAfterFetched(s: State, next: State, messages: seq<AddedMessage>, r: Handled)
    requires |messages| > 0 && messages[0].fetch.Fetched?
    requires next.active <= s.active && forall j :: j in next.jobs ==> j in s.jobs
    requires |s.log| <= |next.log| && next.log[..|s.log|] == s.log
    requires r.thrown.None? <==> forall k :: 0 <= k < |messages[1..]| ==> messages[1..][k].fetch.Fetched?
    requires r.thrown.Some? ==> FirstFetchError(messages[1..], r.thrown.value)
    requires r.state.active <= next.active && forall j :: j in r.state.jobs ==> j in next.jobs
    requires |next.log| <= |r.state.log| && r.state.log[..|next.log|] == next.log
    ensures r.thrown.None? <==> forall k :: 0 <= k < |messages| ==> messages[k].fetch.Fetched?
    ensures r.thrown.Some? ==> FirstFetchError(messages, r.thrown.value)
    ensures |s.log| <= |r.state.log| && r.state.log[..|s.log|] == s.log
  {
    assert forall k :: 1 <= k < |messages| ==> messages[k] == messages[1..][k - 1];
    LogExtendsTwice(s.log, next.log, r.state.log);
    if r.thrown.Some? {
      var k :| 0 <= k < |messages[1..]| && messages[1..][k].fetch == FetchFailed(r.thrown.value) &&
               forall q :: 0 <= q < k ==> messages[1..][q].fetch.Fetched?;
      assert messages[k + 1] == messages[1..][k];
    }
  }

  lemma LogExtendsTwice(first: seq<Event>, second: seq<Event>, third: seq<Event>)
    requires |first| <= |second| && second[..|first|] == first
    requires |second| <= |third| && third[..|second|] == second
    ensures |first| <= |third| && third[..|first|] == first
  {
    assert third[..|first|] == third[..|second|][..|first|];
  }

  /** `handleNewEmail`: a reply without history changes nothing; an error while
      listing or fetching is logged as a processing error and rethrown, after
      the effects of the messages handled before it. */
  function HandleNewEmail(s: State, historyId: string, reply: HistoryReply, faults: Faults): (r: Handled)
    ensures reply.NoHistory? ==> r == Handled(s, None)
    ensures reply.HistoryFailed? ==>
      r.thrown == Some(reply.error) && r.state == s.(log := s.log + [ProcessingError(reply.error, historyId)])
    ensures reply.History? ==>
      var d := Deliver(s, Flatten(reply.records), historyId, faults);
      && r.thrown == d.thrown
      && r.state.active == d.state.active && r.state.jobs == d.state.jobs
      && r.state.log == d.state.log + (if d.thrown.Some? then [ProcessingError(d.thrown.value, historyId)] else [])
    ensures reply.History? ==> (r.thrown.None? <==> forall m :: m in Flatten(reply.records) ==> m.fetch.Fetched?)
    ensures reply.History? && r.thrown.Some? ==> FirstFetchError(Flatten(reply.records), r.thrown.value)
    ensures r.state.active <= s.active && forall j :: j in r.state.jobs ==> j in s.jobs
    ensures |s.log| <= |r.state.log| && r.state.log[..|s.log|] == s.log
    ensures r.thrown.Some? ==> |r.state.log| > 0 && r.state.log[|r.state.log| - 1] == ProcessingError(r.thrown.value, historyId)
  {
    match reply
    case HistoryFailed(e) => Handled(s.(log := s.log + [ProcessingError(e, historyId)]), Some(e))
    case NoHistory => Handled(s, None)
    case History(records) =>
      var d := Deliver(s, Flatten(records), historyId, faults);
      match d.thrown
      case None => d
      case Some(e) =>
        var t := d.state.(log := d.state.log + [ProcessingError(e, historyId)]);
        assert t.log[..|s.log|] == d.state.log[..|s.log|];
        Handled(t, Some(e))
  }
}
