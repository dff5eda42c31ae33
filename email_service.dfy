/** The scheduler as the source runs it: one object holding the module-level
    state (the active set, the queue's repeatable jobs and the audit log),
    whose methods update that state step by step with the loops the source
    uses. Each method is proved to end in the state the matching function of
    module Scheduler describes, so the properties proved there hold of it. */
module Service {
  import opened Options
  import opened JobStore
  import opened FromHeader
  import opened Audit
  import opened Scheduler

  class EmailService {
    /** `activeEmailServices`. */
    var active: set<string>
    /** The repeatable jobs of `email-queue`. */
    var jobs: seq<RepeatableJob>
    /** The `logEmailEvent` calls made so far, oldest first, including those
        whose write to the `email-logs` index failed. */
    var log: seq<Event>

    function Model(): State
      reads this
    {
      State(active, jobs, log)
    }

    /** A process starts with an empty active set in front of whatever jobs
        the queue kept from an earlier run. */
    constructor (persisted: seq<RepeatableJob>)
      ensures Model() == State({}, persisted, [])
    {
      active := {};
      jobs := persisted;
      log := [];
    }

    /** `logEmailEvent`: appends the event; a failure of the store is caught
        inside, so the caller never sees one. */
    method LogEmailEvent(e: Event)
      modifies this
      ensures Model() == old(Model()).(log := old(log) + [e])
    {
      log := log + [e];
    }

    /** `startEmailServiceForUser`. */
    method StartEmailServiceForUser(userEmail: string, faults: Faults)
      modifies this
      ensures Model() == Scheduler.Start(old(Model()), userEmail, faults)
    {
      if userEmail in active {
        LogEmailEvent(ServiceStartSkipped(userEmail, AlreadyRunning));
        return;
      }
      var job := JobFor(userEmail);
      if Add(job.key) in faults {
        LogEmailEvent(ServiceStartFailed(userEmail, faults[Add(job.key)]));
        return;
      }
      jobs := AddRepeatable(jobs, job);
      active := active + {userEmail};
      LogEmailEvent(ServiceStarted(userEmail, IntervalMs));
    }

    /** `stopEmailServiceForUser`. */
    method StopEmailServiceForUser(userEmail: string, faults: Faults)
      modifies this
      ensures Model() == Scheduler.Stop(old(Model()), userEmail, faults)
    {
      if GetRepeatableJobs in faults {
        LogEmailEvent(ServiceStopFailed(userEmail, faults[GetRepeatableJobs]));
        return;
      }
      var userJob := FindById(jobs, JobId(userEmail));
      if userJob.None? {
        LogEmailEvent(ServiceStopSkipped(userEmail, NoServiceRunning));
        return;
      }
      var key := userJob.value.key;
      if RemoveRepeatableByKey(key) in faults {
        LogEmailEvent(ServiceStopFailed(userEmail, faults[RemoveRepeatableByKey(key)]));
        return;
      }
      jobs := RemoveByKey(jobs, key);
      active := active - {userEmail};
      LogEmailEvent(ServiceStopped(userEmail, ManualStop));
    }

    /** `stopAllEmailServices`, as written: the listed jobs are removed in
        order, and the active set is cleared only when no removal threw. */
    method StopAllEmailServices(faults: Faults)
      modifies this
      ensures Model() == Scheduler.StopAll(old(Model()), faults)
    {
      if GetRepeatableJobs in faults {
        return;
      }
      var listed := jobs;
      var removed := RemoveListedKeys(listed, faults);
      if removed == |listed| {
        assert listed[..removed] == listed;
        RemoveAllKeys(listed);
        active := {};
      }
    }

    /** The `for` loop of `stopAllEmailServices`: removes the keys of `listed`
        in order until a removal throws, and returns how many were removed. */
    method RemoveListedKeys(listed: seq<RepeatableJob>, faults: Faults) returns (removed: nat)
      requires jobs == listed
      modifies this
      ensures removed == FirstFailingRemoval(listed, faults)
      ensures Model() == old(Model()).(jobs := RemoveKeys(listed, KeysOf(listed[..removed])))
    {
      RemoveAbsentKeys(listed, {});
      assert KeysOf(listed[..0]) == {};
      removed := 0;
      while removed < |listed|
        invariant removed <= FirstFailingRemoval(listed, faults)
        invariant Model() == old(Model()).(jobs := RemoveKeys(listed, KeysOf(listed[..removed])))
      {
        var key := listed[removed].key;
        if RemoveRepeatableByKey(key) in faults {
          return;
        }
        RemoveNextKey(listed, removed);
        jobs := RemoveByKey(jobs, key);
        removed := removed + 1;
      }
    }

    /** The stop-all the source evidently intends: every listed job's removal
        is attempted, then the active set keeps only recipients that still
        have a job. */
    method StopAllEmailServicesBestEffort(faults: Faults)
      modifies this
      ensures Model() == Scheduler.StopAllBestEffort(old(Model()), faults)
    {
      if GetRepeatableJobs in faults {
        return;
      }
      var listed := jobs;
      var i := 0;
      while i < |listed|
        invariant i <= |listed|
        invariant RemoveEach(Model(), listed[i..], faults) == RemoveEach(old(Model()), listed, faults)
      {
        RemoveEachStep(Model(), listed, i, faults);
        RemoveListedJob(listed[i], faults);
        i := i + 1;
      }
      assert listed[i..] == [];
      active := active * Recovered(jobs);
    }

    /** One iteration of the intended stop-all. */
    method RemoveListedJob(job: RepeatableJob, faults: Faults)
      modifies this
      ensures Model() == RemoveOne(old(Model()), job, faults)
    {
      if RemoveRepeatableByKey(job.key) !in faults {
        jobs := RemoveByKey(jobs, job.key);
        active := active - {RecoveredUser(job.id)};
      }
    }

    /** The restore loop of `initializeEmailServices`: every listed job's id,
        with `recurring-` removed, joins the active set. */
    method InitializeEmailServices(faults: Faults)
      modifies this
      ensures Model() == Scheduler.Restore(old(Model()), faults)
    {
      if GetRepeatableJobs in faults {
        return;
      }
      var listed := jobs;
      var i := 0;
      while i < |listed|
        invariant i <= |listed|
        invariant active == old(active) + Recovered(listed[..i])
        invariant jobs == listed && log == old(log)
      {
        RecoveredAppend(listed[..i], listed[i]);
        assert listed[..i + 1] == listed[..i] + [listed[i]];
        active := active + {RecoveredUser(listed[i].id)};
        i := i + 1;
      }
      assert listed[..i] == listed;
    }

    /** `handleNewEmail`, given what listing the history since `historyId`
        gave: the records are walked in order; the first error is logged as a
        processing error and returned. */
    method HandleNewEmail(historyId: string, reply: HistoryReply, faults: Faults) returns (thrown: Option<string>)
      modifies this
      ensures Handled(Model(), thrown) == Scheduler.HandleNewEmail(old(Model()), historyId, reply, faults)
    {
      match reply {
        case HistoryFailed(e) =>
          LogEmailEvent(ProcessingError(e, historyId));
          return Some(e);
        case NoHistory =>
          return None;
        case History(records) =>
          var i := 0;
          while i < |records|
            invariant i <= |records|
            invariant Deliver(Model(), Flatten(records[i..]), historyId, faults) ==
                      Deliver(old(Model()), Flatten(records), historyId, faults)
          {
            FlattenAt(records, i);
            var failed := ProcessMessages(records[i].messagesAdded, Flatten(records[i + 1..]), historyId, faults);
            if failed.Some? {
              LogEmailEvent(ProcessingError(failed.value, historyId));
              return failed;
            }
            i := i + 1;
          }
          return None;
      }
    }

    /** The inner loop of `handleNewEmail` over one record's added messages,
        with `rest` the messages of the records after it: a failed fetch ends
        the loop with its error. */
    method ProcessMessages(added: seq<AddedMessage>, rest: seq<AddedMessage>, historyId: string, faults: Faults)
      returns (failed: Option<string>)
      modifies this
      ensures failed.Some? ==> Deliver(old(Model()), added + rest, historyId, faults) == Handled(Model(), failed)
      ensures failed.None? ==> Deliver(old(Model()), added + rest, historyId, faults) ==
                               Deliver(Model(), rest, historyId, faults)
    {
      var j := 0;
      while j < |added|
        invariant j <= |added|
        invariant Deliver(Model(), added[j..] + rest, historyId, faults) ==
                  Deliver(old(Model()), added + rest, historyId, faults)
      {
        var message := added[j];
        match message.fetch {
          case FetchFailed(e) =>
            DeliverFailed(Model(), added, rest, j, historyId, faults);
            return Some(e);
          case Fetched(headers) =>
            DeliverFetched(Model(), added, rest, j, historyId, faults);
            ReceiveMessage(message.id, headers, historyId, faults);
        }
        j := j + 1;
      }
      assert added[j..] + rest == rest;
      return None;
    }

    /** The body of the inner loop for a fetched message: the sender is read
        from the `From` header and the arrival is logged; a sender that is
        non-empty and active has its reminder stopped, and the stop is logged
        again with the reply as reason. */
    method ReceiveMessage(messageId: string, headers: seq<Header>, historyId: string, faults: Faults)
      modifies this
      ensures Model() == ReplyStep(old(Model()), messageId, SenderAddress(headers), HeaderValue(headers, "Subject"),
                                   historyId, faults)
    {
      var fromEmail := SenderAddress(headers);
      var subject := HeaderValue(headers, "Subject");
      LogEmailEvent(EmailReceived(fromEmail, subject, messageId, historyId));
      if fromEmail.Some? && fromEmail.value != "" && fromEmail.value in active {
        StopEmailServiceForUser(fromEmail.value, faults);
        LogEmailEvent(ServiceStopped(fromEmail.value, ResponseReceived));
      }
    }
  }

  /** One step of the intended stop-all: the removal of the next pending job. */
  lemma RemoveEachStep(s: State, listed: seq<RepeatableJob>, i: nat, faults: Faults)
    requires i < |listed|
    ensures RemoveEach(s, listed[i..], faults) == RemoveEach(RemoveOne(s, listed[i], faults), listed[i + 1..], faults)
  {
    assert listed[i..][1..] == listed[i + 1..];
  }

  /** A message whose fetch throws ends the delivery with that error. */
  lemma DeliverFailed(s: State, added: seq<AddedMessage>, rest: seq<AddedMessage>, j: nat,
                      historyId: string, faults: Faults)
    requires j < |added| && added[j].fetch.FetchFailed?
    ensures Deliver(s, added[j..] + rest, historyId, faults) == Handled(s, Some(added[j].fetch.error))
  {
    assert (added[j..] + rest)[0] == added[j];
  }

  /** A fetched message is one reply step, then the delivery goes on. */
  lemma DeliverFetched(s: State, added: seq<AddedMessage>, rest: seq<AddedMessage>, j: nat,
                       historyId: string, faults: Faults)
    requires j < |added| && added[j].fetch.Fetched?
    ensures var headers := added[j].fetch.headers;
      Deliver(s, added[j..] + rest, historyId, faults) ==
      Deliver(ReplyStep(s, added[j].id, SenderAddress(headers), HeaderValue(headers, "Subject"), historyId, faults),
              added[j + 1..] + rest, historyId, faults)
  {
    assert (added[j..] + rest)[0] == added[j];
    assert (added[j..] + rest)[1..] == added[j + 1..] + rest;
  }

  /** The recipients recovered from a list grow by one job at a time. */
  lemma RecoveredAppend(jobs: seq<RepeatableJob>, job: RepeatableJob)
    ensures Recovered(jobs + [job]) == Recovered(jobs) + {RecoveredUser(job.id)}
  {
    assert forall j :: j in jobs + [job] <==> j in jobs || j == job;
  }

  /** The messages from record `i` on are its own, then those after it. */
  lemma FlattenAt(records: seq<HistoryRecord>, i: nat)
    requires i < |records|
    ensures Flatten(records[i..]) == records[i].messagesAdded + Flatten(records[i + 1..])
  {
    assert records[i..][1..] == records[i + 1..];
  }
}
