/** What the lifecycle promises across calls: every operation except a
    partially failed stop-all keeps the active set a mirror of the queue,
    starting twice registers one job, start then stop restores the state,
    recovery rebuilds exactly the started recipients, and a reply from an
    active recipient cancels that recipient's reminder. */
module SchedulerProperties {
  import opened Options
  import opened JobStore
  import opened FromHeader
  import opened Audit
  import opened Scheduler

  /** How many listed jobs carry the id `id`. */
  function CountId(jobs: seq<RepeatableJob>, id: string): (n: nat)
    ensures n <= |jobs|
    ensures n == 0 <==> forall k :: 0 <= k < |jobs| ==> jobs[k].id != id
  {
    if jobs == [] then 0
    else
      assert forall k :: 1 <= k < |jobs| ==> jobs[k] == jobs[1..][k - 1];
      (if jobs[0].id == id then 1 else 0) + CountId(jobs[1..], id)
  }

  /** The positions from `lo` on of the jobs with the id `id`. */
  function IdPositions(jobs: seq<RepeatableJob>, id: string, lo: nat): set<int>
  {
    set k | lo <= k < |jobs| && jobs[k].id == id
  }

  /** `CountId` on the jobs from `lo` on counts their positions with the id. */
  lemma {:induction false} CountIdFrom(jobs: seq<RepeatableJob>, id: string, lo: nat)
    requires lo <= |jobs|
    ensures CountId(jobs[lo..], id) == |IdPositions(jobs, id, lo)|
    decreases |jobs| - lo
  {
    if lo < |jobs| {
      CountIdFrom(jobs, id, lo + 1);
      assert jobs[lo..][1..] == jobs[lo + 1..];
      assert IdPositions(jobs, id, lo) ==
        (if jobs[lo].id == id then {lo} else {}) + IdPositions(jobs, id, lo + 1);
    } else {
      assert IdPositions(jobs, id, lo) == {};
    }
  }

  /** `CountId` is the number of positions whose job has the id. */
  lemma CountIdIsCardinality(jobs: seq<RepeatableJob>, id: string)
    ensures CountId(jobs, id) == |set k | 0 <= k < |jobs| && jobs[k].id == id|
  {
    CountIdFrom(jobs, id, 0);
    assert jobs[0..] == jobs;
  }

  predicate ReminderJobs(jobs: seq<RepeatableJob>)
  {
    forall j :: j in jobs ==> j == JobFor(RecoveredUser(j.id))
  }

  /** In a queue of reminder jobs with unique keys, a recipient has one job
      if it is among the recovered recipients and none otherwise. */
  lemma {:induction false} OneJobPerRecipient(jobs: seq<RepeatableJob>, u: string)
    requires ReminderJobs(jobs) && UniqueKeys(jobs)
    ensures CountId(jobs, JobId(u)) == if u in Recovered(jobs) then 1 else 0
  {
    if jobs != [] {
      var rest := jobs[1..];
      assert ReminderJobs(rest) && UniqueKeys(rest);
      OneJobPerRecipient(rest, u);
      var w := RecoveredUser(jobs[0].id);
      assert jobs[0] in jobs;
      assert Recovered(jobs) == {w} + Recovered(rest) by {
        assert forall j :: j in jobs <==> j == jobs[0] || j in rest;
      }
      if w == u {
        forall j | j in rest ensures RecoveredUser(j.id) != u {
          var q :| 0 <= q < |rest| && rest[q] == j;
          assert jobs[q + 1] == j;
        }
      }
    }
  }

  /** A consistent state runs at most one reminder job per recipient, and one
      exactly for the active recipients. */
  lemma AtMostOneJob(s: State, u: string)
    requires Consistent(s)
    ensures CountId(s.jobs, JobId(u)) == if u in s.active then 1 else 0
  {
    OneJobPerRecipient(s.jobs, u);
  }

  /** The job of an active recipient is the reminder job derived from it. */
  lemma {:induction false} JobOfRecipient(s: State, u: string, j: RepeatableJob)
    requires Consistent(s) && j in s.jobs
    ensures j.id == JobId(u) || j.key == KeyFor(u) || RecoveredUser(j.id) == u ==> j == JobFor(u)
  {
    var w := RecoveredUser(j.id);
    assert j == JobFor(w);
    KeyForInjective(w, u);
  }

  /** An inactive recipient has no job in a consistent state, by id or by key. */
  lemma NoJobForInactive(s: State, u: string)
    requires Consistent(s) && u !in s.active
    ensures forall k :: 0 <= k < |s.jobs| ==> s.jobs[k].key != KeyFor(u) && s.jobs[k].id != JobId(u)
  {
    forall k | 0 <= k < |s.jobs| ensures s.jobs[k].key != KeyFor(u) && s.jobs[k].id != JobId(u) {
      assert s.jobs[k] in s.jobs;
      JobOfRecipient(s, u, s.jobs[k]);
    }
  }

  /** Removing a recipient's reminder job and the recipient together keeps
      the mirror. */
  lemma {:induction false} RemoveRecipientKeepsConsistent(s: State, u: string)
    requires Consistent(s)
    ensures Consistent(s.(jobs := RemoveByKey(s.jobs, KeyFor(u)), active := s.active - {u}))
  {
    var jobs := RemoveByKey(s.jobs, KeyFor(u));
    forall v | v in Recovered(jobs) ensures v in Recovered(s.jobs) - {u} {
      var j :| j in jobs && RecoveredUser(j.id) == v;
      JobOfRecipient(s, u, j);
    }
    forall v | v in Recovered(s.jobs) - {u} ensures v in Recovered(jobs) {
      var j :| j in s.jobs && RecoveredUser(j.id) == v;
      JobOfRecipient(s, u, j);
      assert j in jobs;
    }
  }

  lemma {:induction false} StartKeepsConsistent(s: State, u: string, faults: Faults)
    requires Consistent(s)
    ensures Consistent(Start(s, u, faults))
  {
    var r := Start(s, u, faults);
    if u !in s.active && u in r.active {
      NoJobForInactive(s, u);
      assert r.jobs == s.jobs + [JobFor(u)];
      assert Recovered(r.jobs) == Recovered(s.jobs) + {u} by {
        assert forall j :: j in r.jobs <==> j in s.jobs || j == JobFor(u);
      }
    }
  }

  lemma {:induction false} StopKeepsConsistent(s: State, u: string, faults: Faults)
    requires Consistent(s)
    ensures Consistent(Stop(s, u, faults))
  {
    var r := Stop(s, u, faults);
    if r.log[|s.log|].ServiceStopped? {
      var job := JobToStop(s, u, faults).value;
      assert job in s.jobs;
      JobOfRecipient(s, u, job);
      RemoveRecipientKeepsConsistent(s, u);
    }
  }

  /** A recipient with no job is never active in a consistent state, so a
      stop that finds no job leaves no stale entry behind. */
  lemma StopWithoutJobIsSkipped(s: State, u: string, faults: Faults)
    requires Consistent(s) && GetRepeatableJobs !in faults
    requires forall k :: 0 <= k < |s.jobs| ==> s.jobs[k].id != JobId(u)
    ensures u !in s.active
    ensures Stop(s, u, faults) == s.(log := s.log + [ServiceStopSkipped(u, NoServiceRunning)])
  {
    AtMostOneJob(s, u);
  }

  /** Starting twice: the second start is skipped and the recipient runs
      exactly one job, whatever the first start's outcome on a running one. */
  lemma {:induction false} StartTwice(s: State, u: string, faults: Faults, later: Faults)
    requires Consistent(s)
    requires u in s.active || Add(KeyFor(u)) !in faults
    ensures var t := Start(s, u, faults);
      && u in t.active
      && CountId(t.jobs, JobId(u)) == 1
      && Start(t, u, later) == t.(log := t.log + [ServiceStartSkipped(u, AlreadyRunning)])
  {
    var t := Start(s, u, faults);
    StartKeepsConsistent(s, u, faults);
    AtMostOneJob(t, u);
  }

  /** Start then stop, when the queue does not fail, removes the job it
      created and leaves the recipient inactive, with one event each. */
  lemma {:induction false} StartThenStop(s: State, u: string, faults: Faults)
    requires Consistent(s) && u !in s.active
    requires Add(KeyFor(u)) !in faults && GetRepeatableJobs !in faults && RemoveRepeatableByKey(KeyFor(u)) !in faults
    ensures Stop(Start(s, u, faults), u, faults) ==
      State(s.active, s.jobs, s.log + [ServiceStarted(u, IntervalMs), ServiceStopped(u, ManualStop)])
  {
    NoJobForInactive(s, u);
    AddFindRemove(s.jobs, JobFor(u));
    var t := State(s.active + {u}, s.jobs + [JobFor(u)], s.log + [ServiceStarted(u, IntervalMs)]);
    assert Start(s, u, faults) == t;
    assert Stop(t, u, faults) == State(t.active - {u}, s.jobs, t.log + [ServiceStopped(u, ManualStop)]);
    assert t.active - {u} == s.active;
    assert t.log + [ServiceStopped(u, ManualStop)] ==
      s.log + [ServiceStarted(u, IntervalMs), ServiceStopped(u, ManualStop)];
  }

  lemma RestoreKeepsConsistent(s: State, faults: Faults)
    requires Consistent(s)
    ensures Restore(s, faults) == s
  {
  }

  /** The jobs that starting each of `users` registers, in order. */
  function JobsFor(users: seq<string>): (jobs: seq<RepeatableJob>)
    ensures |jobs| == |users|
    ensures forall k :: 0 <= k < |users| ==> jobs[k] == JobFor(users[k])
  {
    if users == [] then [] else [JobFor(users[0])] + JobsFor(users[1..])
  }

  /** Recovery after a restart: from the reminder jobs of distinct
      recipients the active set comes back as exactly those recipients, and
      the state is consistent again. */
  lemma RecoveryFidelity(users: seq<string>, log: seq<Event>, faults: Faults)
    requires GetRepeatableJobs !in faults
    requires forall p, q :: 0 <= p < q < |users| ==> users[p] != users[q]
    ensures var r := Restore(State({}, JobsFor(users), log), faults);
      r.active == (set u | u in users) && Consistent(r)
  {
    JobsForConsistent(users, log);
    RestoreFromNothing(JobsFor(users), log, faults);
  }

  /** Restoring into an empty active set makes it the recovered recipients. */
  lemma RestoreFromNothing(jobs: seq<RepeatableJob>, log: seq<Event>, faults: Faults)
    requires GetRepeatableJobs !in faults
    ensures Restore(State({}, jobs, log), faults) == State(Recovered(jobs), jobs, log)
  {
    assert {} + Recovered(jobs) == Recovered(jobs);
  }

  /** The reminder jobs of distinct recipients, with those recipients
      active, form a consistent state. */
  lemma {:induction false} JobsForConsistent(users: seq<string>, log: seq<Event>)
    requires forall p, q :: 0 <= p < q < |users| ==> users[p] != users[q]
    ensures Consistent(State((set u | u in users), JobsFor(users), log))
  {
    var jobs := JobsFor(users);
    forall k | 0 <= k < |users| ensures RecoveredUser(jobs[k].id) == users[k] {
    }
    assert Recovered(jobs) == set u | u in users by {
      forall u | u in users ensures u in Recovered(jobs) {
        var k :| 0 <= k < |users| && users[k] == u;
        assert jobs[k] in jobs;
      }
    }
    forall p, q | 0 <= p < q < |jobs| ensures jobs[p].key != jobs[q].key {
      KeyForInjective(users[p], users[q]);
    }
  }

  /** A reply whose sender is an active recipient cancels that recipient's
      reminder when the queue does not fail; the stop is logged twice, once
      by the stop itself and once for the reply. */
  lemma ReplyCancels(s: State, u: string, messageId: string, subject: Option<string>,
                     historyId: string, faults: Faults)
    requires Consistent(s) && u in s.active && u != ""
    requires GetRepeatableJobs !in faults && RemoveRepeatableByKey(KeyFor(u)) !in faults
    ensures ReplyStep(s, messageId, Some(u), subject, historyId, faults) ==
      State(s.active - {u}, RemoveByKey(s.jobs, KeyFor(u)),
            s.log + [EmailReceived(Some(u), subject, messageId, historyId),
                     ServiceStopped(u, ManualStop), ServiceStopped(u, ResponseReceived)])
  {
    ActiveRecipientJob(s, u);
    ReplyStopsListedJob(s, u, messageId, subject, historyId, faults);
  }

  /** The reply step for a sender whose reminder job is listed, worked out. */
  lemma ReplyStopsListedJob(s: State, u: string, messageId: string, subject: Option<string>,
                            historyId: string, faults: Faults)
    requires u in s.active && u != "" && FindById(s.jobs, JobId(u)) == Some(JobFor(u))
    requires GetRepeatableJobs !in faults && RemoveRepeatableByKey(KeyFor(u)) !in faults
    ensures ReplyStep(s, messageId, Some(u), subject, historyId, faults) ==
      State(s.active - {u}, RemoveByKey(s.jobs, KeyFor(u)),
            s.log + [EmailReceived(Some(u), subject, messageId, historyId),
                     ServiceStopped(u, ManualStop), ServiceStopped(u, ResponseReceived)])
  {
    var received := s.log + [EmailReceived(Some(u), subject, messageId, historyId)];
    assert received + [ServiceStopped(u, ManualStop)] + [ServiceStopped(u, ResponseReceived)] ==
      s.log + [EmailReceived(Some(u), subject, messageId, historyId),
               ServiceStopped(u, ManualStop), ServiceStopped(u, ResponseReceived)];
  }

  /** In a consistent state, looking up an active recipient's job id finds
      its reminder job. */
  lemma ActiveRecipientJob(s: State, u: string)
    requires Consistent(s) && u in s.active
    ensures FindById(s.jobs, JobId(u)) == Some(JobFor(u))
  {
    AtMostOneJob(s, u);
    JobOfRecipient(s, u, FindById(s.jobs, JobId(u)).value);
  }

  /** The display-name form of a `From` header resolves to the bracketed address. */
  lemma SenderOfDisplayName(name: string, u: string, others: seq<Header>)
    requires forall k :: 0 <= k < |name| ==> name[k] != '<'
    requires |u| >= 1 && NoLineTerminators(u)
    ensures SenderAddress([Header("From", name + "<" + u + ">")] + others) == Some(u)
  {
    DisplayNameForm(name, u);
  }

  lemma {:induction false} ReplyStepKeepsConsistent(s: State, messageId: string, sender: Option<string>,
                                                    subject: Option<string>, historyId: string, faults: Faults)
    requires Consistent(s)
    ensures Consistent(ReplyStep(s, messageId, sender, subject, historyId, faults))
  {
    if StopsReminder(s, sender) {
      var received := s.(log := s.log + [EmailReceived(sender, subject, messageId, historyId)]);
      StopKeepsConsistent(received, sender.value, faults);
    }
  }

  lemma {:induction false} DeliverKeepsConsistent(s: State, messages: seq<AddedMessage>, historyId: string, faults: Faults)
    requires Consistent(s)
    ensures Consistent(Deliver(s, messages, historyId, faults).state)
    decreases |messages|
  {
    if messages != [] && messages[0].fetch.Fetched? {
      var headers := messages[0].fetch.headers;
      var sender, subject := SenderAddress(headers), HeaderValue(headers, "Subject");
      var next := ReplyStep(s, messages[0].id, sender, subject, historyId, faults);
      ReplyStepKeepsConsistent(s, messages[0].id, sender, subject, historyId, faults);
      DeliverKeepsConsistent(next, messages[1..], historyId, faults);
    }
  }

  /** Handling a notification keeps the active set a mirror of the queue,
      whatever the replies and whatever fails. */
  lemma HandleNewEmailKeepsConsistent(s: State, historyId: string, reply: HistoryReply, faults: Faults)
    requires Consistent(s)
    ensures Consistent(HandleNewEmail(s, historyId, reply, faults).state)
  {
    if reply.History? {
      DeliverKeepsConsistent(s, Flatten(reply.records), historyId, faults);
    }
  }

  /** A notification whose history holds one reply, from an active recipient
      writing as `Name <address>`, cancels that recipient's reminder when the
      queue does not fail, and throws nothing. */
  lemma NotificationReplyCancels(s: State, u: string, name: string, messageId: string,
                                 historyId: string, faults: Faults)
    requires Consistent(s) && u in s.active
    requires forall k :: 0 <= k < |name| ==> name[k] != '<'
    requires |u| >= 1 && NoLineTerminators(u)
    requires GetRepeatableJobs !in faults && RemoveRepeatableByKey(KeyFor(u)) !in faults
    ensures var reply := History([HistoryRecord([AddedMessage(messageId, Fetched([Header("From", name + "<" + u + ">")]))])]);
      var r := HandleNewEmail(s, historyId, reply, faults);
      && r.thrown == None
      && r.state.active == s.active - {u}
      && r.state.jobs == RemoveByKey(s.jobs, KeyFor(u))
  {
    var headers := [Header("From", name + "<" + u + ">")];
    assert headers == headers + [];
    SenderOfDisplayName(name, u, []);
    ReplyCancels(s, u, messageId, HeaderValue(headers, "Subject"), historyId, faults);
    HandleOneMessage(s, AddedMessage(messageId, Fetched(headers)), historyId, faults);
  }

  /** A notification whose history holds one fetched message is one reply step. */
  lemma HandleOneMessage(s: State, message: AddedMessage, historyId: string, faults: Faults)
    requires message.fetch.Fetched?
    ensures var headers := message.fetch.headers;
      HandleNewEmail(s, historyId, History([HistoryRecord([message])]), faults) ==
      Handled(ReplyStep(s, message.id, SenderAddress(headers), HeaderValue(headers, "Subject"), historyId, faults), None)
  {
    var records := [HistoryRecord([message])];
    assert Flatten(records) == [message] by {
      assert records[1..] == [];
    }
    var headers := message.fetch.headers;
    var next := ReplyStep(s, message.id, SenderAddress(headers), HeaderValue(headers, "Subject"), historyId, faults);
    assert [message][1..] == [];
    assert Deliver(s, [message], historyId, faults) == Deliver(next, [], historyId, faults);
  }

  /** A reply from recipient `u` anywhere in a notification's history, with
      every message up to it fetched, leaves `u` inactive and without a job,
      when the queue neither fails to list nor fails to remove `u`'s key;
      the messages before and after it may be anything. */
  lemma ReplyInHistoryCancels(s: State, u: string, records: seq<HistoryRecord>, i: nat,
                              historyId: string, faults: Faults)
    requires Consistent(s) && u != ""
    requires GetRepeatableJobs !in faults && RemoveRepeatableByKey(KeyFor(u)) !in faults
    requires i < |Flatten(records)|
    requires forall k :: 0 <= k <= i ==> Flatten(records)[k].fetch.Fetched?
    requires SenderAddress(Flatten(records)[i].fetch.headers) == Some(u)
    ensures var r := HandleNewEmail(s, historyId, History(records), faults).state;
      && Consistent(r)
      && u !in r.active
      && forall k :: 0 <= k < |r.jobs| ==> r.jobs[k].key != KeyFor(u)
  {
    DeliverReplyCancels(s, u, Flatten(records), i, historyId, faults);
    HandleNewEmailKeepsConsistent(s, historyId, History(records), faults);
    var r := HandleNewEmail(s, historyId, History(records), faults).state;
    assert r.active == Deliver(s, Flatten(records), historyId, faults).state.active;
    NoJobForInactive(r, u);
  }

  /** The message loops part of `ReplyInHistoryCancels`. */
  lemma DeliverReplyCancels(s: State, u: string, messages: seq<AddedMessage>, i: nat,
                            historyId: string, faults: Faults)
    requires Consistent(s) && u != ""
    requires GetRepeatableJobs !in faults && RemoveRepeatableByKey(KeyFor(u)) !in faults
    requires i < |messages|
    requires forall k :: 0 <= k <= i ==> messages[k].fetch.Fetched?
    requires SenderAddress(messages[i].fetch.headers) == Some(u)
    ensures u !in Deliver(s, messages, historyId, faults).state.active
  {
    DeliverSplit(s, messages, i, historyId, faults);
    var s1 := Deliver(s, messages[..i], historyId, faults).state;
    DeliverKeepsConsistent(s, messages[..i], historyId, faults);
    DeliverFromReply(s1, u, messages, i, historyId, faults);
  }

  /** Delivering a history whose first `i` messages were fetched is
      delivering those, then the rest from the state they leave. */
  lemma DeliverSplit(s: State, messages: seq<AddedMessage>, i: nat, historyId: string, faults: Faults)
    requires i <= |messages|
    requires forall k :: 0 <= k < i ==> messages[k].fetch.Fetched?
    ensures Deliver(s, messages, historyId, faults) ==
      Deliver(Deliver(s, messages[..i], historyId, faults).state, messages[i..], historyId, faults)
  {
    var before := messages[..i];
    assert before + messages[i..] == messages;
    assert forall k :: 0 <= k < |before| ==> before[k] == messages[k];
    DeliverAppend(s, before, messages[i..], historyId, faults);
  }

  /** Delivering from a fetched reply from `u` on leaves `u` inactive. */
  lemma DeliverFromReply(s: State, u: string, messages: seq<AddedMessage>, i: nat,
                         historyId: string, faults: Faults)
    requires Consistent(s) && u != ""
    requires GetRepeatableJobs !in faults && RemoveRepeatableByKey(KeyFor(u)) !in faults
    requires i < |messages| && messages[i].fetch.Fetched?
    requires SenderAddress(messages[i].fetch.headers) == Some(u)
    ensures u !in Deliver(s, messages[i..], historyId, faults).state.active
  {
    var m := messages[i];
    var subject := HeaderValue(m.fetch.headers, "Subject");
    ReplyLeavesInactive(s, u, m.id, subject, historyId, faults);
    DeliverAt(s, messages, i, historyId, faults);
  }

  /** After a reply from `u`, with no queue failure, `u` is not active. */
  lemma ReplyLeavesInactive(s: State, u: string, messageId: string, subject: Option<string>,
                            historyId: string, faults: Faults)
    requires Consistent(s) && u != ""
    requires GetRepeatableJobs !in faults && RemoveRepeatableByKey(KeyFor(u)) !in faults
    ensures u !in ReplyStep(s, messageId, Some(u), subject, historyId, faults).active
  {
    if u in s.active {
      ReplyCancels(s, u, messageId, subject, historyId, faults);
    }
  }

  /** Delivering from a fetched message on is its reply step, then the rest. */
  lemma DeliverAt(s: State, messages: seq<AddedMessage>, i: nat, historyId: string, faults: Faults)
    requires i < |messages| && messages[i].fetch.Fetched?
    ensures var headers := messages[i].fetch.headers;
      Deliver(s, messages[i..], historyId, faults) ==
      Deliver(ReplyStep(s, messages[i].id, SenderAddress(headers), HeaderValue(headers, "Subject"), historyId, faults),
              messages[i + 1..], historyId, faults)
  {
    assert messages[i..][0] == messages[i] && messages[i..][1..] == messages[i + 1..];
  }

  /** Delivering messages that are all fetched and then more is delivering
      the first ones, then the rest from where they left the state. */
  lemma {:induction false} DeliverAppend(s: State, first: seq<AddedMessage>, rest: seq<AddedMessage>,
                                         historyId: string, faults: Faults)
    requires forall k :: 0 <= k < |first| ==> first[k].fetch.Fetched?
    ensures Deliver(s, first + rest, historyId, faults) ==
            Deliver(Deliver(s, first, historyId, faults).state, rest, historyId, faults)
    decreases |first|
  {
    if first == [] {
      assert first + rest == rest;
    } else {
      var headers := first[0].fetch.headers;
      var next := ReplyStep(s, first[0].id, SenderAddress(headers), HeaderValue(headers, "Subject"), historyId, faults);
      assert (first + rest)[0] == first[0];
      assert (first + rest)[1..] == first[1..] + rest;
      DeliverAppend(next, first[1..], rest, historyId, faults);
    }
  }

  /** Messages from senders that are not active change neither the jobs nor
      the active set. */
  lemma {:induction false} InactiveSendersChangeNothing(s: State, messages: seq<AddedMessage>, historyId: string, faults: Faults)
    requires forall m :: m in messages && m.fetch.Fetched? ==> !StopsReminder(s, SenderAddress(m.fetch.headers))
    ensures var r := Deliver(s, messages, historyId, faults).state;
      r.active == s.active && r.jobs == s.jobs
    decreases |messages|
  {
    if messages != [] && messages[0].fetch.Fetched? {
      var headers := messages[0].fetch.headers;
      var next := ReplyStep(s, messages[0].id, SenderAddress(headers), HeaderValue(headers, "Subject"), historyId, faults);
      assert messages[0] in messages;
      assert forall m :: m in messages[1..] ==> m in messages;
      InactiveSendersChangeNothing(next, messages[1..], historyId, faults);
    }
  }

  /** One reply step takes away at most the sender: no other recipient
      leaves the active set and, in a consistent state, no other recipient's
      job is removed. */
  lemma ReplyStepOnlyStopsSender(s: State, messageId: string, sender: Option<string>,
                                 subject: Option<string>, historyId: string, faults: Faults)
    ensures var r := ReplyStep(s, messageId, sender, subject, historyId, faults);
      && (forall v :: v in s.active && v !in r.active ==> sender == Some(v))
      && (Consistent(s) ==> forall j :: j in s.jobs && j !in r.jobs ==> sender == Some(RecoveredUser(j.id)))
  {
    var r := ReplyStep(s, messageId, sender, subject, historyId, faults);
    if StopsReminder(s, sender) && Consistent(s) {
      var u := sender.value;
      var received := s.(log := s.log + [EmailReceived(sender, subject, messageId, historyId)]);
      if Stop(received, u, faults).log[|received.log|].ServiceStopped? {
        ActiveRecipientJob(received, u);
        forall j | j in s.jobs && j !in r.jobs ensures sender == Some(RecoveredUser(j.id)) {
          KeyForInjective(RecoveredUser(j.id), u);
        }
      }
    }
  }

  /** A sender of a later message, or of the first one, is a sender of the history. */
  lemma RepliedByTail(messages: seq<AddedMessage>, v: string)
    requires messages != []
    ensures RepliedBy(messages[1..], v) ==> RepliedBy(messages, v)
    ensures messages[0].fetch.Fetched? && SenderAddress(messages[0].fetch.headers) == Some(v) ==>
      RepliedBy(messages, v)
  {
    if RepliedBy(messages[1..], v) {
      var k :| 0 <= k < |messages[1..]| && messages[1..][k].fetch.Fetched? &&
               SenderAddress(messages[1..][k].fetch.headers) == Some(v);
      assert messages[k + 1] == messages[1..][k];
    }
  }

  /** The message loop stops only the reminders of the senders of fetched
      messages: every recipient that leaves the active set, and in a
      consistent state every recipient whose job is removed, sent one. */
  lemma {:induction false} DeliverOnlyStopsRepliers(s: State, messages: seq<AddedMessage>, historyId: string, faults: Faults)
    ensures var r := Deliver(s, messages, historyId, faults).state;
      && (forall v :: v in s.active && v !in r.active ==> RepliedBy(messages, v))
      && (Consistent(s) ==> forall j :: j in s.jobs && j !in r.jobs ==> RepliedBy(messages, RecoveredUser(j.id)))
    decreases |messages|
  {
    if messages != [] && messages[0].fetch.Fetched? {
      var headers := messages[0].fetch.headers;
      var sender, subject := SenderAddress(headers), HeaderValue(headers, "Subject");
      var next := ReplyStep(s, messages[0].id, sender, subject, historyId, faults);
      var r := Deliver(next, messages[1..], historyId, faults).state;
      assert Deliver(s, messages, historyId, faults).state == r;
      ReplyStepOnlyStopsSender(s, messages[0].id, sender, subject, historyId, faults);
      DeliverOnlyStopsRepliers(next, messages[1..], historyId, faults);
      forall v | v in s.active && v !in r.active ensures RepliedBy(messages, v) {
        RepliedByTail(messages, v);
      }
      if Consistent(s) {
        ReplyStepKeepsConsistent(s, messages[0].id, sender, subject, historyId, faults);
        forall j | j in s.jobs && j !in r.jobs ensures RepliedBy(messages, RecoveredUser(j.id)) {
          RepliedByTail(messages, RecoveredUser(j.id));
        }
      }
    }
  }

  /** A notification stops only the reminders of the senders of fetched
      messages in its history; a failed or empty listing stops none. In a
      consistent state each removed job is `JobFor` of such a sender. */
  lemma HandleNewEmailOnlyStopsRepliers(s: State, historyId: string, reply: HistoryReply, faults: Faults)
    ensures var r := HandleNewEmail(s, historyId, reply, faults).state;
      && (forall v :: v in s.active && v !in r.active ==>
            reply.History? && RepliedBy(Flatten(reply.records), v))
      && (Consistent(s) ==> forall j :: j in s.jobs && j !in r.jobs ==>
            reply.History? && RepliedBy(Flatten(reply.records), RecoveredUser(j.id)))
  {
    if reply.History? {
      DeliverOnlyStopsRepliers(s, Flatten(reply.records), historyId, faults);
    }
  }

  /** The message loop ends at the first failed fetch with its error, in the
      state the messages before it left, having logged nothing for it. */
  lemma DeliverStopsAtFailure(s: State, messages: seq<AddedMessage>, i: nat, e: string,
                              historyId: string, faults: Faults)
    requires i < |messages| && messages[i].fetch == FetchFailed(e)
    requires forall k :: 0 <= k < i ==> messages[k].fetch.Fetched?
    ensures Deliver(s, messages, historyId, faults) ==
      Handled(Deliver(s, messages[..i], historyId, faults).state, Some(e))
  {
    DeliverSplit(s, messages, i, historyId, faults);
    assert messages[i..][0] == messages[i];
  }

  /** A notification whose history has a failed fetch at message `i` keeps
      the effects of the messages before it, logs exactly one processing
      error after them, and rethrows the fetch's error. */
  lemma HandleNewEmailFailedFetch(s: State, historyId: string, records: seq<HistoryRecord>, i: nat, e: string,
                                  faults: Faults)
    requires i < |Flatten(records)| && Flatten(records)[i].fetch == FetchFailed(e)
    requires forall k :: 0 <= k < i ==> Flatten(records)[k].fetch.Fetched?
    ensures var before := Deliver(s, Flatten(records)[..i], historyId, faults).state;
      HandleNewEmail(s, historyId, History(records), faults) ==
      Handled(before.(log := before.log + [ProcessingError(e, historyId)]), Some(e))
  {
    DeliverStopsAtFailure(s, Flatten(records), i, e, historyId, faults);
  }

  /** A stop-all whose removals all succeed leaves nothing running. */
  lemma StopAllCompletes(s: State, faults: Faults)
    requires GetRepeatableJobs !in faults
    requires forall j :: j in s.jobs ==> RemoveRepeatableByKey(j.key) !in faults
    ensures var r := StopAll(s, faults); r.jobs == [] && r.active == {} && Consistent(r)
  {
    assert forall q :: 0 <= q < |s.jobs| ==> s.jobs[q] in s.jobs;
  }

  /** As written, a stop-all whose second removal throws leaves the first
      recipient active with no job: a later start for it is skipped as
      "already running", so its reminder cannot be started again. */
  lemma StopAllPartialFailureStrandsRecipient(a: string, b: string, log: seq<Event>)
    requires a != b
    ensures var s := State({a, b}, [JobFor(a), JobFor(b)], log);
      var faults := map[RemoveRepeatableByKey(KeyFor(b)) := "Connection is closed."];
      var r := StopAll(s, faults);
      && Consistent(s)
      && r.jobs == [JobFor(b)]
      && a in r.active
      && !Consistent(r)
      && Start(r, a, map[]).jobs == r.jobs
  {
    TwoRemindersConsistent(a, b, log);
    StopAllStopsAtSecond(a, b, log);
    assert Recovered([JobFor(b)]) == {b} by {
      assert forall j :: j in [JobFor(b)] <==> j == JobFor(b);
    }
  }

  /** Two recipients with their two reminder jobs form a consistent state. */
  lemma TwoRemindersConsistent(a: string, b: string, log: seq<Event>)
    requires a != b
    ensures Consistent(State({a, b}, [JobFor(a), JobFor(b)], log))
  {
    var users := [a, b];
    JobsForConsistent(users, log);
    assert JobsFor(users) == [JobFor(a), JobFor(b)];
    assert (set u | u in users) == {a, b};
  }

  /** The stop-all of that state, when removing the second job throws, stops
      after removing the first job and keeps both recipients active. */
  lemma StopAllStopsAtSecond(a: string, b: string, log: seq<Event>)
    requires a != b
    ensures var s := State({a, b}, [JobFor(a), JobFor(b)], log);
      StopAll(s, map[RemoveRepeatableByKey(KeyFor(b)) := "Connection is closed."]) ==
        State({a, b}, [JobFor(b)], log)
  {
    var s := State({a, b}, [JobFor(a), JobFor(b)], log);
    var faults := map[RemoveRepeatableByKey(KeyFor(b)) := "Connection is closed."];
    KeyForInjective(a, b);
    assert UniqueKeys(s.jobs);
    assert FirstFailingRemoval(s.jobs, faults) == 1;
    assert s.jobs[1..] == [JobFor(b)];
  }

  /** The intended stop-all keeps the mirror whatever fails: the recipients
      whose removal threw keep both their job and their active entry. */
  lemma {:induction false} RemoveEachKeepsConsistent(s: State, pending: seq<RepeatableJob>, faults: Faults)
    requires Consistent(s) && ReminderJobs(pending)
    ensures Consistent(RemoveEach(s, pending, faults))
    decreases |pending|
  {
    if pending != [] {
      var job := pending[0];
      assert job in pending;
      var u := RecoveredUser(job.id);
      if RemoveRepeatableByKey(job.key) in faults {
        RemoveEachKeepsConsistent(s, pending[1..], faults);
      } else {
        RemoveRecipientKeepsConsistent(s, u);
        var next := s.(jobs := RemoveByKey(s.jobs, job.key), active := s.active - {u});
        RemoveEachKeepsConsistent(next, pending[1..], faults);
      }
    }
  }

  lemma StopAllBestEffortKeepsConsistent(s: State, faults: Faults)
    requires Consistent(s)
    ensures Consistent(StopAllBestEffort(s, faults))
  {
    if GetRepeatableJobs !in faults {
      RemoveEachKeepsConsistent(s, s.jobs, faults);
      var removed := RemoveEach(s, s.jobs, faults);
      assert removed.active * Recovered(removed.jobs) == removed.active;
    }
  }
}
