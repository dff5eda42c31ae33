/** The registry of repeatable jobs behind the `email-queue` queue, as the
    scheduler sees it through `add`, `getRepeatableJobs` and
    `removeRepeatableByKey`. The queue's storage and timers are outside the
    model: a job is its id and the removal key the queue derives for it. */
module JobStore {
  import opened Options
  import opened Sequences
  import Text

  /** The queue's repeat key. The queue derives it from the job's name, id and
      repeat interval; the scheduler treats it as an opaque removal token. */
  datatype JobKey = JobKey(name: string, id: string, every: nat)

  /** One entry of `getRepeatableJobs()`. */
  datatype RepeatableJob = RepeatableJob(id: string, key: JobKey)

  /** A call into the queue that can throw. */
  datatype StoreCall =
    | Add(key: JobKey)
    | GetRepeatableJobs
    | RemoveRepeatableByKey(key: JobKey)

  /** Which queue calls throw, and with what message; every other call succeeds. */
  type Faults = map<StoreCall, string>

  /** The repeat interval of every reminder, in milliseconds. */
  const IntervalMs: nat := 60000

  const RecurringPrefix: string := "recurring-"
  const NamePrefix: string := "email-service-"

  /** The deterministic job id of a recipient's reminder; recovery reads the
      recipient back from it. */
  function JobId(userEmail: string): (r: string)
    ensures RecoveredUser(r) == userEmail
  {
    Text.ReplaceFirstOfPrefix(RecurringPrefix, userEmail);
    RecurringPrefix + userEmail
  }

  /** The repeat key of a recipient's reminder: it carries the job id, so the
      recipient can be read back from it. */
  function KeyFor(userEmail: string): (r: JobKey)
    ensures RecoveredUser(r.id) == userEmail && r.every == IntervalMs
  {
    JobKey(NamePrefix + userEmail, JobId(userEmail), IntervalMs)
  }

  /** The job that starting a reminder for `userEmail` registers. */
  function JobFor(userEmail: string): (r: RepeatableJob)
    ensures r.key == KeyFor(userEmail) && r.id == r.key.id && RecoveredUser(r.id) == userEmail
  {
    RepeatableJob(JobId(userEmail), KeyFor(userEmail))
  }

  /** The recipient that startup recovery reads back from a job id:
      `id.replace('recurring-', '')`. */
  function RecoveredUser(id: string): string
  {
    Text.ReplaceFirst(id, RecurringPrefix, "")
  }

  /** Recovery drops the prefix of an id that starts with it, and leaves an
      id without any `recurring-` whole. */
  lemma RecoveredUserSpec(id: string)
    ensures |RecurringPrefix| <= |id| && id[..|RecurringPrefix|] == RecurringPrefix ==>
      RecoveredUser(id) == id[|RecurringPrefix|..]
    ensures (forall k :: 0 <= k <= |id| ==> !Text.OccursAt(id, RecurringPrefix, k)) ==> RecoveredUser(id) == id
  {
    if |RecurringPrefix| <= |id| && id[..|RecurringPrefix|] == RecurringPrefix {
      assert Text.OccursAt(id, RecurringPrefix, 0);
      assert Text.IndexOf(id, RecurringPrefix, 0) == Some(0);
    }
  }

  /** Different recipients never share a key, hence never a job. */
  lemma {:induction false} KeyForInjective(u: string, v: string)
    ensures KeyFor(u) == KeyFor(v) ==> u == v
  {
  }

  /** The queue holds each repeat key at most once. */
  predicate UniqueKeys(jobs: seq<RepeatableJob>)
  {
    forall p, q :: 0 <= p < q < |jobs| ==> jobs[p].key != jobs[q].key
  }

  predicate HasKey(jobs: seq<RepeatableJob>, key: JobKey)
  {
    exists k :: 0 <= k < |jobs| && jobs[k].key == key
  }

  function KeysOf(jobs: seq<RepeatableJob>): set<JobKey>
  {
    set j | j in jobs :: j.key
  }

  lemma KeysOfAppend(jobs: seq<RepeatableJob>, job: RepeatableJob)
    ensures KeysOf(jobs + [job]) == KeysOf(jobs) + {job.key}
  {
    assert forall j :: j in jobs + [job] <==> j in jobs || j == job;
  }

  /** `add` with a repeat option: a job whose key the queue already holds is
      not added a second time. */
  function AddRepeatable(jobs: seq<RepeatableJob>, job: RepeatableJob): (r: seq<RepeatableJob>)
    ensures HasKey(r, job.key)
    ensures |jobs| <= |r| <= |jobs| + 1 && r[..|jobs|] == jobs
    ensures !HasKey(jobs, job.key) ==> r == jobs + [job]
    ensures HasKey(jobs, job.key) ==> r == jobs
    ensures UniqueKeys(jobs) ==> UniqueKeys(r)
  {
    if HasKey(jobs, job.key) then jobs
    else
      assert forall p :: 0 <= p < |jobs| ==> (jobs + [job])[p] == jobs[p] && jobs[p].key != job.key;
      assert (jobs + [job])[|jobs|] == job;
      jobs + [job]
  }

  /** `jobs.find(job => job.id === id)`: the first job with that id. */
  function FindById(jobs: seq<RepeatableJob>, id: string): (r: Option<RepeatableJob>)
    ensures r.None? <==> forall k :: 0 <= k < |jobs| ==> jobs[k].id != id
    ensures r.Some? ==> exists k :: 0 <= k < |jobs| && r.value == jobs[k] && r.value.id == id &&
                                    forall q :: 0 <= q < k ==> jobs[q].id != id
  {
    match FirstIndex(jobs, (j: RepeatableJob) => j.id == id)
    case None => None
    case Some(k) => Some(jobs[k])
  }

  /** The jobs whose keys are not in `keys`, in their order: what is left after
      `removeRepeatableByKey` has been called with each of `keys`. */
  function RemoveKeys(jobs: seq<RepeatableJob>, keys: set<JobKey>): (r: seq<RepeatableJob>)
    ensures forall j :: j in r <==> j in jobs && j.key !in keys
    ensures |r| <= |jobs|
    ensures UniqueKeys(jobs) ==> UniqueKeys(r)
  {
    if jobs == [] then []
    else
      var rest := RemoveKeys(jobs[1..], keys);
      assert forall j :: j in jobs <==> j == jobs[0] || j in jobs[1..];
      if jobs[0].key in keys then rest
      else
        assert UniqueKeys(jobs) ==> UniqueKeys([jobs[0]] + rest) by {
          if UniqueKeys(jobs) {
            assert forall j :: j in jobs[1..] ==> j.key != jobs[0].key;
            forall p, q | 0 <= p < q < |[jobs[0]] + rest|
              ensures ([jobs[0]] + rest)[p].key != ([jobs[0]] + rest)[q].key
            {
              if p == 0 { assert ([jobs[0]] + rest)[q] in rest; }
              else { assert ([jobs[0]] + rest)[p] == rest[p - 1]; }
            }
          }
        }
        [jobs[0]] + rest
  }

  /** `removeRepeatableByKey(key)`: every job with that key goes, the others
      stay; a key the queue does not hold changes nothing. */
  function RemoveByKey(jobs: seq<RepeatableJob>, key: JobKey): (r: seq<RepeatableJob>)
    ensures forall j :: j in r <==> j in jobs && j.key != key
    ensures !HasKey(jobs, key) ==> r == jobs
  {
    if HasKey(jobs, key) then RemoveKeys(jobs, {key})
    else
      RemoveAbsentKeys(jobs, {key});
      RemoveKeys(jobs, {key})
  }

  /** Removal by key works job by job: a job added at the end is kept or
      dropped on its own key. */
  lemma {:induction false} RemoveKeysAppend(jobs: seq<RepeatableJob>, job: RepeatableJob, keys: set<JobKey>)
    ensures RemoveKeys(jobs + [job], keys) == RemoveKeys(jobs, keys) + (if job.key in keys then [] else [job])
  {
    if jobs == [] {
      assert jobs + [job] == [job];
    } else {
      assert (jobs + [job])[1..] == jobs[1..] + [job];
      RemoveKeysAppend(jobs[1..], job, keys);
    }
  }

  /** Removing keys no job carries changes nothing. */
  lemma RemoveAbsentKeys(jobs: seq<RepeatableJob>, keys: set<JobKey>)
    requires forall q :: 0 <= q < |jobs| ==> jobs[q].key !in keys
    ensures RemoveKeys(jobs, keys) == jobs
  {
    RemoveKeysOfPrefix(jobs, keys, 0);
  }

  /** Adding a job whose id and key are new, then finding it by id and
      removing it by key, gives the original list back. */
  lemma AddFindRemove(jobs: seq<RepeatableJob>, job: RepeatableJob)
    requires forall k :: 0 <= k < |jobs| ==> jobs[k].key != job.key && jobs[k].id != job.id
    ensures AddRepeatable(jobs, job) == jobs + [job]
    ensures FindById(jobs + [job], job.id) == Some(job)
    ensures RemoveByKey(jobs + [job], job.key) == jobs
  {
    var added := jobs + [job];
    assert forall k :: 0 <= k < |jobs| ==> added[k] == jobs[k];
    assert added[|jobs|] == job;
    FindOnlyLast(jobs, job);
    RemoveKeysAppend(jobs, job, {job.key});
    RemoveAbsentKeys(jobs, {job.key});
  }

  /** A job whose id no earlier job has is the one found by that id. */
  lemma FindOnlyLast(jobs: seq<RepeatableJob>, job: RepeatableJob)
    requires forall k :: 0 <= k < |jobs| ==> jobs[k].id != job.id
    ensures FindById(jobs + [job], job.id) == Some(job)
  {
    var added := jobs + [job];
    assert added[|jobs|] == job;
    var r := FindById(added, job.id);
    var k :| 0 <= k < |added| && r.value == added[k] && r.value.id == job.id;
    assert k == |jobs|;
  }

  /** Removing one key after a set of keys is removing both. */
  lemma {:induction false} RemoveKeysTwice(jobs: seq<RepeatableJob>, keys: set<JobKey>, key: JobKey)
    ensures RemoveByKey(RemoveKeys(jobs, keys), key) == RemoveKeys(jobs, keys + {key})
  {
    if jobs != [] {
      RemoveKeysTwice(jobs[1..], keys, key);
    }
  }

  /** Removing the next listed key extends the removed prefix by one job. */
  lemma RemoveNextKey(jobs: seq<RepeatableJob>, i: nat)
    requires i < |jobs|
    ensures RemoveByKey(RemoveKeys(jobs, KeysOf(jobs[..i])), jobs[i].key) == RemoveKeys(jobs, KeysOf(jobs[..i + 1]))
  {
    KeysOfNext(jobs, i);
    RemoveKeysTwice(jobs, KeysOf(jobs[..i]), jobs[i].key);
  }

  /** The keys of the first `i + 1` jobs are those of the first `i` and the next one's. */
  lemma KeysOfNext(jobs: seq<RepeatableJob>, i: nat)
    requires i < |jobs|
    ensures KeysOf(jobs[..i + 1]) == KeysOf(jobs[..i]) + {jobs[i].key}
  {
    assert jobs[..i + 1] == jobs[..i] + [jobs[i]];
    KeysOfAppend(jobs[..i], jobs[i]);
  }

  /** When the removed keys are exactly those of the first `k` jobs, the jobs
      from index `k` on remain, in order. */
  lemma {:induction false} RemoveKeysOfPrefix(jobs: seq<RepeatableJob>, keys: set<JobKey>, k: nat)
    requires k <= |jobs|
    requires forall q :: 0 <= q < k ==> jobs[q].key in keys
    requires forall q :: k <= q < |jobs| ==> jobs[q].key !in keys
    ensures RemoveKeys(jobs, keys) == jobs[k..]
  {
    if jobs != [] {
      RemoveKeysOfPrefix(jobs[1..], keys, if k == 0 then 0 else k - 1);
    }
  }

  /** Removing the keys of the first `k` jobs of a queue with unique keys
      leaves exactly the jobs from index `k` on. */
  lemma RemoveLeadingKeys(jobs: seq<RepeatableJob>, k: nat)
    requires UniqueKeys(jobs) && k <= |jobs|
    ensures RemoveKeys(jobs, KeysOf(jobs[..k])) == jobs[k..]
  {
    var keys := KeysOf(jobs[..k]);
    forall q | 0 <= q < k ensures jobs[q].key in keys {
      assert jobs[..k][q] == jobs[q];
    }
    forall q | k <= q < |jobs| ensures jobs[q].key !in keys {
      forall j | j in jobs[..k] ensures j.key != jobs[q].key {
        var p :| 0 <= p < k && jobs[..k][p] == j;
      }
    }
    RemoveKeysOfPrefix(jobs, keys, k);
  }

  /** Removing every listed key empties the list, duplicates or not. */
  lemma RemoveAllKeys(jobs: seq<RepeatableJob>)
    ensures RemoveKeys(jobs, KeysOf(jobs)) == []
  {
    forall q | 0 <= q < |jobs| ensures jobs[q].key in KeysOf(jobs) {
      assert jobs[q] in jobs;
    }
    RemoveKeysOfPrefix(jobs, KeysOf(jobs), |jobs|);
  }

  /** The index of the first job whose removal throws, or `|jobs|` when none does. */
  function FirstFailingRemoval(jobs: seq<RepeatableJob>, faults: Faults): (k: nat)
    ensures k <= |jobs|
    ensures forall q :: 0 <= q < k ==> RemoveRepeatableByKey(jobs[q].key) !in faults
    ensures k < |jobs| ==> RemoveRepeatableByKey(jobs[k].key) in faults
  {
    if jobs == [] then 0
    else if RemoveRepeatableByKey(jobs[0].key) in faults then 0
    else
      var k := FirstFailingRemoval(jobs[1..], faults);
      assert forall q :: 1 <= q < k + 1 ==> jobs[q] == jobs[1..][q - 1];
      k + 1
  }
}
