/** One channel of the AIP driver as a state machine. Every locked section of the driver is one
    step. The hardware is either idle or busy with one job; the other ghost parts of the state
    record what has happened to the jobs so far. */
module Scheduler {
  import opened Sequences

  datatype JobState = Initial | Running

  datatype Job = Job(seqno: nat, pid: nat, state: JobState)

  datatype Hw = HwIdle | HwBusy(seqno: nat)

  /** submitted, finished, jobs, done: the fields of the device. hw: the hardware. The rest is history:
      job starts in order, reaped jobs in order, cancelled jobs, and the resets done by releases. */
  datatype Chan = Chan(
    submitted: nat,
    finished: nat,
    jobs: seq<Job>,
    done: seq<Job>,
    hw: Hw,
    started: seq<nat>,
    reaped: seq<nat>,
    cancelled: seq<nat>,
    resets: nat)

  const INIT := Chan(0, 0, [], [], HwIdle, [], [], [], 0)

  function Seqnos(jobs: seq<Job>): (s: seq<nat>)
    ensures |s| == |jobs| && forall i :: 0 <= i < |s| ==> s[i] == jobs[i].seqno
  {
    seq(|jobs|, i requires 0 <= i < |jobs| => jobs[i].seqno)
  }

  // ---------------------------------------------------------------- the locked sections

  /** jz_aip_v20_submit_next_*_job: start the first job, if there is one. */
  function SubmitNext(c: Chan): Chan {
    if c.jobs == [] then c
    else
      var j := c.jobs[0];
      c.(jobs := [j.(state := Running)] + c.jobs[1..], hw := HwBusy(j.seqno), started := c.started + [j.seqno])
  }

  /** The locked tail of jz_aip_v20_*_op: number the job, queue it, start it if it is the first. */
  function Submit(c: Chan, pid: nat): Chan {
    var c1 := c.(submitted := c.submitted + 1, jobs := c.jobs + [Job(c.submitted + 1, pid, Initial)]);
    if |c1.jobs| == 1 then SubmitNext(c1) else c1
  }

  /** Completion of the first job: record its number, move it to the done list, start the next one. */
  function Complete(c: Chan): Chan
    requires c.jobs != []
  {
    SubmitNext(c.(finished := c.jobs[0].seqno, jobs := c.jobs[1..], done := c.done + [c.jobs[0]]))
  }

  /** The interrupt of channels F and P: the hardware has finished, then the handler runs. */
  function Irq(c: Chan): Chan {
    var c1 := c.(hw := HwIdle);
    if c.jobs == [] then c1
    else if c.jobs[0].state != Running then SubmitNext(c1)
    else Complete(c1)
  }

  /** The interrupt of channel T, which does not look at the state of the job. */
  function IrqT(c: Chan): Chan {
    var c1 := c.(hw := HwIdle);
    if c.jobs == [] then c1 else Complete(c1)
  }

  /** The loop of jz_aip_v20_*_release over the jobs from index `i` on. */
  function ReleaseFrom(c: Chan, pid: nat, i: nat, again: bool): (Chan, bool)
    requires i <= |c.jobs|
    decreases |c.jobs| - i
  {
    if i == |c.jobs| then (c, again)
    else
      var j := c.jobs[i];
      if j.pid != pid then ReleaseFrom(c, pid, i + 1, again)
      else
        var c1 := c.(jobs := c.jobs[..i] + c.jobs[i + 1..], cancelled := c.cancelled + [j.seqno]);
        if j.state == Running then ReleaseFrom(c1.(hw := HwIdle, resets := c.resets + 1), pid, i, true)
        else ReleaseFrom(c1, pid, i, again)
  }

  /** jz_aip_v20_*_release: drop the jobs of a process; restart only if the running one was dropped. */
  function Release(c: Chan, pid: nat): Chan {
    var (c1, again) := ReleaseFrom(c, pid, 0, false);
    if again then SubmitNext(c1) else c1
  }

  /** One locked pop of jz_aip_v20_*_job_handle_completed. */
  function Reap(c: Chan): Chan {
    if c.done == [] then c else c.(done := c.done[1..], reaped := c.reaped + [c.done[0].seqno])
  }

  // ---------------------------------------------------------------- the invariant

  ghost predicate Increasing(s: seq<nat>) {
    forall i, j :: 0 <= i < j < |s| ==> s[i] < s[j]
  }

  /** The jobs that completed, reaped or not yet. */
  function Completed(c: Chan): seq<nat> {
    c.reaped + Seqnos(c.done)
  }

  /** The queue discipline: numbers increase and lie in (finished, submitted]; a non-empty list has its
      first job running, no other one, and the hardware runs exactly that job. */
  ghost predicate Queue(c: Chan) {
    && Increasing(Seqnos(c.jobs))
    && c.finished <= c.submitted
    && (forall i :: 0 <= i < |c.jobs| ==> c.finished < c.jobs[i].seqno <= c.submitted)
    && (forall i :: 0 <= i < |c.jobs| ==> (c.jobs[i].state == Running <==> i == 0))
    && c.hw == (if c.jobs == [] then HwIdle else HwBusy(c.jobs[0].seqno))
  }

  /** Jobs complete in the order of their numbers, and `finished` is the last completed one. */
  ghost predicate Completion(c: Chan) {
    && Increasing(Completed(c))
    && c.finished == (if Completed(c) == [] then 0 else Completed(c)[|Completed(c)| - 1])
  }

  /** Jobs start in the order of their numbers; the running one was started last. */
  ghost predicate Starts(c: Chan) {
    && Increasing(c.started)
    && (forall i :: 0 <= i < |c.started| ==> 0 < c.started[i] <= c.submitted)
    && (forall i, s :: 0 < i < |c.jobs| && s in c.started ==> s < c.jobs[i].seqno)
    && (c.jobs != [] ==> c.started != [] && c.started[|c.started| - 1] == c.jobs[0].seqno)
    && (forall s :: s in Completed(c) ==> s in c.started)
  }

  /** Where a job number is at the moment. */
  predicate Queued(c: Chan, s: nat) { s in Seqnos(c.jobs) }
  predicate Done(c: Chan, s: nat) { s in Seqnos(c.done) }
  predicate Reaped(c: Chan, s: nat) { s in c.reaped }
  predicate Cancelled(c: Chan, s: nat) { s in c.cancelled }

  /** Every accepted job is in exactly one place, and no other number is anywhere. */
  ghost predicate Conserved(c: Chan) {
    && NoDup(c.cancelled)
    && (forall s: nat {:trigger Queued(c, s)} :: 0 < s <= c.submitted <==>
      Queued(c, s) || s in Completed(c) || Cancelled(c, s))
    && (forall s: nat {:trigger Cancelled(c, s)} :: Cancelled(c, s) ==> !Queued(c, s) && s !in Completed(c))
    && (forall s: nat {:trigger Queued(c, s)} :: Queued(c, s) ==> s !in Completed(c))
  }

  ghost predicate Inv(c: Chan) {
    Queue(c) && Completion(c) && Starts(c) && Conserved(c)
  }
}
