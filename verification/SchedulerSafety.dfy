/** Safety of the channel over all interleavings: the invariant of every step, what a release does
    and leaves alone, and conservation of jobs. */
module SchedulerSafety {
  import opened Sequences
  import opened Scheduler

  // ---------------------------------------------------------------- submit

  lemma SeqnosOf(jobs: seq<Job>, s: nat)
    ensures s in Seqnos(jobs) <==> exists i :: 0 <= i < |jobs| && jobs[i].seqno == s
  {
    if i :| 0 <= i < |jobs| && jobs[i].seqno == s {
      assert Seqnos(jobs)[i] == s;
    }
  }

  lemma SeqnosConcat(a: seq<Job>, b: seq<Job>)
    ensures Seqnos(a + b) == Seqnos(a) + Seqnos(b)
  {
  }

  lemma IncreasingAppend(s: seq<nat>, x: nat)
    requires Increasing(s) && forall y :: y in s ==> y < x
    ensures Increasing(s + [x])
  {
    var t := s + [x];
    forall i, j | 0 <= i < j < |t| ensures t[i] < t[j] {
      assert t[i] == s[i] && s[i] in s;
      assert j < |s| ==> t[j] == s[j];
    }
  }

  /** The hardware is idle, and the jobs in the queue have not been started. */
  ghost predicate Waiting(c: Chan) {
    && Increasing(Seqnos(c.jobs)) && c.finished <= c.submitted && c.hw == HwIdle
    && (forall i :: 0 <= i < |c.jobs| ==> c.finished < c.jobs[i].seqno <= c.submitted && c.jobs[i].state == Initial)
    && (forall i, s :: 0 <= i < |c.jobs| && s in c.started ==> s < c.jobs[i].seqno)
    && Increasing(c.started) && (forall i :: 0 <= i < |c.started| ==> 0 < c.started[i] <= c.submitted)
    && (forall s :: s in Completed(c) ==> s in c.started)
  }

  /** Starting the first of some jobs that wait for idle hardware. */
  lemma SubmitNextKeepsInv(c: Chan)
    requires Waiting(c) && Completion(c) && Conserved(c)
    ensures Inv(SubmitNext(c))
  {
    var d := SubmitNext(c);
    if c.jobs != [] {
      assert Seqnos(d.jobs) == Seqnos(c.jobs);
      IncreasingAppend(c.started, c.jobs[0].seqno);
      assert forall i :: 0 < i < |d.jobs| ==> Seqnos(c.jobs)[0] < Seqnos(c.jobs)[i];
      assert Completed(d) == Completed(c);
      assert forall s: nat :: Queued(d, s) <==> Queued(c, s);
      assert forall s: nat :: Cancelled(d, s) <==> Cancelled(c, s);
    }
  }

  lemma SubmitKeepsInv(c: Chan, pid: nat)
    requires Inv(c)
    ensures Inv(Submit(c, pid))
  {
    var j := Job(c.submitted + 1, pid, Initial);
    QueuedLast(c, j);
    SubmitConserves(c, c.(submitted := j.seqno, jobs := c.jobs + [j]), j.seqno);
    if c.jobs == [] {
      SubmitToIdle(c, j);
    } else {
      SubmitStarts(c, j);
      SubmitBehind(c, j);
    }
  }

  /** A job that comes to an empty queue is started at once. */
  lemma SubmitToIdle(c: Chan, j: Job)
    requires Inv(c) && c.jobs == [] && j.seqno == c.submitted + 1 && j.state == Initial
    requires Conserved(c.(submitted := j.seqno, jobs := c.jobs + [j]))
    ensures Inv(SubmitNext(c.(submitted := j.seqno, jobs := c.jobs + [j])))
  {
    var c1 := c.(submitted := j.seqno, jobs := c.jobs + [j]);
    assert Completed(c1) == Completed(c);
    assert c1.jobs == [j] && Seqnos(c1.jobs) == [j.seqno];
    SubmitNextKeepsInv(c1);
  }

  /** Any other job waits at the end of the queue. */
  lemma SubmitBehind(c: Chan, j: Job)
    requires Queue(c) && Completion(c) && c.jobs != [] && j.seqno == c.submitted + 1 && j.state == Initial
    requires Increasing(Seqnos(c.jobs + [j]))
    ensures var c1 := c.(submitted := j.seqno, jobs := c.jobs + [j]); Queue(c1) && Completion(c1)
  {
    assert Completed(c.(submitted := j.seqno, jobs := c.jobs + [j])) == Completed(c);
  }

  lemma SubmitStarts(c: Chan, j: Job)
    requires Queue(c) && Starts(c) && c.jobs != [] && j.seqno == c.submitted + 1
    ensures Starts(c.(submitted := j.seqno, jobs := c.jobs + [j]))
  {
    var c1 := c.(submitted := j.seqno, jobs := c.jobs + [j]);
    assert Completed(c1) == Completed(c);
    assert forall s :: s in c.started ==> s <= c.submitted;
  }

  lemma QueuedLast(c: Chan, j: Job)
    requires Queue(c) && j.seqno == c.submitted + 1
    ensures Seqnos(c.jobs + [j]) == Seqnos(c.jobs) + [j.seqno] && Increasing(Seqnos(c.jobs + [j]))
  {
    SeqnosConcat(c.jobs, [j]);
    assert Seqnos([j]) == [j.seqno];
    assert forall y :: y in Seqnos(c.jobs) ==> y < j.seqno;
    IncreasingAppend(Seqnos(c.jobs), j.seqno);
  }

  lemma SubmitConserves(c: Chan, c1: Chan, n: nat)
    requires Inv(c) && n == c.submitted + 1 && Seqnos(c1.jobs) == Seqnos(c.jobs) + [n]
    requires c1.submitted == n && c1.done == c.done && c1.reaped == c.reaped && c1.cancelled == c.cancelled
    ensures Conserved(c1)
  {
    assert !Queued(c, n);
    forall s: nat ensures Queued(c1, s) <==> Queued(c, s) || s == n {}
    assert Completed(c1) == Completed(c);
    forall s: nat ensures Cancelled(c1, s) <==> Cancelled(c, s) {}
    assert n !in Completed(c) && !Cancelled(c, n);
  }

  // ---------------------------------------------------------------- interrupt

  /** The channel when its first job has finished and the next one has not started. */
  function AfterHead(c: Chan): Chan
    requires c.jobs != []
  {
    c.(hw := HwIdle, finished := c.jobs[0].seqno, jobs := c.jobs[1..], done := c.done + [c.jobs[0]])
  }

  lemma CompleteKeepsInv(c: Chan)
    requires Inv(c) && c.jobs != []
    ensures Inv(Complete(c.(hw := HwIdle)))
    ensures Complete(c.(hw := HwIdle)).finished > c.finished
  {
    AfterHeadWaits(c);
    SubmitNextKeepsInv(AfterHead(c));
  }

  lemma AfterHeadWaits(c: Chan)
    requires Inv(c) && c.jobs != []
    ensures var d := AfterHead(c); Waiting(d) && Completion(d) && Conserved(d)
  {
    var j, d := c.jobs[0], AfterHead(c);
    AfterHeadCompleted(c);
    assert Seqnos(c.jobs) == [j.seqno] + Seqnos(d.jobs);
    forall i | 0 <= i < |d.jobs| ensures j.seqno < d.jobs[i].seqno && d.jobs[i].state == Initial {
      assert d.jobs[i] == c.jobs[i + 1];
      assert Seqnos(c.jobs)[0] < Seqnos(c.jobs)[i + 1];
    }
    forall i, s | 0 <= i < |d.jobs| && s in d.started ensures s < d.jobs[i].seqno {
      assert d.jobs[i] == c.jobs[i + 1];
    }
    CompleteConserves(c, d, j.seqno);
  }

  lemma AfterHeadCompleted(c: Chan)
    requires Queue(c) && Completion(c) && c.jobs != []
    ensures Completed(AfterHead(c)) == Completed(c) + [c.jobs[0].seqno] && Completion(AfterHead(c))
  {
    var j := c.jobs[0];
    SeqnosConcat(c.done, [j]);
    assert Seqnos([j]) == [j.seqno];
    Associate(c.reaped, Seqnos(c.done), [j.seqno]);
    forall s | s in Completed(c) ensures s < j.seqno {
      CompletedBelow(c, s);
    }
    IncreasingAppend(Completed(c), j.seqno);
  }

  lemma CompletedBelow(c: Chan, s: nat)
    requires Completion(c) && s in Completed(c)
    ensures s <= c.finished
  {
    var t := Completed(c);
    var i :| 0 <= i < |t| && t[i] == s;
    assert i == |t| - 1 || t[i] < t[|t| - 1];
  }

  lemma CompleteConserves(c: Chan, d: Chan, n: nat)
    requires Inv(c) && Seqnos(c.jobs) == [n] + Seqnos(d.jobs) && Completed(d) == Completed(c) + [n]
    requires d.submitted == c.submitted && d.cancelled == c.cancelled
    ensures Conserved(d)
  {
    assert Queued(c, n);
    forall s: nat ensures Queued(d, s) <==> Queued(c, s) && s != n {
      if s in Seqnos(d.jobs) {
        var i :| 0 <= i < |Seqnos(d.jobs)| && Seqnos(d.jobs)[i] == s;
        assert Seqnos(c.jobs)[i + 1] == s && Seqnos(c.jobs)[0] < Seqnos(c.jobs)[i + 1];
      }
    }
    forall s: nat ensures Cancelled(d, s) <==> Cancelled(c, s) {}
  }

  lemma IrqKeepsInv(c: Chan)
    requires Inv(c)
    ensures Inv(Irq(c))
    ensures c.hw != HwIdle ==> Irq(c).finished > c.finished && c.hw == HwBusy(Irq(c).finished)
  {
    if c.jobs != [] {
      CompleteKeepsInv(c);
    }
  }

  /** The test of the F and P handlers for a job that is not running is never met, and the T handler,
      which lacks the test, makes the same step. */
  lemma HandlersAgree(c: Chan)
    requires Inv(c)
    ensures c.jobs != [] ==> c.jobs[0].state == Running
    ensures IrqT(c) == Irq(c)
  {
  }

  // ---------------------------------------------------------------- reaping

  /** Reaping moves a job from one completed place to the other. */
  lemma ReapCompleted(c: Chan)
    ensures Completed(Reap(c)) == Completed(c)
  {
    if c.done != [] {
      assert Seqnos(c.done) == [c.done[0].seqno] + Seqnos(c.done[1..]);
    }
  }

  lemma ReapKeepsInv(c: Chan)
    requires Inv(c)
    ensures Inv(Reap(c)) && Completed(Reap(c)) == Completed(c)
  {
    ReapCompleted(c);
    if c.done != [] {
      var d := Reap(c);
      forall s: nat ensures Queued(d, s) <==> Queued(c, s) {}
      forall s: nat ensures Cancelled(d, s) <==> Cancelled(c, s) {}
    }
  }

  // ---------------------------------------------------------------- release

  /** The jobs of other processes, in their order. */
  function Kept(jobs: seq<Job>, pid: nat): seq<Job> {
    if jobs == [] then []
    else (if jobs[0].pid != pid then [jobs[0]] else []) + Kept(jobs[1..], pid)
  }

  /** The numbers of the jobs of `pid`, in their order. */
  function Dropped(jobs: seq<Job>, pid: nat): seq<nat> {
    if jobs == [] then []
    else (if jobs[0].pid == pid then [jobs[0].seqno] else []) + Dropped(jobs[1..], pid)
  }

  function RunningDropped(jobs: seq<Job>, pid: nat): nat {
    if jobs == [] then 0
    else (if jobs[0].pid == pid && jobs[0].state == Running then 1 else 0) + RunningDropped(jobs[1..], pid)
  }

  lemma Unfold(jobs: seq<Job>, i: nat, pid: nat)
    requires i < |jobs|
    ensures var j := jobs[i]; var hit := j.pid == pid;
      && Kept(jobs[i..], pid) == (if hit then [] else [j]) + Kept(jobs[i + 1..], pid)
      && Dropped(jobs[i..], pid) == (if hit then [j.seqno] else []) + Dropped(jobs[i + 1..], pid)
      && RunningDropped(jobs[i..], pid) ==
        (if hit && j.state == Running then 1 else 0) + RunningDropped(jobs[i + 1..], pid)
  {
    assert jobs[i..][1..] == jobs[i + 1..];
  }

  /** What the loop leaves behind when it has gone through the jobs from index `i` on. */
  function Filtered(c: Chan, pid: nat, i: nat): Chan
    requires i <= |c.jobs|
  {
    var n := RunningDropped(c.jobs[i..], pid);
    c.(jobs := c.jobs[..i] + Kept(c.jobs[i..], pid),
       cancelled := c.cancelled + Dropped(c.jobs[i..], pid),
       hw := if n > 0 then HwIdle else c.hw,
       resets := c.resets + n)
  }

  lemma FilteredKeeps(c: Chan, pid: nat, i: nat)
    requires i < |c.jobs| && c.jobs[i].pid != pid
    ensures Filtered(c, pid, i) == Filtered(c, pid, i + 1)
    ensures RunningDropped(c.jobs[i..], pid) == RunningDropped(c.jobs[i + 1..], pid)
  {
    Unfold(c.jobs, i, pid);
    Associate(c.jobs[..i], [c.jobs[i]], Kept(c.jobs[i + 1..], pid));
    assert c.jobs[..i + 1] == c.jobs[..i] + [c.jobs[i]];
  }

  lemma FilteredDrops(c: Chan, c1: Chan, pid: nat, i: nat)
    requires i < |c.jobs| && c.jobs[i].pid == pid
    requires c1 == (var d := c.(jobs := c.jobs[..i] + c.jobs[i + 1..], cancelled := c.cancelled + [c.jobs[i].seqno]);
                    if c.jobs[i].state == Running then d.(hw := HwIdle, resets := c.resets + 1) else d)
    ensures i <= |c1.jobs| && Filtered(c, pid, i) == Filtered(c1, pid, i)
    ensures RunningDropped(c.jobs[i..], pid) ==
            RunningDropped(c1.jobs[i..], pid) + (if c.jobs[i].state == Running then 1 else 0)
  {
    Unfold(c.jobs, i, pid);
    assert c1.jobs[..i] == c.jobs[..i] && c1.jobs[i..] == c.jobs[i + 1..];
    Associate(c.cancelled, [c.jobs[i].seqno], Dropped(c.jobs[i + 1..], pid));
  }

  /** The loop of a release in closed form. */
  lemma {:induction false} ReleaseFromMeaning(c: Chan, pid: nat, i: nat, again: bool)
    requires i <= |c.jobs|
    ensures ReleaseFrom(c, pid, i, again) == (Filtered(c, pid, i), again || RunningDropped(c.jobs[i..], pid) > 0)
    decreases |c.jobs| - i
  {
    if i < |c.jobs| {
      var j := c.jobs[i];
      if j.pid != pid {
        FilteredKeeps(c, pid, i);
        ReleaseFromMeaning(c, pid, i + 1, again);
      } else {
        var d := c.(jobs := c.jobs[..i] + c.jobs[i + 1..], cancelled := c.cancelled + [j.seqno]);
        var c1 := if j.state == Running then d.(hw := HwIdle, resets := c.resets + 1) else d;
        FilteredDrops(c, c1, pid, i);
        ReleaseFromMeaning(c1, pid, i, again || j.state == Running);
      }
    } else {
      assert c.jobs[i..] == [] && c.jobs[..i] + [] == c.jobs && c.cancelled + [] == c.cancelled;
    }
  }

  lemma {:induction false} KeptDropped(jobs: seq<Job>, pid: nat, lo: nat)
    requires Increasing(Seqnos(jobs)) && forall i :: 0 <= i < |jobs| ==> lo < jobs[i].seqno
    ensures Parted(jobs, pid, lo, Kept(jobs, pid), Dropped(jobs, pid))
    decreases |jobs|
  {
    if jobs != [] {
      var j, t := jobs[0], jobs[1..];
      assert jobs == [j] + t;
      SeqnosConcat([j], t);
      assert Seqnos([j]) == [j.seqno];
      forall i | 0 <= i < |t| ensures j.seqno < t[i].seqno {
        assert Seqnos(jobs)[0] < Seqnos(jobs)[i + 1];
      }
      assert Increasing(Seqnos(t)) by {
        forall a, b | 0 <= a < b < |t| ensures Seqnos(t)[a] < Seqnos(t)[b] {
          assert Seqnos(jobs)[a + 1] < Seqnos(jobs)[b + 1];
        }
      }
      KeptDropped(t, pid, j.seqno);
      KeptDroppedStep(j, t, pid, lo);
    }
  }

  /** What is known about the jobs kept and dropped, all numbered above `lo`. */
  ghost predicate Parted(jobs: seq<Job>, pid: nat, lo: nat, k: seq<Job>, d: seq<nat>) {
    && Increasing(Seqnos(k)) && Increasing(d)
    && (forall i :: 0 <= i < |k| ==> k[i] in jobs && k[i].pid != pid && lo < k[i].seqno)
    && (forall s :: s in d ==> lo < s && s in Seqnos(jobs))
    && (forall s :: s in Seqnos(jobs) <==> s in Seqnos(k) || s in d)
    && (forall s :: s in d ==> s !in Seqnos(k))
  }

  lemma {:induction false} KeptDroppedStep(j: Job, t: seq<Job>, pid: nat, lo: nat)
    requires lo < j.seqno && Parted(t, pid, j.seqno, Kept(t, pid), Dropped(t, pid))
    ensures Parted([j] + t, pid, lo, Kept([j] + t, pid), Dropped([j] + t, pid))
  {
    FirstParted(j, t, pid);
    SeqnosConcat([j], t);
    assert Seqnos([j]) == [j.seqno];
    if j.pid == pid {
      PartedDrop(j, t, pid, lo, Kept(t, pid), Dropped(t, pid));
    } else {
      PartedKeep(j, t, pid, lo, Kept(t, pid), Dropped(t, pid));
    }
  }

  lemma {:induction false} FirstParted(j: Job, t: seq<Job>, pid: nat)
    ensures Kept([j] + t, pid) == if j.pid == pid then Kept(t, pid) else [j] + Kept(t, pid)
    ensures Dropped([j] + t, pid) == if j.pid == pid then [j.seqno] + Dropped(t, pid) else Dropped(t, pid)
  {
    assert ([j] + t)[1..] == t;
  }

  lemma {:induction false} PartedDrop(j: Job, t: seq<Job>, pid: nat, lo: nat, k: seq<Job>, d: seq<nat>)
    requires lo < j.seqno && Parted(t, pid, j.seqno, k, d) && Seqnos([j] + t) == [j.seqno] + Seqnos(t)
    ensures Parted([j] + t, pid, lo, k, [j.seqno] + d)
  {
    IncreasingPrepend(j.seqno, d);
    forall s | s in Seqnos(k) ensures j.seqno < s {
      SeqnosOf(k, s);
    }
  }

  lemma {:induction false} PartedKeep(j: Job, t: seq<Job>, pid: nat, lo: nat, k: seq<Job>, d: seq<nat>)
    requires lo < j.seqno && j.pid != pid
    requires Parted(t, pid, j.seqno, k, d) && Seqnos([j] + t) == [j.seqno] + Seqnos(t)
    ensures Parted([j] + t, pid, lo, [j] + k, d)
  {
    SeqnosConcat([j], k);
    assert Seqnos([j]) == [j.seqno];
    forall s | s in Seqnos(k) ensures j.seqno < s {
      SeqnosOf(k, s);
    }
    IncreasingPrepend(j.seqno, Seqnos(k));
  }

  lemma IncreasingPrepend(x: nat, s: seq<nat>)
    requires Increasing(s) && forall y :: y in s ==> x < y
    ensures Increasing([x] + s)
  {
    var t := [x] + s;
    forall i, j | 0 <= i < j < |t| ensures t[i] < t[j] {
      assert t[j] == s[j - 1] && s[j - 1] in s;
      assert i > 0 ==> t[i] == s[i - 1];
    }
  }

  lemma {:induction false} NoneRunning(jobs: seq<Job>, pid: nat)
    requires forall i :: 0 <= i < |jobs| ==> jobs[i].state == Initial
    ensures RunningDropped(jobs, pid) == 0
  {
    if jobs != [] {
      NoneRunning(jobs[1..], pid);
    }
  }

  /** Whether a release hits the running job. */
  predicate HitsRunning(c: Chan, pid: nat) {
    c.jobs != [] && c.jobs[0].pid == pid
  }

  /** The list with its first job marked running. */
  function WithHeadRunning(jobs: seq<Job>): seq<Job> {
    if jobs == [] then [] else [jobs[0].(state := Running)] + jobs[1..]
  }

  /** Main result on releases: exactly the jobs of the process go, all others keep their order and are
      untouched except that the new first job runs; the hardware is reset once if the running job was
      among those dropped and never otherwise; at most the new first job is started, and nothing else
      in the channel changes. */
  lemma ReleaseMeaning(c: Chan, pid: nat)
    requires Queue(c)
    ensures var d := Release(c, pid); var kept := Kept(c.jobs, pid); var hit := HitsRunning(c, pid);
      && d.jobs == (if hit then WithHeadRunning(kept) else kept)
      && d.cancelled == c.cancelled + Dropped(c.jobs, pid)
      && d.resets == c.resets + (if hit then 1 else 0)
      && d.started == c.started + (if hit && kept != [] then [kept[0].seqno] else [])
      && d.hw == (if !hit then c.hw else if kept == [] then HwIdle else HwBusy(kept[0].seqno))
      && d.submitted == c.submitted && d.finished == c.finished && d.done == c.done && d.reaped == c.reaped
  {
    ReleaseFromMeaning(c, pid, 0, false);
    assert c.jobs[0..] == c.jobs && c.jobs[..0] == [];
    if c.jobs != [] {
      NoneRunning(c.jobs[1..], pid);
    }
  }

  lemma ReleaseConserves(c: Chan, d: Chan, pid: nat)
    requires Inv(c) && Seqnos(d.jobs) == Seqnos(Kept(c.jobs, pid)) && d.cancelled == c.cancelled + Dropped(c.jobs, pid)
    requires d.submitted == c.submitted && d.done == c.done && d.reaped == c.reaped
    ensures Conserved(d)
  {
    KeptDropped(c.jobs, pid, c.finished);
    assert Completed(d) == Completed(c);
    forall s: nat ensures Queued(d, s) <==> Queued(c, s) && s !in Dropped(c.jobs, pid) {}
    forall s: nat ensures Cancelled(d, s) <==> Cancelled(c, s) || s in Dropped(c.jobs, pid) {}
    forall i, j | 0 <= i < j < |d.cancelled| ensures d.cancelled[i] != d.cancelled[j] {
      if i < |c.cancelled| <= j {
        assert Cancelled(c, d.cancelled[i]) && d.cancelled[j] in Dropped(c.jobs, pid);
        assert Queued(c, d.cancelled[j]);
      }
    }
  }

  lemma ReleaseKeepsInv(c: Chan, pid: nat)
    requires Inv(c)
    ensures Inv(Release(c, pid))
  {
    ReleaseMeaning(c, pid);
    if HitsRunning(c, pid) {
      ReleaseHit(c, pid);
    } else {
      var d := Release(c, pid);
      assert d == c.(jobs := Kept(c.jobs, pid), cancelled := c.cancelled + Dropped(c.jobs, pid));
      ReleaseConserves(c, d, pid);
      assert Completed(d) == Completed(c);
      KeepHead(c, pid);
    }
  }

  /** The channel after the running job and the others of its process have gone. */
  function Emptied(c: Chan, pid: nat): Chan {
    c.(jobs := Kept(c.jobs, pid), cancelled := c.cancelled + Dropped(c.jobs, pid), hw := HwIdle, resets := c.resets + 1)
  }

  lemma EmptiedWaits(c: Chan, pid: nat)
    requires Inv(c) && HitsRunning(c, pid)
    ensures Waiting(Emptied(c, pid)) && Completion(Emptied(c, pid))
  {
    KeptDropped(c.jobs, pid, c.finished);
    var kept := Kept(c.jobs, pid);
    forall i | 0 <= i < |kept|
      ensures kept[i].state == Initial && kept[i].seqno <= c.submitted &&
        forall s :: s in c.started ==> s < kept[i].seqno
    {
      KeptBehindHead(c, pid, i);
    }
    assert Completed(Emptied(c, pid)) == Completed(c);
  }

  /** The running job goes: what is left waits for idle hardware, and its first job is started. */
  lemma ReleaseHit(c: Chan, pid: nat)
    requires Inv(c) && HitsRunning(c, pid)
    ensures Inv(Release(c, pid))
  {
    EmptiedWaits(c, pid);
    ReleaseConserves(c, Emptied(c, pid), pid);
    SubmitNextKeepsInv(Emptied(c, pid));
    ReleaseRestarts(c, pid);
  }

  lemma ReleaseRestarts(c: Chan, pid: nat)
    requires Queue(c) && HitsRunning(c, pid)
    ensures Release(c, pid) == SubmitNext(Emptied(c, pid))
  {
    ReleaseMeaning(c, pid);
  }

  /** When the running job is dropped, every job kept waits behind it. */
  lemma KeptBehindHead(c: Chan, pid: nat, i: nat)
    requires Inv(c) && HitsRunning(c, pid) && i < |Kept(c.jobs, pid)|
    ensures var j := Kept(c.jobs, pid)[i];
      j.state == Initial && j.seqno <= c.submitted && forall s :: s in c.started ==> s < j.seqno
  {
    KeptDropped(c.jobs, pid, c.finished);
    var j := Kept(c.jobs, pid)[i];
    var k :| 0 <= k < |c.jobs| && c.jobs[k] == j;
    assert k > 0;
  }

  lemma KeepHead(c: Chan, pid: nat)
    requires Inv(c) && !HitsRunning(c, pid)
    ensures var d := c.(jobs := Kept(c.jobs, pid), cancelled := c.cancelled + Dropped(c.jobs, pid));
      Queue(d) && Starts(d)
  {
    KeptDropped(c.jobs, pid, c.finished);
    var kept := Kept(c.jobs, pid);
    var d := c.(jobs := kept, cancelled := c.cancelled + Dropped(c.jobs, pid));
    assert Completed(d) == Completed(c);
    if c.jobs != [] {
      assert kept == [c.jobs[0]] + Kept(c.jobs[1..], pid);
      forall i | 0 < i < |kept|
        ensures kept[i].state == Initial && forall s :: s in c.started ==> s < kept[i].seqno
      {
        var k :| 0 <= k < |c.jobs| && c.jobs[k] == kept[i];
        assert Seqnos(kept)[0] < Seqnos(kept)[i];
        assert k > 0;
      }
    }
  }

  // ---------------------------------------------------------------- whole steps, field by field

  /** A submission, in a good queue: the job is last, with the next number and the process's id; it runs
      at once exactly if it is alone. */
  lemma SubmitMeaning(c: Chan, pid: nat)
    requires Queue(c)
    ensures var n := c.submitted + 1; var alone := c.jobs == [];
      Submit(c, pid) == c.(
        submitted := n,
        jobs := c.jobs + [Job(n, pid, if alone then Running else Initial)],
        hw := if alone then HwBusy(n) else c.hw,
        started := if alone then c.started + [n] else c.started)
  {
  }

  /** An interrupt, in a good queue: the first job is done, its number is the finished one, and the next
      job, if any, runs. Without jobs nothing happens. */
  lemma IrqMeaning(c: Chan)
    requires Queue(c)
    ensures c.jobs == [] ==> Irq(c) == c
    ensures |c.jobs| == 1 ==>
      Irq(c) == c.(finished := c.jobs[0].seqno, jobs := [], done := c.done + c.jobs, hw := HwIdle)
    ensures |c.jobs| > 1 ==> var next := c.jobs[1];
      Irq(c) == c.(
        finished := c.jobs[0].seqno,
        jobs := [Job(next.seqno, next.pid, Running)] + c.jobs[2..],
        done := c.done + [c.jobs[0]],
        hw := HwBusy(next.seqno),
        started := c.started + [next.seqno])
  {
    if |c.jobs| == 1 {
      assert c.jobs == [c.jobs[0]] && c.jobs[1..] == [];
    } else if |c.jobs| > 1 {
      assert c.jobs[1..][1..] == c.jobs[2..];
    }
  }
}
