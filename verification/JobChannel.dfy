/** A channel of the AIP device in place: job records on two lists, changed under the channel lock.
    Each method is one locked section and makes exactly one step of the machine in `Scheduler`. */
module JobChannel {
  import opened Sequences
  import opened Scheduler
  import opened SchedulerSafety
  import opened Waits

  /** The fields of jz_aip_v20_*_exec_info that scheduling depends on. */
  class ExecInfo {
    const pid: nat
    var state: JobState
    var seqno: nat

    constructor (pid: nat)
      ensures this.pid == pid && state == Initial
    {
      this.pid := pid;
      state, seqno := Initial, 0;
    }

    function Val(): Job
      reads this
    {
      Job(seqno, pid, state)
    }
  }

  ghost predicate Shows(infos: seq<ExecInfo>, jobs: seq<Job>)
    reads infos
  {
    |infos| == |jobs| && forall i {:trigger infos[i]} :: 0 <= i < |infos| ==> infos[i].Val() == jobs[i]
  }

  lemma RotateDistinct(s: seq<ExecInfo>)
    requires NoDup(s) && s != []
    ensures NoDup(s[1..] + [s[0]])
  {
  }

  class Channel {
    var submitedSeqno: nat
    var finishedSeqno: nat
    var jobList: seq<ExecInfo>
    var jobDoneList: seq<ExecInfo>

    ghost var c: Chan

    ghost predicate Valid()
      reads this, jobList, jobDoneList
    {
      && submitedSeqno == c.submitted && finishedSeqno == c.finished
      && NoDup(jobList + jobDoneList)
      && Shows(jobList, c.jobs) && Shows(jobDoneList, c.done)
    }

    constructor ()
      ensures Valid() && c == INIT && jobList == [] && jobDoneList == []
    {
      submitedSeqno, finishedSeqno := 0, 0;
      jobList, jobDoneList := [], [];
      c := INIT;
    }

    /** jz_aip_v20_submit_next_*_job. */
    method SubmitNext()
      requires Valid()
      modifies `c, jobList
      ensures Valid() && c == Scheduler.SubmitNext(old(c))
    {
      if jobList == [] {
        return;
      }
      assert jobList[0] == (jobList + jobDoneList)[0];
      assert forall i {:trigger jobDoneList[i]} :: 0 <= i < |jobDoneList| ==>
        (jobList + jobDoneList)[|jobList| + i] == jobDoneList[i];
      assert forall i {:trigger jobList[i]} :: 0 <= i < |jobList| ==> (jobList + jobDoneList)[i] == jobList[i];
      assert jobList[0].Val() == c.jobs[0];
      jobList[0].state := Running;
      c := Scheduler.SubmitNext(c);
    }

    /** The locked tail of jz_aip_v20_f_op, p_op and t_op. */
    method Submit(exec: ExecInfo)
      requires Valid() && exec !in jobList && exec !in jobDoneList && exec.state == Initial
      modifies this, exec, jobList
      ensures Valid() && c == Scheduler.Submit(old(c), exec.pid)
      ensures jobList == old(jobList) + [exec] && jobDoneList == old(jobDoneList)
      ensures exec.seqno == submitedSeqno == old(submitedSeqno) + 1
    {
      submitedSeqno := submitedSeqno + 1;
      exec.seqno := submitedSeqno;
      Enqueue(exec);
      if jobList[0] == exec {
        assert |jobList| == 1;
        SubmitNext();
      }
    }

    method Enqueue(exec: ExecInfo)
      requires exec !in jobList && exec !in jobDoneList && exec.state == Initial
      requires submitedSeqno == c.submitted + 1 && exec.seqno == submitedSeqno && finishedSeqno == c.finished
      requires NoDup(jobList + jobDoneList) && Shows(jobList, c.jobs) && Shows(jobDoneList, c.done)
      modifies `jobList, `c
      ensures Valid() && jobList == old(jobList) + [exec] && NoDup(jobList)
      ensures c == old(c).(submitted := old(c).submitted + 1,
                           jobs := old(c).jobs + [Job(old(c).submitted + 1, exec.pid, Initial)])
    {
      ghost var all := jobList + jobDoneList;
      ghost var jl, dl := jobList, jobDoneList;
      jobList := jobList + [exec];
      c := c.(submitted := submitedSeqno, jobs := c.jobs + [exec.Val()]);
      ghost var now := jobList + jobDoneList;
      forall i, j | 0 <= i < j < |now| ensures now[i] != now[j] {
        assert i < |jl| ==> now[i] == all[i];
        assert j < |jl| ==> now[j] == all[j];
        assert i > |jl| ==> now[i] == all[i - 1] && now[i] == dl[i - 1 - |jl|];
        assert j > |jl| ==> now[j] == all[j - 1] && now[j] == dl[j - 1 - |jl|];
      }
      forall i, j | 0 <= i < j < |jobList| ensures jobList[i] != jobList[j] {
        assert now[i] == jobList[i] && now[j] == jobList[j];
      }
    }
  
    /** list_move_tail of the first job to the done list, with its number recorded as finished. */
    method MoveToDone(exec: ExecInfo)
      requires Valid() && jobList != [] && exec == jobList[0]
      modifies `finishedSeqno, `jobList, `jobDoneList, `c
      ensures Valid() && jobList == old(jobList)[1..] && jobDoneList == old(jobDoneList) + [exec]
      ensures old(c).jobs != [] && c == old(c).(finished := old(c).jobs[0].seqno, jobs := old(c).jobs[1..],
                                               done := old(c).done + [old(c).jobs[0]])
    {
      assert exec.Val() == c.jobs[0];
      ghost var all := jobList + jobDoneList;
      finishedSeqno := exec.seqno;
      jobList, jobDoneList := jobList[1..], jobDoneList + [exec];
      c := c.(finished := c.jobs[0].seqno, jobs := c.jobs[1..], done := c.done + [c.jobs[0]]);
      assert jobList + jobDoneList == all[1..] + [all[0]];
      RotateDistinct(all);
    }

    /** jz_aip_v20_f_irq_finish_job and its twin for P, with the completion it reports. */
    method FinishJob()
      requires Valid()
      modifies this, jobList
      ensures Valid() && c == Irq(old(c))
      ensures forall e :: e in jobList ==> e in old(jobList)
      ensures forall e :: e in jobDoneList ==> e in old(jobList) || e in old(jobDoneList)
    {
      c := c.(hw := HwIdle);
      if jobList == [] {
        return;
      }
      var exec := jobList[0];
      assert exec.Val() == c.jobs[0];
      if exec.state != Running {
        SubmitNext();
        return;
      }
      MoveToDone(exec);
      SubmitNext();
    }

    /** jz_aip_v20_t_irq_finish_job: the same without the test of the job's state. */
    method FinishJobT()
      requires Valid()
      modifies this, jobList
      ensures Valid() && c == IrqT(old(c))
      ensures forall e :: e in jobList ==> e in old(jobList)
      ensures forall e :: e in jobDoneList ==> e in old(jobList) || e in old(jobDoneList)
    {
      c := c.(hw := HwIdle);
      if jobList == [] {
        return;
      }
      MoveToDone(jobList[0]);
      SubmitNext();
    }

    /** list_del of the job at position `i`, which is freed. */
    method DropAt(i: nat)
      requires Valid() && i < |jobList|
      modifies `jobList, `c
      ensures Valid() && jobList == old(jobList)[..i] + old(jobList)[i + 1..] && |old(c).jobs| == |old(jobList)|
      ensures c == old(c).(jobs := old(c).jobs[..i] + old(c).jobs[i + 1..],
                           cancelled := old(c).cancelled + [old(c).jobs[i].seqno])
    {
      ghost var all := jobList + jobDoneList;
      c := c.(jobs := c.jobs[..i] + c.jobs[i + 1..], cancelled := c.cancelled + [c.jobs[i].seqno]);
      jobList := jobList[..i] + jobList[i + 1..];
      assert jobList + jobDoneList == all[..i] + all[i + 1..];
    }

    /** jz_aip_v20_*_release: drop every job of `pid`, reset the hardware under a running one, and
        restart the channel if that happened. */
    method Release(pid: nat)
      requires Valid()
      modifies this, jobList
      ensures Valid() && c == Scheduler.Release(old(c), pid)
      ensures jobDoneList == old(jobDoneList) && forall e :: e in jobList ==> e in old(jobList)
    {
      var reSubmit := false;
      var i := 0;
      while i < |jobList|
        invariant Valid() && i <= |jobList| && jobDoneList == old(jobDoneList)
        invariant forall k {:trigger jobList[k]} :: 0 <= k < |jobList| ==> jobList[k] in old(jobList)
        invariant ReleaseFrom(c, pid, i, reSubmit) == ReleaseFrom(old(c), pid, 0, false)
        decreases |jobList| - i
      {
        var info := jobList[i];
        assert info.Val() == c.jobs[i];
        if info.pid == pid {
          if info.state == Running {
            reSubmit := true;
            c := c.(hw := HwIdle, resets := c.resets + 1);
          }
          DropAt(i);
        } else {
          i := i + 1;
        }
      }
      if reSubmit {
        Restart(old(jobList));
      }
    }

    /** The restart after a release; the remaining jobs are among those queued before. */
    method Restart(ghost before: seq<ExecInfo>)
      requires Valid() && forall k {:trigger jobList[k]} :: 0 <= k < |jobList| ==> jobList[k] in before
      modifies `c, before
      ensures Valid() && c == Scheduler.SubmitNext(old(c))
    {
      assert forall h :: h in jobList ==> h in before;
      SubmitNext();
    }

    /** One locked pop of jz_aip_v20_*_job_handle_completed. */
    method ReapOne() returns (exec: ExecInfo)
      requires Valid() && jobDoneList != []
      modifies `jobDoneList, `c
      ensures Valid() && c == Reap(old(c)) && exec == old(jobDoneList)[0] && jobDoneList == old(jobDoneList)[1..]
      ensures c.reaped == old(c).reaped + [exec.seqno]
    {
      exec := jobDoneList[0];
      assert exec.Val() == c.done[0];
      ghost var all := jobList + jobDoneList;
      c := Reap(c);
      jobDoneList := jobDoneList[1..];
      assert jobList + jobDoneList == all[..|jobList|] + all[|jobList| + 1..];
    }

    /** jz_aip_v20_*_job_handle_completed when nothing else happens meanwhile: every completed job is
        reaped, in the order of completion. */
    method HandleCompleted()
      requires Valid()
      modifies `jobDoneList, `c
      ensures Valid() && jobDoneList == []
      ensures c == old(c).(done := [], reaped := Completed(old(c)))
    {
      assert Completed(c) == Completed(old(c));
      while jobDoneList != []
        invariant Valid() && Completed(c) == Completed(old(c))
        invariant c == old(c).(done := c.done, reaped := c.reaped)
        decreases |jobDoneList|
      {
        ReapCompleted(c);
        var exec := ReapOne();
      }
      assert Completed(c) == c.reaped;
    }
  }

  // ---------------------------------------------------------------- waiting

  /** jz_aip_v20_wait_for_seqno, interruptible, against what it observes. It answers 0 exactly when some
      read of the finished counter has reached the number before anything else ended the wait, and
      every other answer has its exact condition too. */
  method WaitForSeqno(q: Request, seen: Seen) returns (ret: WaitCode)
    ensures ret == WaitCodeOf(q, seen)
    ensures ret == Overflow <==> q.seqno > seen.submited
    ensures ret == Zero <==>
      q.seqno <= seen.submited && (seen.finished >= q.seqno || (!q.timeoutZero && Served(q, seen.turns)))
    ensures ret == ETime <==>
      q.seqno <= seen.submited && seen.finished < q.seqno && (q.timeoutZero || TimedOut(q, seen.turns))
    ensures ret == ERestartSys <==>
      q.seqno <= seen.submited && seen.finished < q.seqno && !q.timeoutZero && Interrupted(q, seen.turns)
    ensures ret == StillWaiting <==>
      q.seqno <= seen.submited && seen.finished < q.seqno && !q.timeoutZero && Reaches(q, seen.turns, |seen.turns|)
  {
    LoopCodeMeans(q, seen.turns);
    if q.seqno > seen.submited {
      return Overflow;
    }
    if seen.finished >= q.seqno {
      return Zero;
    }
    if q.timeoutZero {
      return ETime;
    }
    ret := WaitLoop(q, seen.turns);
  }

  method WaitLoop(q: Request, turns: seq<Turn>) returns (ret: WaitCode)
    ensures ret == LoopCode(q, turns)
  {
    var i := 0;
    while i < |turns|
      invariant Reaches(q, turns, i)
    {
      LoopStopsAt(q, turns, i);
      if turns[i].signal {
        return ERestartSys;
      }
      if turns[i].finished >= q.seqno {
        return Zero;
      }
      if !q.forever {
        if turns[i].expired {
          return ETime;
        }
      }
      i := i + 1;
    }
    LoopStopsAt(q, turns, i);
    return StillWaiting;
  }
}
