/** Whole runs of a channel in place: the theorems of `SchedulerRuns` are about what these compute. */
module ChannelRuns {
  import opened Scheduler
  import opened SchedulerSafety
  import opened SchedulerRuns
  import opened JobChannel

  /** The records of a channel are old ones or have been allocated since. */
  twostate predicate Framed(ch: Channel)
    reads ch
  {
    && (forall k {:trigger ch.jobList[k]} :: 0 <= k < |ch.jobList| ==>
          ch.jobList[k] in old(ch.jobList) || fresh(ch.jobList[k]))
    && (forall e :: e in ch.jobDoneList ==> e in old(ch.jobList) || e in old(ch.jobDoneList) || fresh(e))
  }

  /** One event, carried out on the job lists. Channel T has the handler that does not look at the state
      of the job. */
  method Perform(ch: Channel, e: Event, isT: bool)
    requires ch.Valid() && (isT ==> Inv(ch.c))
    modifies ch, ch.jobList
    ensures ch.Valid() && ch.c == Step(old(ch.c), e) && Framed(ch)
  {
    match e
    case ESubmit(pid) =>
      var exec := new ExecInfo(pid);
      ch.Submit(exec);
    case EIrq =>
      if isT {
        HandlersAgree(ch.c);
        ch.FinishJobT();
      } else {
        ch.FinishJob();
      }
    case ERelease(pid) =>
      ch.Release(pid);
    case EReap =>
      if ch.jobDoneList != [] {
        var exec := ch.ReapOne();
      }
  }

  /** Any sequence of events. */
  method PerformAll(ch: Channel, es: seq<Event>, isT: bool)
    requires ch.Valid() && (isT ==> Inv(ch.c))
    modifies ch, ch.jobList
    ensures ch.Valid() && ch.c == Run(old(ch.c), es) && Framed(ch)
  {
    var i := 0;
    assert es[0..] == es;
    while i < |es|
      invariant 0 <= i <= |es| && ch.Valid() && (isT ==> Inv(ch.c)) && Framed(ch)
      invariant Run(ch.c, es[i..]) == Run(old(ch.c), es)
    {
      if isT {
        StepKeepsInv(ch.c, es[i]);
      }
      assert es[i..][1..] == es[i + 1..];
      Perform(ch, es[i], isT);
      i := i + 1;
    }
    assert es[i..] == [];
  }

  /** One pop, and what happens before the lock is taken again. */
  method PopAndRelax(ch: Channel, gap: seq<Event>, isT: bool)
    requires ch.Valid() && Inv(ch.c) && ch.jobDoneList != []
    modifies ch, ch.jobList
    ensures ch.Valid() && ch.c == Run(Reap(old(ch.c)), gap) && Framed(ch)
  {
    ReapKeepsInv(ch.c);
    var exec := ch.ReapOne();
    PerformAll(ch, gap, isT);
  }

  lemma PopUnfold(c: Chan, gap: seq<Event>)
    requires Inv(c)
    ensures Run(c, [EReap] + gap) == Run(Reap(c), gap) && Inv(Run(Reap(c), gap))
  {
    assert ([EReap] + gap)[1..] == gap;
    StepsKeepInv(c, [EReap] + gap);
  }

  /** jz_aip_v20_*_job_handle_completed as it runs: the lock is dropped behind every pop, and meanwhile
      the events of the next gap happen. Whatever they are, the worker ends with everything reaped that
      had completed before it started, in the order of completion. */
  method HandleCompletedAmid(ch: Channel, gaps: seq<seq<Event>>, isT: bool) returns (ghost trace: seq<Event>)
    requires ch.Valid() && Inv(ch.c)
    modifies ch, ch.jobList
    ensures ch.Valid() && Framed(ch) && ch.jobDoneList == []
    ensures ch.c == Run(old(ch.c), trace) && Completed(old(ch.c)) <= ch.c.reaped
  {
    trace := [];
    var i := 0;
    while ch.jobDoneList != []
      invariant 0 <= i <= |gaps| && ch.Valid() && Inv(ch.c) && Framed(ch)
      invariant ch.c == Run(old(ch.c), trace)
      decreases |gaps| - i, |ch.c.done|
    {
      var gap := if i < |gaps| then gaps[i] else [];
      PopUnfold(ch.c, gap);
      RunConcat(old(ch.c), trace, [EReap] + gap);
      trace := trace + ([EReap] + gap);
      PopAndRelax(ch, gap, isT);
      i := if i < |gaps| then i + 1 else i;
    }
    EmptyMeansReaped(old(ch.c), trace);
  }

  lemma {:induction false} StepsKeepInv(c: Chan, es: seq<Event>)
    requires Inv(c)
    ensures Inv(Run(c, es))
    decreases |es|
  {
    if es != [] {
      StepKeepsInv(c, es[0]);
      StepsKeepInv(Step(c, es[0]), es[1..]);
    }
  }
}
