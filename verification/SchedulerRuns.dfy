/** Whole runs of a channel, and of the processes that submit to it and wait. */
module SchedulerRuns {
  import opened Sequences
  import opened Scheduler
  import opened SchedulerSafety
  import opened Waits

  datatype Event = ESubmit(pid: nat) | EIrq | ERelease(pid: nat) | EReap

  /** The hardware interrupts only for the job it runs. */
  predicate Enabled(c: Chan, e: Event) {
    e.EIrq? ==> c.hw != HwIdle
  }

  function Step(c: Chan, e: Event): Chan {
    match e
    case ESubmit(pid) => Submit(c, pid)
    case EIrq => Irq(c)
    case ERelease(pid) => Release(c, pid)
    case EReap => Reap(c)
  }

  /** What each event does to the lists: a submission adds its job at the end, an interrupt moves the first
      job to the done list, a release drops the jobs of its process, a reap takes the oldest done job. */
  lemma StepMeaning(c: Chan, e: Event)
    requires Queue(c)
    ensures var d := Step(c, e);
      match e
      case ESubmit(pid) => d.jobs == c.jobs + [Job(c.submitted + 1, pid, if c.jobs == [] then Running else Initial)]
      case EIrq =>
        && |d.jobs| == (if c.jobs == [] then 0 else |c.jobs| - 1)
        && d.done == c.done + c.jobs[..|c.jobs| - |d.jobs|]
      case ERelease(pid) =>
        && Seqnos(d.jobs) == Seqnos(Kept(c.jobs, pid))
        && d.cancelled == c.cancelled + Dropped(c.jobs, pid)
      case EReap =>
        if c.done == [] then d == c else d == c.(done := c.done[1..], reaped := c.reaped + [c.done[0].seqno])
  {
    match e
    case ESubmit(pid) => SubmitMeaning(c, pid);
    case EIrq => IrqMeaning(c);
    case ERelease(pid) => ReleaseMeaning(c, pid);
    case EReap =>
  }

  lemma StepKeepsInv(c: Chan, e: Event)
    requires Inv(c)
    ensures Inv(Step(c, e))
  {
    match e
    case ESubmit(pid) => SubmitKeepsInv(c, pid);
    case EIrq => IrqKeepsInv(c);
    case ERelease(pid) => ReleaseKeepsInv(c, pid);
    case EReap => ReapKeepsInv(c);
  }

  predicate RunEnabled(c: Chan, es: seq<Event>)
    decreases |es|
  {
    es == [] || (Enabled(c, es[0]) && RunEnabled(Step(c, es[0]), es[1..]))
  }

  function Run(c: Chan, es: seq<Event>): Chan
    decreases |es|
  {
    if es == [] then c else Run(Step(c, es[0]), es[1..])
  }

  lemma {:induction false} RunKeepsInv(c: Chan, es: seq<Event>)
    requires Inv(c) && RunEnabled(c, es)
    ensures Inv(Run(c, es))
    decreases |es|
  {
    if es != [] {
      StepKeepsInv(c, es[0]);
      RunKeepsInv(Step(c, es[0]), es[1..]);
    }
  }

  lemma InitInv()
    ensures Inv(INIT)
  {
    assert Seqnos([]) == [];
    assert forall s: nat :: !Queued(INIT, s) && !Cancelled(INIT, s);
    assert Completed(INIT) == [];
  }

  /** How many of the four places hold job `s`. */
  function Places(c: Chan, s: nat): nat {
    (if Queued(c, s) then 1 else 0) + (if Done(c, s) then 1 else 0) +
    (if Reaped(c, s) then 1 else 0) + (if Cancelled(c, s) then 1 else 0)
  }

  /** Job `s` is counted at most once in a sequence without repetitions. */
  lemma CompletedSplits(c: Chan, s: nat)
    requires Inv(c)
    ensures s in Completed(c) <==> Done(c, s) || Reaped(c, s)
    ensures !(Done(c, s) && Reaped(c, s))
  {
    forall i, j | 0 <= i < |c.reaped| && 0 <= j < |c.done| ensures c.reaped[i] != Seqnos(c.done)[j] {
      assert Completed(c)[i] < Completed(c)[|c.reaped| + j];
    }
  }

  lemma OnePlace(c: Chan, s: nat)
    requires Inv(c)
    ensures Places(c, s) == if 0 < s <= c.submitted then 1 else 0
  {
    CompletedSplits(c, s);
    assert Queued(c, s) || !Queued(c, s);
    assert Cancelled(c, s) || !Cancelled(c, s);
  }

  lemma FreedOnce(c: Chan)
    requires Completion(c) && Conserved(c)
    ensures Increasing(c.reaped) && NoDup(c.reaped + c.cancelled)
  {
    forall i, j | 0 <= i < j < |c.reaped| ensures c.reaped[i] < c.reaped[j] {
      assert Completed(c)[i] == c.reaped[i] && Completed(c)[j] == c.reaped[j];
    }
    var freed := c.reaped + c.cancelled;
    forall i, j | 0 <= i < j < |freed| ensures freed[i] != freed[j] {
      if i < |c.reaped| <= j {
        assert Completed(c)[i] == freed[i];
        assert Cancelled(c, freed[j]);
      }
    }
  }

  /** Main result on conservation, for every run: each accepted job is in exactly one place; no job is
      started twice; no job is freed twice; jobs are reaped in increasing order of their numbers. */
  lemma JobsAreConserved(es: seq<Event>)
    requires RunEnabled(INIT, es)
    ensures var c := Run(INIT, es);
      && (forall s: nat {:trigger Places(c, s)} :: Places(c, s) == if 0 < s <= c.submitted then 1 else 0)
      && NoDup(c.started) && NoDup(c.reaped + c.cancelled) && Increasing(c.reaped)
  {
    InitInv();
    RunKeepsInv(INIT, es);
    var c := Run(INIT, es);
    forall s: nat ensures Places(c, s) == if 0 < s <= c.submitted then 1 else 0 {
      OnePlace(c, s);
    }
    FreedOnce(c);
  }

  /** Main result on scheduling, for every run: a non-empty list has exactly its first job running and
      the hardware runs that job, so the handler's other branch is never taken. */
  lemma HeadRuns(es: seq<Event>)
    requires RunEnabled(INIT, es)
    ensures var c := Run(INIT, es);
      && Queue(c)
      && (c.jobs != [] <==> c.hw != HwIdle)
      && IrqT(c) == Irq(c)
      && (c.jobs != [] ==> c.jobs[0].state == Running && Irq(c).finished > c.finished)
      && (c.jobs != [] ==> Irq(c) == Complete(c.(hw := HwIdle)))
  {
    InitInv();
    RunKeepsInv(INIT, es);
    IrqKeepsInv(Run(INIT, es));
    HandlersAgree(Run(INIT, es));
  }

  lemma StepMonotone(c: Chan, e: Event)
    requires Inv(c)
    ensures c.submitted <= Step(c, e).submitted && c.finished <= Step(c, e).finished
  {
    match e
    case ESubmit(pid) =>
    case EIrq => IrqKeepsInv(c); if c.jobs == [] {} else { CompleteKeepsInv(c); }
    case ERelease(pid) => ReleaseMeaning(c, pid);
    case EReap =>
  }

  // ---------------------------------------------------------------- draining and reaping

  function Interrupts(n: nat): seq<Event> {
    seq(n, i => EIrq)
  }

  /** `d` is what remains of `c` when every queued job has finished. */
  ghost predicate Drained(c: Chan, d: Chan) {
    && d.jobs == [] && d.hw == HwIdle
    && d.done == c.done + Finished(c.jobs)
    && (c.jobs == [] ==> d.finished == c.finished && d.started == c.started)
    && (c.jobs != [] ==> d.finished == c.jobs[|c.jobs| - 1].seqno && d.started == c.started + Seqnos(c.jobs[1..]))
    && d.submitted == c.submitted && d.reaped == c.reaped && d.cancelled == c.cancelled && d.resets == c.resets
  }

  /** Main result on progress: from any good state, as many interrupts as there are jobs empty the list.
      The jobs reach the done list in order, each later one is started once, and the last number is
      the finished one. */
  lemma {:induction false} InterruptsDrain(c: Chan)
    requires Inv(c)
    ensures RunEnabled(c, Interrupts(|c.jobs|)) && Drained(c, Run(c, Interrupts(|c.jobs|)))
    decreases |c.jobs|
  {
    if c.jobs == [] {
      NothingToDrain(c);
    } else {
      var c1 := AfterFirst(c);
      InterruptsDrain(c1);
      DrainedStep(c, c1, Run(c1, Interrupts(|c1.jobs|)));
    }
  }

  /** `c1` is `c` after its first job has finished. */
  ghost predicate FirstDone(c: Chan, c1: Chan) {
    && c.jobs != []
    && c1.jobs == (if |c.jobs| == 1 then [] else [c.jobs[1].(state := Running)] + c.jobs[2..])
    && c1.done == c.done + [c.jobs[0]] && c1.finished == c.jobs[0].seqno
    && c1.started == (if |c.jobs| == 1 then c.started else c.started + [c.jobs[1].seqno])
    && c1.submitted == c.submitted && c1.reaped == c.reaped && c1.cancelled == c.cancelled && c1.resets == c.resets
  }

  lemma AfterFirst(c: Chan) returns (c1: Chan)
    requires Inv(c) && c.jobs != []
    ensures Inv(c1) && FirstDone(c, c1)
    ensures Run(c, Interrupts(|c.jobs|)) == Run(c1, Interrupts(|c1.jobs|))
    ensures RunEnabled(c, Interrupts(|c.jobs|)) == RunEnabled(c1, Interrupts(|c1.jobs|))
  {
    IrqKeepsInv(c);
    InterruptsUnfold(c);
    FirstFinishes(c);
    c1 := Irq(c);
  }

  lemma NothingToDrain(c: Chan)
    requires Queue(c) && c.jobs == []
    ensures RunEnabled(c, Interrupts(0)) && Drained(c, Run(c, Interrupts(0)))
  {
    assert Finished(c.jobs) == [];
  }

  lemma InterruptsUnfold(c: Chan)
    requires Queue(c) && c.jobs != []
    ensures var n := |c.jobs|;
      && Run(c, Interrupts(n)) == Run(Irq(c), Interrupts(n - 1))
      && RunEnabled(c, Interrupts(n)) == RunEnabled(Irq(c), Interrupts(n - 1))
  {
    var es := Interrupts(|c.jobs|);
    assert es[0] == EIrq && es[1..] == Interrupts(|c.jobs| - 1);
  }

  /** Which waits the drain serves: the finished counter reaches a number exactly if it had done so
      already or some queued job has that number or a later one. So a wait for the number of a last
      job that was cancelled is the case that nothing serves. */
  lemma DrainServesIff(c: Chan, n: nat)
    requires Inv(c)
    ensures Run(c, Interrupts(|c.jobs|)).finished >= n <==>
            n <= c.finished || exists i :: 0 <= i < |c.jobs| && c.jobs[i].seqno >= n
  {
    InterruptsDrain(c);
    if c.jobs != [] {
      var last := |c.jobs| - 1;
      assert c.jobs[last].seqno > c.finished;
      forall i | 0 <= i < |c.jobs| ensures c.jobs[i].seqno <= c.jobs[last].seqno {
        assert i < last ==> Seqnos(c.jobs)[i] < Seqnos(c.jobs)[last];
      }
    }
  }

  lemma FirstFinishes(c: Chan)
    requires Queue(c) && c.jobs != []
    ensures FirstDone(c, Irq(c))
  {
    assert |c.jobs| > 1 ==> c.jobs[1..][1..] == c.jobs[2..];
  }

  lemma DrainedStep(c: Chan, c1: Chan, d: Chan)
    requires Queue(c) && FirstDone(c, c1) && Drained(c1, d)
    ensures Drained(c, d)
  {
    FinishedUnfold(c, c1);
    if |c.jobs| == 1 {
      assert c.jobs[1..] == [] && Seqnos(c.jobs[1..]) == [];
    } else {
      StartedUnfold(c, c1);
      Associate(c.started, [c.jobs[1].seqno], Seqnos(c1.jobs[1..]));
    }
  }

  /** The jobs as the done list shows them: each was running when it finished. */
  function Finished(jobs: seq<Job>): seq<Job> {
    seq(|jobs|, i requires 0 <= i < |jobs| => jobs[i].(state := Running))
  }

  lemma FinishedUnfold(c: Chan, c1: Chan)
    requires Queue(c) && FirstDone(c, c1)
    ensures c1.done + Finished(c1.jobs) == c.done + Finished(c.jobs)
  {
    assert c.jobs[0].(state := Running) == c.jobs[0];
    assert Finished(c.jobs) == [c.jobs[0]] + Finished(c1.jobs);
    Associate(c.done, [c.jobs[0]], Finished(c1.jobs));
  }

  lemma StartedUnfold(c: Chan, c1: Chan)
    requires FirstDone(c, c1) && |c.jobs| > 1
    ensures Seqnos(c.jobs[1..]) == [c.jobs[1].seqno] + Seqnos(c1.jobs[1..])
    ensures c1.jobs[|c1.jobs| - 1].seqno == c.jobs[|c.jobs| - 1].seqno
  {
    assert c1.jobs[1..] == c.jobs[2..];
    assert c.jobs[1..] == [c.jobs[1]] + c.jobs[2..];
    SeqnosConcat([c.jobs[1]], c.jobs[2..]);
    assert Seqnos([c.jobs[1]]) == [c.jobs[1].seqno];
  }

  lemma StepGrowsCompleted(c: Chan, e: Event)
    requires Inv(c)
    ensures Completed(c) <= Completed(Step(c, e))
  {
    match e
    case ESubmit(pid) =>
      assert Completed(Submit(c, pid)) == Completed(c);
    case EIrq =>
      if c.jobs == [] {
        assert Completed(Irq(c)) == Completed(c);
      } else {
        SeqnosConcat(c.done, [c.jobs[0]]);
        assert Completed(Irq(c)) == Completed(c) + Seqnos([c.jobs[0]]);
      }
    case ERelease(pid) =>
      ReleaseMeaning(c, pid);
      assert Completed(Release(c, pid)) == Completed(c);
    case EReap =>
      if c.done != [] {
        ReapCompleted(c);
      }
  }

  lemma {:induction false} CompletedOnlyGrows(c: Chan, es: seq<Event>)
    requires Inv(c)
    ensures Completed(c) <= Completed(Run(c, es))
    decreases |es|
  {
    if es != [] {
      StepKeepsInv(c, es[0]);
      StepGrowsCompleted(c, es[0]);
      CompletedOnlyGrows(Step(c, es[0]), es[1..]);
    }
  }

  /** Main result on reaping, for every interleaving: whenever the done list is found empty, all jobs that
      had completed at any earlier moment have been reaped, in the order of completion. So a worker
      that drops the lock between its pops misses nothing. */
  lemma EmptyMeansReaped(c: Chan, es: seq<Event>)
    requires Inv(c) && Run(c, es).done == []
    ensures Completed(c) <= Run(c, es).reaped
  {
    CompletedOnlyGrows(c, es);
    assert Completed(Run(c, es)) == Run(c, es).reaped;
  }

  /** One run behind another. */
  lemma {:induction false} RunConcat(c: Chan, es: seq<Event>, fs: seq<Event>)
    ensures Run(c, es + fs) == Run(Run(c, es), fs)
    decreases |es|
  {
    if es == [] {
      assert es + fs == fs;
    } else {
      assert (es + fs)[1..] == es[1..] + fs;
      RunConcat(Step(c, es[0]), es[1..], fs);
    }
  }

  // ---------------------------------------------------------------- waiting

  /** A process. It submits, reads the number to hand back after the lock is dropped, and waits for any
      number it likes. `own` is the number its job really has when it waits for the number handed back,
      and 0 if the submission failed or it waits for some other number. */
  datatype Client =
    | Outside
    | Submitted(own: nat)
    | Handed(own: nat, handed: nat)
    | Entered(own: nat, q: Request, submited: nat)
    | InLoop(own: nat, q: Request, seen: Seen)
    | Returned(own: nat, q: Request, seen: Seen, code: WaitCode)

  datatype Sys = Sys(chan: Chan, clients: map<nat, Client>)

  datatype Action =
    | Driver(e: Event)                                  // anything the driver does on behalf of others
    | DoSubmit(t: nat, pid: nat)                        // the locked part of the submit ioctl
    | FailSubmit(t: nat)                                // a submit ioctl that queues nothing
    | ReadSeqno(t: nat)                                 // dat->seqno = submited_seqno, without the lock
    | EnterWait(t: nat, q: Request)                     // the overflow test of wait_for_seqno
    | FirstRead(t: nat)                                 // the first read of finished_seqno
    | LoopTurn(t: nat, signal: bool, expired: bool)     // one turn of the loop

  function ClientOf(y: Sys, t: nat): Client {
    if t in y.clients then y.clients[t] else Outside
  }

  /** A process that is not inside a call. */
  predicate Free(k: Client) {
    k.Outside? || k.Handed? || k.Returned?
  }

  function ClientStep(c: Chan, k: Client, a: Action): Client {
    match a
    case Driver(_) => k
    case DoSubmit(_, _) => if Free(k) then Submitted(c.submitted) else k
    case FailSubmit(_) => if Free(k) then Submitted(0) else k
    case ReadSeqno(_) => if k.Submitted? then Handed(k.own, c.submitted) else k
    case EnterWait(_, q) =>
      if !Free(k) then k
      else
        var own := if k.Handed? && q.seqno == k.handed then k.own else 0;
        if q.seqno > c.submitted then Returned(own, q, Seen(c.submitted, 0, []), Overflow)
          else Entered(own, q, c.submitted)
    case FirstRead(_) =>
      if !k.Entered? then k
      else
        var seen := Seen(k.submited, c.finished, []);
        if c.finished >= k.q.seqno then Returned(k.own, k.q, seen, Zero)
        else if k.q.timeoutZero then Returned(k.own, k.q, seen, ETime)
        else InLoop(k.own, k.q, seen)
    case LoopTurn(_, signal, expired) =>
      if !k.InLoop? then k
      else
        var turn := Turn(signal, c.finished, expired);
        var seen := k.seen.(turns := k.seen.turns + [turn]);
        var code := TurnCode(k.q, turn);
        if code == StillWaiting then InLoop(k.own, k.q, seen) else Returned(k.own, k.q, seen, code)
  }

  function SysStep(y: Sys, a: Action): Sys {
    if a.Driver? then y.(chan := Step(y.chan, a.e))
    else
      var c := if a.DoSubmit? && Free(ClientOf(y, a.t)) then Submit(y.chan, a.pid) else y.chan;
      Sys(c, y.clients[a.t := ClientStep(c, ClientOf(y, a.t), a)])
  }

  predicate ActionEnabled(y: Sys, a: Action) {
    a.Driver? ==> Enabled(y.chan, a.e)
  }

  predicate SysEnabled(y: Sys, acts: seq<Action>)
    decreases |acts|
  {
    acts == [] || (ActionEnabled(y, acts[0]) && SysEnabled(SysStep(y, acts[0]), acts[1..]))
  }

  function SysRun(y: Sys, acts: seq<Action>): Sys
    decreases |acts|
  {
    if acts == [] then y else SysRun(SysStep(y, acts[0]), acts[1..])
  }

  predicate ClientOk(c: Chan, k: Client) {
    match k
    case Outside => true
    case Submitted(own) => own <= c.submitted
    case Handed(own, handed) => own <= handed <= c.submitted
    case Entered(own, q, submited) => own <= q.seqno <= submited <= c.submitted
    case InLoop(own, q, seen) =>
      own <= q.seqno <= seen.submited <= c.submitted && WaitCodeOf(q, seen) == StillWaiting
    case Returned(own, q, seen, code) =>
      && code == WaitCodeOf(q, seen) && code != StillWaiting
      && own <= q.seqno && (own > 0 ==> code != Overflow)
      && (code == Zero ==> q.seqno <= c.finished) && (code != Overflow ==> q.seqno <= c.submitted)
  }

  ghost predicate SysInv(y: Sys) {
    Inv(y.chan) && forall t :: t in y.clients ==> ClientOk(y.chan, y.clients[t])
  }

  lemma ClientsStayOk(y: Sys, e: Event)
    requires SysInv(y)
    ensures SysInv(y.(chan := Step(y.chan, e)))
  {
    StepKeepsInv(y.chan, e);
    StepMonotone(y.chan, e);
  }

  /** One more turn of a loop that has not ended. */
  lemma LoopAppend(q: Request, turns: seq<Turn>, turn: Turn)
    requires LoopCode(q, turns) == StillWaiting
    ensures LoopCode(q, turns + [turn]) == TurnCode(q, turn)
  {
    assert (turns + [turn])[..|turns|] == turns;
  }

  lemma ClientStepOk(c: Chan, k: Client, a: Action)
    requires ClientOk(c, k)
    ensures ClientOk(c, ClientStep(c, k, a))
  {
    if a.LoopTurn? && k.InLoop? {
      LoopAppend(k.q, k.seen.turns, Turn(a.signal, c.finished, a.expired));
    }
  }

  lemma SysStepKeepsInv(y: Sys, a: Action)
    requires SysInv(y) && ActionEnabled(y, a)
    ensures SysInv(SysStep(y, a))
  {
    if a.Driver? {
      ClientsStayOk(y, a.e);
    } else if a.DoSubmit? && Free(ClientOf(y, a.t)) {
      ClientsStayOk(y, ESubmit(a.pid));
      ClientStepOk(Submit(y.chan, a.pid), ClientOf(y, a.t), a);
    } else {
      ClientStepOk(y.chan, ClientOf(y, a.t), a);
    }
  }

  lemma {:induction false} SysRunKeepsInv(y: Sys, acts: seq<Action>)
    requires SysInv(y) && SysEnabled(y, acts)
    ensures SysInv(SysRun(y, acts))
    decreases |acts|
  {
    if acts != [] {
      SysStepKeepsInv(y, acts[0]);
      SysRunKeepsInv(SysStep(y, acts[0]), acts[1..]);
    }
  }

  /** Job `own` is done with: completed or cancelled. */
  predicate Gone(c: Chan, own: nat) {
    !Queued(c, own) && (Done(c, own) || Reaped(c, own) || Cancelled(c, own))
  }

  /** What a client may conclude from its answer. */
  ghost predicate Answered(c: Chan, k: Client) {
    k.Returned? ==>
      && k.code == WaitCodeOf(k.q, k.seen)
      && (k.own > 0 ==> k.code != Overflow)
      && (k.code == Zero ==> forall j :: 0 <= j < |c.jobs| ==> c.jobs[j].seqno > k.q.seqno)
      && (k.code == Zero && k.own > 0 ==> Gone(c, k.own))
  }

  /** Main result on waiting, for every interleaving of any number of processes. Every wait answers what
      jz_aip_v20_wait_for_seqno answers on what it saw. After a 0, whatever the number was and whoever
      submitted it, no job up to that number is queued; if it is the number handed back by a submit, the
      caller's own job completed or was cancelled. The overflow error never meets such a number. */
  lemma ZeroMeansGone(acts: seq<Action>, t: nat)
    requires SysEnabled(Sys(INIT, map[]), acts)
    ensures var y := SysRun(Sys(INIT, map[]), acts); Answered(y.chan, ClientOf(y, t))
  {
    InitInv();
    SysRunKeepsInv(Sys(INIT, map[]), acts);
    ZeroMeansGoneIn(SysRun(Sys(INIT, map[]), acts), t);
  }

  lemma ZeroMeansGoneIn(y: Sys, t: nat)
    requires SysInv(y)
    ensures Answered(y.chan, ClientOf(y, t))
  {
    var k := ClientOf(y, t);
    if k.Returned? && k.code == Zero && k.own > 0 {
      PassedMeansGone(y.chan, k.own, k.q.seqno);
    }
  }

  /** Whatever number `finished` has reached, no job up to it is queued any more. */
  lemma PassedMeansGone(c: Chan, own: nat, handed: nat)
    requires Inv(c) && 0 < own <= handed <= c.finished
    ensures Gone(c, own)
  {
    SeqnosOf(c.jobs, own);
    CompletedSplits(c, own);
    assert !Queued(c, own);
  }

  /** The number handed back can belong to a later submitter: two submissions before the first
      process reads it. */
  lemma HandedMayBeLater()
    ensures var acts := [DoSubmit(1, 10), DoSubmit(2, 20), ReadSeqno(1)];
      SysEnabled(Sys(INIT, map[]), acts) && ClientOf(SysRun(Sys(INIT, map[]), acts), 1) == Handed(1, 2)
  {
    var y0 := Sys(INIT, map[]);
    var y1 := SysStep(y0, DoSubmit(1, 10));
    var y2 := SysStep(y1, DoSubmit(2, 20));
    var y3 := SysStep(y2, ReadSeqno(1));
    var acts := [DoSubmit(1, 10), DoSubmit(2, 20), ReadSeqno(1)];
    assert acts[1..] == [DoSubmit(2, 20), ReadSeqno(1)];
    assert acts[1..][1..] == [ReadSeqno(1)];
    assert acts[1..][1..][1..] == [];
    assert SysRun(y0, acts) == SysRun(y1, acts[1..]) == SysRun(y2, acts[1..][1..]) == SysRun(y3, []);
  }
}
