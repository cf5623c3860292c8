/** What waiting processes do in a run, action by action, and what they have seen in it. */
module WaitHistory {
  import opened Sequences
  import opened Scheduler
  import opened SchedulerSafety
  import opened SchedulerRuns
  import opened Waits

  const START := Sys(INIT, map[])

  /** The system before action `i` of a run. */
  function At(acts: seq<Action>, i: nat): Sys
    requires i <= |acts|
  {
    SysRun(START, acts[..i])
  }

  lemma {:induction false} SysRunAppend(y: Sys, acts: seq<Action>, a: Action)
    ensures SysRun(y, acts + [a]) == SysStep(SysRun(y, acts), a)
    decreases |acts|
  {
    if acts == [] {
      assert acts + [a] == [a];
      assert [a][1..] == [];
    } else {
      assert (acts + [a])[1..] == acts[1..] + [a];
      SysRunAppend(SysStep(y, acts[0]), acts[1..], a);
    }
  }

  lemma {:induction false} EnabledPrefix(y: Sys, acts: seq<Action>, i: nat)
    requires SysEnabled(y, acts) && i <= |acts|
    ensures SysEnabled(y, acts[..i]) && (i < |acts| ==> ActionEnabled(SysRun(y, acts[..i]), acts[i]))
    decreases |acts|
  {
    if i > 0 {
      assert acts[..i][1..] == acts[1..][..i - 1];
      EnabledPrefix(SysStep(y, acts[0]), acts[1..], i - 1);
    }
  }

  lemma NextAt(acts: seq<Action>, i: nat)
    requires i < |acts|
    ensures At(acts, i + 1) == SysStep(At(acts, i), acts[i])
  {
    assert acts[..i + 1] == acts[..i] + [acts[i]];
    SysRunAppend(START, acts[..i], acts[i]);
  }

  lemma InvAt(acts: seq<Action>, i: nat)
    requires SysEnabled(START, acts) && i <= |acts|
    ensures SysInv(At(acts, i))
  {
    InitInv();
    EnabledPrefix(START, acts, i);
    SysRunKeepsInv(START, acts[..i]);
  }

  // ---------------------------------------------------------------- one action

  /** The process that acts, if it is one. */
  predicate ActsAs(a: Action, t: nat) {
    !a.Driver? && a.t == t
  }

  /** What a turn of the loop makes of a waiting process, when the finished counter stands at `now`. */
  predicate TurnTaken(k: Client, signal: bool, now: nat, expired: bool, k': Client)
    requires k.InLoop?
  {
    var seen := Seen(k.seen.submited, k.seen.finished, k.seen.turns + [Turn(signal, now, expired)]);
    && (signal ==> k' == Returned(k.own, k.q, seen, ERestartSys))
    && (!signal && now >= k.q.seqno ==> k' == Returned(k.own, k.q, seen, Zero))
    && (!signal && now < k.q.seqno && expired && !k.q.forever ==> k' == Returned(k.own, k.q, seen, ETime))
    && (!signal && now < k.q.seqno && (k.q.forever || !expired) ==> k' == InLoop(k.own, k.q, seen))
  }

  /** What the first read makes of a process that has passed the overflow test. */
  predicate FirstReadTaken(k: Client, now: nat, k': Client)
    requires k.Entered?
  {
    var seen := Seen(k.submited, now, []);
    && (now >= k.q.seqno ==> k' == Returned(k.own, k.q, seen, Zero))
    && (now < k.q.seqno && k.q.timeoutZero ==> k' == Returned(k.own, k.q, seen, ETime))
    && (now < k.q.seqno && !k.q.timeoutZero ==> k' == InLoop(k.own, k.q, seen))
  }

  /** What entering a wait makes of a process: it waits on behalf of its own job exactly if the number is
      the one that its last submit handed back. */
  predicate WaitEntered(k: Client, q: Request, submitted: nat, k': Client) {
    var own := if k.Handed? && k.handed == q.seqno then k.own else 0;
    && (q.seqno > submitted ==> k' == Returned(own, q, Seen(submitted, 0, []), Overflow))
    && (q.seqno <= submitted ==> k' == Entered(own, q, submitted))
  }

  /** Main result on single actions, for every run. A submission queues the job of the process under the
      next number, which is its own; the number handed back, the overflow test, the first read and every
      turn of the loop use the counters as they are at that moment; a turn ends the wait with the
      signal, the reached number or the expired timer, in this order; nobody else moves. */
  lemma ActionMeaning(acts: seq<Action>, i: nat, t: nat)
    requires SysEnabled(START, acts) && i < |acts|
    ensures var c := At(acts, i).chan; var c' := At(acts, i + 1).chan;
      var k, k' := ClientOf(At(acts, i), t), ClientOf(At(acts, i + 1), t);
      && (!ActsAs(acts[i], t) ==> k' == k)
      && (acts[i].Driver? ==> c' == Step(c, acts[i].e))
      && (forall pid :: acts[i] == DoSubmit(t, pid) && Free(k) ==>
            k' == Submitted(c.submitted + 1) && c' == Submit(c, pid)
            && c'.submitted == c.submitted + 1 && c'.jobs != []
            && c'.jobs[|c'.jobs| - 1].seqno == c.submitted + 1 && c'.jobs[|c'.jobs| - 1].pid == pid)
      && (acts[i] == FailSubmit(t) && Free(k) ==> k' == Submitted(0) && c' == c)
      && (acts[i] == ReadSeqno(t) && k.Submitted? ==> k' == Handed(k.own, c.submitted) && c' == c)
      && (forall q :: acts[i] == EnterWait(t, q) && Free(k) ==> WaitEntered(k, q, c.submitted, k') && c' == c)
      && (acts[i] == FirstRead(t) && k.Entered? ==> FirstReadTaken(k, c.finished, k') && c' == c)
      && (forall signal, expired :: acts[i] == LoopTurn(t, signal, expired) && k.InLoop? ==>
            TurnTaken(k, signal, c.finished, expired, k') && c' == c)
  {
    NextAt(acts, i);
  }

  lemma {:induction false} FinishedStays(acts: seq<Action>, j: nat, i: nat)
    requires SysEnabled(START, acts) && j <= i <= |acts|
    ensures At(acts, j).chan.finished <= At(acts, i).chan.finished
    ensures At(acts, j).chan.submitted <= At(acts, i).chan.submitted
    decreases i
  {
    if j < i {
      FinishedStays(acts, j, i - 1);
      NextAt(acts, i - 1);
      InvAt(acts, i - 1);
      var y, a := At(acts, i - 1), acts[i - 1];
      if a.Driver? {
        StepMonotone(y.chan, a.e);
      } else if a.DoSubmit? && Free(ClientOf(y, a.t)) {
        StepMonotone(y.chan, ESubmit(a.pid));
      }
    }
  }

  /** Main result on noticing, for every run: once the finished counter has reached the number of a
      waiting process, at whatever earlier moment, its next turn without a signal returns 0. */
  lemma CompletionIsNoticed(acts: seq<Action>, j: nat, i: nat, t: nat, expired: bool)
    requires SysEnabled(START, acts) && j <= i < |acts| && acts[i] == LoopTurn(t, false, expired)
    requires var k := ClientOf(At(acts, i), t); k.InLoop? && At(acts, j).chan.finished >= k.q.seqno
    ensures var k, k' := ClientOf(At(acts, i), t), ClientOf(At(acts, i + 1), t);
      k'.Returned? && k'.code == Zero && k'.own == k.own && k'.q == k.q
  {
    FinishedStays(acts, j, i);
    ActionMeaning(acts, i, t);
  }

  // ---------------------------------------------------------------- the reads of a wait

  predicate Rising(ps: seq<nat>, n: nat) {
    (forall i, j :: 0 <= i < j < |ps| ==> ps[i] < ps[j]) && forall i :: 0 <= i < |ps| ==> ps[i] < n
  }

  /** Action `p` enters the wait `q` of process `t`, with the counter of submissions at `submitted`. */
  predicate EnteredAt(acts: seq<Action>, p: nat, t: nat, q: Request, submitted: nat) {
    p < |acts| && acts[p] == EnterWait(t, q) && At(acts, p).chan.submitted == submitted
  }

  predicate FirstReadAt(acts: seq<Action>, p: nat, t: nat, finished: nat) {
    p < |acts| && acts[p] == FirstRead(t) && At(acts, p).chan.finished == finished
  }

  predicate TurnAt(acts: seq<Action>, p: nat, t: nat, turn: Turn) {
    p < |acts| && acts[p] == LoopTurn(t, turn.signal, turn.expired) && At(acts, p).chan.finished == turn.finished
  }

  /** `ps` are the moments, one behind the other and before `n`, at which `seen` was read: on entry, by
      the first read, and by each turn. */
  predicate ReadAt(acts: seq<Action>, n: nat, t: nat, q: Request, seen: Seen, ps: seq<nat>) {
    && |ps| == 2 + |seen.turns| && Rising(ps, n)
    && EnteredAt(acts, ps[0], t, q, seen.submited) && FirstReadAt(acts, ps[1], t, seen.finished)
    && forall m :: 0 <= m < |seen.turns| ==> TurnAt(acts, ps[m + 2], t, seen.turns[m])
  }

  /** The record of a process is the history of its wait. */
  predicate Truthful(acts: seq<Action>, n: nat, t: nat, k: Client, ps: seq<nat>) {
    && (k.Entered? ==> |ps| == 1 && Rising(ps, n) && EnteredAt(acts, ps[0], t, k.q, k.submited))
    && (k.InLoop? ==> ReadAt(acts, n, t, k.q, k.seen, ps))
    && (k.Returned? && k.code == Overflow ==>
          |ps| == 1 && Rising(ps, n) && EnteredAt(acts, ps[0], t, k.q, k.seen.submited))
    && (k.Returned? && k.code != Overflow ==> ReadAt(acts, n, t, k.q, k.seen, ps))
  }

  /** Main result on the records, for every run: what a process has seen is what the counters were at its
      own entry, its first read and its turns, in this order. */
  lemma {:induction false} ReadsAreReal(acts: seq<Action>, n: nat, t: nat) returns (ps: seq<nat>)
    requires SysEnabled(START, acts) && n <= |acts|
    ensures Truthful(acts, n, t, ClientOf(At(acts, n), t), ps)
    decreases n
  {
    if n == 0 {
      ps := [];
    } else {
      ps := ReadsAreReal(acts, n - 1, t);
      ActionMeaning(acts, n - 1, t);
      ps := ReadsStep(acts, n - 1, t, ps);
    }
  }

  lemma ReadsStep(acts: seq<Action>, n: nat, t: nat, ps: seq<nat>) returns (ps': seq<nat>)
    requires n < |acts| && Truthful(acts, n, t, ClientOf(At(acts, n), t), ps)
    ensures Truthful(acts, n + 1, t, ClientOf(At(acts, n + 1), t), ps')
  {
    NextAt(acts, n);
    var k, k' := ClientOf(At(acts, n), t), ClientOf(At(acts, n + 1), t);
    ps' := if k' == k then ps
           else if acts[n].EnterWait? then [n]
           else if acts[n].FirstRead? || acts[n].LoopTurn? then ps + [n]
           else [];
  }

  // ---------------------------------------------------------------- whose job

  /** The own number of a process, 0 if it has none. */
  function OwnOf(k: Client): nat {
    match k
    case Outside => 0
    case Submitted(own) => own
    case Handed(own, _) => own
    case Entered(own, _, _) => own
    case InLoop(own, _, _) => own
    case Returned(own, _, _, _) => own
  }

  /** Action `p` is a submission by process `t` that queued a job of process id `pid` as number `own`. */
  predicate SubmittedAt(acts: seq<Action>, p: nat, t: nat, own: nat, pid: nat) {
    && p < |acts| && acts[p] == DoSubmit(t, pid)
    && var jobs := At(acts, p + 1).chan.jobs;
       jobs != [] && jobs[|jobs| - 1].seqno == own && jobs[|jobs| - 1].pid == pid
  }

  /** Main result on ownership, for every run: the own number of a process is that of a job which it
      submitted itself. */
  lemma {:induction false} OwnIsSubmitted(acts: seq<Action>, n: nat, t: nat) returns (p: nat, pid: nat)
    requires SysEnabled(START, acts) && n <= |acts|
    ensures var own := OwnOf(ClientOf(At(acts, n), t)); own > 0 ==> p < n && SubmittedAt(acts, p, t, own, pid)
    decreases n
  {
    p, pid := 0, 0;
    if n > 0 {
      p, pid := OwnIsSubmitted(acts, n - 1, t);
      ActionMeaning(acts, n - 1, t);
      NextAt(acts, n - 1);
      var k := ClientOf(At(acts, n - 1), t);
      if acts[n - 1].DoSubmit? && acts[n - 1].t == t && Free(k) {
        p, pid := n - 1, acts[n - 1].pid;
      }
    }
  }
}
