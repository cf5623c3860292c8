/** What a wait for a job number answers, as a function of what it observes. */
module Waits {

  datatype WaitCode = Zero | Overflow | ETime | ERestartSys | StillWaiting

  /** The arguments of a wait: the number, and whether the timeout is zero or infinite. */
  datatype Request = Request(seqno: nat, timeoutZero: bool, forever: bool)

  /** What one turn of the waiting loop observes: a pending signal, `finished_seqno`, an expired timer. */
  datatype Turn = Turn(signal: bool, finished: nat, expired: bool)

  /** What a whole wait has observed: both counters on entry, then its turns. */
  datatype Seen = Seen(submited: nat, finished: nat, turns: seq<Turn>)

  /** One turn of the loop. */
  function TurnCode(q: Request, turn: Turn): WaitCode {
    if turn.signal then ERestartSys
    else if turn.finished >= q.seqno then Zero
    else if !q.forever && turn.expired then ETime
    else StillWaiting
  }

  /** The loop: the first turn that ends it decides. */
  function LoopCode(q: Request, turns: seq<Turn>): WaitCode {
    if turns == [] then StillWaiting
    else
      var n := |turns| - 1;
      var code := LoopCode(q, turns[..n]);
      if code != StillWaiting then code else TurnCode(q, turns[n])
  }

  /** The test on entry against the counter of submissions, the first read of the other counter, and
      the loop. */
  function WaitCodeOf(q: Request, seen: Seen): WaitCode {
    if q.seqno > seen.submited then Overflow
    else if seen.finished >= q.seqno then Zero
    else if q.timeoutZero then ETime
    else LoopCode(q, seen.turns)
  }

  // ---------------------------------------------------------------- what the answers mean

  /** The turn does not end the wait. */
  predicate Continues(q: Request, turn: Turn) {
    !turn.signal && turn.finished < q.seqno && (q.forever || !turn.expired)
  }

  /** The loop gets as far as turn `i`. */
  predicate Reaches(q: Request, turns: seq<Turn>, i: nat) {
    i <= |turns| && forall k :: 0 <= k < i ==> Continues(q, turns[k])
  }

  predicate Served(q: Request, turns: seq<Turn>) {
    exists i :: 0 <= i < |turns| && Reaches(q, turns, i) && !turns[i].signal && turns[i].finished >= q.seqno
  }

  predicate TimedOut(q: Request, turns: seq<Turn>) {
    exists i :: 0 <= i < |turns| && Reaches(q, turns, i) && !q.forever
             && !turns[i].signal && turns[i].finished < q.seqno && turns[i].expired
  }

  predicate Interrupted(q: Request, turns: seq<Turn>) {
    exists i :: 0 <= i < |turns| && Reaches(q, turns, i) && turns[i].signal
  }

  /** The first turn that does not continue decides, whatever follows. */
  lemma {:induction false} LoopStopsAt(q: Request, turns: seq<Turn>, i: nat)
    requires Reaches(q, turns, i)
    ensures i == |turns| ==> LoopCode(q, turns) == StillWaiting
    ensures i < |turns| && !Continues(q, turns[i]) ==> LoopCode(q, turns) == TurnCode(q, turns[i])
    decreases |turns|
  {
    if turns != [] {
      var n := |turns| - 1;
      LoopStopsAt(q, turns[..n], if i < n then i else n);
    }
  }

  /** Main result on the answers of the loop, each in both directions. */
  lemma LoopCodeMeans(q: Request, turns: seq<Turn>)
    ensures LoopCode(q, turns) == StillWaiting <==> Reaches(q, turns, |turns|)
    ensures LoopCode(q, turns) == Zero <==> Served(q, turns)
    ensures LoopCode(q, turns) == ETime <==> TimedOut(q, turns)
    ensures LoopCode(q, turns) == ERestartSys <==> Interrupted(q, turns)
    ensures LoopCode(q, turns) != Overflow
  {
    var i := FirstEnd(q, turns);
    LoopStopsAt(q, turns, i);
    forall j | 0 <= j < |turns| && Reaches(q, turns, j) && !Continues(q, turns[j]) ensures j == i {}
  }

  lemma {:induction false} FirstEnd(q: Request, turns: seq<Turn>) returns (i: nat)
    ensures Reaches(q, turns, i) && (i < |turns| ==> !Continues(q, turns[i]))
    decreases |turns|
  {
    if turns == [] {
      i := 0;
    } else {
      var n := |turns| - 1;
      i := FirstEnd(q, turns[..n]);
      if i == n && Continues(q, turns[n]) {
        i := n + 1;
      }
    }
  }
}
