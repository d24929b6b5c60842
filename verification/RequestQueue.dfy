/** The request queue of internal/traffic/limiter.go as a state machine: Acquire is split at its fast
    send, its locked check, its select and its deferred decrement, and any number of callers take these
    steps in any order. */
module RequestQueue {
  import opened Strings

  type Caller = nat

  /** Where a caller stands. A caller that is not in the map is outside. */
  datatype Phase =
    | Outside
    | Blocked     // the fast send found the semaphore full
    | Waiting     // counted, in the select
    | Admitted    // has sent, not yet uncounted
    | GivingUp    // cancelled or timed out, not yet uncounted
    | Holding     // Acquire has returned the release function

  datatype State = State(sem: int, waiting: int, phase: map<Caller, Phase>)

  datatype Limits = Limits(maxConcurrent: int, maxQueued: int)

  datatype Step =
    | FastSend(c: Caller)
    | Check(c: Caller)
    | Send(c: Caller)
    | GiveUp(c: Caller)
    | Uncount(c: Caller)
    | Release(c: Caller)

  /** NewQueue. */
  function NewLimits(maxConcurrent: int, maxQueued: int): (l: Limits)
    ensures l.maxConcurrent >= 1 && l.maxQueued >= 0
  {
    Limits(if maxConcurrent <= 0 then 1 else maxConcurrent, if maxQueued < 0 then 0 else maxQueued)
  }

  function PhaseOf(s: State, c: Caller): Phase {
    if c in s.phase then s.phase[c] else Outside
  }

  function Move(s: State, c: Caller, p: Phase): State {
    s.(phase := s.phase[c := p])
  }

  /** What one step does, if it can be taken. A send can be taken only while there is room; a release
      takes the default branch when the semaphore is empty. */
  function Next(l: Limits, s: State, step: Step): Option<State> {
    var c := step.c;
    match (step, PhaseOf(s, c))
    case (FastSend(_), Outside) =>
      Some(if s.sem < l.maxConcurrent then Move(s, c, Holding).(sem := s.sem + 1) else Move(s, c, Blocked))
    case (Check(_), Blocked) =>
      Some(if s.waiting >= l.maxQueued then Move(s, c, Outside) else Move(s, c, Waiting).(waiting := s.waiting + 1))
    case (Send(_), Waiting) =>
      if s.sem < l.maxConcurrent then Some(Move(s, c, Admitted).(sem := s.sem + 1)) else None
    case (GiveUp(_), Waiting) =>
      Some(Move(s, c, GivingUp))
    case (Uncount(_), Admitted) =>
      Some(Move(s, c, Holding).(waiting := s.waiting - 1))
    case (Uncount(_), GivingUp) =>
      Some(Move(s, c, Outside).(waiting := s.waiting - 1))
    case (Release(_), Holding) =>
      Some(Move(s, c, Outside).(sem := if s.sem > 0 then s.sem - 1 else s.sem))
    case _ => None
  }

  // ----- the invariant

  predicate HasGrant(p: Phase) {
    p == Admitted || p == Holding
  }

  predicate IsCounted(p: Phase) {
    p == Waiting || p == Admitted || p == GivingUp
  }

  function Grants(s: State): set<Caller> {
    set c | c in s.phase && HasGrant(s.phase[c])
  }

  function Counted(s: State): set<Caller> {
    set c | c in s.phase && IsCounted(s.phase[c])
  }

  /** The semaphore holds one token for each grant that is not yet released, and waiting counts the
      callers between increment and decrement; both stay within their limits. */
  ghost predicate Safe(l: Limits, s: State) {
    && s.sem == |Grants(s)| <= l.maxConcurrent
    && s.waiting == |Counted(s)| <= l.maxQueued
  }

  lemma MoveGrants(s: State, c: Caller, p: Phase)
    ensures |Grants(Move(s, c, p))| ==
            |Grants(s)| + (if HasGrant(p) then 1 else 0) - (if HasGrant(PhaseOf(s, c)) then 1 else 0)
  {
    assert Grants(Move(s, c, p)) == if HasGrant(p) then Grants(s) + {c} else Grants(s) - {c};
  }

  lemma MoveCounted(s: State, c: Caller, p: Phase)
    ensures |Counted(Move(s, c, p))| ==
            |Counted(s)| + (if IsCounted(p) then 1 else 0) - (if IsCounted(PhaseOf(s, c)) then 1 else 0)
  {
    assert Counted(Move(s, c, p)) == if IsCounted(p) then Counted(s) + {c} else Counted(s) - {c};
  }

  /** One step of any caller keeps the queue safe, and a release always finds its token. */
  lemma StepIsSafe(l: Limits, s: State, step: Step)
    requires Safe(l, s) && Next(l, s, step).Some?
    ensures Safe(l, Next(l, s, step).value)
    ensures step.Release? ==> s.sem > 0 && Next(l, s, step).value.sem == s.sem - 1
  {
    var t := Next(l, s, step).value;
    var c := step.c;
    MoveGrants(s, c, PhaseOf(t, c));
    MoveCounted(s, c, PhaseOf(t, c));
    assert Grants(t) == Grants(Move(s, c, PhaseOf(t, c)));
    assert Counted(t) == Counted(Move(s, c, PhaseOf(t, c)));
    if step.Release? {
      assert c in Grants(s);
    }
  }

  // ----- all interleavings

  function Start(): State {
    State(0, 0, map[])
  }

  /** The state an interleaving of steps leads to, if each of them could be taken. */
  function After(l: Limits, s: State, steps: seq<Step>): Option<State>
    decreases |steps|
  {
    if steps == [] then
      Some(s)
    else
      match Next(l, s, steps[0])
      case None => None
      case Some(t) => After(l, t, steps[1..])
  }

  lemma {:induction false} RunIsSafe(l: Limits, s: State, steps: seq<Step>)
    requires Safe(l, s) && After(l, s, steps).Some?
    ensures Safe(l, After(l, s, steps).value)
    decreases |steps|
  {
    if steps != [] {
      StepIsSafe(l, s, steps[0]);
      RunIsSafe(l, Next(l, s, steps[0]).value, steps[1..]);
    }
  }

  /** In every reachable state: no more than maxConcurrent grants, no more than maxQueued counted
      callers, nothing leaked once everybody is outside, and a caller that is turned away at the check
      has exactly maxQueued others counted before it, all places being taken when it was blocked. */
  lemma EveryInterleavingIsSafe(maxConcurrent: int, maxQueued: int, steps: seq<Step>)
    requires After(NewLimits(maxConcurrent, maxQueued), Start(), steps).Some?
    ensures var l := NewLimits(maxConcurrent, maxQueued);
            var s := After(l, Start(), steps).value;
            && Safe(l, s)
            && s.sem == |Grants(s)| <= (if maxConcurrent > 0 then maxConcurrent else 1)
            && s.waiting == |Counted(s)| <= (if maxQueued > 0 then maxQueued else 0)
            && ((forall c :: c in s.phase ==> s.phase[c] == Outside) ==> s.sem == 0 && s.waiting == 0)
            && (forall c :: PhaseOf(s, c) == Holding ==> s.sem > 0)
            && (forall c :: PhaseOf(s, c) == Blocked && PhaseOf(Next(l, s, Check(c)).value, c) == Outside ==> |Counted(s)| == if maxQueued > 0 then maxQueued else 0)
            && (forall c :: PhaseOf(s, c) == Outside && PhaseOf(Next(l, s, FastSend(c)).value, c) == Blocked ==> |Grants(s)| == if maxConcurrent > 0 then maxConcurrent else 1)
  {
    var l := NewLimits(maxConcurrent, maxQueued);
    assert Grants(Start()) == {} && Counted(Start()) == {};
    RunIsSafe(l, Start(), steps);
    var s := After(l, Start(), steps).value;
    if forall c :: c in s.phase ==> s.phase[c] == Outside {
      assert Grants(s) == {} && Counted(s) == {};
    }
    forall c | PhaseOf(s, c) == Holding
      ensures s.sem > 0
    {
      assert c in Grants(s);
    }
  }

  // ----- the queue's own fields

  class Queue {
    const limits: Limits
    var sem: int
    var waiting: int

    // Where each caller stands; the source keeps this in its callers' stacks.
    ghost var phase: map<Caller, Phase>

    ghost function Abstract(): State
      reads this
    {
      State(sem, waiting, phase)
    }

    ghost predicate Valid()
      reads this
    {
      Safe(limits, Abstract())
    }

    constructor (maxConcurrent: int, maxQueued: int)
      ensures Valid() && Abstract() == Start() && limits == NewLimits(maxConcurrent, maxQueued)
    {
      limits := NewLimits(maxConcurrent, maxQueued);
      sem, waiting, phase := 0, 0, map[];
      new;
      assert Grants(Start()) == {} && Counted(Start()) == {};
    }

    method TrySend(c: Caller) returns (granted: bool)
      requires Valid() && PhaseOf(Abstract(), c) == Outside
      modifies this
      ensures Valid() && Next(limits, old(Abstract()), FastSend(c)) == Some(Abstract())
      ensures granted <==> PhaseOf(Abstract(), c) == Holding
    {
      StepIsSafe(limits, Abstract(), FastSend(c));
      granted := sem < limits.maxConcurrent;
      if granted {
        sem := sem + 1;
      }
      phase := phase[c := if granted then Holding else Blocked];
    }

    /** The locked check: the only way to ErrQueueFull. */
    method CountIn(c: Caller) returns (full: bool)
      requires Valid() && PhaseOf(Abstract(), c) == Blocked
      modifies this
      ensures Valid() && Next(limits, old(Abstract()), Check(c)) == Some(Abstract())
      ensures full <==> PhaseOf(Abstract(), c) == Outside
    {
      StepIsSafe(limits, Abstract(), Check(c));
      full := waiting >= limits.maxQueued;
      if !full {
        waiting := waiting + 1;
      }
      phase := phase[c := if full then Outside else Waiting];
    }

    /** The select, which blocks until one of its cases can go ahead; cancelled tells which one does. */
    method Select(c: Caller, cancelled: bool)
      requires Valid() && PhaseOf(Abstract(), c) == Waiting && (cancelled || sem < limits.maxConcurrent)
      modifies this
      ensures Valid() && Next(limits, old(Abstract()), if cancelled then GiveUp(c) else Send(c)) == Some(Abstract())
    {
      StepIsSafe(limits, Abstract(), if cancelled then GiveUp(c) else Send(c));
      if !cancelled {
        sem := sem + 1;
      }
      phase := phase[c := if cancelled then GivingUp else Admitted];
    }

    method CountOut(c: Caller)
      requires Valid() && (PhaseOf(Abstract(), c) == Admitted || PhaseOf(Abstract(), c) == GivingUp)
      modifies this
      ensures Valid() && Next(limits, old(Abstract()), Uncount(c)) == Some(Abstract())
    {
      StepIsSafe(limits, Abstract(), Uncount(c));
      waiting := waiting - 1;
      phase := phase[c := if phase[c] == Admitted then Holding else Outside];
    }

    /** The default branch, for an empty semaphore, is never taken. */
    method ReleaseGrant(c: Caller) returns (received: bool)
      requires Valid() && PhaseOf(Abstract(), c) == Holding
      modifies this
      ensures Valid() && Next(limits, old(Abstract()), Release(c)) == Some(Abstract())
      ensures received && sem == old(sem) - 1
    {
      StepIsSafe(limits, Abstract(), Release(c));
      received := sem > 0;
      if received {
        sem := sem - 1;
      }
      phase := phase[c := Outside];
    }
  }
}
