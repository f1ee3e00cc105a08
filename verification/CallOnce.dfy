/** `call_once` on Windows, as atomic steps of any number of threads sharing one flag. */
module CallOnce {
  /** Where a thread is in `call_once`. The first line is taken by the one thread that wins the exchange. */
  datatype Pc =
    | InitLock | EnterLock | Announce | CallStart | Calling | Finish | LeaveLock
    | Test | Switch | Exchange | WaitEnter | WaitLeave | Returned

  datatype Owner = Nobody | Thread(t: nat)

  /** The flag's status and lock, how often the callback was started and whether it has finished, and the threads. */
  datatype State = State(status: nat, ready: bool, owner: Owner, runs: nat, done: bool, winner: Owner, pcs: seq<Pc>)

  predicate Initial(s: State) {
    s.status == 0 && !s.ready && s.owner == Nobody && s.runs == 0 && !s.done && s.winner == Nobody
    && forall t :: 0 <= t < |s.pcs| ==> s.pcs[t] == Test
  }

  /** A thread can step unless it has returned or is waiting for the lock. */
  predicate Enabled(s: State, t: nat) {
    t < |s.pcs| && s.pcs[t] != Returned && ((s.pcs[t] == EnterLock || s.pcs[t] == WaitEnter) ==> s.owner == Nobody)
  }

  function Goto(s: State, t: nat, pc: Pc): State
    requires t < |s.pcs|
  {
    s.(pcs := s.pcs[t := pc])
  }

  /** One atomic step of thread `t`. */
  function Step(s: State, t: nat): State
    requires Enabled(s, t)
  {
    match s.pcs[t]
    case Test => Goto(s, t, if s.status < 3 then Switch else Returned)
    case Switch => Goto(s, t, if s.status == 0 then Exchange else if s.status == 2 then WaitEnter else Test)
    case Exchange => if s.status == 0 then Goto(s.(status := 1, winner := Thread(t)), t, InitLock) else Goto(s, t, Test)
    case InitLock => Goto(s.(ready := true), t, EnterLock)
    case EnterLock => Goto(s.(owner := Thread(t)), t, Announce)
    case Announce => Goto(s.(status := 2), t, CallStart)
    case CallStart => Goto(s.(runs := s.runs + 1), t, Calling)
    case Calling => Goto(s.(done := true), t, Finish)
    case Finish => Goto(s.(status := 3), t, LeaveLock)
    case LeaveLock => Goto(s.(owner := Nobody), t, Returned)
    case WaitEnter => Goto(s.(owner := Thread(t)), t, WaitLeave)
    case WaitLeave => Goto(s.(owner := Nobody), t, Test)
  }

  /** The state a schedule leads to: a thread that cannot step when it is picked stays where it is. */
  function After(s: State, schedule: seq<nat>): State {
    if schedule == [] then s
    else
      var p, t := After(s, schedule[..|schedule| - 1]), schedule[|schedule| - 1];
      if Enabled(p, t) then Step(p, t) else p
  }

  // ----- the invariant

  predicate Winning(pc: Pc) {
    pc.InitLock? || pc.EnterLock? || pc.Announce? || pc.CallStart? || pc.Calling? || pc.Finish? || pc.LeaveLock?
  }

  predicate Holding(pc: Pc) {
    pc.Announce? || pc.CallStart? || pc.Calling? || pc.Finish? || pc.LeaveLock? || pc.WaitLeave?
  }

  /** What the winner's position says about the flag. */
  predicate Phase(s: State, pc: Pc) {
    match pc
    case InitLock => s.status == 1 && !s.ready && s.runs == 0 && !s.done
    case EnterLock => s.status == 1 && s.ready && s.owner == Nobody && s.runs == 0 && !s.done
    case Announce => s.status == 1 && s.ready && s.runs == 0 && !s.done
    case CallStart => s.status == 2 && s.ready && s.runs == 0 && !s.done
    case Calling => s.status == 2 && s.ready && s.runs == 1 && !s.done
    case Finish => s.status == 2 && s.ready && s.runs == 1 && s.done
    case LeaveLock => s.status == 3 && s.ready && s.runs == 1 && s.done
    case Returned => s.status == 3 && s.ready && s.runs == 1 && s.done
    case _ => false
  }

  /** What any other thread's position says. */
  predicate Waiting(s: State, pc: Pc) {
    && !Winning(pc)
    && (pc == WaitEnter || pc == WaitLeave ==> s.status >= 2)
    && (pc == Returned ==> s.status == 3)
  }

  predicate Inv(s: State) {
    && (s.winner == Nobody ==> s.status == 0 && !s.ready && s.runs == 0 && !s.done)
    && (s.winner.Thread? ==> s.winner.t < |s.pcs| && Phase(s, s.pcs[s.winner.t]))
    && (forall t :: 0 <= t < |s.pcs| && s.winner != Thread(t) ==> Waiting(s, s.pcs[t]))
    && (forall t :: 0 <= t < |s.pcs| ==> (Holding(s.pcs[t]) <==> s.owner == Thread(t)))
    && (s.owner.Thread? ==> s.owner.t < |s.pcs|)
  }

  lemma InitialInv(s: State)
    requires Initial(s)
    ensures Inv(s)
  {
  }

  /** A step of a thread that has not won leaves the callback alone. */
  lemma LoserStep(s: State, t: nat)
    requires Inv(s) && Enabled(s, t) && s.winner != Thread(t) && !(s.pcs[t] == Exchange && s.status == 0)
    ensures Inv(Step(s, t)) && Step(s, t).status == s.status
  {
    var s' := Step(s, t);
    assert Waiting(s, s.pcs[t]);
    assert s.status <= 3;
    OneMoves(s, t);
    LoserMove(s, t);
    hide Step, Waiting, Phase, Holding;
    forall u | 0 <= u < |s'.pcs| && s'.winner != Thread(u)
      ensures Waiting(s', s'.pcs[u])
    {
      assert Waiting(s, s.pcs[u]);
      if u != t { StillWaiting(s, s', s.pcs[u]); }
    }
    if s.winner.Thread? { StillPhase(s, s', s.pcs[s.winner.t]); }
  }

  lemma OneMoves(s: State, t: nat)
    requires Enabled(s, t)
    ensures |Step(s, t).pcs| == |s.pcs| && forall u :: 0 <= u < |s.pcs| && u != t ==> Step(s, t).pcs[u] == s.pcs[u]
  {
  }

  /** What a thread that has not won can change: its own position, and the owner of the lock. */
  lemma LoserMove(s: State, t: nat)
    requires Enabled(s, t) && s.status <= 3 && Waiting(s, s.pcs[t]) && !(s.pcs[t] == Exchange && s.status == 0)
    requires Holding(s.pcs[t]) <==> s.owner == Thread(t)
    ensures var s' := Step(s, t);
            && SameFlag(s, s') && Waiting(s', s'.pcs[t])
            && (Holding(s'.pcs[t]) <==> s'.owner == Thread(t))
            && (s'.owner == s.owner || (s.owner == Nobody && s'.owner == Thread(t)) || (s.owner == Thread(t) && s'.owner == Nobody))
  {
  }

  predicate SameFlag(s: State, s': State) {
    s'.status == s.status && s'.ready == s.ready && s'.runs == s.runs && s'.done == s.done && s'.winner == s.winner
  }

  lemma StillWaiting(s: State, s': State, pc: Pc)
    requires SameFlag(s, s') && Waiting(s, pc)
    ensures Waiting(s', pc)
  {
  }

  lemma StillPhase(s: State, s': State, pc: Pc)
    requires SameFlag(s, s') && Phase(s, pc) && (pc == EnterLock ==> s'.owner == Nobody)
    ensures Phase(s', pc)
  {
  }

  /** Winning the exchange. */
  lemma WinStep(s: State, t: nat)
    requires Inv(s) && Enabled(s, t) && s.pcs[t] == Exchange && s.status == 0
    ensures Inv(Step(s, t)) && s.status <= Step(s, t).status
  {
    var s' := Step(s, t);
    assert s.winner == Nobody;
    assert forall u :: 0 <= u < |s.pcs| && u != t ==> s'.pcs[u] == s.pcs[u];
  }

  /** A step of the winner. */
  lemma WinnerStep(s: State, t: nat)
    requires Inv(s) && Enabled(s, t) && s.winner == Thread(t)
    ensures Inv(Step(s, t)) && s.status <= Step(s, t).status
  {
    var s' := Step(s, t);
    assert Phase(s, s.pcs[t]);
    assert Phase(s', s'.pcs[t]);
    assert forall u :: 0 <= u < |s.pcs| && u != t ==> s'.pcs[u] == s.pcs[u] && Waiting(s, s.pcs[u]);
  }

  lemma StepInv(s: State, t: nat)
    requires Inv(s) && Enabled(s, t)
    ensures Inv(Step(s, t)) && s.status <= Step(s, t).status
  {
    hide Step, Inv;
    if s.winner == Thread(t) {
      WinnerStep(s, t);
    } else if s.pcs[t] == Exchange && s.status == 0 {
      WinStep(s, t);
    } else {
      LoserStep(s, t);
    }
  }

  lemma {:induction false} RunInv(s: State, schedule: seq<nat>)
    requires Initial(s)
    ensures Inv(After(s, schedule))
  {
    hide Step, Inv;
    if schedule == [] {
      InitialInv(s);
    } else {
      var p, t := After(s, schedule[..|schedule| - 1]), schedule[|schedule| - 1];
      RunInv(s, schedule[..|schedule| - 1]);
      if Enabled(p, t) { StepInv(p, t); }
    }
  }

  // ----- what callers rely on

  /** The safety of one state: the callback ran at most once, nobody returned before it finished, nobody is at or past the
      lock before it was initialised, at most one thread is inside, and while the status is 2 that thread is the winner. */
  predicate Safe(s: State) {
    && s.runs <= 1
    && (forall t :: 0 <= t < |s.pcs| && s.pcs[t] == Returned ==> s.runs == 1 && s.done)
    && (forall t :: 0 <= t < |s.pcs| && (Holding(s.pcs[t]) || s.pcs[t] == EnterLock || s.pcs[t] == WaitEnter) ==> s.ready)
    && (forall t, u :: 0 <= t < u < |s.pcs| ==> !(Holding(s.pcs[t]) && Holding(s.pcs[u])))
    && (s.status == 2 ==> s.winner.Thread? && s.owner == s.winner)
  }

  lemma InvSafe(s: State)
    requires Inv(s)
    ensures Safe(s)
  {
  }

  /** Over any number of threads and any interleaving every state is safe, and the status only grows. */
  lemma CallOnceSafe(s: State, schedule: seq<nat>, t: nat)
    requires Initial(s)
    ensures Safe(After(s, schedule))
    ensures After(s, schedule).status <= After(s, schedule + [t]).status
  {
    var p := After(s, schedule);
    RunInv(s, schedule);
    InvSafe(p);
    assert (schedule + [t])[..|schedule|] == schedule;
    hide Step, Inv, Safe, Initial;
    if Enabled(p, t) { StepInv(p, t); }
  }

  /** No deadlock: the winner is never kept waiting, and some thread can step until all have returned. */
  lemma NoDeadlock(s: State)
    requires Inv(s)
    ensures s.winner.Thread? && s.pcs[s.winner.t] != Returned ==> Enabled(s, s.winner.t)
    ensures (forall t :: 0 <= t < |s.pcs| ==> s.pcs[t] == Returned) || exists t: nat :: Enabled(s, t)
  {
    if t: nat :| t < |s.pcs| && s.pcs[t] != Returned && !Enabled(s, t) {
      assert s.owner.Thread?;
      assert Holding(s.pcs[s.owner.t]);
      assert Enabled(s, s.owner.t);
    }
  }

  // ----- sums over the threads

  function Total(pcs: seq<Pc>, f: Pc -> nat): nat { if pcs == [] then 0 else f(pcs[0]) + Total(pcs[1..], f) }

  lemma {:induction false} TotalUpdate(pcs: seq<Pc>, t: nat, pc: Pc, f: Pc -> nat)
    requires t < |pcs|
    ensures Total(pcs[t := pc], f) == Total(pcs, f) - f(pcs[t]) + f(pc)
  {
    if t > 0 {
      assert pcs[t := pc][1..] == pcs[1..][t - 1 := pc];
      TotalUpdate(pcs[1..], t - 1, pc, f);
    } else {
      assert pcs[t := pc][1..] == pcs[1..];
    }
  }

  lemma {:induction false} TotalBetween(pcs: seq<Pc>, f: Pc -> nat, low: nat, high: nat)
    requires forall t :: 0 <= t < |pcs| ==> low <= f(pcs[t]) <= high
    ensures low * |pcs| <= Total(pcs, f) <= high * |pcs|
  {
    if pcs != [] {
      TotalBetween(pcs[1..], f, low, high);
      assert low * |pcs| == low + low * (|pcs| - 1) && high * |pcs| == high + high * (|pcs| - 1);
    }
  }

  /** Every thread picked can step. */
  predicate AllEnabled(s: State, schedule: seq<nat>) {
    schedule == [] ||
    (AllEnabled(s, schedule[..|schedule| - 1]) && Enabled(After(s, schedule[..|schedule| - 1]), schedule[|schedule| - 1]))
  }

  // ----- the callback is called

  /** The steps from here to the exchange, that one included, while the status is 0. */
  function Climb(pc: Pc): nat {
    match pc
    case Test => 3
    case Switch => 2
    case Exchange => 1
    case _ => 0
  }

  /** As long as no thread has won, every step is one of those. */
  lemma ClimbStep(s: State, t: nat)
    requires Inv(s) && s.winner == Nobody && Enabled(s, t) && Step(s, t).winner == Nobody
    ensures Total(Step(s, t).pcs, Climb) == Total(s.pcs, Climb) - 1
  {
    assert Waiting(s, s.pcs[t]);
    TotalUpdate(s.pcs, t, Step(s, t).pcs[t], Climb);
  }

  lemma WinnerStays(s: State, t: nat)
    requires Inv(s) && Enabled(s, t) && s.winner.Thread?
    ensures Step(s, t).winner == s.winner && (s.winner != Thread(t) ==> Step(s, t).pcs[s.winner.t] == s.pcs[s.winner.t])
  {
    assert Phase(s, s.pcs[s.winner.t]);
  }

  lemma {:induction false} Climbed(s: State, schedule: seq<nat>)
    requires Initial(s) && AllEnabled(s, schedule) && After(s, schedule).winner == Nobody
    ensures |schedule| + Total(After(s, schedule).pcs, Climb) == 3 * |s.pcs| && |After(s, schedule).pcs| == |s.pcs|
  {
    hide Step, Inv, Enabled;
    if schedule == [] {
      TotalBetween(s.pcs, Climb, 3, 3);
    } else {
      var front, t := schedule[..|schedule| - 1], schedule[|schedule| - 1];
      RunInv(s, front);
      var p := After(s, front);
      if p.winner.Thread? { WinnerStays(p, t); }
      Climbed(s, front);
      ClimbStep(p, t);
      OneMoves(p, t);
    }
  }

  lemma SomebodyWins(s: State, schedule: seq<nat>)
    requires Initial(s) && AllEnabled(s, schedule) && |schedule| > 2 * |s.pcs|
    ensures After(s, schedule).winner.Thread?
  {
    var s' := After(s, schedule);
    RunInv(s, schedule);
    if s'.winner == Nobody {
      Climbed(s, schedule);
      forall t | 0 <= t < |s'.pcs| ensures 1 <= Climb(s'.pcs[t]) <= 3 {
        assert Waiting(s', s'.pcs[t]);
      }
      TotalBetween(s'.pcs, Climb, 1, 3);
    }
  }

  /** The steps the winner has left. */
  function Due(pc: Pc): nat {
    match pc
    case InitLock => 7
    case EnterLock => 6
    case Announce => 5
    case CallStart => 4
    case Calling => 3
    case Finish => 2
    case LeaveLock => 1
    case _ => 0
  }

  function Picks(schedule: seq<nat>, t: nat): nat {
    if schedule == [] then 0 else Picks(schedule[..|schedule| - 1], t) + if schedule[|schedule| - 1] == t then 1 else 0
  }

  lemma DueStep(s: State, t: nat)
    requires Inv(s) && s.winner == Thread(t)
    ensures if s.pcs[t] == Returned then !Enabled(s, t) && Due(s.pcs[t]) == 0
            else Enabled(s, t) && Due(Step(s, t).pcs[t]) == Due(s.pcs[t]) - 1
  {
    assert Phase(s, s.pcs[t]);
    NoDeadlock(s);
  }

  /** Each time the winner is picked it takes the next of its steps, whatever the others do. */
  lemma {:induction false} WinnerGoesOn(s: State, t: nat, schedule: seq<nat>)
    requires Inv(s) && s.winner == Thread(t)
    ensures var s' := After(s, schedule);
            && Inv(s') && s'.winner == Thread(t)
            && Due(s'.pcs[t]) == if Picks(schedule, t) < Due(s.pcs[t]) then Due(s.pcs[t]) - Picks(schedule, t) else 0
  {
    hide Step, Inv, Enabled, Due;
    if schedule != [] {
      var front, u := schedule[..|schedule| - 1], schedule[|schedule| - 1];
      WinnerGoesOn(s, t, front);
      var p := After(s, front);
      DueStep(p, t);
      if Enabled(p, u) {
        StepInv(p, u);
        WinnerStays(p, u);
      }
    }
  }

  /** From the start, after more than two steps for every thread one of them has won, and once that one has been picked seven
      times more the callback has been called, has finished, and its caller has returned. */
  lemma CallbackRuns(s: State, schedule: seq<nat>, more: seq<nat>)
    requires Initial(s) && AllEnabled(s, schedule) && |schedule| > 2 * |s.pcs|
    ensures var p := After(s, schedule);
            p.winner.Thread? &&
            (Picks(more, p.winner.t) >= 7 ==>
               var s' := After(p, more);
               s'.runs == 1 && s'.done && s'.winner == p.winner && p.winner.t < |s'.pcs| && s'.pcs[p.winner.t] == Returned)
  {
    var p := After(s, schedule);
    SomebodyWins(s, schedule);
    RunInv(s, schedule);
    var t := p.winner.t;
    WinnerGoesOn(p, t, more);
    assert Phase(After(p, more), After(p, more).pcs[t]);
  }

  /** The steps of another thread until it waits for the lock, while the status is 2. */
  function ToWait(pc: Pc): nat {
    match pc
    case WaitEnter => 0
    case Switch => 1
    case Test => 2
    case _ => 3
  }

  lemma ToWaitStep(s: State, t: nat)
    requires Inv(s) && s.status == 2 && t < |s.pcs| && s.winner != Thread(t)
    ensures if s.pcs[t] == WaitEnter then !Enabled(s, t)
            else Enabled(s, t) && ToWait(Step(s, t).pcs[t]) == ToWait(s.pcs[t]) - 1 && Step(s, t).winner == s.winner
    ensures s.winner.Thread?
  {
    assert Waiting(s, s.pcs[t]) && s.owner == s.winner;
  }

  /** A thread that comes while the callback runs takes at most three steps and then waits for the lock until it has finished. */
  lemma {:induction false} WaitsForCallback(s: State, t: nat, schedule: seq<nat>)
    requires Inv(s) && s.status == 2 && t < |s.pcs| && s.winner != Thread(t) && After(s, schedule).status == 2
    ensures var s' := After(s, schedule);
            && Inv(s') && s'.winner == s.winner && |s'.pcs| == |s.pcs|
            && ToWait(s'.pcs[t]) == (if Picks(schedule, t) < ToWait(s.pcs[t]) then ToWait(s.pcs[t]) - Picks(schedule, t) else 0)
            && (Picks(schedule, t) >= 3 ==> s'.pcs[t] == WaitEnter && !Enabled(s', t))
  {
    hide Step, Inv, Enabled;
    if schedule != [] {
      var front, u := schedule[..|schedule| - 1], schedule[|schedule| - 1];
      StatusGrows(s, front);
      var p := After(s, front);
      if Enabled(p, u) { StepInv(p, u); }
      WaitsForCallback(s, t, front);
      ToWaitStep(p, t);
      if Enabled(p, u) {
        OneMoves(p, u);
        WinnerStays(p, u);
      }
    }
    ToWaitStep(After(s, schedule), t);
  }

  lemma {:induction false} StatusGrows(s: State, schedule: seq<nat>)
    requires Inv(s)
    ensures Inv(After(s, schedule)) && s.status <= After(s, schedule).status
  {
    hide Step, Inv, Enabled;
    if schedule != [] {
      var front, u := schedule[..|schedule| - 1], schedule[|schedule| - 1];
      StatusGrows(s, front);
      if Enabled(After(s, front), u) { StepInv(After(s, front), u); }
    }
  }

  // ----- after the callback every thread gets out

  /** The steps a thread has left once the status is 3. */
  function Left(pc: Pc): nat {
    match pc
    case Returned => 0
    case Test => 1
    case LeaveLock => 1
    case Switch => 2
    case Exchange => 2
    case WaitLeave => 2
    case WaitEnter => 3
    case _ => 0
  }

  function Work(pcs: seq<Pc>): nat { Total(pcs, Left) }

  /** From status 3 on, every step anyone takes brings the end nearer; with NoDeadlock, all threads return. */
  lemma DrainsAfterCallback(s: State, t: nat)
    requires Inv(s) && Enabled(s, t) && s.status == 3
    ensures Work(Step(s, t).pcs) == Work(s.pcs) - 1 && Step(s, t).status == 3
  {
    TotalUpdate(s.pcs, t, Step(s, t).pcs[t], Left);
  }

  lemma {:induction false} NoneLeft(pcs: seq<Pc>, t: nat)
    requires Work(pcs) == 0 && t < |pcs|
    ensures Left(pcs[t]) == 0
  {
    if t > 0 { NoneLeft(pcs[1..], t - 1); }
  }

  lemma {:induction false} Drained(s: State, schedule: seq<nat>)
    requires Inv(s) && s.status == 3 && AllEnabled(s, schedule)
    ensures var s' := After(s, schedule); Inv(s') && s'.status == 3 && |schedule| + Work(s'.pcs) == Work(s.pcs)
  {
    hide Step, Inv, Enabled, Work;
    if schedule != [] {
      var front, t := schedule[..|schedule| - 1], schedule[|schedule| - 1];
      Drained(s, front);
      DrainsAfterCallback(After(s, front), t);
      StepInv(After(s, front), t);
    }
  }

  lemma {:induction false} NoWork(pcs: seq<Pc>)
    requires forall t :: 0 <= t < |pcs| ==> pcs[t] == Returned
    ensures Work(pcs) == 0
  {
    if pcs != [] { NoWork(pcs[1..]); }
  }

  /** Once the callback is done, however the threads are scheduled, at most Work(s) steps are left in all, and a run has
      taken that many exactly when every thread has returned; a shorter run can always go on. */
  lemma AllReturn(s: State, schedule: seq<nat>)
    requires Inv(s) && s.status == 3 && AllEnabled(s, schedule)
    ensures |schedule| <= Work(s.pcs)
    ensures var s' := After(s, schedule);
            && (|schedule| == Work(s.pcs) <==> forall t :: 0 <= t < |s'.pcs| ==> s'.pcs[t] == Returned)
            && (|schedule| < Work(s.pcs) ==> exists t: nat :: Enabled(s', t))
  {
    hide After, AllEnabled, Work, Step;
    var s' := After(s, schedule);
    Drained(s, schedule);
    NoDeadlock(s');
    if |schedule| == Work(s.pcs) {
      forall t | 0 <= t < |s'.pcs| ensures s'.pcs[t] == Returned {
        NoneLeft(s'.pcs, t);
        assert s'.winner != Thread(t) ==> Waiting(s', s'.pcs[t]);
      }
    }
    if forall t :: 0 <= t < |s'.pcs| ==> s'.pcs[t] == Returned { NoWork(s'.pcs); }
  }
}
