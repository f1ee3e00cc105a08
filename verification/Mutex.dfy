/** The non-timed mutex on Windows: a critical section that its owner may enter again, plus the `mAlreadyLocked` flag,
    as atomic steps of any number of threads. */
module Mutex {
  /** Where a thread is inside a mutex call; `Idle` between calls. */
  datatype Pc = Idle | Entering | Spinning | Marking | TryEntered | TryBackingOut | TryMarking | Clearing | Leaving

  /** How often the thread has locked the mutex and not unlocked it, and the answer of its last `mtx_trylock`. */
  datatype Thread = Thread(pc: Pc, held: nat, answer: Answer)

  datatype Answer = NoAnswer | Success | Busy

  datatype Owner = Nobody | By(t: nat)

  datatype State = State(recursive: bool, owner: Owner, depth: nat, marked: bool, threads: seq<Thread>)

  datatype Action = Continue | CallLock | CallTryLock | CallUnlock

  /** `mtx_init` */
  predicate Initial(s: State) {
    s.owner == Nobody && s.depth == 0 && !s.marked
    && forall t :: 0 <= t < |s.threads| ==> s.threads[t] == Thread(Idle, 0, NoAnswer)
  }

  predicate CanEnter(s: State, t: nat) { s.owner == Nobody || s.owner == By(t) }

  /** Calls start from `Idle`; only a thread that holds the mutex unlocks it; entering the section may have to wait. */
  predicate Enabled(s: State, t: nat, a: Action) {
    t < |s.threads| &&
    match a
    case Continue => s.threads[t].pc != Idle && (s.threads[t].pc == Entering ==> CanEnter(s, t))
    case CallUnlock => s.threads[t].pc == Idle && s.threads[t].held > 0
    case _ => s.threads[t].pc == Idle
  }

  function Enter(s: State, t: nat): State { s.(owner := By(t), depth := s.depth + 1) }

  /** Leaving a section that is not entered is undefined; LeavingOwns shows that it never happens. */
  function Leave(s: State): State {
    if s.depth == 0 then s else s.(depth := s.depth - 1, owner := if s.depth == 1 then Nobody else s.owner)
  }

  function Put(s: State, t: nat, th: Thread): State
    requires t < |s.threads|
  {
    s.(threads := s.threads[t := th])
  }

  /** One atomic step of thread `t`. */
  function Step(s: State, t: nat, a: Action): State
    requires Enabled(s, t, a)
  {
    var th := s.threads[t];
    match a
    case CallLock => Put(s, t, th.(pc := Entering))
    case CallTryLock =>
      if !CanEnter(s, t) then Put(s, t, th.(answer := Busy))
      else if s.recursive then Put(Enter(s, t), t, th.(held := th.held + 1, answer := Success))
      else Put(Enter(s, t), t, th.(pc := TryEntered))
    case CallUnlock => Put(s, t, th.(pc := Clearing))
    case Continue =>
      match th.pc
      case Entering =>
        if s.recursive then Put(Enter(s, t), t, th.(pc := Idle, held := th.held + 1))
        else Put(Enter(s, t), t, th.(pc := Spinning))
      case Spinning => if s.marked then s else Put(s, t, th.(pc := Marking))
      case Marking => Put(s.(marked := true), t, th.(pc := Idle, held := th.held + 1))
      case TryEntered => Put(s, t, th.(pc := if s.marked then TryBackingOut else TryMarking))
      case TryBackingOut => Put(Leave(s), t, th.(pc := Idle, answer := Busy))
      case TryMarking => Put(s.(marked := true), t, th.(pc := Idle, held := th.held + 1, answer := Success))
      case Clearing => Put(s.(marked := false), t, th.(pc := Leaving))
      case Leaving => Put(Leave(s), t, th.(pc := Idle, held := if th.held > 0 then th.held - 1 else 0))
  }

  // ----- the invariant

  /** How deep a thread is in the critical section: once for every lock held, once more in the middle of a call. */
  function Inside(th: Thread): nat {
    th.held + if th.pc.Spinning? || th.pc.Marking? || th.pc.TryEntered? || th.pc.TryBackingOut? || th.pc.TryMarking? then 1 else 0
  }

  /** What the position of a thread says on a mutex that is not recursive. */
  predicate PlainThread(s: State, th: Thread) {
    && th.held <= 1
    && (th.held == 1 && th.pc != Leaving ==> s.marked)
    && (Inside(th) > 0 && (th.held == 0 || th.pc == Leaving) ==> !s.marked)
    && (th.pc == Marking || th.pc == TryMarking ==> th.held == 0)
    && (th.pc == TryBackingOut ==> th.held == 1)
    && (th.pc == Clearing || th.pc == Leaving ==> th.held == 1)
  }

  predicate RecursiveThread(s: State, th: Thread) {
    && !th.pc.Spinning? && !th.pc.Marking? && !th.pc.TryEntered? && !th.pc.TryBackingOut? && !th.pc.TryMarking?
    && (th.pc == Clearing || th.pc == Leaving ==> th.held > 0)
  }

  predicate Inv(s: State) {
    && (s.owner == Nobody ==> s.depth == 0 && !s.marked)
    && (s.owner.By? ==> s.owner.t < |s.threads| && s.depth == Inside(s.threads[s.owner.t]) > 0)
    && (forall t :: 0 <= t < |s.threads| && s.owner != By(t) ==> Inside(s.threads[t]) == 0)
    && (forall t :: 0 <= t < |s.threads| ==> if s.recursive then RecursiveThread(s, s.threads[t]) else PlainThread(s, s.threads[t]))
    && (s.recursive ==> !s.marked)
  }

  lemma InitialInv(s: State)
    requires Initial(s)
    ensures Inv(s)
  {
  }

  /** A thread in the middle of leaving owns the section, so leaving is always defined. */
  lemma LeavingOwns(s: State, t: nat)
    requires Inv(s) && t < |s.threads| && (s.threads[t].pc == TryBackingOut || s.threads[t].pc == Leaving)
    ensures s.owner == By(t) && s.depth > 0
  {
  }

  /** Nothing else moves when a thread outside the section takes a step that stays outside. */
  lemma OthersUntouched(s: State, t: nat, a: Action)
    requires Enabled(s, t, a)
    ensures |Step(s, t, a).threads| == |s.threads| && Step(s, t, a).recursive == s.recursive
    ensures forall u :: 0 <= u < |s.threads| && u != t ==> Step(s, t, a).threads[u] == s.threads[u]
  {
  }

  /** A step of a thread that is inside the section: nobody else is. */
  lemma InsideStep(s: State, t: nat, a: Action)
    requires Inv(s) && Enabled(s, t, a) && s.owner == By(t)
    ensures Inv(Step(s, t, a))
  {
    var s' := Step(s, t, a);
    OthersUntouched(s, t, a);
    assert forall u :: 0 <= u < |s.threads| && u != t ==> Inside(s.threads[u]) == 0 && s.threads[u].held == 0;
    if s.recursive {
      assert RecursiveThread(s, s.threads[t]);
      assert RecursiveThread(s', s'.threads[t]);
    } else {
      assert PlainThread(s, s.threads[t]);
      assert PlainThread(s', s'.threads[t]);
    }
  }

  /** A step of a thread that is outside it: it enters a free section, or changes nothing shared. */
  lemma OutsideStep(s: State, t: nat, a: Action)
    requires Inv(s) && Enabled(s, t, a) && s.owner != By(t)
    ensures Inv(Step(s, t, a))
  {
    var s' := Step(s, t, a);
    OthersUntouched(s, t, a);
    assert Inside(s.threads[t]) == 0;
    if s.recursive {
      assert RecursiveThread(s, s.threads[t]);
      assert RecursiveThread(s', s'.threads[t]);
    } else {
      assert PlainThread(s, s.threads[t]);
      assert PlainThread(s', s'.threads[t]);
    }
  }

  lemma StepInv(s: State, t: nat, a: Action)
    requires Inv(s) && Enabled(s, t, a)
    ensures Inv(Step(s, t, a))
  {
    hide Step, Inv;
    if s.owner == By(t) {
      InsideStep(s, t, a);
    } else {
      OutsideStep(s, t, a);
    }
  }

  datatype Pick = Pick(t: nat, a: Action)

  /** The state a schedule leads to: a pick that is not possible when it comes changes nothing. */
  function After(s: State, schedule: seq<Pick>): State {
    if schedule == [] then s
    else
      var p, x := After(s, schedule[..|schedule| - 1]), schedule[|schedule| - 1];
      if Enabled(p, x.t, x.a) then Step(p, x.t, x.a) else p
  }

  lemma {:induction false} RunInv(s: State, schedule: seq<Pick>)
    requires Inv(s)
    ensures Inv(After(s, schedule)) && |After(s, schedule).threads| == |s.threads| && After(s, schedule).recursive == s.recursive
  {
    hide Step, Inv;
    if schedule != [] {
      var p, x := After(s, schedule[..|schedule| - 1]), schedule[|schedule| - 1];
      RunInv(s, schedule[..|schedule| - 1]);
      if Enabled(p, x.t, x.a) {
        StepInv(p, x.t, x.a);
        OthersUntouched(p, x.t, x.a);
      }
    }
  }

  lemma {:induction false} AfterThen(s: State, first: seq<Pick>, then_: seq<Pick>)
    ensures After(s, first + then_) == After(After(s, first), then_)
  {
    hide Step, Enabled;
    var all := first + then_;
    if then_ == [] {
      assert all == first;
    } else {
      assert all[..|all| - 1] == first + then_[..|then_| - 1];
      AfterThen(s, first, then_[..|then_| - 1]);
    }
  }

  // ----- what callers rely on

  /** The safety of one state: at most one thread holds the mutex, the section's owner does not differ from it, a plain mutex
      is held at most once, and the flag is set only while the section is owned. */
  predicate Safe(s: State) {
    && (forall t, u :: 0 <= t < |s.threads| && 0 <= u < |s.threads| && s.threads[t].held > 0 && s.threads[u].held > 0 ==> t == u)
    && (forall t :: 0 <= t < |s.threads| && s.threads[t].held > 0 ==> s.owner == By(t) && s.depth >= s.threads[t].held)
    && (forall t :: 0 <= t < |s.threads| && !s.recursive ==> s.threads[t].held <= 1)
    && (s.marked ==> s.owner.By? && s.owner.t < |s.threads| && s.threads[s.owner.t].held == 1)
  }

  lemma InvSafe(s: State)
    requires Inv(s)
    ensures Safe(s)
  {
    assert s.marked ==> s.owner.By? && Inside(s.threads[s.owner.t]) > 0;
    assert s.marked ==> PlainThread(s, s.threads[s.owner.t]);
  }

  /** Over any number of threads and any interleaving of lock, trylock and unlock calls. */
  lemma MutualExclusion(s: State, schedule: seq<Pick>)
    requires Initial(s)
    ensures Safe(After(s, schedule))
  {
    InitialInv(s);
    RunInv(s, schedule);
    InvSafe(After(s, schedule));
  }

  lemma SpinsOn(s: State, t: nat, u: nat, a: Action)
    requires Inv(s) && t < |s.threads| && s.threads[t].pc == Spinning && s.threads[t].held > 0 && Enabled(s, u, a)
    ensures Step(s, u, a).threads[t] == s.threads[t]
  {
    assert s.recursive ==> RecursiveThread(s, s.threads[t]);
    assert PlainThread(s, s.threads[t]);
  }

  lemma {:induction false} SpinsForever(s: State, t: nat, schedule: seq<Pick>)
    requires Inv(s) && t < |s.threads| && s.threads[t].pc == Spinning && s.threads[t].held > 0
    ensures t < |After(s, schedule).threads| && After(s, schedule).threads[t] == s.threads[t]
  {
    hide Step, Inv, Enabled;
    if schedule != [] {
      var p, x := After(s, schedule[..|schedule| - 1]), schedule[|schedule| - 1];
      RunInv(s, schedule[..|schedule| - 1]);
      SpinsForever(s, t, schedule[..|schedule| - 1]);
      if Enabled(p, x.t, x.a) {
        SpinsOn(p, t, x.t, x.a);
        OthersUntouched(p, x.t, x.a);
      }
    }
  }

  /** The section, the flag and the thread inside it. */
  predicate SameInside(s: State, s': State, t: nat) {
    && t < |s.threads| == |s'.threads| && s'.recursive == s.recursive
    && s'.owner == s.owner && s'.depth == s.depth && s'.marked == s.marked && s'.threads[t] == s.threads[t]
  }

  lemma OutsiderStep(s: State, t: nat, u: nat, a: Action)
    requires Inv(s) && s.owner == By(t) && u != t && Enabled(s, u, a)
    ensures SameInside(s, Step(s, u, a), t)
  {
    assert Inside(s.threads[u]) == 0;
    assert if s.recursive then RecursiveThread(s, s.threads[u]) else PlainThread(s, s.threads[u]);
    OthersUntouched(s, u, a);
  }

  /** Whatever the other threads do, the section and its owner stay as they are. */
  lemma {:induction false} Undisturbed(s: State, t: nat, schedule: seq<Pick>)
    requires Inv(s) && s.owner == By(t) && forall k :: 0 <= k < |schedule| ==> schedule[k].t != t
    ensures Inv(After(s, schedule)) && SameInside(s, After(s, schedule), t)
  {
    RunInv(s, schedule);
    assert t < |s.threads|;
    hide Step, Inv, Enabled;
    if schedule != [] {
      var front := schedule[..|schedule| - 1];
      var p, x := After(s, front), schedule[|schedule| - 1];
      Undisturbed(s, t, front);
      if Enabled(p, x.t, x.a) { OutsiderStep(p, t, x.t, x.a); }
    }
  }

  /** No pick is of thread `t`. */
  predicate Others(t: nat, schedule: seq<Pick>) { forall k :: 0 <= k < |schedule| ==> schedule[k].t != t }

  /** The others leave a thread's own place and locks alone. */
  lemma {:induction false} ThreadKept(s: State, t: nat, schedule: seq<Pick>)
    requires Inv(s) && t < |s.threads| && Others(t, schedule)
    ensures var s' := After(s, schedule);
            && Inv(s') && |s'.threads| == |s.threads| && s'.threads[t] == s.threads[t] && s'.recursive == s.recursive
  {
    RunInv(s, schedule);
    hide Step, Inv, Enabled;
    if schedule != [] {
      var front := schedule[..|schedule| - 1];
      var p, x := After(s, front), schedule[|schedule| - 1];
      ThreadKept(s, t, front);
      if Enabled(p, x.t, x.a) { OthersUntouched(p, x.t, x.a); }
    }
  }

  /** A call of thread `t`, a schedule, the call's next step, and another schedule. */
  function Called(t: nat, a: Action, x: seq<Pick>, more: seq<Pick>): seq<Pick> {
    [Pick(t, a)] + x + [Pick(t, Continue)] + more
  }

  lemma CallThen(s: State, t: nat, a: Action, x: seq<Pick>, more: seq<Pick>)
    requires Enabled(s, t, a)
    ensures var mid := After(Step(s, t, a), x);
            After(s, Called(t, a, x, more)) ==
            After(if Enabled(mid, t, Continue) then Step(mid, t, Continue) else mid, more)
  {
    hide Step, Enabled, After;
    var call, go := [Pick(t, a)], [Pick(t, Continue)];
    var mid := After(Step(s, t, a), x);
    One(s, Pick(t, a));
    AfterThen(s, call, x);
    AfterThen(s, call + x, go);
    AfterThen(s, call + x + go, more);
    One(mid, Pick(t, Continue));
  }

  lemma One(s: State, x: Pick)
    ensures After(s, [x]) == if Enabled(s, x.t, x.a) then Step(s, x.t, x.a) else s
  {
    assert After(s, [x][..0]) == s;
  }

  /** Three steps of thread `t`, the first of them `a`, with steps of others in between. */
  function Interleaved(t: nat, a: Action, x: seq<Pick>, y: seq<Pick>): seq<Pick> {
    [Pick(t, a)] + x + [Pick(t, Continue)] + y + [Pick(t, Continue)]
  }

  lemma StepByStep(s: State, t: nat, a: Action, x: seq<Pick>, y: seq<Pick>)
    requires Enabled(s, t, a)
    requires var s2 := After(Step(s, t, a), x);
             Enabled(s2, t, Continue) && Enabled(After(Step(s2, t, Continue), y), t, Continue)
    ensures var s2 := After(Step(s, t, a), x);
            After(s, Interleaved(t, a, x, y)) == Step(After(Step(s2, t, Continue), y), t, Continue)
  {
    hide Step, Enabled, After;
    var call, go := [Pick(t, a)], [Pick(t, Continue)];
    var s2 := After(Step(s, t, a), x);
    One(s, Pick(t, a));
    AfterThen(s, call, x);
    One(s2, Pick(t, Continue));
    AfterThen(s, call + x, go);
    AfterThen(s, call + x + go, y);
    One(After(Step(s2, t, Continue), y), Pick(t, Continue));
    AfterThen(s, call + x + go + y, go);
  }

  /** The section is owned by `t`, as deep as `depth`, the flag is as given, and the thread is `th`. */
  predicate Within(s: State, t: nat, depth: nat, marked: bool, th: Thread) {
    && t < |s.threads| && s.threads[t] == th
    && s.owner == By(t) && s.depth == depth && s.marked == marked
  }

  /** It stays so whatever the others do. */
  lemma StaysWithin(s: State, t: nat, depth: nat, marked: bool, th: Thread, schedule: seq<Pick>)
    requires Inv(s) && Within(s, t, depth, marked, th) && Others(t, schedule)
    ensures var s' := After(s, schedule); Inv(s') && Within(s', t, depth, marked, th) && s'.recursive == s.recursive
  {
    hide Inv, After;
    Undisturbed(s, t, schedule);
  }

  // ----- trylock

  lemma TryEnters(s: State, t: nat)
    requires Inv(s) && !s.recursive && t < |s.threads| && s.threads[t].pc == Idle && CanEnter(s, t)
    ensures var th := s.threads[t];
            var s' := Step(s, t, CallTryLock);
            && Inv(s') && !s'.recursive && Within(s', t, th.held + 1, th.held > 0, th.(pc := TryEntered))
            && th.held <= 1 && (th.held > 0 ==> s.depth == 1)
  {
    assert PlainThread(s, s.threads[t]);
    StepInv(s, t, CallTryLock);
  }

  lemma TryTests(s: State, t: nat, depth: nat, marked: bool, th: Thread)
    requires Inv(s) && Within(s, t, depth, marked, th) && th.pc == TryEntered
    ensures Enabled(s, t, Continue)
    ensures var s' := Step(s, t, Continue);
            Inv(s') && Within(s', t, depth, marked, th.(pc := if marked then TryBackingOut else TryMarking))
  {
    StepInv(s, t, Continue);
  }

  lemma TryEnds(s: State, t: nat, th: Thread)
    requires Inv(s) && th.held <= 1
    requires Within(s, t, th.held + 1, th.held > 0, th.(pc := if th.held > 0 then TryBackingOut else TryMarking))
    ensures Enabled(s, t, Continue)
    ensures Within(Step(s, t, Continue), t, 1, true, Thread(Idle, 1, if th.held > 0 then Busy else Success))
  {
    assert s.recursive ==> RecursiveThread(s, s.threads[t]);
  }

  /** `mtx_trylock` on a plain mutex by a thread that gets into the section, with any steps of the others in between: busy if
      the caller held the mutex, success if not, and either way the caller holds it once and the section is one deep. */
  lemma TryLockRun(s: State, t: nat, x: seq<Pick>, y: seq<Pick>)
    requires Inv(s) && !s.recursive && t < |s.threads| && s.threads[t].pc == Idle && CanEnter(s, t) && Others(t, x) && Others(t, y)
    ensures Within(After(s, Interleaved(t, CallTryLock, x, y)), t, 1, true,
                   Thread(Idle, 1, if s.threads[t].held > 0 then Busy else Success))
  {
    var th := s.threads[t];
    TryEnters(s, t);
    hide Step, Inv, After, Within;
    var s1 := Step(s, t, CallTryLock);
    StaysWithin(s1, t, th.held + 1, th.held > 0, th.(pc := TryEntered), x);
    var s2 := After(s1, x);
    TryTests(s2, t, th.held + 1, th.held > 0, th.(pc := TryEntered));
    var s3 := Step(s2, t, Continue);
    var at := th.(pc := if th.held > 0 then TryBackingOut else TryMarking);
    StaysWithin(s3, t, th.held + 1, th.held > 0, at, y);
    TryEnds(After(s3, y), t, th);
    StepByStep(s, t, CallTryLock, x, y);
  }

  /** By a thread that does not get in: busy at once, and nothing else changes. */
  lemma TryLockRefused(s: State, t: nat)
    requires Inv(s) && t < |s.threads| && s.threads[t].pc == Idle && !CanEnter(s, t)
    ensures Step(s, t, CallTryLock) == s.(threads := s.threads[t := s.threads[t].(answer := Busy)])
    ensures s.threads[t].held == 0 && exists u :: 0 <= u < |s.threads| && u != t && Inside(s.threads[u]) > 0
  {
    assert s.owner.By? && Inside(s.threads[s.owner.t]) > 0;
  }

  /** `mtx_trylock` by the thread that holds a plain mutex answers busy and leaves the section as deep as it was. */
  lemma OwnerTryLock(s: State, t: nat, x: seq<Pick>, y: seq<Pick>)
    requires Inv(s) && !s.recursive && t < |s.threads| && s.threads[t].pc == Idle && s.threads[t].held > 0
    requires Others(t, x) && Others(t, y)
    ensures Within(After(s, Interleaved(t, CallTryLock, x, y)), t, s.depth, true, s.threads[t].(answer := Busy))
  {
    assert PlainThread(s, s.threads[t]);
    TryEnters(s, t);
    hide After, Interleaved;
    TryLockRun(s, t, x, y);
  }

  // ----- lock

  lemma LockEnters(s: State, t: nat)
    requires Inv(s) && !s.recursive && t < |s.threads| && s.threads[t].pc == Entering && s.threads[t].held == 0 && s.owner == Nobody
    ensures Enabled(s, t, Continue)
    ensures var s' := Step(s, t, Continue);
            Inv(s') && !s'.recursive && Within(s', t, 1, false, s.threads[t].(pc := Spinning))
  {
    StepInv(s, t, Continue);
  }

  lemma LockPasses(s: State, t: nat, th: Thread)
    requires Inv(s) && !s.recursive && Within(s, t, 1, false, th) && th.pc == Spinning && th.held == 0
    ensures Enabled(s, t, Continue)
    ensures var s' := Step(s, t, Continue);
            Inv(s') && !s'.recursive && Within(s', t, 1, false, th.(pc := Marking))
  {
    StepInv(s, t, Continue);
  }

  lemma LockMarks(s: State, t: nat, th: Thread)
    requires Inv(s) && Within(s, t, 1, false, th) && th.pc == Marking && th.held == 0
    ensures Enabled(s, t, Continue)
    ensures Within(Step(s, t, Continue), t, 1, true, th.(pc := Idle, held := 1))
  {
    assert s.recursive ==> RecursiveThread(s, s.threads[t]);
  }

  lemma LockCalls(s: State, t: nat, w: seq<Pick>)
    requires Inv(s) && t < |s.threads| && s.threads[t].pc == Idle && Others(t, w)
    ensures Enabled(s, t, CallLock)
    ensures var mid := After(Step(s, t, CallLock), w);
            && Inv(mid) && |mid.threads| == |s.threads| && mid.recursive == s.recursive
            && mid.threads[t] == s.threads[t].(pc := Entering)
            && (Enabled(mid, t, Continue) <==> CanEnter(mid, t))
  {
    StepInv(s, t, CallLock);
    ThreadKept(Step(s, t, CallLock), t, w);
  }

  /** `mtx_lock` on a plain mutex by a thread that does not hold it and finds the section free: it never waits on the flag, and
      whatever the others do it holds the mutex three steps later. */
  lemma LockRun(s: State, t: nat, w: seq<Pick>, x: seq<Pick>, y: seq<Pick>)
    requires Inv(s) && !s.recursive && t < |s.threads| && s.threads[t].pc == Idle && s.threads[t].held == 0
    requires Others(t, w) && Others(t, x) && Others(t, y)
    requires After(Step(s, t, CallLock), w).owner == Nobody
    ensures Within(After(s, [Pick(t, CallLock)] + w + Interleaved(t, Continue, x, y)), t, 1, true, s.threads[t].(pc := Idle, held := 1))
  {
    LockCalls(s, t, w);
    var mid := After(Step(s, t, CallLock), w);
    var th := mid.threads[t];
    LockEnters(mid, t);
    hide Step, Inv, After, Within, Interleaved;
    var s1 := Step(mid, t, Continue);
    StaysWithin(s1, t, 1, false, th.(pc := Spinning), x);
    var s2 := After(s1, x);
    LockPasses(s2, t, th.(pc := Spinning));
    var s3 := Step(s2, t, Continue);
    StaysWithin(s3, t, 1, false, th.(pc := Marking), y);
    LockMarks(After(s3, y), t, th.(pc := Marking));
    StepByStep(mid, t, Continue, x, y);
    One(s, Pick(t, CallLock));
    AfterThen(s, [Pick(t, CallLock)], w);
    AfterThen(s, [Pick(t, CallLock)] + w, Interleaved(t, Continue, x, y));
  }

  lemma SelfEnters(s: State, t: nat)
    requires Inv(s) && !s.recursive && t < |s.threads| && s.threads[t].pc == Entering && s.threads[t].held > 0
    ensures Enabled(s, t, Continue)
    ensures var s' := Step(s, t, Continue); Inv(s') && t < |s'.threads| && s'.threads[t] == s.threads[t].(pc := Spinning)
  {
    StepInv(s, t, Continue);
  }

  /** A thread that locks a plain mutex it already holds enters the section again and then waits for ever: no run of any
      threads gets it out. */
  lemma SelfDeadlock(s: State, t: nat, w: seq<Pick>, schedule: seq<Pick>)
    requires Inv(s) && !s.recursive && t < |s.threads| && s.threads[t].pc == Idle && s.threads[t].held > 0 && Others(t, w)
    ensures var s' := After(s, Called(t, CallLock, w, schedule));
            t < |s'.threads| && s'.threads[t] == s.threads[t].(pc := Spinning)
  {
    LockCalls(s, t, w);
    var mid := After(Step(s, t, CallLock), w);
    SelfEnters(mid, t);
    hide Step, Inv, After, Called;
    SpinsForever(Step(mid, t, Continue), t, schedule);
    CallThen(s, t, CallLock, w, schedule);
  }

  // ----- recursive mutexes

  lemma RecursiveEnters(s: State, t: nat)
    requires Inv(s) && s.recursive && t < |s.threads| && s.threads[t].pc == Entering && CanEnter(s, t)
    ensures var s', th := Step(s, t, Continue), s.threads[t];
            Inv(s') && Within(s', t, th.held + 1, false, th.(pc := Idle, held := th.held + 1))
  {
    assert RecursiveThread(s, s.threads[t]);
    StepInv(s, t, Continue);
  }

  /** `mtx_lock` on a recursive mutex, with any steps of the others in between: a thread that finds the section free or its own
      holds one lock more, and the section is its own and as deep as the locks it holds; one that does not goes on waiting. */
  lemma RecursiveLockRun(s: State, t: nat, w: seq<Pick>, x: seq<Pick>)
    requires Inv(s) && s.recursive && t < |s.threads| && s.threads[t].pc == Idle && Others(t, w) && Others(t, x)
    ensures var th := s.threads[t];
            var s' := After(s, Called(t, CallLock, w, x));
            if CanEnter(After(Step(s, t, CallLock), w), t) then
              Within(s', t, th.held + 1, false, th.(held := th.held + 1))
            else t < |s'.threads| && s'.threads[t] == th.(pc := Entering)
  {
    var th := s.threads[t];
    LockCalls(s, t, w);
    var mid := After(Step(s, t, CallLock), w);
    CallThen(s, t, CallLock, w, x);
    if CanEnter(mid, t) {
      RecursiveEnters(mid, t);
      hide Step, Inv, After, Within, Called;
      StaysWithin(Step(mid, t, Continue), t, th.held + 1, false, th.(held := th.held + 1), x);
    } else {
      hide Step, Inv, After, Called;
      ThreadKept(mid, t, x);
    }
  }

  lemma RecursiveTries(s: State, t: nat)
    requires Inv(s) && s.recursive && t < |s.threads| && s.threads[t].pc == Idle && CanEnter(s, t)
    ensures var s', th := Step(s, t, CallTryLock), s.threads[t];
            Inv(s') && Within(s', t, th.held + 1, false, Thread(Idle, th.held + 1, Success))
  {
    assert RecursiveThread(s, s.threads[t]);
    StepInv(s, t, CallTryLock);
  }

  /** `mtx_trylock` on a recursive mutex answers success exactly if the section is free or the caller's, and then has the same
      effect as `mtx_lock`, whatever the others do next; otherwise it answers busy and changes nothing else. */
  lemma RecursiveTryLockRun(s: State, t: nat, x: seq<Pick>)
    requires Inv(s) && s.recursive && t < |s.threads| && s.threads[t].pc == Idle && Others(t, x)
    ensures var th := s.threads[t];
            var s' := After(s, [Pick(t, CallTryLock)] + x);
            && t < |s'.threads| && s'.threads[t].answer == (if CanEnter(s, t) then Success else Busy)
            && (CanEnter(s, t) ==> Within(s', t, th.held + 1, false, Thread(Idle, th.held + 1, Success)))
            && (!CanEnter(s, t) ==> s' == After(s.(threads := s.threads[t := th.(answer := Busy)]), x) && s'.threads[t].held == 0)
  {
    var th := s.threads[t];
    assert Enabled(s, t, CallTryLock);
    var s1 := Step(s, t, CallTryLock);
    StepInv(s, t, CallTryLock);
    if CanEnter(s, t) {
      RecursiveTries(s, t);
    } else {
      TryLockRefused(s, t);
    }
    hide Step, Inv, After;
    One(s, Pick(t, CallTryLock));
    AfterThen(s, [Pick(t, CallTryLock)], x);
    if CanEnter(s, t) {
      StaysWithin(s1, t, th.held + 1, false, Thread(Idle, th.held + 1, Success), x);
    } else {
      ThreadKept(s1, t, x);
    }
  }

  // ----- unlock

  lemma UnlockCalls(s: State, t: nat)
    requires Inv(s) && t < |s.threads| && s.threads[t].pc == Idle && s.threads[t].held > 0
    ensures Enabled(s, t, CallUnlock)
    ensures var th := s.threads[t];
            var s' := Step(s, t, CallUnlock);
            Inv(s') && Within(s', t, th.held, s.marked, th.(pc := Clearing))
  {
    StepInv(s, t, CallUnlock);
  }

  lemma UnlockClears(s: State, t: nat, marked: bool, th: Thread)
    requires Inv(s) && Within(s, t, th.held, marked, th) && th.pc == Clearing
    ensures Enabled(s, t, Continue)
    ensures var s' := Step(s, t, Continue); Inv(s') && Within(s', t, th.held, false, th.(pc := Leaving))
  {
    StepInv(s, t, Continue);
  }

  lemma UnlockLeaves(s: State, t: nat, th: Thread)
    requires Inv(s) && Within(s, t, th.held, false, th) && th.pc == Leaving && th.held > 0
    ensures Enabled(s, t, Continue)
    ensures Unlocked(Step(s, t, Continue), t, th)
  {
    LeavingOwns(s, t);
  }

  /** One lock fewer is held: the section is as deep as the locks left, and free if there are none. */
  predicate Unlocked(s: State, t: nat, was: Thread)
    requires was.held > 0
  {
    && t < |s.threads| && s.threads[t] == was.(pc := Idle, held := was.held - 1)
    && s.depth == was.held - 1 && !s.marked
    && s.owner == (if was.held == 1 then Nobody else By(t))
  }

  /** `mtx_unlock` by a thread that holds the mutex, plain or recursive, with any steps of the others in between. */
  lemma UnlockRun(s: State, t: nat, x: seq<Pick>, y: seq<Pick>)
    requires Inv(s) && t < |s.threads| && s.threads[t].pc == Idle && s.threads[t].held > 0 && Others(t, x) && Others(t, y)
    ensures Unlocked(After(s, Interleaved(t, CallUnlock, x, y)), t, s.threads[t])
  {
    var th := s.threads[t];
    UnlockCalls(s, t);
    hide Step, Inv, After, Within;
    var s1 := Step(s, t, CallUnlock);
    StaysWithin(s1, t, th.held, s.marked, th.(pc := Clearing), x);
    var s2 := After(s1, x);
    UnlockClears(s2, t, s.marked, th.(pc := Clearing));
    var s3 := Step(s2, t, Continue);
    StaysWithin(s3, t, th.held, false, th.(pc := Leaving), y);
    UnlockLeaves(After(s3, y), t, th.(pc := Leaving));
    StepByStep(s, t, CallUnlock, x, y);
  }
}
