/**
 AK/Weakable.h: any number of threads ask a weak link for a strong reference while
 the last strong reference goes away and the destructor revokes the link.  Every
 atomic operation is one step; atomics are sequentially consistent.
 */
module WeakLinks {

  const U32: int := 0x1_0000_0000

  type Thread = nat

  /** Where a thread is in `strong_ref`. */
  datatype Caller =
    | Outside
    | Entered(sawRevoked: bool)     // m_consumers counts it
    | Loaded                        // m_ptr was not null
    | Trying(expected: nat)         // inside try_ref
    | Leaving(won: bool)            // done with the target

  /** Where the thread that dropped the last reference is in the destructor. */
  datatype Destroyer =
    | NotYet
    | Flagging                      // the count reached zero
    | Waiting(seen: nat)            // the consumers it saw last
    | Clearing                      // it saw none: store nullptr
    | Revoked                       // revoke has returned
    | Freed                         // the target is gone

  datatype State = State(
    consumers: nat,                 // m_consumers: twice the callers inside, plus the flag
    linked: bool,                   // m_ptr is not null
    count: nat,                     // the target's m_ref_count
    strong: nat,                    // strong references outside strong_ref
    callers: map<Thread, Caller>,
    destroyer: Destroyer)

  datatype Label =
    | Call(thread: Thread)          // enter strong_ref
    | Advance(thread: Thread)       // its next atomic operation
    | Ref                           // a holder copies its reference
    | Unref                         // a holder drops its reference
    | Destroy                       // the destructor's next atomic operation

  function CallerOf(s: State, t: Thread): Caller {
    if t in s.callers then s.callers[t] else Outside
  }

  function Goto(s: State, t: Thread, c: Caller): State {
    s.(callers := s.callers[t := c])
  }

  predicate Enabled(s: State, l: Label) {
    match l
    case Call(t) => CallerOf(s, t).Outside? && s.consumers + 2 < U32
    case Advance(t) => !CallerOf(s, t).Outside? && (CallerOf(s, t).Trying? ==> CallerOf(s, t).expected + 1 < U32)
    case Ref => s.strong > 0 && s.count + 1 < U32
    case Unref => s.strong > 0
    case Destroy => !s.destroyer.NotYet? && !s.destroyer.Freed?
  }

  function Progress(s: State, t: Thread): State {
    match CallerOf(s, t)
    case Outside => s
    case Entered(sawRevoked) => Goto(s, t, if sawRevoked || !s.linked then Leaving(false) else Loaded)
    case Loaded => Goto(s, t, Trying(s.count))
    case Trying(expected) =>
      if expected == 0 then Goto(s, t, Leaving(false))
      else if s.count == expected then Goto(s.(count := s.count + 1), t, Leaving(true))
      else Goto(s, t, Trying(s.count))
    case Leaving(won) =>
      Goto(s.(consumers := (s.consumers - 2) % U32, strong := if won then s.strong + 1 else s.strong), t, Outside)
  }

  function Demolish(s: State): State {
    match s.destroyer
    case Flagging =>
      s.(consumers := if s.consumers % 2 == 0 then s.consumers + 1 else s.consumers, destroyer := Waiting(s.consumers))
    case Waiting(seen) =>
      s.(destroyer := if seen > 0 then Waiting(s.consumers - s.consumers % 2) else Clearing)
    case Clearing => s.(linked := false, destroyer := Revoked)
    case Revoked => s.(destroyer := Freed)
    case _ => s
  }

  function Step(s: State, l: Label): State {
    match l
    case Call(t) => Goto(s.(consumers := s.consumers + 2), t, Entered(s.consumers % 2 == 1))
    case Advance(t) => Progress(s, t)
    case Ref => s.(count := s.count + 1, strong := s.strong + 1)
    case Unref =>
      s.(count := (s.count - 1) % U32, strong := (s.strong - 1) % U32, destroyer := if s.count == 1 then Flagging else s.destroyer)
    case Destroy => Demolish(s)
  }

  // ---------- the invariant ----------

  ghost function Inside(s: State): set<Thread> {
    set t | t in s.callers && !s.callers[t].Outside?
  }

  ghost function Winners(s: State): set<Thread> {
    set t | t in s.callers && s.callers[t] == Leaving(true)
  }

  predicate FlagSet(d: Destroyer) {
    !d.NotYet? && !d.Flagging?
  }

  /** The caller is about to read or change the target, or may yet decide to. */
  predicate MayTouch(c: Caller) {
    c == Entered(false) || c.Loaded? || c.Trying?
  }

  predicate DoneWaiting(d: Destroyer) {
    d == Waiting(0) || d.Clearing? || d.Revoked? || d.Freed?
  }

  ghost predicate Invariant(s: State) {
    s.consumers == 2 * |Inside(s)| + (if FlagSet(s.destroyer) then 1 else 0)
    && s.consumers < U32
    && s.count == s.strong + |Winners(s)| < U32
    && (s.count == 0 <==> !s.destroyer.NotYet?)
    && (s.linked <==> !s.destroyer.Revoked? && !s.destroyer.Freed?)
    && (DoneWaiting(s.destroyer) ==> forall t :: !MayTouch(CallerOf(s, t)))
    && (s.destroyer.Waiting? ==> s.destroyer.seen % 2 == 0)
  }

  lemma OneMoreOrLess(a: set<Thread>, t: Thread)
    ensures |a + {t}| == |a| + (if t in a then 0 else 1)
    ensures |a - {t}| == |a| - (if t in a then 1 else 0)
  {
    if t in a {
      assert a + {t} == a && a == (a - {t}) + {t};
    } else {
      assert a - {t} == a;
    }
  }

  lemma GotoInside(s: State, t: Thread, c: Caller)
    ensures |Inside(Goto(s, t, c))| + (if CallerOf(s, t).Outside? then 0 else 1) == |Inside(s)| + (if c.Outside? then 0 else 1)
  {
    var a, a' := Inside(s), Inside(Goto(s, t, c));
    OneMoreOrLess(a, t);
    assert t in a <==> !CallerOf(s, t).Outside?;
    assert a' == if c.Outside? then a - {t} else a + {t};
  }

  lemma GotoWinners(s: State, t: Thread, c: Caller)
    ensures |Winners(Goto(s, t, c))| + (if CallerOf(s, t) == Leaving(true) then 1 else 0)
         == |Winners(s)| + (if c == Leaving(true) then 1 else 0)
  {
    var a, a' := Winners(s), Winners(Goto(s, t, c));
    OneMoreOrLess(a, t);
    assert t in a <==> CallerOf(s, t) == Leaving(true);
    assert a' == if c == Leaving(true) then a + {t} else a - {t};
  }

  lemma OthersStay(s: State, t: Thread, c: Caller)
    ensures forall u :: CallerOf(Goto(s, t, c), u) == if u == t then c else CallerOf(s, u)
  {
  }

  lemma CallKeeps(s: State, t: Thread)
    requires Invariant(s) && Enabled(s, Call(t))
    ensures Invariant(Step(s, Call(t)))
  {
    hide Inside, Winners;
    var c := Entered(s.consumers % 2 == 1);
    var s1 := s.(consumers := s.consumers + 2);
    SameCallers(s, s1);
    GotoInside(s1, t, c);
    GotoWinners(s1, t, c);
    OthersStay(s1, t, c);
  }

  lemma SameCallers(s: State, s': State)
    requires s.callers == s'.callers
    ensures Inside(s) == Inside(s') && Winners(s) == Winners(s') && forall t :: CallerOf(s, t) == CallerOf(s', t)
  {
  }

  lemma AdvanceKeeps(s: State, t: Thread)
    requires Invariant(s) && Enabled(s, Advance(t))
    ensures Invariant(Step(s, Advance(t)))
  {
    hide Inside, Winners;
    var s' := Progress(s, t);
    var c := CallerOf(s', t);
    GotoInside(s, t, c);
    GotoWinners(s, t, c);
    OthersStay(s, t, c);
    SameCallers(Goto(s, t, c), s');
    assert DoneWaiting(s.destroyer) ==> !MayTouch(CallerOf(s, t));
  }

  lemma DestroyKeeps(s: State)
    requires Invariant(s) && Enabled(s, Destroy)
    ensures Invariant(Step(s, Destroy))
  {
    hide Winners;
    var s' := Step(s, Destroy);
    SameCallers(s, s');
    if DoneWaiting(s'.destroyer) && !DoneWaiting(s.destroyer) {
      assert |Inside(s)| == 0;
      forall t ensures !MayTouch(CallerOf(s', t)) {
        assert t !in Inside(s);
      }
    }
  }

  lemma StepKeeps(s: State, l: Label)
    requires Invariant(s) && Enabled(s, l)
    ensures Invariant(Step(s, l))
  {
    match l
    case Call(t) => CallKeeps(s, t);
    case Advance(t) => AdvanceKeeps(s, t);
    case Destroy => DestroyKeeps(s);
    case _ => SameCallers(s, Step(s, l));
  }

  // ---------- whole runs ----------

  const Born: State := State(0, true, 1, 1, map[], NotYet)

  ghost predicate Legal(run: seq<Label>)
    decreases |run|, 0
  {
    run == [] || (Legal(run[..|run| - 1]) && Enabled(StateAfter(run[..|run| - 1]), run[|run| - 1]))
  }

  ghost function StateAfter(run: seq<Label>): State
    requires Legal(run)
    decreases |run|, 1
  {
    if run == [] then Born else Step(StateAfter(run[..|run| - 1]), run[|run| - 1])
  }

  lemma {:induction false} EveryRun(run: seq<Label>)
    requires Legal(run)
    ensures Invariant(StateAfter(run))
  {
    if run == [] {
      assert Inside(Born) == {} && Winners(Born) == {};
    } else {
      EveryRun(run[..|run| - 1]);
      StepKeeps(StateAfter(run[..|run| - 1]), run[|run| - 1]);
    }
  }

  predicate HasRevoked(d: Destroyer) {
    d.Revoked? || d.Freed?
  }

  /** Once `revoke` has returned, no caller touches the target or ever will, however the run goes on. */
  lemma {:induction false} NoTouchAfterRevoke(run: seq<Label>, k: nat, t: Thread)
    requires Legal(run) && k <= |run| && Legal(run[..k]) && HasRevoked(StateAfter(run[..k]).destroyer)
    ensures HasRevoked(StateAfter(run).destroyer) && !StateAfter(run).linked && !MayTouch(CallerOf(StateAfter(run), t))
    decreases |run| - k
  {
    if k == |run| {
      assert run[..k] == run;
      EveryRun(run);
    } else {
      PrefixLegal(run, k);
      EveryRun(run[..k]);
      NoTouchAfterRevoke(run, k + 1, t);
    }
  }

  /** A step that takes a strong reference takes it while the count is positive and the
      target has not been freed; so no reference is taken once the count was zero. */
  lemma StrongOnlyWhileAlive(run: seq<Label>, t: Thread)
    requires Legal(run) && Enabled(StateAfter(run), Advance(t))
    requires CallerOf(Step(StateAfter(run), Advance(t)), t) == Leaving(true)
    ensures StateAfter(run).count > 0 && StateAfter(run).destroyer.NotYet?
    ensures Step(StateAfter(run), Advance(t)).count == StateAfter(run).count + 1
  {
    EveryRun(run);
  }

  /** The count never leaves zero again. */
  lemma {:induction false} ZeroIsFinal(run: seq<Label>, k: nat)
    requires Legal(run) && k <= |run| && Legal(run[..k]) && StateAfter(run[..k]).count == 0
    ensures StateAfter(run).count == 0 && StateAfter(run).strong == 0
    decreases |run| - k
  {
    if k == |run| {
      assert run[..k] == run;
      EveryRun(run);
    } else {
      PrefixLegal(run, k);
      EveryRun(run[..k]);
      EveryRun(run[..k + 1]);
      ZeroIsFinal(run, k + 1);
    }
  }

  // ---------- what a call returns ----------

  /** Steps through which thread t stays inside `strong_ref`, up to the one with which it leaves. */
  ghost predicate Finishes(s: State, steps: seq<Label>, t: Thread)
    decreases |steps|
  {
    if steps == [] then CallerOf(s, t).Outside?
    else !CallerOf(s, t).Outside? && Enabled(s, steps[0]) && Finishes(Step(s, steps[0]), steps[1..], t)
  }

  /** The references t's own steps add to those outside `strong_ref`: what its call returns. */
  ghost function Returned(s: State, steps: seq<Label>, t: Thread): int
    decreases |steps|
  {
    if steps == [] then 0
    else (if steps[0] == Advance(t) then Step(s, steps[0]).strong - s.strong else 0) + Returned(Step(s, steps[0]), steps[1..], t)
  }

  /** How often t's own steps raise the count. */
  ghost function Raised(s: State, steps: seq<Label>, t: Thread): int
    decreases |steps|
  {
    if steps == [] then 0
    else (if steps[0] == Advance(t) then Step(s, steps[0]).count - s.count else 0) + Raised(Step(s, steps[0]), steps[1..], t)
  }

  /** The count is positive before every step. */
  ghost predicate StaysPositive(s: State, steps: seq<Label>)
    decreases |steps|
  {
    steps == [] || (s.count > 0 && StaysPositive(Step(s, steps[0]), steps[1..]))
  }

  /** Where a caller is while the count has been positive ever since it entered. */
  predicate OnTheWay(c: Caller) {
    c == Entered(false) || c.Loaded? || (c.Trying? && c.expected > 0) || c == Leaving(true)
  }

  /** Where a caller is that entered at count zero. */
  predicate InVain(c: Caller) {
    c.Entered? || c.Loaded? || c == Trying(0) || c == Leaving(false)
  }

  lemma OthersAdvance(s: State, l: Label, t: Thread)
    requires Enabled(s, l) && l != Advance(t) && !CallerOf(s, t).Outside?
    ensures CallerOf(Step(s, l), t) == CallerOf(s, t)
  {
  }

  lemma {:induction false} WinsWhilePositive(s: State, steps: seq<Label>, t: Thread)
    requires Invariant(s) && OnTheWay(CallerOf(s, t)) && Finishes(s, steps, t) && StaysPositive(s, steps)
    ensures Returned(s, steps, t) == 1
    decreases |steps|
  {
    hide Invariant;
    var s' := Step(s, steps[0]);
    StepKeeps(s, steps[0]);
    if steps[0] == Advance(t) {
      PositiveMeans(s);
      if CallerOf(s', t).Outside? {
        assert Returned(s', steps[1..], t) == 0;
      } else {
        WinsWhilePositive(s', steps[1..], t);
      }
    } else {
      OthersAdvance(s, steps[0], t);
      WinsWhilePositive(s', steps[1..], t);
    }
  }

  lemma PositiveMeans(s: State)
    requires Invariant(s) && s.count > 0
    ensures s.linked && s.consumers % 2 == 0
  {
  }

  lemma {:induction false} LosesAtZero(s: State, steps: seq<Label>, t: Thread)
    requires Invariant(s) && s.count == 0 && InVain(CallerOf(s, t)) && Finishes(s, steps, t)
    ensures Returned(s, steps, t) == 0
    decreases |steps|
  {
    hide Invariant;
    var s' := Step(s, steps[0]);
    StepKeeps(s, steps[0]);
    ZeroStays(s, steps[0]);
    if steps[0] == Advance(t) {
      if CallerOf(s', t).Outside? {
        assert Returned(s', steps[1..], t) == 0;
      } else {
        LosesAtZero(s', steps[1..], t);
      }
    } else {
      OthersAdvance(s, steps[0], t);
      LosesAtZero(s', steps[1..], t);
    }
  }

  lemma ZeroStays(s: State, l: Label)
    requires Invariant(s) && s.count == 0 && Enabled(s, l)
    ensures Step(s, l).count == 0
  {
    hide Inside, Winners;
  }

  lemma {:induction false} ReturnsWhatItRaised(s: State, steps: seq<Label>, t: Thread)
    requires Finishes(s, steps, t) && !CallerOf(s, t).Outside?
    ensures Returned(s, steps, t) == Raised(s, steps, t) + (if CallerOf(s, t) == Leaving(true) then 1 else 0)
    ensures 0 <= Returned(s, steps, t) <= 1
    decreases |steps|
  {
    var s' := Step(s, steps[0]);
    if steps[0] == Advance(t) && CallerOf(s', t).Outside? {
      assert Returned(s', steps[1..], t) == 0 == Raised(s', steps[1..], t);
    } else {
      if steps[0] != Advance(t) {
        OthersAdvance(s, steps[0], t);
      }
      ReturnsWhatItRaised(s', steps[1..], t);
    }
  }

  /** In every run, a call of `strong_ref` returns a reference exactly when it raised the count itself, which it does
      if the count is positive throughout the call, and does not if the count was zero when it began. */
  lemma CallReturns(run: seq<Label>, steps: seq<Label>, t: Thread)
    requires Legal(run) && Enabled(StateAfter(run), Call(t)) && Finishes(Step(StateAfter(run), Call(t)), steps, t)
    ensures var s := Step(StateAfter(run), Call(t));
            && 0 <= Returned(s, steps, t) == Raised(s, steps, t) <= 1
            && (StaysPositive(s, steps) ==> Returned(s, steps, t) == 1)
            && (StateAfter(run).count == 0 ==> Returned(s, steps, t) == 0)
  {
    hide Legal, StateAfter, Invariant, Returned, Raised;
    var s0 := StateAfter(run);
    var s := Step(s0, Call(t));
    EveryRun(run);
    StepKeeps(s0, Call(t));
    ReturnsWhatItRaised(s, steps, t);
    if s0.count == 0 {
      LosesAtZero(s, steps, t);
    } else {
      PositiveMeans(s0);
      if StaysPositive(s, steps) {
        WinsWhilePositive(s, steps, t);
      }
    }
  }

  /** A call that no other step interrupts, at a positive count, is over after four steps. */
  lemma CallFinishes(s: State, t: Thread)
    requires Invariant(s) && CallerOf(s, t).Outside? && s.consumers + 2 < 0x1_0000_0000 && 0 < s.count < 0xffff_ffff
    ensures Enabled(s, Call(t))
    ensures Finishes(Step(s, Call(t)), [Advance(t), Advance(t), Advance(t), Advance(t)], t)
  {
    hide Inside, Winners;
    PositiveMeans(s);
    var s1 := Step(s, Call(t));
    var s2 := Step(s1, Advance(t));
    var s3 := Step(s2, Advance(t));
    var s4 := Step(s3, Advance(t));
    var s5 := Step(s4, Advance(t));
    assert CallerOf(s1, t) == Entered(false) && CallerOf(s2, t) == Loaded && CallerOf(s3, t) == Trying(s.count);
    assert CallerOf(s4, t) == Leaving(true) && CallerOf(s5, t) == Outside;
    var a := Advance(t);
    assert [a, a, a, a][1..] == [a, a, a] && [a, a, a][1..] == [a, a] && [a, a][1..] == [a] && [a][1..] == [];
    assert Finishes(s5, [], t);
    assert Finishes(s4, [a], t);
    assert Finishes(s3, [a, a], t);
  }

  /** Once the count is zero and nobody is inside, the destructor gets through in four steps of its own. */
  lemma RevokeFinishes(s: State)
    requires Invariant(s) && s.destroyer.Flagging? && Inside(s) == {}
    ensures Enabled(s, Destroy) && Enabled(Step(s, Destroy), Destroy)
    ensures var s2 := Step(Step(s, Destroy), Destroy);
            && Enabled(s2, Destroy) && Enabled(Step(s2, Destroy), Destroy)
            && var s4 := Step(Step(s2, Destroy), Destroy);
               s4.destroyer.Freed? && !s4.linked && s4.consumers % 2 == 1
  {
  }

  lemma Extend(run: seq<Label>, l: Label)
    requires Legal(run) && Enabled(StateAfter(run), l)
    ensures Legal(run + [l]) && StateAfter(run + [l]) == Step(StateAfter(run), l)
  {
    assert (run + [l])[..|run|] == run;
  }

  /** A reference is copied, both are dropped, and the destructor frees the target. */
  lemma Lifecycle() returns (run: seq<Label>)
    ensures run == [Ref, Unref, Unref, Destroy, Destroy, Destroy, Destroy] && Legal(run)
    ensures Legal(run[..1]) && StateAfter(run[..1]).count == 2 && Legal(run[..2]) && StateAfter(run[..2]).count == 1
    ensures StateAfter(run).destroyer.Freed? && StateAfter(run).count == 0 && !StateAfter(run).linked
  {
    hide Legal, StateAfter;
    NoSteps();
    Extend([], Ref);
    var one: seq<Label> := [] + [Ref];
    Extend(one, Unref);
    var two := one + [Unref];
    Extend(two, Unref);
    run := two + [Unref];
    Extend(run, Destroy);
    run := run + [Destroy];
    Extend(run, Destroy);
    run := run + [Destroy];
    Extend(run, Destroy);
    run := run + [Destroy];
    Extend(run, Destroy);
    run := run + [Destroy];
    assert run[..1] == one && run[..2] == two;
  }

  lemma NoSteps()
    ensures Legal([]) && StateAfter([]) == Born
  {
  }

  lemma {:induction false} PrefixLegal(run: seq<Label>, k: nat)
    requires Legal(run) && k < |run|
    ensures Legal(run[..k]) && Enabled(StateAfter(run[..k]), run[k])
    ensures Legal(run[..k + 1]) && StateAfter(run[..k + 1]) == Step(StateAfter(run[..k]), run[k])
    decreases |run|
  {
    if k == |run| - 1 {
      assert run[..k + 1] == run;
    } else {
      PrefixLegal(run[..|run| - 1], k);
      assert run[..|run| - 1][..k] == run[..k] && run[..|run| - 1][..k + 1] == run[..k + 1];
    }
  }
}
