/**
 Kernel/Lock.cpp: the recursive reader/writer lock.  A section under the inner
 `m_lock` bit is one method here; the loops around it retry the method.
 */
module KernelLock {
  import opened Basics

  const U32: int := 0x1_0000_0000

  datatype Mode = Unlocked | Exclusive | Shared
  type Thread = nat

  // ---------- who holds the lock ----------

  /** The lock as its users see it: a mode, and how often each holder holds it. */
  datatype Holds = Holds(mode: Mode, depths: map<Thread, nat>)

  ghost function DepthOf(h: Holds, t: Thread): nat {
    if t in h.depths then h.depths[t] else 0
  }

  ghost function Total(m: map<Thread, nat>): nat
    decreases |m|
  {
    if m == map[] then 0
    else
      var t :| t in m;
      m[t] + Total(m - {t})
  }

  lemma {:induction false} TotalSplits(m: map<Thread, nat>, t: Thread)
    requires t in m
    ensures Total(m) == m[t] + Total(m - {t})
    decreases |m|
  {
    var u :| u in m && Total(m) == m[u] + Total(m - {u});
    if u != t {
      TotalSplits(m - {u}, t);
      TotalSplits(m - {t}, u);
      assert m - {u} - {t} == m - {t} - {u};
    }
  }

  lemma TotalEmpty()
    ensures Total(map[]) == 0
  {
  }

  lemma LonelyTotal(m: map<Thread, nat>)
    requires forall t :: t in m ==> m[t] > 0
    ensures Total(m) == 0 <==> m == map[]
  {
    if t :| t in m {
      TotalSplits(m, t);
    }
  }

  lemma TotalUpdated(m: map<Thread, nat>, t: Thread, d: nat)
    ensures Total(m[t := d]) == Total(m - {t}) + d
    ensures t in m ==> Total(m) == Total(m - {t}) + m[t]
    ensures t !in m ==> m - {t} == m
  {
    TotalSplits(m[t := d], t);
    assert m[t := d] - {t} == m - {t};
    if t in m {
      TotalSplits(m, t);
    }
  }

  // ---------- runs ----------

  datatype Event =
    | Locked(thread: Thread, mode: Mode)
    | Released(thread: Thread)
    | Forced(thread: Thread, mode: Mode, count: nat)
    | Restored(thread: Thread, mode: Mode, count: nat)

  /** What may happen next.  Only a holder releases; a restorer holds nothing. */
  ghost predicate Possible(h: Holds, e: Event) {
    match e
    case Locked(t, m) =>
      m != Unlocked && (h.mode == Unlocked || (h.mode == Exclusive && DepthOf(h, t) > 0) || (h.mode == Shared && m == Shared))
    case Released(t) => DepthOf(h, t) > 0
    case Forced(t, m, n) => n == DepthOf(h, t) && m == if n > 0 then h.mode else Unlocked
    case Restored(t, m, n) =>
      m != Unlocked && n > 0 && DepthOf(h, t) == 0 && (h.mode == Unlocked || (h.mode == Shared && m == Shared))
  }

  ghost function WithDepth(h: Holds, t: Thread, d: nat, mode: Mode): Holds {
    var depths := if d == 0 then h.depths - {t} else h.depths[t := d];
    Holds(if depths == map[] then Unlocked else mode, depths)
  }

  ghost function Then(h: Holds, e: Event): Holds
    requires Possible(h, e)
  {
    match e
    case Locked(t, m) => WithDepth(h, t, DepthOf(h, t) + 1, if h.mode == Unlocked then m else h.mode)
    case Released(t) => WithDepth(h, t, DepthOf(h, t) - 1, h.mode)
    case Forced(t, _, _) => WithDepth(h, t, 0, h.mode)
    case Restored(t, m, n) => WithDepth(h, t, n, m)
  }

  ghost predicate Legal(run: seq<Event>)
    decreases |run|, 0
  {
    run == [] || (Legal(run[..|run| - 1]) && Possible(Replay(run[..|run| - 1]), run[|run| - 1]))
  }

  ghost function Replay(run: seq<Event>): Holds
    requires Legal(run)
    decreases |run|, 1
  {
    if run == [] then Holds(Unlocked, map[])
    else Then(Replay(run[..|run| - 1]), run[|run| - 1])
  }

  lemma Extend(run: seq<Event>, e: Event)
    requires Legal(run) && Possible(Replay(run), e)
    ensures Legal(run + [e]) && Replay(run + [e]) == Then(Replay(run), e)
  {
    assert (run + [e])[..|run|] == run;
  }

  /** Depths counted from the run alone, without looking at anyone's mode. */
  ghost function Counted(run: seq<Event>, t: Thread): int {
    if run == [] then 0
    else
      var before, e := Counted(run[..|run| - 1], t), run[|run| - 1];
      if e.thread != t then before
      else match e
        case Locked(_, _) => before + 1
        case Released(_) => before - 1
        case Forced(_, _, _) => 0
        case Restored(_, _, n) => n
  }

  /** Nobody holds the lock. */
  ghost predicate Free(run: seq<Event>) {
    forall t :: Counted(run, t) == 0
  }

  /** Nobody but t holds the lock. */
  ghost predicate OnlyFor(run: seq<Event>, t: Thread) {
    forall u :: u != t ==> Counted(run, u) == 0
  }

  /** The mode asked for by whoever took the lock when nobody held it. */
  ghost function TakenAs(run: seq<Event>): Mode {
    if Free(run) then Unlocked
    else
      var before, e := run[..|run| - 1], run[|run| - 1];
      if Free(before) && (e.Locked? || e.Restored?) then e.mode else TakenAs(before)
  }

  /** `lock` may go ahead: nobody holds the lock, or t alone does and exclusively, or it is
      shared and is to be shared. */
  ghost predicate MayLock(run: seq<Event>, t: Thread, m: Mode) {
    || Free(run)
    || (OnlyFor(run, t) && TakenAs(run) == Exclusive)
    || (TakenAs(run) == Shared && m == Shared)
  }

  /** What may happen next, by the run's own counts and the mode the lock was taken in. */
  ghost predicate Allowed(run: seq<Event>, e: Event) {
    match e
    case Locked(t, m) => m != Unlocked && MayLock(run, t, m)
    case Released(t) => Counted(run, t) > 0
    case Forced(t, m, n) => n == Counted(run, t) && m == if n > 0 then TakenAs(run) else Unlocked
    case Restored(t, m, n) =>
      m != Unlocked && n > 0 && Counted(run, t) == 0 && (Free(run) || (TakenAs(run) == Shared && m == Shared))
  }

  ghost predicate Sound(h: Holds) {
    (forall t :: t in h.depths ==> h.depths[t] > 0)
    && (h.mode == Unlocked <==> h.depths == map[])
    && (h.mode == Exclusive ==> forall t, u :: t in h.depths && u in h.depths ==> t == u)
  }

  lemma ThenSound(h: Holds, e: Event)
    requires Sound(h) && Possible(h, e)
    ensures Sound(Then(h, e))
    ensures forall t :: t != e.thread ==> DepthOf(Then(h, e), t) == DepthOf(h, t)
  {
  }

  /** In every run: nobody holds an unlocked lock, an exclusive holder is alone, and
      each thread's depth is what its own locks and releases add up to. */
  lemma {:induction false} EveryRun(run: seq<Event>)
    requires Legal(run)
    ensures Sound(Replay(run))
    ensures forall t :: DepthOf(Replay(run), t) == Counted(run, t)
  {
    if run != [] {
      var before, e := run[..|run| - 1], run[|run| - 1];
      EveryRun(before);
      ThenSound(Replay(before), e);
    }
  }

  /** The mode in every run is the one in which the lock was taken. */
  lemma {:induction false} ModeIsTaken(run: seq<Event>)
    requires Legal(run)
    ensures Replay(run).mode == TakenAs(run)
  {
    EveryRun(run);
    HoldersCounted(run);
    if run != [] {
      var before := run[..|run| - 1];
      ModeIsTaken(before);
      EveryRun(before);
      HoldersCounted(before);
    }
  }

  lemma HoldersCounted(run: seq<Event>)
    requires Legal(run)
    ensures Free(run) <==> Replay(run).depths == map[]
  {
    hide Legal, Replay, Counted;
    EveryRun(run);
    var h := Replay(run);
    if t :| t in h.depths {
      assert DepthOf(h, t) > 0;
    }
  }

  /** In every run, what the holders admit is what the counts and the mode allow. */
  lemma PossibleExactlyWhen(run: seq<Event>, e: Event)
    requires Legal(run)
    ensures Possible(Replay(run), e) <==> Allowed(run, e)
  {
    hide Legal, Replay, Counted, TakenAs;
    EveryRun(run);
    ModeIsTaken(run);
    HoldersCounted(run);
    var h := Replay(run);
    if e.Locked? && h.mode == Exclusive && DepthOf(h, e.thread) == 0 {
      var u :| u in h.depths;
      assert DepthOf(h, u) > 0 && Counted(run, u) > 0;
    }
  }

  lemma {:induction false} LocksAdd(run: seq<Event>)
    requires Legal(run) && forall i :: 0 <= i < |run| ==> run[i].Locked?
    ensures Total(Replay(run).depths) == |run|
  {
    hide Total;
    if run == [] {
      TotalEmpty();
    } else {
      var before, e := run[..|run| - 1], run[|run| - 1];
      LocksAdd(before);
      var h := Replay(before);
      TotalUpdated(h.depths, e.thread, DepthOf(h, e.thread) + 1);
    }
  }

  lemma {:induction false} OthersLeaveDepth(run: seq<Event>, k: nat, t: Thread)
    requires Legal(run) && k <= |run|
    requires forall i :: k <= i < |run| ==> run[i].thread != t
    ensures Legal(run[..k]) && DepthOf(Replay(run), t) == DepthOf(Replay(run[..k]), t)
    decreases |run|
  {
    if k == |run| {
      assert run[..k] == run;
    } else {
      var before := run[..|run| - 1];
      OthersLeaveDepth(before, k, t);
      assert before[..k] == run[..k];
      EveryRun(before);
      ThenSound(Replay(before), run[|run| - 1]);
    }
  }

  lemma {:induction false} PrefixLegal(run: seq<Event>, k: nat)
    requires Legal(run) && k <= |run|
    ensures Legal(run[..k])
    ensures k < |run| ==> Possible(Replay(run[..k]), run[k]) && Legal(run[..k + 1]) && Replay(run[..k + 1]) == Then(Replay(run[..k]), run[k])
    decreases |run|
  {
    if k == |run| {
      assert run[..k] == run;
    } else if k == |run| - 1 {
      assert run[..k + 1] == run;
    } else {
      PrefixLegal(run[..|run| - 1], k);
      assert run[..|run| - 1][..k] == run[..k] && run[..|run| - 1][..k + 1] == run[..k + 1];
    }
  }

  ghost predicate Admits(h: Holds, m: Mode) {
    h.mode == Unlocked || (h.mode == Shared && m == Shared)
  }

  /** After a forced release, whatever the other threads do, the matching restore is
      possible exactly when the lock's mode admits it; it then gives the thread back
      its mode and depth and moves nobody else. */
  lemma ForceThenRestore(run: seq<Event>, i: nat, t: Thread, m: Mode, n: nat)
    requires Legal(run) && i < |run|
    requires run[i] == Forced(t, m, n) && m != Unlocked
    requires forall k :: i < k < |run| ==> run[k].thread != t
    ensures Legal(run[..i]) && DepthOf(Replay(run), t) == 0
    ensures Possible(Replay(run), Restored(t, m, n)) <==> Admits(Replay(run), m)
    ensures Admits(Replay(run), m) ==>
              var after := Then(Replay(run), Restored(t, m, n));
              after.mode == m == Replay(run[..i]).mode
              && DepthOf(after, t) == n == DepthOf(Replay(run[..i]), t) > 0
              && forall u :: u != t ==> DepthOf(after, u) == DepthOf(Replay(run), u)
  {
    PrefixLegal(run, i);
    EveryRun(run[..i]);
    EveryRun(run[..i + 1]);
    EveryRun(run);
    OthersLeaveDepth(run, i + 1, t);
    if Admits(Replay(run), m) {
      ThenSound(Replay(run), Restored(t, m, n));
    }
  }

  // ---------- the lock itself ----------

  class Lock {
    var mode: Mode
    var timesLocked: int
    var holder: Option<Thread>
    var sharedHolders: map<Thread, nat>
    ghost var run: seq<Event>

    ghost function Held(): Holds
      requires Legal(run)
      reads this
    {
      Replay(run)
    }

    /** The fields encode who holds the lock, and the count has not wrapped. */
    ghost predicate Valid()
      reads this
    {
      Legal(run) && Encodes(Held()) && timesLocked == Total(Held().depths) < U32
    }

    ghost predicate Encodes(h: Holds)
      reads this
    {
      mode == h.mode && Sound(h)
      && match mode
         case Unlocked => holder == None && sharedHolders == map[]
         case Exclusive => holder.Some? && h.depths.Keys == {holder.value} && sharedHolders == map[]
         case Shared => holder == None && sharedHolders == h.depths
    }

    /** What the count and the mode say about the threads. */
    lemma CountMeans()
      requires Valid()
      ensures mode == Unlocked <==> timesLocked == 0
      ensures mode == Unlocked <==> forall t :: DepthOf(Held(), t) == 0
      ensures mode == Exclusive ==> DepthOf(Held(), holder.value) == timesLocked
                                    && forall t :: t != holder.value ==> DepthOf(Held(), t) == 0
      ensures mode == Shared ==> timesLocked == Total(sharedHolders) && forall t :: DepthOf(Held(), t) == DepthOf(Holds(Shared, sharedHolders), t)
    {
      hide Legal, Replay, Total;
      var h := Held();
      LonelyTotal(h.depths);
      if mode == Exclusive {
        TotalSplits(h.depths, holder.value);
        assert h.depths - {holder.value} == map[];
        TotalEmpty();
        assert DepthOf(h, holder.value) > 0;
      } else if mode == Shared {
        var t :| t in h.depths;
        assert DepthOf(h, t) > 0;
      }
    }

    constructor ()
      ensures Valid() && run == []
    {
      mode, timesLocked, holder, sharedHolders := Unlocked, 0, None, map[];
      run := [];
    }

    /** One pass of `lock`: either the lock is acquired or the thread has to wait. */
    method TryLock(t: Thread, wanted: Mode) returns (acquired: bool)
      requires Valid() && wanted != Unlocked
      modifies this
      ensures acquired <==> MayLock(old(run), t, wanted)
      ensures mode == if acquired && old(mode) == Unlocked then wanted else old(mode)
      ensures timesLocked == if acquired then (old(timesLocked) + 1) % 0x1_0000_0000 else old(timesLocked)
      ensures run == if acquired then old(run) + [Locked(t, wanted)] else old(run)
      ensures Legal(run) && (Valid() <==> Total(Held().depths) < 0x1_0000_0000)
    {
      hide Total, Legal, Replay, MayLock;
      ghost var h := Held();
      PossibleExactlyWhen(run, Locked(t, wanted));
      TotalUpdated(h.depths, t, DepthOf(h, t) + 1);
      acquired := true;
      if mode == Unlocked {
        mode := wanted;
        assert holder == None && sharedHolders == map[];
        if wanted == Exclusive {
          holder := Some(t);
        } else {
          sharedHolders := sharedHolders[t := 1];
        }
        assert timesLocked == 0 by { TotalEmpty(); }
        timesLocked := (timesLocked + 1) % U32;
      } else if mode == Exclusive {
        assert holder.Some?;
        if holder.value != t {
          return false;
        }
        assert sharedHolders == map[];
        assert timesLocked > 0 by { CountMeans(); }
        timesLocked := (timesLocked + 1) % U32;
      } else {
        assert holder == None;
        if wanted != Shared {
          return false;
        }
        assert timesLocked > 0 by { CountMeans(); }
        timesLocked := (timesLocked + 1) % U32;
        assert sharedHolders != map[];
        sharedHolders := sharedHolders[t := if t in sharedHolders then (sharedHolders[t] + 1) % U32 else 1];
      }
      run := run + [Locked(t, wanted)];
      Extend(old(run), Locked(t, wanted));
      ThenSound(h, Locked(t, wanted));
    }

    /** The section of `unlock`; the assertions are the source's own checks. */
    method Unlock(t: Thread) returns (unlockedLast: bool)
      requires Valid() && DepthOf(Held(), t) > 0
      modifies this
      ensures Valid() && run == old(run) + [Released(t)]
      ensures unlockedLast <==> Held().depths == map[]
      ensures mode == if unlockedLast then Unlocked else old(mode)
    {
      hide Total, Legal, Replay;
      ghost var h := Held();
      TotalUpdated(h.depths, t, DepthOf(h, t) - 1);
      TotalEmpty();
      assert mode != Unlocked;
      assert timesLocked > 0;
      timesLocked := timesLocked - 1;
      if mode == Exclusive {
        assert holder == Some(t) && sharedHolders == map[];
        assert h.depths - {t} == map[];
        if timesLocked == 0 {
          holder := None;
        }
      } else {
        assert holder == None && t in sharedHolders;
        if sharedHolders[t] > 1 {
          sharedHolders := sharedHolders[t := sharedHolders[t] - 1];
        } else {
          assert sharedHolders[t] > 0;
          sharedHolders := sharedHolders - {t};
        }
        LonelyTotal(sharedHolders);
      }
      unlockedLast := timesLocked == 0;
      if unlockedLast {
        assert if mode == Exclusive then holder == None else sharedHolders == map[];
        mode := Unlocked;
      }
      run := run + [Released(t)];
      Extend(old(run), Released(t));
      ThenSound(h, Released(t));
    }

    /** The section of `force_unlock_if_locked`. */
    method ForceUnlockIfLocked(t: Thread) returns (previous: Mode, count: nat)
      requires Valid()
      modifies this
      ensures Valid() && run == old(run) + [Forced(t, previous, count)]
      ensures previous == (if DepthOf(old(Held()), t) > 0 then old(mode) else Unlocked) && count == DepthOf(old(Held()), t)
    {
      hide Total, Legal, Replay;
      ghost var h := Held();
      TotalUpdated(h.depths, t, 0);
      TotalEmpty();
      if mode == Exclusive && holder != Some(t) {
        previous, count := Unlocked, 0;
      } else if mode == Exclusive {
        assert h.depths - {t} == map[];
        holder := None;
        assert timesLocked > 0;
        count := timesLocked;
        timesLocked := 0;
        mode := Unlocked;
        previous := Exclusive;
      } else if mode == Shared && t !in sharedHolders {
        previous, count := Unlocked, 0;
      } else if mode == Shared {
        assert holder == None && sharedHolders[t] > 0;
        count := sharedHolders[t];
        sharedHolders := sharedHolders - {t};
        assert timesLocked >= count;
        timesLocked := timesLocked - count;
        LonelyTotal(sharedHolders);
        if timesLocked == 0 {
          mode := Unlocked;
        }
        previous := Shared;
      } else {
        previous, count := Unlocked, 0;
      }
      run := run + [Forced(t, previous, count)];
      Extend(old(run), Forced(t, previous, count));
      ThenSound(h, Forced(t, previous, count));
    }

    /** One pass of `restore_lock`. */
    method TryRestore(t: Thread, wanted: Mode, count: nat) returns (restored: bool)
      requires Valid() && wanted != Unlocked && 0 < count < U32 && DepthOf(Held(), t) == 0
      modifies this
      ensures restored <==> Allowed(old(run), Restored(t, wanted, count))
      ensures mode == if restored then wanted else old(mode)
      ensures run == if restored then old(run) + [Restored(t, wanted, count)] else old(run)
      ensures Legal(run) && (Valid() <==> Total(Held().depths) < 0x1_0000_0000)
    {
      hide Total, Legal, Replay, Allowed;
      ghost var h := Held();
      PossibleExactlyWhen(run, Restored(t, wanted, count));
      TotalUpdated(h.depths, t, count);
      TotalEmpty();
      restored := true;
      if wanted == Exclusive {
        if mode != Unlocked {
          return false;
        }
        mode := Exclusive;
        assert timesLocked == 0;
        timesLocked := count;
        assert holder == None && sharedHolders == map[];
        holder := Some(t);
      } else {
        var found := mode;
        if mode == Unlocked {
          mode := Shared;
        } else if mode != Shared {
          return false;
        }
        assert found == Shared || timesLocked == 0;
        timesLocked := (timesLocked + count) % U32;
        assert holder == None && (found == Unlocked <==> sharedHolders == map[]) && t !in sharedHolders;
        sharedHolders := sharedHolders[t := count];
      }
      run := run + [Restored(t, wanted, count)];
      Extend(old(run), Restored(t, wanted, count));
      ThenSound(h, Restored(t, wanted, count));
    }
  }

  lemma HeldOnce(t: Thread, m: Mode)
    requires m != Unlocked
    ensures var run := [Locked(t, m)];
            (forall u :: Counted(run, u) == if u == t then 1 else 0) && TakenAs(run) == m && !Free(run)
  {
    var run := [Locked(t, m)];
    assert run[..0] == [];
    assert Counted(run, t) == 1;
  }

  /** A thread takes the lock exclusively, and takes it again; another has to wait. */
  method TakeTwice(t: Thread, u: Thread) returns (first: bool, other: bool, again: bool, count: int)
    requires t != u
    ensures first && !other && again && count == 2
  {
    hide Legal, Replay, Total, Counted, TakenAs;
    var lock := new Lock();
    HeldOnce(t, Exclusive);
    Nobody();
    first := lock.TryLock(t, Exclusive);
    assert lock.run == [Locked(t, Exclusive)];
    LocksAdd(lock.run);
    other := lock.TryLock(u, Shared);
    again := lock.TryLock(t, Exclusive);
    count := lock.timesLocked;
  }

  lemma Nobody()
    ensures Free([])
  {
  }
}
