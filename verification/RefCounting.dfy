/**
 AK/RefPtr.h and AK/RefCounted.h: shared `RefPtr` slots over reference-counted
 objects, used by any number of threads.  Every atomic operation is one step;
 atomics are sequentially consistent.
 */
module RefCounting {
  import opened Basics

  const U32: int := 0x1_0000_0000

  type Object = nat
  type Slot = nat
  type Thread = nat
  type Pointer = Option<Object>

  /** What happens to the value that `exchange` returns. */
  datatype After =
    | Unref                  // assign_raw, clear: drop it
    | MoveInto(to: Slot)     // leak_ref_raw: assign it to another slot
    | OfferTo(to: Slot)      // leak_ref_raw for assign_if_null
    | SwapInto(here: Slot, back: Slot)
    | SwapBack(back: Slot)
    | Forget                 // the last exchange of swap ignores it

  /** Where a thread is in one of RefPtr's operations. */
  datatype Pc =
    | Idle
    | Locking(from: Slot, to: Slot)
    | Referencing(from: Slot, to: Slot, bits: Pointer)
    | Unlocking(from: Slot, to: Slot, bits: Pointer)
    | Loading(slot: Slot, bits: Pointer, after: After)
    | Exchanging(slot: Slot, bits: Pointer, expected: Pointer, after: After)
    | Offering(slot: Slot, bits: Pointer)
    | Unreferencing(obj: Object)
    | Destroying(obj: Object)

  datatype State = State(
    counts: map<Object, nat>,      // m_ref_count of every object ever created
    dead: multiset<Object>,        // one entry per destruction
    slots: map<Slot, Pointer>,     // the pointer part of m_bits
    locked: set<Slot>,             // the slots whose lock bit is set
    threads: map<Thread, Pc>,
    leaked: multiset<Object>)      // references given up without an unref

  datatype Label =
    | NewSlot(slot: Slot)
    | Adopt(thread: Thread, obj: Object, to: Slot)
    | Copy(thread: Thread, from: Slot, to: Slot)
    | Move(thread: Thread, from: Slot, to: Slot)
    | AssignIfNull(thread: Thread, from: Slot, to: Slot)
    | Swap(thread: Thread, here: Slot, other: Slot)
    | Clear(thread: Thread, slot: Slot)
    | Advance(thread: Thread)

  function PcOf(s: State, t: Thread): Pc {
    if t in s.threads then s.threads[t] else Idle
  }

  function At(s: State, x: Slot): Pointer {
    if x in s.slots then s.slots[x] else None
  }

  function CountOf(s: State, o: Object): nat {
    if o in s.counts then s.counts[o] else 0
  }

  function Goto(s: State, t: Thread, pc: Pc): State {
    s.(threads := s.threads[t := pc])
  }

  // ---------- steps ----------

  /** When a step can be taken.  No count is assumed to reach 2^32, which the source asserts. */
  ghost predicate Enabled(s: State, l: Label) {
    if l.NewSlot? then l.slot !in s.slots
    else if l.Advance? then
      var pc := PcOf(s, l.thread);
      !pc.Idle? && (pc.Referencing? && pc.bits.Some? ==> CountOf(s, pc.bits.value) + 1 < U32)
    else
      PcOf(s, l.thread).Idle?
      && match l
         case Adopt(_, o, to) => o !in s.counts && to in s.slots
         case Clear(_, x) => x in s.slots
         case Swap(_, x, y) => x in s.slots && y in s.slots && x != y
         case Copy(_, x, y) => x in s.slots && y in s.slots && x != y
         case Move(_, x, y) => x in s.slots && y in s.slots && x != y
         case AssignIfNull(_, x, y) => x in s.slots && y in s.slots && x != y
  }

  function Begin(s: State, l: Label): State
    requires !l.Advance?
  {
    match l
    case NewSlot(x) => s.(slots := s.slots[x := None])
    case Adopt(t, o, to) => Goto(s.(counts := s.counts[o := 1]), t, Loading(to, Some(o), Unref))
    case Copy(t, from, to) => Goto(s, t, Locking(from, to))
    case Move(t, from, to) => Goto(s, t, Loading(from, None, MoveInto(to)))
    case AssignIfNull(t, from, to) => Goto(s, t, Loading(from, None, OfferTo(to)))
    case Swap(t, x, y) => Goto(s, t, Loading(y, None, SwapInto(x, y)))
    case Clear(t, x) => Goto(s, t, Loading(x, None, Unref))
  }

  /** What the thread does next with the value an exchange returned. */
  function Continue(after: After, got: Pointer): Pc {
    match after
    case Unref => if got.Some? then Unreferencing(got.value) else Idle
    case MoveInto(to) => Loading(to, got, Unref)
    case OfferTo(to) => Offering(to, got)
    case SwapInto(here, back) => Loading(here, got, SwapBack(back))
    case SwapBack(back) => Loading(back, got, Forget)
    case Forget => Idle
  }

  function Leak(m: multiset<Object>, p: Pointer): multiset<Object> {
    if p.Some? then m + multiset{p.value} else m
  }

  /** The thread's next atomic operation. */
  function Progress(s: State, t: Thread): State {
    match PcOf(s, t)
    case Idle => s
    case Locking(from, to) =>
      if from in s.locked then s
      else Goto(s.(locked := s.locked + {from}), t, Referencing(from, to, At(s, from)))
    case Referencing(from, to, bits) =>
      Goto(if bits.Some? then s.(counts := s.counts[bits.value := CountOf(s, bits.value) + 1]) else s,
           t, Unlocking(from, to, bits))
    case Unlocking(from, to, bits) =>
      Goto(s.(slots := s.slots[from := bits], locked := s.locked - {from}), t, Loading(to, bits, Unref))
    case Loading(x, bits, after) => Goto(s, t, Exchanging(x, bits, At(s, x), after))
    case Exchanging(x, bits, expected, after) =>
      if x !in s.locked && At(s, x) == expected then
        Goto(s.(slots := s.slots[x := bits], leaked := if after.Forget? then Leak(s.leaked, expected) else s.leaked),
             t, Continue(after, expected))
      else Goto(s, t, Exchanging(x, bits, At(s, x), after))
    case Offering(x, bits) =>
      if At(s, x).Some? then Goto(s.(leaked := Leak(s.leaked, bits)), t, Idle)
      else if x in s.locked then s
      else Goto(s.(slots := s.slots[x := bits]), t, Idle)
    case Unreferencing(o) =>
      Goto(s.(counts := s.counts[o := (CountOf(s, o) - 1) % U32]), t,
           if CountOf(s, o) == 1 then Destroying(o) else Idle)
    case Destroying(o) => Goto(s.(dead := s.dead + multiset{o}), t, Idle)
  }

  function Step(s: State, l: Label): State {
    if l.Advance? then Progress(s, l.thread) else Begin(s, l)
  }

  // ---------- references ----------

  /** The reference a thread holds in flight. */
  function Owned(pc: Pc): Pointer {
    match pc
    case Unlocking(_, _, bits) => bits
    case Loading(_, bits, _) => bits
    case Exchanging(_, bits, _, _) => bits
    case Offering(_, bits) => bits
    case Unreferencing(o) => Some(o)
    case _ => None
  }

  ghost function OwnedMap(threads: map<Thread, Pc>): map<Thread, Pointer> {
    map t | t in threads :: Owned(threads[t])
  }

  ghost function Holders(m: map<nat, Pointer>, o: Object): set<nat> {
    set k | k in m && m[k] == Some(o)
  }

  ghost function Refs(m: map<nat, Pointer>, o: Object): nat {
    |Holders(m, o)|
  }

  ghost function One(p: Pointer, o: Object): nat {
    if p == Some(o) then 1 else 0
  }

  lemma RefsUpdated(m: map<nat, Pointer>, k: nat, v: Pointer, o: Object)
    ensures Refs(m[k := v], o) + (if k in m then One(m[k], o) else 0) == Refs(m, o) + One(v, o)
  {
    var a, b := Holders(m, o), Holders(m[k := v], o);
    if v == Some(o) {
      assert b == a + {k};
    } else {
      assert b == a - {k};
    }
  }

  lemma OwnedUpdated(threads: map<Thread, Pc>, t: Thread, pc: Pc)
    ensures OwnedMap(threads[t := pc]) == OwnedMap(threads)[t := Owned(pc)]
  {
  }

  // ---------- the invariant ----------

  ghost function References(s: State, o: Object): nat {
    Refs(s.slots, o) + Refs(OwnedMap(s.threads), o) + s.leaked[o]
  }

  predicate HoldsLock(pc: Pc, x: Slot) {
    (pc.Referencing? || pc.Unlocking?) && pc.from == x
  }

  /** Every object's count is the number of references to it. */
  ghost predicate Counted(s: State) {
    forall o :: CountOf(s, o) == References(s, o)
  }

  /** A set lock bit belongs to one thread, and the slot still holds what that thread saw. */
  ghost predicate LocksHeld(s: State) {
    (forall t, x :: HoldsLock(PcOf(s, t), x) ==> x in s.locked && At(s, x) == PcOf(s, t).bits)
    && (forall t, u, x :: HoldsLock(PcOf(s, t), x) && HoldsLock(PcOf(s, u), x) ==> t == u)
    && (forall x :: x in s.locked ==> exists t :: HoldsLock(PcOf(s, t), x))
  }

  ghost predicate AtZero(s: State, o: Object) {
    o in s.counts && s.counts[o] == 0
  }

  /** An object is destroyed at most once, by the one thread that saw the count reach zero. */
  ghost predicate DestroyedOnce(s: State) {
    (forall o :: s.dead[o] <= 1 && (s.dead[o] == 1 ==> AtZero(s, o)))
    && (forall t :: PcOf(s, t).Destroying? ==> AtZero(s, PcOf(s, t).obj) && s.dead[PcOf(s, t).obj] == 0)
    && (forall t, u :: PcOf(s, t).Destroying? && PcOf(s, t) == PcOf(s, u) ==> t == u)
  }

  /** An object without references is destroyed or about to be. */
  ghost predicate NoneForgotten(s: State) {
    forall o :: AtZero(s, o) && s.dead[o] == 0 ==> exists t :: PcOf(s, t) == Destroying(o)
  }

  ghost predicate Invariant(s: State) {
    Counted(s) && LocksHeld(s) && DestroyedOnce(s) && NoneForgotten(s) && (forall o :: CountOf(s, o) < U32)
  }

  // ---------- every step keeps the invariant ----------

  lemma GotoReferences(s: State, t: Thread, pc: Pc, o: Object)
    ensures References(Goto(s, t, pc), o) + One(Owned(PcOf(s, t)), o) == References(s, o) + One(Owned(pc), o)
  {
    hide Refs;
    OwnedUpdated(s.threads, t, pc);
    RefsUpdated(OwnedMap(s.threads), t, Owned(pc), o);
  }

  lemma StoreReferences(s: State, x: Slot, v: Pointer, o: Object)
    ensures References(s.(slots := s.slots[x := v]), o) + One(At(s, x), o) == References(s, o) + One(v, o)
  {
    hide Refs;
    RefsUpdated(s.slots, x, v, o);
  }

  lemma LeakReferences(s: State, p: Pointer, o: Object)
    ensures References(s.(leaked := Leak(s.leaked, p)), o) == References(s, o) + One(p, o)
  {
  }

  lemma BeginKeepsCounted(s: State, l: Label)
    requires Counted(s) && !l.Advance? && Enabled(s, l)
    ensures Counted(Begin(s, l))
  {
    hide References;
    forall o ensures CountOf(Begin(s, l), o) == References(Begin(s, l), o) {
      if l.NewSlot? {
        StoreReferences(s, l.slot, None, o);
      } else {
        var s1 := if l.Adopt? then s.(counts := s.counts[l.obj := 1]) else s;
        SameReferences(s, s1, o);
        GotoReferences(s1, l.thread, PcOf(Begin(s, l), l.thread), o);
      }
    }
  }

  lemma SameReferences(s: State, s': State, o: Object)
    requires s.slots == s'.slots && s.threads == s'.threads && s.leaked == s'.leaked
    ensures References(s, o) == References(s', o)
  {
  }

  /** The three steps of `add_ref_raw`. */
  lemma CopyCounts(s: State, t: Thread, o: Object)
    requires Invariant(s) && Enabled(s, Advance(t))
    requires PcOf(s, t).Locking? || PcOf(s, t).Referencing? || PcOf(s, t).Unlocking?
    ensures CountOf(Progress(s, t), o) == References(Progress(s, t), o)
  {
    hide References, DestroyedOnce;
    var s', pc := Progress(s, t), PcOf(s, t);
    match pc
    case Locking(from, to) =>
      if from !in s.locked {
        SameReferences(s, s.(locked := s.locked + {from}), o);
        GotoReferences(s.(locked := s.locked + {from}), t, PcOf(s', t), o);
      }
    case Referencing(from, to, bits) =>
      GotoReferences(s, t, PcOf(s', t), o);
      SameReferences(Goto(s, t, PcOf(s', t)), s', o);
    case Unlocking(from, to, bits) =>
      assert HoldsLock(pc, from);
      var s1 := s.(slots := s.slots[from := bits]);
      StoreReferences(s, from, bits, o);
      GotoReferences(s1, t, PcOf(s', t), o);
      SameReferences(Goto(s1, t, PcOf(s', t)), s', o);
  }

  /** The two steps of `unref`. */
  lemma DropCounts(s: State, t: Thread, o: Object)
    requires Invariant(s) && Enabled(s, Advance(t)) && (PcOf(s, t).Unreferencing? || PcOf(s, t).Destroying?)
    ensures CountOf(Progress(s, t), o) == References(Progress(s, t), o)
  {
    hide References, DestroyedOnce, LocksHeld, NoneForgotten;
    var s', pc := Progress(s, t), PcOf(s, t);
    GotoReferences(s, t, PcOf(s', t), o);
    SameReferences(Goto(s, t, PcOf(s', t)), s', o);
    if pc.Unreferencing? {
      OwnedIsReference(s, t, pc.obj);
    }
  }

  lemma ProgressCounts(s: State, t: Thread, o: Object)
    requires Invariant(s) && Enabled(s, Advance(t))
    ensures CountOf(Progress(s, t), o) == References(Progress(s, t), o)
  {
    hide References, DestroyedOnce;
    var s', pc := Progress(s, t), PcOf(s, t);
    match pc
    case Idle =>
    case Locking(_, _) =>
      CopyCounts(s, t, o);
    case Referencing(_, _, _) =>
      CopyCounts(s, t, o);
    case Unlocking(_, _, _) =>
      CopyCounts(s, t, o);
    case Loading(x, bits, after) =>
      GotoReferences(s, t, PcOf(s', t), o);
    case Exchanging(x, bits, expected, after) =>
      if x !in s.locked && At(s, x) == expected {
        ExchangeCounts(s, t, o);
      } else {
        GotoReferences(s, t, PcOf(s', t), o);
      }
    case Offering(x, bits) =>
      OfferCounts(s, t, o);
    case Unreferencing(_) =>
      DropCounts(s, t, o);
    case Destroying(_) =>
      DropCounts(s, t, o);
  }

  lemma StepKeepsCounted(s: State, l: Label)
    requires Invariant(s) && Enabled(s, l)
    ensures Counted(Step(s, l))
  {
    if l.Advance? {
      forall o ensures CountOf(Step(s, l), o) == References(Step(s, l), o) {
        ProgressCounts(s, l.thread, o);
      }
    } else {
      BeginKeepsCounted(s, l);
    }
  }

  lemma OwnedIsReference(s: State, t: Thread, o: Object)
    requires Owned(PcOf(s, t)) == Some(o)
    ensures References(s, o) >= 1
  {
    assert t in Holders(OwnedMap(s.threads), o);
  }

  lemma NamedIsReference(s: State, x: Slot, o: Object)
    requires At(s, x) == Some(o)
    ensures References(s, o) >= 1
  {
    assert x in Holders(s.slots, o);
  }

  lemma ExchangeCounts(s: State, t: Thread, o: Object)
    requires PcOf(s, t).Exchanging? && PcOf(s, t).slot !in s.locked && At(s, PcOf(s, t).slot) == PcOf(s, t).expected
    requires Counted(s)
    ensures CountOf(Progress(s, t), o) == References(Progress(s, t), o)
  {
    hide References;
    var s', pc := Progress(s, t), PcOf(s, t);
    var s1 := s.(slots := s.slots[pc.slot := pc.bits]);
    StoreReferences(s, pc.slot, pc.bits, o);
    var s2 := if pc.after.Forget? then s1.(leaked := Leak(s1.leaked, pc.expected)) else s1;
    LeakReferences(s1, pc.expected, o);
    GotoReferences(s2, t, Continue(pc.after, pc.expected), o);
    assert s' == Goto(s2, t, Continue(pc.after, pc.expected));
  }

  lemma OfferCounts(s: State, t: Thread, o: Object)
    requires PcOf(s, t).Offering? && Counted(s)
    ensures CountOf(Progress(s, t), o) == References(Progress(s, t), o)
  {
    hide References;
    var pc := PcOf(s, t);
    if At(s, pc.slot).Some? {
      LeakReferences(s, pc.bits, o);
      GotoReferences(s.(leaked := Leak(s.leaked, pc.bits)), t, Idle, o);
    } else if pc.slot !in s.locked {
      StoreReferences(s, pc.slot, pc.bits, o);
      GotoReferences(s.(slots := s.slots[pc.slot := pc.bits]), t, Idle, o);
    }
  }

  /** No step changes a slot whose lock bit is set. */
  lemma LockedSlotsStay(s: State, l: Label, x: Slot)
    requires LocksHeld(s) && Enabled(s, l) && x in s.locked
    ensures At(Step(s, l), x) == At(s, x)
  {
    hide Progress, Enabled, LocksHeld;
    if l.Advance? {
      ProgressKeepsLocked(s, l.thread, x);
    } else if l.NewSlot? {
      NewSlotIsNotLocked(s, l.slot);
    }
  }

  lemma ProgressKeepsLocked(s: State, t: Thread, x: Slot)
    requires LocksHeld(s) && x in s.locked
    ensures At(Progress(s, t), x) == At(s, x)
  {
    if PcOf(s, t).Unlocking? {
      assert HoldsLock(PcOf(s, t), PcOf(s, t).from);
    }
  }

  lemma NewSlotIsNotLocked(s: State, x: Slot)
    requires LocksHeld(s) && Enabled(s, NewSlot(x))
    ensures x in s.locked ==> At(s, x) == None
  {
  }

  lemma OthersStay(s: State, l: Label)
    ensures forall t :: (l.NewSlot? || t != l.thread) ==> PcOf(Step(s, l), t) == PcOf(s, t)
  {
  }

  /** A thread takes or gives up a lock bit only where its own position says so. */
  lemma LockMoves(s: State, l: Label)
    requires Enabled(s, l) && !l.NewSlot?
    ensures var s', pc, pc' := Step(s, l), PcOf(s, l.thread), PcOf(Step(s, l), l.thread);
            if pc.Locking? && pc.from !in s.locked && l.Advance? then
              s'.locked == s.locked + {pc.from} && pc' == Referencing(pc.from, pc.to, At(s, pc.from)) && At(s', pc.from) == At(s, pc.from)
            else if pc.Unlocking? then s'.locked == s.locked - {pc.from} && forall x :: !HoldsLock(pc', x)
            else s'.locked == s.locked && (forall x :: HoldsLock(pc, x) <==> HoldsLock(pc', x))
                 && (pc.Referencing? ==> pc'.Unlocking? && pc'.bits == pc.bits)
  {
  }

  lemma StepKeepsLocks(s: State, l: Label)
    requires LocksHeld(s) && Enabled(s, l)
    ensures LocksHeld(Step(s, l))
  {
    hide Step, Enabled;
    var s' := Step(s, l);
    OthersStay(s, l);
    if l.NewSlot? {
      NewSlotOnly(s, l);
    } else {
      LockMoves(s, l);
    }
    forall x | x in s.locked ensures At(s', x) == At(s, x) {
      LockedSlotsStay(s, l, x);
    }
    forall x | x in s'.locked ensures exists t :: HoldsLock(PcOf(s', t), x) {
      if x in s.locked {
        var t :| HoldsLock(PcOf(s, t), x);
        assert HoldsLock(PcOf(s', t), x);
      } else {
        assert HoldsLock(PcOf(s', l.thread), x);
      }
    }
  }

  /** How a step from pc to pc' bears on the destruction of o. */
  ghost predicate Moves(s: State, s': State, pc: Pc, pc': Pc, o: Object) {
    && s'.dead[o] == s.dead[o] + (if pc == Destroying(o) then 1 else 0)
    && (pc' == Destroying(o) <==> AtZero(s', o) && !AtZero(s, o))
    && (AtZero(s, o) ==> AtZero(s', o))
  }

  lemma BeginMoves(s: State, l: Label, o: Object)
    requires Enabled(s, l) && !l.NewSlot? && !l.Advance?
    ensures Moves(s, Begin(s, l), PcOf(s, l.thread), PcOf(Begin(s, l), l.thread), o)
  {
  }

  lemma ProgressMoves(s: State, t: Thread, o: Object)
    requires Invariant(s) && Enabled(s, Advance(t))
    ensures Moves(s, Progress(s, t), PcOf(s, t), PcOf(Progress(s, t), t), o)
  {
    hide References, LocksHeld, DestroyedOnce, NoneForgotten, Counted;
    Alive(s, t);
  }

  lemma DestructionMoves(s: State, l: Label, o: Object)
    requires Invariant(s) && Enabled(s, l) && !l.NewSlot?
    ensures Moves(s, Step(s, l), PcOf(s, l.thread), PcOf(Step(s, l), l.thread), o)
  {
    hide Invariant, Moves, Begin, Progress;
    if l.Advance? {
      ProgressMoves(s, l.thread, o);
    } else {
      BeginMoves(s, l, o);
    }
  }

  lemma StepKeepsDestroyed(s: State, l: Label)
    requires Invariant(s) && Enabled(s, l)
    ensures DestroyedOnce(Step(s, l)) && NoneForgotten(Step(s, l))
  {
    hide References, LocksHeld, Step, Enabled, Counted, AtZero;
    var s' := Step(s, l);
    OthersStay(s, l);
    forall o ensures (AtZero(s, o) ==> AtZero(s', o)) && s'.dead[o] >= s.dead[o]
             ensures l.NewSlot? ==> AtZero(s, o) == AtZero(s', o) && s'.dead[o] == s.dead[o]
             ensures !l.NewSlot? ==> s'.dead[o] == s.dead[o] + (if PcOf(s, l.thread) == Destroying(o) then 1 else 0)
             ensures !l.NewSlot? ==> (PcOf(s', l.thread) == Destroying(o) <==> AtZero(s', o) && !AtZero(s, o))
    {
      if l.NewSlot? {
        NewSlotOnly(s, l);
        SameZero(s, s', o);
      } else {
        DestructionMoves(s, l, o);
      }
    }
    DestroyedAfter(s, s', l);
    forall o | AtZero(s', o) && s'.dead[o] == 0 ensures exists t :: PcOf(s', t) == Destroying(o) {
      if AtZero(s, o) {
        var t :| PcOf(s, t) == Destroying(o);
        assert PcOf(s', t) == Destroying(o);
      } else {
        assert PcOf(s', l.thread) == Destroying(o);
      }
    }
  }

  lemma DestroyedAfter(s: State, s': State, l: Label)
    requires DestroyedOnce(s)
    requires forall t :: (l.NewSlot? || t != l.thread) ==> PcOf(s', t) == PcOf(s, t)
    requires forall o :: AtZero(s, o) ==> AtZero(s', o)
    requires l.NewSlot? ==> forall o :: s'.dead[o] == s.dead[o]
    requires !l.NewSlot? ==> forall o :: s'.dead[o] == s.dead[o] + (if PcOf(s, l.thread) == Destroying(o) then 1 else 0)
    requires !l.NewSlot? ==> forall o :: PcOf(s', l.thread) == Destroying(o) <==> AtZero(s', o) && !AtZero(s, o)
    ensures DestroyedOnce(s')
  {
    hide AtZero, PcOf;
    forall t | PcOf(s', t).Destroying?
      ensures AtZero(s', PcOf(s', t).obj) && s'.dead[PcOf(s', t).obj] == 0
    {
      var o := PcOf(s', t).obj;
      assert PcOf(s', t) == Destroying(o);
    }
    forall t, u | PcOf(s', t).Destroying? && PcOf(s', t) == PcOf(s', u) ensures t == u {
      var o := PcOf(s', t).obj;
      assert PcOf(s', t) == Destroying(o) == PcOf(s', u);
    }
  }

  lemma SameZero(s: State, s': State, o: Object)
    requires s.counts == s'.counts
    ensures AtZero(s, o) == AtZero(s', o)
  {
  }

  lemma NewSlotOnly(s: State, l: Label)
    requires l.NewSlot?
    ensures Step(s, l).counts == s.counts && Step(s, l).dead == s.dead && Step(s, l).locked == s.locked
  {
  }

  /** Whatever object a thread is about to touch is there: `ref` and `unref` run on a
      positive count, destruction runs on a zero count and for the first time. */
  lemma Alive(s: State, t: Thread)
    requires Invariant(s)
    ensures var pc := PcOf(s, t);
            (pc.Referencing? && pc.bits.Some? ==> CountOf(s, pc.bits.value) > 0 && s.dead[pc.bits.value] == 0)
            && (pc.Unreferencing? ==> CountOf(s, pc.obj) > 0 && s.dead[pc.obj] == 0)
            && (pc.Destroying? ==> CountOf(s, pc.obj) == 0 && s.dead[pc.obj] == 0)
  {
    hide References;
    var pc := PcOf(s, t);
    if pc.Referencing? && pc.bits.Some? {
      assert HoldsLock(pc, pc.from);
      NamedIsReference(s, pc.from, pc.bits.value);
    } else if pc.Unreferencing? {
      OwnedIsReference(s, t, pc.obj);
    }
  }

  // ---------- whole runs ----------

  const Nothing: State := State(map[], multiset{}, map[], {}, map[], multiset{})

  ghost predicate Legal(run: seq<Label>)
    decreases |run|, 0
  {
    run == [] || (Legal(run[..|run| - 1]) && Enabled(StateAfter(run[..|run| - 1]), run[|run| - 1]))
  }

  ghost function StateAfter(run: seq<Label>): State
    requires Legal(run)
    decreases |run|, 1
  {
    if run == [] then Nothing else Step(StateAfter(run[..|run| - 1]), run[|run| - 1])
  }

  lemma StepKeepsBound(s: State, l: Label)
    requires Invariant(s) && Enabled(s, l)
    ensures forall o :: CountOf(Step(s, l), o) < U32
  {
    hide References, LocksHeld, DestroyedOnce, NoneForgotten;
    forall o ensures CountOf(Step(s, l), o) < U32 {
      assert CountOf(s, o) < U32;
      if !l.NewSlot? {
        Alive(s, l.thread);
      }
    }
  }

  lemma StepKeeps(s: State, l: Label)
    requires Invariant(s) && Enabled(s, l)
    ensures Invariant(Step(s, l))
  {
    StepKeepsCounted(s, l);
    StepKeepsLocks(s, l);
    StepKeepsDestroyed(s, l);
    StepKeepsBound(s, l);
  }

  lemma {:induction false} EveryRun(run: seq<Label>)
    requires Legal(run)
    ensures Invariant(StateAfter(run))
  {
    if run == [] {
    } else {
      var before, l := run[..|run| - 1], run[|run| - 1];
      EveryRun(before);
      StepKeeps(StateAfter(before), l);
    }
  }

  /** In every run, whatever a thread is about to touch has not been destroyed. */
  lemma NoUseAfterDestruction(run: seq<Label>, t: Thread)
    requires Legal(run)
    ensures var s := StateAfter(run);
            var pc := PcOf(s, t);
            (pc.Referencing? && pc.bits.Some? ==> CountOf(s, pc.bits.value) > 0 && s.dead[pc.bits.value] == 0)
            && (pc.Unreferencing? ==> CountOf(s, pc.obj) > 0 && s.dead[pc.obj] == 0)
            && (pc.Destroying? ==> CountOf(s, pc.obj) == 0 && s.dead[pc.obj] == 0)
            && (Owned(pc).Some? ==> s.dead[Owned(pc).value] == 0)
    ensures forall x :: At(StateAfter(run), x).Some? ==> StateAfter(run).dead[At(StateAfter(run), x).value] == 0
  {
    hide Legal, StateAfter, References;
    var s := StateAfter(run);
    EveryRun(run);
    Alive(s, t);
    if Owned(PcOf(s, t)).Some? {
      OwnedIsReference(s, t, Owned(PcOf(s, t)).value);
    }
    forall x | At(s, x).Some? ensures s.dead[At(s, x).value] == 0 {
      NamedIsReference(s, x, At(s, x).value);
    }
  }

  // ---------- what an operation does to the slots ----------

  /** A moment at which a thread's step looks at a slot or stores into it. */
  datatype Access =
    | Saw(slot: Slot, value: Pointer)
    | Stored(slot: Slot, was: Pointer, now: Pointer)

  ghost predicate SameSlots(s: State, s': State) {
    forall x :: At(s', x) == At(s, x)
  }

  /** The step from s to s' is this access, and changes nothing else in the slots. */
  ghost predicate IsAccess(s: State, s': State, a: Access) {
    match a
    case Saw(x, v) => At(s, x) == v && SameSlots(s, s')
    case Stored(x, was, now) => At(s, x) == was && forall y :: At(s', y) == if y == x then now else At(s, y)
  }

  /** Thread t's steps make these accesses, in this order, and leave the slots alone otherwise. */
  ghost predicate Performs(s: State, steps: seq<Label>, t: Thread, accesses: seq<Access>)
    decreases |steps|
  {
    if steps == [] then accesses == []
    else
      var s' := Step(s, steps[0]);
      if steps[0] != Advance(t) then Performs(s', steps[1..], t, accesses)
      else
        || (SameSlots(s, s') && Performs(s', steps[1..], t, accesses))
        || (accesses != [] && IsAccess(s, s', accesses[0]) && Performs(s', steps[1..], t, accesses[1..]))
  }

  /** Steps through which thread t is busy, up to the one after which it is idle. */
  ghost predicate Completes(s: State, steps: seq<Label>, t: Thread)
    decreases |steps|
  {
    if steps == [] then PcOf(s, t).Idle?
    else !PcOf(s, t).Idle? && Enabled(s, steps[0]) && Completes(Step(s, steps[0]), steps[1..], t)
  }

  /** The accesses an operation is made of. */
  predicate Made(l: Label, a: seq<Access>) {
    match l
    case Adopt(_, o, to) => |a| == 1 && a[0].Stored? && a[0].slot == to && a[0].now == Some(o)
    case Clear(_, x) => |a| == 1 && a[0].Stored? && a[0].slot == x && a[0].now == None
    case Copy(_, from, to) =>
      |a| == 2 && a[0].Saw? && a[0].slot == from && a[1].Stored? && a[1].slot == to && a[1].now == a[0].value
    case Move(_, from, to) =>
      && |a| == 2 && a[0].Stored? && a[0].slot == from && a[0].now == None
      && a[1].Stored? && a[1].slot == to && a[1].now == a[0].was
    case Swap(_, x, y) =>
      && |a| == 3 && a[0].Stored? && a[0].slot == y && a[0].now == None
      && a[1].Stored? && a[1].slot == x && a[1].now == a[0].was
      && a[2].Stored? && a[2].slot == y && a[2].now == a[1].was
    case AssignIfNull(_, from, to) =>
      && |a| == 2 && a[0].Stored? && a[0].slot == from && a[0].now == None && a[1].slot == to
      && if a[1].Saw? then a[1].value != None else a[1].was == None && a[1].now == a[0].was
    case NewSlot(_) => false
    case Advance(_) => false
  }

  lemma PassesOver(s: State, steps: seq<Label>, t: Thread, accesses: seq<Access>)
    requires steps != [] && (steps[0] == Advance(t) ==> SameSlots(s, Step(s, steps[0])))
    requires Performs(Step(s, steps[0]), steps[1..], t, accesses)
    ensures Performs(s, steps, t, accesses)
  {
  }

  lemma MakesAccess(s: State, steps: seq<Label>, t: Thread, a: Access, accesses: seq<Access>)
    requires steps != [] && steps[0] == Advance(t) && IsAccess(s, Step(s, steps[0]), a)
    requires Performs(Step(s, steps[0]), steps[1..], t, accesses)
    ensures Performs(s, steps, t, [a] + accesses)
  {
    assert ([a] + accesses)[1..] == accesses;
  }

  lemma OthersKeepPc(s: State, l: Label, t: Thread)
    requires Enabled(s, l) && !PcOf(s, t).Idle? && l != Advance(t)
    ensures PcOf(Step(s, l), t) == PcOf(s, t)
  {
    OthersStay(s, l);
  }

  /** Dropping a reference touches no slot. */
  lemma {:induction false} Dropping(s: State, steps: seq<Label>, t: Thread)
    requires Completes(s, steps, t) && (PcOf(s, t).Idle? || PcOf(s, t).Unreferencing? || PcOf(s, t).Destroying?)
    ensures Performs(s, steps, t, [])
    decreases |steps|
  {
    if steps != [] {
      if steps[0] != Advance(t) {
        OthersKeepPc(s, steps[0], t);
      }
      Dropping(Step(s, steps[0]), steps[1..], t);
      PassesOver(s, steps, t, []);
    }
  }

  predicate Exchange(pc: Pc, x: Slot, bits: Pointer, after: After) {
    (pc.Loading? || pc.Exchanging?) && pc.slot == x && pc.bits == bits && pc.after == after
  }

  /** The loop of `exchange`: it stores once, and goes on with what it found. */
  lemma {:induction false} ExchangesOnce(s: State, steps: seq<Label>, t: Thread, x: Slot, bits: Pointer, after: After)
      returns (s': State, rest: seq<Label>, was: Pointer)
    requires Completes(s, steps, t) && Exchange(PcOf(s, t), x, bits, after)
    ensures Completes(s', rest, t) && PcOf(s', t) == Continue(after, was)
    ensures forall accesses :: Performs(s', rest, t, accesses) ==> Performs(s, steps, t, [Stored(x, was, bits)] + accesses)
    decreases |steps|
  {
    hide Continue;
    var next := Step(s, steps[0]);
    if steps[0] == Advance(t) && PcOf(s, t).Exchanging? && x !in s.locked && At(s, x) == PcOf(s, t).expected {
      s', rest, was := next, steps[1..], At(s, x);
      forall accesses | Performs(s', rest, t, accesses)
        ensures Performs(s, steps, t, [Stored(x, was, bits)] + accesses)
      {
        MakesAccess(s, steps, t, Stored(x, was, bits), accesses);
      }
    } else {
      if steps[0] != Advance(t) {
        OthersKeepPc(s, steps[0], t);
      }
      s', rest, was := ExchangesOnce(next, steps[1..], t, x, bits, after);
      forall accesses | Performs(s', rest, t, accesses)
        ensures Performs(s, steps, t, [Stored(x, was, bits)] + accesses)
      {
        PassesOver(s, steps, t, [Stored(x, was, bits)] + accesses);
      }
    }
  }

  /** `assign_raw`: the old value is replaced and dropped. */
  lemma Assigns(s: State, steps: seq<Label>, t: Thread, x: Slot, bits: Pointer) returns (was: Pointer)
    requires Completes(s, steps, t) && Exchange(PcOf(s, t), x, bits, Unref)
    ensures Performs(s, steps, t, [Stored(x, was, bits)])
  {
    hide Performs, Completes;
    var s', rest;
    s', rest, was := ExchangesOnce(s, steps, t, x, bits, Unref);
    Dropping(s', rest, t);
    assert [Stored(x, was, bits)] + [] == [Stored(x, was, bits)];
  }

  /** The loop of `exchange_if_null`: it finds the slot taken, or stores into an empty one. */
  lemma {:induction false} Offers(s: State, steps: seq<Label>, t: Thread, x: Slot, bits: Pointer) returns (a: Access)
    requires Completes(s, steps, t) && PcOf(s, t) == Offering(x, bits)
    ensures Performs(s, steps, t, [a]) && a.slot == x
    ensures if a.Saw? then a.value != None else a.was == None && a.now == bits
    decreases |steps|
  {
    var s' := Step(s, steps[0]);
    if steps[0] == Advance(t) && (At(s, x).Some? || x !in s.locked) {
      a := if At(s, x).Some? then Saw(x, At(s, x)) else Stored(x, None, bits);
      Dropping(s', steps[1..], t);
      MakesAccess(s, steps, t, a, []);
      assert [a] + [] == [a];
    } else {
      if steps[0] != Advance(t) {
        OthersKeepPc(s, steps[0], t);
      }
      a := Offers(s', steps[1..], t, x, bits);
      PassesOver(s, steps, t, [a]);
    }
  }

  predicate Carries(pc: Pc, from: Slot, to: Slot, bits: Pointer) {
    (pc.Referencing? || pc.Unlocking?) && pc.from == from && pc.to == to && pc.bits == bits
  }

  /** With the source locked: the value seen there is put back as it was, and stored into the target. */
  lemma {:induction false} Delivers(s: State, steps: seq<Label>, t: Thread, from: Slot, to: Slot, bits: Pointer) returns (was: Pointer)
    requires Invariant(s) && Completes(s, steps, t) && Carries(PcOf(s, t), from, to, bits)
    ensures Performs(s, steps, t, [Stored(to, was, bits)])
    decreases |steps|
  {
    hide Invariant;
    var s' := Step(s, steps[0]);
    StepKeeps(s, steps[0]);
    LockedStill(s, t, from);
    if steps[0] == Advance(t) && PcOf(s, t).Unlocking? {
      was := Assigns(s', steps[1..], t, to, bits);
    } else {
      if steps[0] != Advance(t) {
        OthersKeepPc(s, steps[0], t);
      }
      was := Delivers(s', steps[1..], t, from, to, bits);
    }
    PassesOver(s, steps, t, [Stored(to, was, bits)]);
  }

  lemma LockedStill(s: State, t: Thread, x: Slot)
    requires Invariant(s) && HoldsLock(PcOf(s, t), x)
    ensures At(s, x) == PcOf(s, t).bits
  {
  }

  /** `add_ref_raw` and `assign_raw`. */
  lemma {:induction false} Copies(s: State, steps: seq<Label>, t: Thread, from: Slot, to: Slot) returns (v: Pointer, was: Pointer)
    requires Invariant(s) && Completes(s, steps, t) && PcOf(s, t) == Locking(from, to)
    ensures Performs(s, steps, t, [Saw(from, v), Stored(to, was, v)])
    decreases |steps|
  {
    hide Invariant;
    var s' := Step(s, steps[0]);
    StepKeeps(s, steps[0]);
    if steps[0] == Advance(t) && from !in s.locked {
      v := At(s, from);
      was := Delivers(s', steps[1..], t, from, to, v);
      MakesAccess(s, steps, t, Saw(from, v), [Stored(to, was, v)]);
      assert [Saw(from, v)] + [Stored(to, was, v)] == [Saw(from, v), Stored(to, was, v)];
    } else {
      if steps[0] != Advance(t) {
        OthersKeepPc(s, steps[0], t);
      }
      v, was := Copies(s', steps[1..], t, from, to);
      PassesOver(s, steps, t, [Saw(from, v), Stored(to, was, v)]);
    }
  }

  lemma MovesOver(s: State, steps: seq<Label>, t: Thread, from: Slot, to: Slot) returns (a: seq<Access>)
    requires Completes(s, steps, t) && Exchange(PcOf(s, t), from, None, MoveInto(to))
    ensures Performs(s, steps, t, a) && Made(Move(t, from, to), a)
  {
    hide Performs, Completes;
    var s', rest, v := ExchangesOnce(s, steps, t, from, None, MoveInto(to));
    var was := Assigns(s', rest, t, to, v);
    a := [Stored(from, v, None)] + [Stored(to, was, v)];
  }

  lemma OffersMoved(s: State, steps: seq<Label>, t: Thread, from: Slot, to: Slot) returns (a: seq<Access>)
    requires Completes(s, steps, t) && Exchange(PcOf(s, t), from, None, OfferTo(to))
    ensures Performs(s, steps, t, a) && Made(AssignIfNull(t, from, to), a)
  {
    hide Performs, Completes;
    var s', rest, v := ExchangesOnce(s, steps, t, from, None, OfferTo(to));
    var offer := Offers(s', rest, t, to, v);
    a := [Stored(from, v, None)] + [offer];
  }

  lemma Swaps(s: State, steps: seq<Label>, t: Thread, x: Slot, y: Slot) returns (a: seq<Access>)
    requires Completes(s, steps, t) && Exchange(PcOf(s, t), y, None, SwapInto(x, y))
    ensures Performs(s, steps, t, a) && Made(Swap(t, x, y), a)
  {
    hide Performs, Completes;
    var s1, rest1, v := ExchangesOnce(s, steps, t, y, None, SwapInto(x, y));
    var s2, rest2, w := ExchangesOnce(s1, rest1, t, x, v, SwapBack(y));
    var s3, rest3, u := ExchangesOnce(s2, rest2, t, y, w, Forget);
    Dropping(s3, rest3, t);
    a := [Stored(y, v, None)] + ([Stored(x, w, v)] + ([Stored(y, u, w)] + []));
  }

  predicate Operation(l: Label) {
    !l.NewSlot? && !l.Advance?
  }

  /** In every run, from the start of an operation until its thread is idle again, whatever other threads do in between,
      the thread's own steps make exactly the accesses the operation is made of. */
  lemma OperationAccesses(run: seq<Label>, l: Label, steps: seq<Label>) returns (a: seq<Access>)
    requires Legal(run) && Operation(l) && Enabled(StateAfter(run), l) && Completes(Step(StateAfter(run), l), steps, l.thread)
    ensures SameSlots(StateAfter(run), Step(StateAfter(run), l))
    ensures Performs(Step(StateAfter(run), l), steps, l.thread, a) && Made(l, a)
  {
    hide Performs, Completes, Legal, StateAfter, Invariant;
    var s0 := StateAfter(run);
    var s := Step(s0, l);
    EveryRun(run);
    StepKeeps(s0, l);
    match l
    case Adopt(t, o, to) =>
      var was := Assigns(s, steps, t, to, Some(o));
      a := [Stored(to, was, Some(o))];
    case Clear(t, x) =>
      var was := Assigns(s, steps, t, x, None);
      a := [Stored(x, was, None)];
    case Copy(t, from, to) =>
      var v, was := Copies(s, steps, t, from, to);
      a := [Saw(from, v), Stored(to, was, v)];
    case Move(t, from, to) => a := MovesOver(s, steps, t, from, to);
    case AssignIfNull(t, from, to) => a := OffersMoved(s, steps, t, from, to);
    case Swap(t, x, y) => a := Swaps(s, steps, t, x, y);
  }

  // ---------- a thread alone finishes ----------

  function StepsAfter(after: After): nat {
    match after
    case Unref => 2
    case MoveInto(_) => 4
    case OfferTo(_) => 1
    case SwapInto(_, _) => 6
    case SwapBack(_) => 2
    case Forget => 0
  }

  /** How many steps a thread that nobody holds up has before it at most. */
  function StepsLeft(pc: Pc): nat {
    match pc
    case Idle => 0
    case Locking(_, _) => 7
    case Referencing(_, _, _) => 6
    case Unlocking(_, _, _) => 5
    case Loading(_, _, after) => 2 + StepsAfter(after)
    case Exchanging(_, _, _, after) => 1 + StepsAfter(after)
    case Offering(_, _) => 1
    case Unreferencing(_) => 2
    case Destroying(_) => 1
  }

  /** Nobody else holds a lock bit, the thread has not been overtaken, and no count is about to overflow. */
  ghost predicate Unhindered(s: State, t: Thread) {
    var pc := PcOf(s, t);
    && (forall x :: x in s.locked ==> HoldsLock(pc, x))
    && (pc.Exchanging? ==> At(s, pc.slot) == pc.expected)
    && (pc.Locking? || pc.Referencing? ==> forall o :: CountOf(s, o) + 1 < U32)
  }

  lemma {:induction false} FinishesAlone(s: State, t: Thread) returns (steps: seq<Label>)
    requires Unhindered(s, t)
    ensures Completes(s, steps, t) && |steps| <= StepsLeft(PcOf(s, t))
    ensures forall i :: 0 <= i < |steps| ==> steps[i] == Advance(t)
    decreases StepsLeft(PcOf(s, t))
  {
    if PcOf(s, t).Idle? {
      steps := [];
    } else {
      StepAlone(s, t);
      var rest := FinishesAlone(Step(s, Advance(t)), t);
      steps := [Advance(t)] + rest;
      assert steps[1..] == rest;
    }
  }

  lemma StepAlone(s: State, t: Thread)
    requires Unhindered(s, t) && !PcOf(s, t).Idle?
    ensures Enabled(s, Advance(t)) && Unhindered(Step(s, Advance(t)), t)
    ensures StepsLeft(PcOf(Step(s, Advance(t)), t)) < StepsLeft(PcOf(s, t))
  {
    if PcOf(s, t).Locking? || PcOf(s, t).Referencing? || PcOf(s, t).Unlocking? {
      CopyAlone(s, t);
    }
  }

  lemma CopyAlone(s: State, t: Thread)
    requires Unhindered(s, t) && (PcOf(s, t).Locking? || PcOf(s, t).Referencing? || PcOf(s, t).Unlocking?)
    ensures Enabled(s, Advance(t)) && Unhindered(Step(s, Advance(t)), t)
    ensures StepsLeft(PcOf(Step(s, Advance(t)), t)) < StepsLeft(PcOf(s, t))
  {
    var s' := Step(s, Advance(t));
    assert PcOf(s, t).Locking? ==> s'.counts == s.counts && forall o :: CountOf(s', o) == CountOf(s, o);
  }

  /** An idle thread can begin any operation on slots that are there. */
  lemma CanBegin(s: State, t: Thread, x: Slot, y: Slot, o: Object)
    requires PcOf(s, t).Idle? && x in s.slots && y in s.slots && o !in s.counts
    ensures Enabled(s, Adopt(t, o, x)) && Enabled(s, Clear(t, x))
    ensures x != y ==> Enabled(s, Copy(t, x, y)) && Enabled(s, Move(t, x, y)) && Enabled(s, Swap(t, x, y)) && Enabled(s, AssignIfNull(t, x, y))
    ensures forall z :: z !in s.slots ==> Enabled(s, NewSlot(z))
  {
  }

  /** An operation of a thread that runs alone while no lock bit is set finishes within eight steps. */
  lemma OperationFinishes(s: State, l: Label) returns (steps: seq<Label>)
    requires Operation(l) && Enabled(s, l) && s.locked == {} && forall o :: CountOf(s, o) + 1 < U32
    ensures Completes(Step(s, l), steps, l.thread) && |steps| <= 8
    ensures forall i :: 0 <= i < |steps| ==> steps[i] == Advance(l.thread)
  {
    hide Completes;
    assert l.Copy? ==> forall o :: CountOf(Step(s, l), o) == CountOf(s, o);
    steps := FinishesAlone(Step(s, l), l.thread);
  }

  // ---------- undisturbed operations ----------

  /** No other thread changes any of these slots. */
  ghost predicate Quiet(s: State, steps: seq<Label>, t: Thread, slots: set<Slot>)
    decreases |steps|
  {
    steps == [] ||
    ((steps[0] != Advance(t) ==> forall x :: x in slots ==> At(Step(s, steps[0]), x) == At(s, x))
     && Quiet(Step(s, steps[0]), steps[1..], t, slots))
  }

  ghost function View(s: State, slots: set<Slot>): map<Slot, Pointer> {
    map x | x in slots :: At(s, x)
  }

  /** The accesses fit slots with these values, and leave those behind. */
  predicate Fit(m: map<Slot, Pointer>, accesses: seq<Access>, m': map<Slot, Pointer>)
  {
    if accesses == [] then m == m'
    else
      var a := accesses[0];
      a.slot in m
      && if a.Saw? then m[a.slot] == a.value && Fit(m, accesses[1..], m')
         else m[a.slot] == a.was && Fit(m[a.slot := a.now], accesses[1..], m')
  }

  predicate Within(accesses: seq<Access>, slots: set<Slot>) {
    forall i :: 0 <= i < |accesses| ==> accesses[i].slot in slots
  }

  lemma {:induction false} QuietAccesses(s: State, steps: seq<Label>, t: Thread, accesses: seq<Access>, slots: set<Slot>)
    requires Performs(s, steps, t, accesses) && Quiet(s, steps, t, slots) && Within(accesses, slots)
    ensures Fit(View(s, slots), accesses, View(Played(s, steps), slots))
    decreases |steps|
  {
    hide Step;
    if steps != [] {
      var s' := Step(s, steps[0]);
      if steps[0] != Advance(t) || (SameSlots(s, s') && Performs(s', steps[1..], t, accesses)) {
        assert View(s', slots) == View(s, slots);
        QuietAccesses(s', steps[1..], t, accesses, slots);
      } else {
        var a := accesses[0];
        assert View(s', slots) == if a.Saw? then View(s, slots) else View(s, slots)[a.slot := a.now];
        QuietAccesses(s', steps[1..], t, accesses[1..], slots);
      }
    }
  }

  /** What an operation that nobody disturbs makes of the slots. */
  function Outcome(m: map<Slot, Pointer>, l: Label): map<Slot, Pointer>
    requires Operation(l) && Touched(l) <= m.Keys
  {
    match l
    case Adopt(_, o, to) => m[to := Some(o)]
    case Clear(_, x) => m[x := None]
    case Copy(_, from, to) => m[to := m[from]]
    case Move(_, from, to) => m[from := None][to := m[from]]
    case Swap(_, x, y) => m[x := m[y]][y := m[x]]
    case AssignIfNull(_, from, to) => if m[to] == None then m[from := None][to := m[from]] else m[from := None]
  }

  function Touched(l: Label): set<Slot>
    requires Operation(l)
  {
    match l
    case Adopt(_, _, to) => {to}
    case Clear(_, x) => {x}
    case Copy(_, from, to) => {from, to}
    case Move(_, from, to) => {from, to}
    case Swap(_, x, y) => {x, y}
    case AssignIfNull(_, from, to) => {from, to}
  }

  lemma FittingOutcome(m: map<Slot, Pointer>, l: Label, a: seq<Access>, m': map<Slot, Pointer>)
    requires Operation(l) && Made(l, a) && Fit(m, a, m') && Touched(l) <= m.Keys
    requires !l.Adopt? && !l.Clear? ==> |Touched(l)| == 2
    ensures m' == Outcome(m, l)
  {
    var rest := a[1..];
    var m1 := if a[0].Saw? then m else m[a[0].slot := a[0].now];
    assert Fit(m1, rest, m');
    if |a| > 1 {
      assert rest[0] == a[1];
      var m2 := if a[1].Saw? then m1 else m1[a[1].slot := a[1].now];
      assert Fit(m2, rest[1..], m');
      if |a| > 2 {
        assert rest[1..][0] == a[2];
        assert Fit(m2[a[2].slot := a[2].now], rest[1..][1..], m');
      }
    }
  }

  /** In every run, if no other thread changes some slots, the operation's among them, while the operation runs, then at its
      end these slots hold what the operation is to make of them. */
  lemma UndisturbedOperation(run: seq<Label>, l: Label, steps: seq<Label>, slots: set<Slot>)
    requires Legal(run) && Operation(l) && Enabled(StateAfter(run), l) && Completes(Step(StateAfter(run), l), steps, l.thread)
    requires Touched(l) <= slots && Quiet(Step(StateAfter(run), l), steps, l.thread, slots)
    ensures View(Played(Step(StateAfter(run), l), steps), slots) == Outcome(View(StateAfter(run), slots), l)
  {
    hide Performs, Completes, Legal, StateAfter, Quiet, Played, Step;
    var s0 := StateAfter(run);
    var s := Step(s0, l);
    var a := OperationAccesses(run, l, steps);
    assert View(s, slots) == View(s0, slots);
    QuietAccesses(s, steps, l.thread, a, slots);
    FittingOutcome(View(s0, slots), l, a, View(Played(s, steps), slots));
  }

  // ---------- leaks ----------

  predicate Plain(l: Label) {
    !l.AssignIfNull? && !l.Swap?
  }

  predicate PlainPc(pc: Pc) {
    !pc.Offering?
    && (pc.Loading? ==> pc.after.Unref? || pc.after.MoveInto?)
    && (pc.Exchanging? ==> pc.after.Unref? || pc.after.MoveInto?)
  }

  /** Without `assign_if_null` and `swap` no reference is ever given up silently. */
  lemma {:induction false} PlainRunsDoNotLeak(run: seq<Label>)
    requires Legal(run) && forall i :: 0 <= i < |run| ==> Plain(run[i])
    ensures StateAfter(run).leaked == multiset{}
    ensures forall t :: PlainPc(PcOf(StateAfter(run), t))
  {
    if run != [] {
      var before, l := run[..|run| - 1], run[|run| - 1];
      PlainRunsDoNotLeak(before);
      PlainStep(StateAfter(before), l);
    }
  }

  lemma PlainStep(s: State, l: Label)
    requires Enabled(s, l) && Plain(l) && s.leaked == multiset{} && forall t :: PlainPc(PcOf(s, t))
    ensures Step(s, l).leaked == multiset{}
    ensures forall t :: PlainPc(PcOf(Step(s, l), t))
  {
    OthersStay(s, l);
    if !l.NewSlot? {
      assert PlainPc(PcOf(s, l.thread));
      assert PlainPc(PcOf(Step(s, l), l.thread));
    }
  }

  /** When every thread has finished, the objects some slot names are alive and all
      others have been destroyed exactly once, unless a reference was leaked. */
  lemma AtRest(run: seq<Label>, o: Object)
    requires Legal(run) && o in StateAfter(run).counts
    requires forall t :: PcOf(StateAfter(run), t).Idle?
    ensures var s := StateAfter(run);
            s.dead[o] == (if (exists x :: At(s, x) == Some(o)) || s.leaked[o] > 0 then 0 else 1)
  {
    hide Legal, StateAfter;
    var s := StateAfter(run);
    EveryRun(run);
    forall t ensures t !in Holders(OwnedMap(s.threads), o) {
      assert PcOf(s, t).Idle?;
    }
    assert Holders(OwnedMap(s.threads), o) == {};
    if x :| At(s, x) == Some(o) {
      NamedIsReference(s, x, o);
      assert CountOf(s, o) == References(s, o);
    } else {
      forall x ensures x !in Holders(s.slots, o) {
        assert At(s, x) != Some(o);
      }
      assert Holders(s.slots, o) == {};
      assert CountOf(s, o) == References(s, o) == s.leaked[o];
      if s.leaked[o] == 0 {
        assert AtZero(s, o);
      }
    }
  }

  /** What an object's count has over the slots that name it and the references in flight. */
  ghost function Surplus(s: State, o: Object): int {
    CountOf(s, o) - Refs(s.slots, o) - Refs(OwnedMap(s.threads), o)
  }

  /** The reference a step gives up: `assign_if_null` finds its target taken, or the last
      exchange of `swap` finds something in the slot it had emptied. */
  ghost function GivenUp(s: State, l: Label): Pointer {
    if !l.Advance? then None
    else
      match PcOf(s, l.thread)
      case Offering(x, bits) => if At(s, x).Some? then bits else None
      case Exchanging(x, _, expected, Forget) => if x !in s.locked && At(s, x) == expected then expected else None
      case _ => None
  }

  lemma LedgerGrows(s: State, l: Label)
    ensures Step(s, l).leaked == Leak(s.leaked, GivenUp(s, l))
  {
    hide Continue;
    if l.Advance? {
      match PcOf(s, l.thread)
      case Exchanging(x, bits, expected, after) =>
        assert !after.Forget? ==> Progress(s, l.thread).leaked == s.leaked;
      case _ =>
    }
  }

  /** A step makes some count exceed its references exactly when it gives one up, and then
      by one, for that object alone. */
  lemma LeaksExactlyWhen(s: State, l: Label)
    requires Invariant(s) && Enabled(s, l)
    ensures forall o :: Surplus(Step(s, l), o) == Surplus(s, o) + One(GivenUp(s, l), o)
    ensures (exists o :: Surplus(Step(s, l), o) != Surplus(s, o)) <==> GivenUp(s, l).Some?
  {
    hide Step, Invariant;
    var s', p := Step(s, l), GivenUp(s, l);
    CountedNow(s, l);
    LedgerGrows(s, l);
    hide GivenUp;
    forall o
      ensures Surplus(s', o) == Surplus(s, o) + One(p, o)
    {
      assert CountOf(s, o) == References(s, o) && CountOf(s', o) == References(s', o);
    }
    if p.Some? {
      assert Surplus(s', p.value) != Surplus(s, p.value);
    }
  }

  lemma CountedNow(s: State, l: Label)
    requires Invariant(s) && Enabled(s, l)
    ensures Counted(s) && Counted(Step(s, l))
  {
    StepKeepsCounted(s, l);
  }

  // ---------- swap ----------

  /** Between the first and the last exchange of a swap that emptied slot `back`. */
  predicate Swapping(pc: Pc, back: Slot) {
    match pc
    case Loading(x, _, SwapBack(b)) => b == back && x != back
    case Exchanging(x, _, _, SwapBack(b)) => b == back && x != back
    case Loading(x, _, Forget) => x == back
    case Exchanging(x, _, _, Forget) => x == back
    case _ => false
  }

  /** A swap works on two different slots. */
  ghost predicate SwapsApart(s: State) {
    forall t :: Apart(PcOf(s, t))
  }

  predicate Apart(pc: Pc) {
    match pc
    case Loading(x, _, SwapInto(here, back)) => x == back != here
    case Exchanging(x, _, _, SwapInto(here, back)) => x == back != here
    case Loading(x, _, SwapBack(back)) => x != back
    case Exchanging(x, _, _, SwapBack(back)) => x != back
    case _ => true
  }

  lemma StaysApart(s: State, l: Label)
    requires SwapsApart(s) && Enabled(s, l)
    ensures SwapsApart(Step(s, l))
  {
    OthersStay(s, l);
    if !l.NewSlot? {
      assert Apart(PcOf(s, l.thread));
      assert Apart(PcOf(Step(s, l), l.thread));
    }
  }

  lemma {:induction false} AlwaysApart(run: seq<Label>)
    requires Legal(run)
    ensures SwapsApart(StateAfter(run))
  {
    hide SwapsApart;
    if run == [] {
      NothingApart();
    } else {
      var before := run[..|run| - 1];
      AlwaysApart(before);
      StaysApart(StateAfter(before), run[|run| - 1]);
    }
  }

  lemma NothingApart()
    ensures SwapsApart(Nothing)
  {
  }

  /** Steps that leave thread t busy, and in which no other thread changes slot x. */
  ghost predicate Undisturbed(s: State, steps: seq<Label>, t: Thread, x: Slot)
    decreases |steps|
  {
    steps == [] ||
    (Enabled(s, steps[0])
     && (steps[0] != Advance(t) ==> At(Step(s, steps[0]), x) == At(s, x))
     && !PcOf(Step(s, steps[0]), t).Idle?
     && Undisturbed(Step(s, steps[0]), steps[1..], t, x))
  }

  ghost function Played(s: State, steps: seq<Label>): State
    decreases |steps|
  {
    if steps == [] then s else Played(Step(s, steps[0]), steps[1..])
  }

  /** The slot stays empty, and a thread about to exchange it has seen it empty. */
  ghost predicate StillEmpty(s: State, t: Thread, back: Slot) {
    var pc := PcOf(s, t);
    && Swapping(pc, back) && At(s, back) == None
    && (pc.Exchanging? && pc.after.Forget? ==> pc.expected == None)
  }

  lemma StaysEmpty(s: State, l: Label, t: Thread, back: Slot)
    requires StillEmpty(s, t, back) && Enabled(s, l) && !PcOf(Step(s, l), t).Idle?
    requires l != Advance(t) ==> At(Step(s, l), back) == At(s, back)
    ensures StillEmpty(Step(s, l), t, back)
  {
    OthersStay(s, l);
  }

  lemma {:induction false} EmptyThroughout(s: State, steps: seq<Label>, t: Thread, back: Slot)
    requires Invariant(s) && StillEmpty(s, t, back) && Undisturbed(s, steps, t, back)
    ensures Invariant(Played(s, steps)) && StillEmpty(Played(s, steps), t, back)
    decreases |steps|
  {
    hide Invariant, StillEmpty, Step, Enabled;
    if steps != [] {
      StepKeeps(s, steps[0]);
      StaysEmpty(s, steps[0], t, back);
      EmptyThroughout(Step(s, steps[0]), steps[1..], t, back);
    }
  }

  /** The first exchange of a swap is about to succeed. */
  ghost predicate EmptiesSlot(s: State, t: Thread, back: Slot) {
    var pc := PcOf(s, t);
    && pc.Exchanging? && pc.slot == back && pc.after.SwapInto?
    && back !in s.locked && At(s, back) == pc.expected && pc.bits == None
  }

  /** From the exchange that empties its slot, as long as no other thread changes that
      slot, no step of a swap leaks: not that exchange, and not the next one at any time. */
  lemma UndisturbedSwap(run: seq<Label>, steps: seq<Label>, t: Thread, back: Slot)
    requires Legal(run) && EmptiesSlot(StateAfter(run), t, back)
    requires Undisturbed(Step(StateAfter(run), Advance(t)), steps, t, back)
    ensures var s := StateAfter(run);
            forall o :: Surplus(Step(s, Advance(t)), o) == Surplus(s, o)
    ensures var s := Played(Step(StateAfter(run), Advance(t)), steps);
            forall o :: Surplus(Step(s, Advance(t)), o) == Surplus(s, o)
  {
    hide Legal, StateAfter, Invariant, SwapsApart, Undisturbed, Played, Surplus, Progress, Owned, OwnedMap;
    var s := StateAfter(run);
    EveryRun(run);
    AlwaysApart(run);
    Emptied(s, t, back);
    LeaksExactlyWhen(s, Advance(t));
    var s1 := Step(s, Advance(t));
    StepKeeps(s, Advance(t));
    EmptyThroughout(s1, steps, t, back);
    NothingGivenUp(Played(s1, steps), t, back);
    LeaksExactlyWhen(Played(s1, steps), Advance(t));
  }

  lemma Emptied(s: State, t: Thread, back: Slot)
    requires SwapsApart(s) && EmptiesSlot(s, t, back)
    ensures Enabled(s, Advance(t)) && GivenUp(s, Advance(t)) == None
    ensures StillEmpty(Step(s, Advance(t)), t, back)
  {
    assert Apart(PcOf(s, t));
  }

  lemma NothingGivenUp(s: State, t: Thread, back: Slot)
    requires StillEmpty(s, t, back)
    ensures Enabled(s, Advance(t)) && GivenUp(s, Advance(t)) == None
  {
  }

  // ---------- runs that leak ----------

  lemma Extend(run: seq<Label>, l: Label)
    requires Legal(run) && Enabled(StateAfter(run), l)
    ensures Legal(run + [l]) && StateAfter(run + [l]) == Step(StateAfter(run), l)
  {
    assert (run + [l])[..|run|] == run;
  }

  /** At the end of the run all threads are idle, and the object has a count that no slot accounts for. */
  ghost predicate Leaked(run: seq<Label>, o: Object) {
    Legal(run)
    && var s := StateAfter(run);
       && CountOf(s, o) == 1 == Surplus(s, o)
       && (forall t :: PcOf(s, t).Idle?) && (forall x :: At(s, x) != Some(o))
  }

  lemma LedgerIsSurplus(run: seq<Label>, o: Object)
    requires Legal(run)
    ensures Surplus(StateAfter(run), o) == StateAfter(run).leaked[o]
  {
    hide Legal, StateAfter;
    EveryRun(run);
    assert CountOf(StateAfter(run), o) == References(StateAfter(run), o);
  }

  /** `assign_if_null` into a taken slot. */
  lemma AssignIfNullLeaks()
    ensures exists run :: Leaked(run, 1)
  {
    hide Legal, StateAfter, Surplus;
    var run := TwoTaken();
    run := LoseOffer(run);
    LedgerIsSurplus(run, 1);
    assert Leaked(run, 1);
  }

  /** `swap`, when another thread puts something into the slot it has emptied. */
  lemma SwapLeaks()
    ensures exists run :: Leaked(run, 2)
  {
    hide Legal, StateAfter, Surplus;
    var run := TwoTaken();
    run := StartSwap(run);
    run := AdoptInto(run, 1, 2, 1);
    run := FinishSwap(run);
    LedgerIsSurplus(run, 2);
    assert Leaked(run, 2);
  }

  lemma TwoSlots() returns (run: seq<Label>)
    ensures Legal(run) && StateAfter(run) == Nothing.(slots := map[0 := None, 1 := None])
  {
    Extend([], NewSlot(0));
    run := [] + [NewSlot(0)];
    Extend(run, NewSlot(1));
    run := run + [NewSlot(1)];
  }

  ghost predicate BothTaken(s: State) {
    s.slots == map[0 := Some(0), 1 := Some(1)] && s.locked == {}
  }

  lemma TwoTaken() returns (run: seq<Label>)
    ensures Legal(run) && BothTaken(StateAfter(run))
    ensures var s := StateAfter(run);
            s.counts == map[0 := 1, 1 := 1] && s.leaked == multiset{} && s.threads == map[0 := Idle]
  {
    hide Legal, StateAfter;
    run := TwoSlots();
    run := AdoptInto(run, 0, 0, 0);
    run := AdoptInto(run, 0, 1, 1);
  }

  lemma MakeOffer(run: seq<Label>) returns (run': seq<Label>)
    requires Legal(run) && PcOf(StateAfter(run), 0).Idle? && BothTaken(StateAfter(run))
    ensures Legal(run')
    ensures var s := StateAfter(run);
            StateAfter(run') == s.(slots := map[0 := Some(0), 1 := None], threads := s.threads[0 := Offering(0, Some(1))])
  {
    hide Legal, StateAfter;
    Extend(run, AssignIfNull(0, 1, 0));
    run' := run + [AssignIfNull(0, 1, 0)];
    Extend(run', Advance(0));
    run' := run' + [Advance(0)];
    Extend(run', Advance(0));
    run' := run' + [Advance(0)];
  }

  lemma LoseOffer(run: seq<Label>) returns (run': seq<Label>)
    requires Legal(run) && PcOf(StateAfter(run), 0).Idle? && BothTaken(StateAfter(run))
    ensures Legal(run')
    ensures var s := StateAfter(run);
            StateAfter(run') == s.(slots := map[0 := Some(0), 1 := None], threads := s.threads[0 := Idle], leaked := s.leaked + multiset{1})
  {
    hide Legal, StateAfter;
    run' := MakeOffer(run);
    Extend(run', Advance(0));
    run' := run' + [Advance(0)];
  }

  lemma StartSwap(run: seq<Label>) returns (run': seq<Label>)
    requires Legal(run) && PcOf(StateAfter(run), 0).Idle? && BothTaken(StateAfter(run))
    ensures Legal(run')
    ensures var s := StateAfter(run);
            StateAfter(run') == s.(slots := map[0 := Some(0), 1 := None], threads := s.threads[0 := Loading(0, Some(1), SwapBack(1))])
  {
    hide Legal, StateAfter;
    Extend(run, Swap(0, 0, 1));
    run' := run + [Swap(0, 0, 1)];
    Extend(run', Advance(0));
    run' := run' + [Advance(0)];
    Extend(run', Advance(0));
    run' := run' + [Advance(0)];
  }

  lemma FinishSwap(run: seq<Label>) returns (run': seq<Label>)
    requires Legal(run) && PcOf(StateAfter(run), 0) == Loading(0, Some(1), SwapBack(1))
    requires StateAfter(run).slots == map[0 := Some(0), 1 := Some(2)] && StateAfter(run).locked == {}
    ensures Legal(run')
    ensures var s := StateAfter(run);
            StateAfter(run') == s.(slots := map[0 := Some(1), 1 := Some(0)], threads := s.threads[0 := Idle], leaked := s.leaked + multiset{2})
  {
    hide Legal, StateAfter;
    run' := SecondExchange(run);
    Extend(run', Advance(0));
    run' := run' + [Advance(0)];
    Extend(run', Advance(0));
    run' := run' + [Advance(0)];
  }

  lemma SecondExchange(run: seq<Label>) returns (run': seq<Label>)
    requires Legal(run) && PcOf(StateAfter(run), 0) == Loading(0, Some(1), SwapBack(1))
    requires StateAfter(run).slots == map[0 := Some(0), 1 := Some(2)] && StateAfter(run).locked == {}
    ensures Legal(run')
    ensures var s := StateAfter(run);
            StateAfter(run') == s.(slots := map[0 := Some(1), 1 := Some(2)], threads := s.threads[0 := Loading(1, Some(0), Forget)])
  {
    hide Legal, StateAfter;
    Extend(run, Advance(0));
    run' := run + [Advance(0)];
    Extend(run', Advance(0));
    run' := run' + [Advance(0)];
  }

  lemma AdoptInto(run: seq<Label>, t: Thread, o: Object, x: Slot) returns (run': seq<Label>)
    requires Legal(run)
    requires var s := StateAfter(run); PcOf(s, t).Idle? && o !in s.counts && x in s.slots && s.slots[x] == None && x !in s.locked
    ensures Legal(run')
    ensures var s := StateAfter(run);
            StateAfter(run') == s.(counts := s.counts[o := 1], slots := s.slots[x := Some(o)], threads := s.threads[t := Idle])
  {
    hide Legal, StateAfter;
    Extend(run, Adopt(t, o, x));
    Extend(run + [Adopt(t, o, x)], Advance(t));
    Extend(run + [Adopt(t, o, x)] + [Advance(t)], Advance(t));
    run' := run + [Adopt(t, o, x)] + [Advance(t)] + [Advance(t)];
  }
}
