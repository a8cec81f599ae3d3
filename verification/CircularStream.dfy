/**
  The ring buffer of AK/CircularQueue.h and the stream with seek-back reads that
  AK/CircularDuplexStream.h builds on it. The stream reads the ring's storage
  behind the queue's back; what makes that sound is that byte t of everything
  ever written sits at slot t mod Capacity until byte t + Capacity replaces it.
*/
module CircularStream {
  import opened Basics

  newtype Byte = x: int | 0 <= x < 256

  // ---------- slots ----------

  function Slot(a: nat, n: nat): (r: nat)
    requires n != 0
    ensures r < n
  {
    a % n
  }

  lemma SlotIs(a: nat, n: nat, q: nat, r: nat)
    requires n != 0 && a == n * q + r && r < n
    ensures Slot(a, n) == r
  {
    QuotientIs(a, n, q, r);
  }

  /** The slots of n positions in a row are all different. */
  lemma SlotsDiffer(t: nat, u: nat, n: nat)
    requires n != 0 && t < u < t + n
    ensures Slot(t, n) != Slot(u, n)
  {
    assert u - t == n * (u / n - t / n) + (u % n - t % n);
    if Slot(t, n) == Slot(u, n) {
      SmallMultiple(n, u / n - t / n);
    }
  }

  lemma Distribute(n: nat, p: nat, q: nat)
    ensures n * p + n * q == n * (p + q)
  {
  }

  lemma SlotAdd(a: nat, b: nat, n: nat)
    requires n != 0
    ensures Slot(Slot(a, n) + b, n) == Slot(a + b, n)
  {
    var s := Slot(a, n) + b;
    assert a == n * (a / n) + Slot(a, n);
    assert s == n * (s / n) + Slot(s, n);
    Distribute(n, a / n, s / n);
    SlotIs(a + b, n, a / n + s / n, Slot(s, n));
  }

  // ---------- the queue ----------

  /** `size` values of a ring, from slot `head` on. */
  ghost function Window<T>(ring: seq<T>, head: nat, size: nat): seq<T>
    requires ring != []
  {
    seq(size, i requires 0 <= i < size => ring[Slot(head + i, |ring|)])
  }

  lemma WindowPut<T>(ring: seq<T>, head: nat, size: nat, value: T)
    requires ring != [] && size < |ring|
    ensures Window(ring[Slot(head + size, |ring|) := value], head, size + 1) == Window(ring, head, size) + [value]
  {
    hide Slot;
    var w := Window(ring[Slot(head + size, |ring|) := value], head, size + 1);
    forall i: nat | i < size
      ensures w[i] == Window(ring, head, size)[i]
    {
      SlotsDiffer(head + i, head + size, |ring|);
    }
  }

  lemma WindowTake<T>(ring: seq<T>, head: nat, size: nat)
    requires ring != [] && head < |ring| && size != 0
    ensures [ring[head]] + Window(ring, Slot(head + 1, |ring|), size - 1) == Window(ring, head, size)
  {
    hide Slot;
    SlotIs(head, |ring|, 0, head);
    var w := Window(ring, Slot(head + 1, |ring|), size - 1);
    forall i: nat | i < size - 1
      ensures w[i] == Window(ring, head, size)[i + 1]
    {
      SlotAdd(head + 1, i, |ring|);
    }
  }

  lemma SlotAround(head: nat, n: nat)
    requires head < n
    ensures Slot(head + n, n) == head
  {
    SlotIs(head + n, n, 1, head);
  }

  /** Putting into a full ring replaces the oldest value. */
  lemma WindowReplace<T>(ring: seq<T>, head: nat, value: T)
    requires ring != [] && head < |ring|
    ensures Window(ring[head := value], Slot(head + 1, |ring|), |ring|) == Window(ring, head, |ring|)[1..] + [value]
  {
    hide Slot;
    var n := |ring|;
    SlotAround(head, n);
    SlotAdd(head + 1, n - 1, n);
    WindowTake(ring, head, n);
    WindowPut(ring, Slot(head + 1, n), n - 1, value);
  }

  class CircularQueue<T(0)> {
    const storage: array<T>
    var size: nat
    var head: nat

    ghost predicate Valid()
      reads this
    {
      head < storage.Length && size <= storage.Length
    }

    /** The queued values, oldest first. */
    ghost function Contents(): seq<T>
      requires Valid()
      reads this, storage
    {
      Window(storage[..], head, size)
    }

    constructor (capacity: nat)
      requires capacity != 0
      ensures Valid() && Contents() == [] && storage.Length == capacity && head == size == 0 && fresh(storage)
    {
      storage := new T[capacity];
      size, head := 0, 0;
    }

    method Enqueue(value: T)
      requires Valid()
      modifies this, storage
      ensures Valid()
      ensures storage[..] == old(storage[..])[Slot(old(head) + old(size), storage.Length) := value]
      ensures if old(size) == storage.Length
              then size == old(size) && head == Slot(old(head) + 1, storage.Length)
              else size == old(size) + 1 && head == old(head)
      ensures Contents() == (if old(size) == storage.Length then old(Contents())[1..] else old(Contents())) + [value]
    {
      hide Slot, Window;
      var slot := Slot(head + size, storage.Length);
      ghost var ring := storage[..];
      storage[slot] := value;
      assert storage[..] == ring[slot := value];
      if size == storage.Length {
        SlotAround(head, size);
        WindowReplace(ring, head, value);
        head := Slot(head + 1, storage.Length);
      } else {
        WindowPut(ring, head, size, value);
        size := size + 1;
      }
    }

    method Dequeue() returns (value: T)
      requires Valid() && size != 0
      modifies this
      ensures Valid() && size == old(size) - 1 && head == Slot(old(head) + 1, storage.Length)
      ensures [value] + Contents() == old(Contents())
    {
      hide Slot, Window;
      value := storage[head];
      WindowTake(storage[..], head, size);
      head := Slot(head + 1, storage.Length);
      size := size - 1;
    }

    method At(index: nat) returns (value: T)
      requires Valid() && index < size
      ensures value == Contents()[index]
    {
      value := storage[Slot(head + index, storage.Length)];
    }
  }

  // ---------- the stream ----------

  /** The ring holds the last |ring| bytes of the history, byte t at slot t. */
  ghost predicate Recent(ring: seq<Byte>, history: seq<Byte>)
    requires ring != []
  {
    forall t: nat :: |history| - |ring| <= t < |history| ==> ring[Slot(t, |ring|)] == history[t]
  }

  lemma RecentGrows(ring: seq<Byte>, history: seq<Byte>, byte: Byte)
    requires ring != [] && Recent(ring, history)
    ensures Recent(ring[Slot(|history|, |ring|) := byte], history + [byte])
  {
    hide Slot;
    var n, longer := |ring|, history + [byte];
    var ring' := ring[Slot(|history|, n) := byte];
    forall t: nat | |longer| - n <= t < |longer|
      ensures ring'[Slot(t, n)] == longer[t]
    {
      if t < |history| {
        SlotsDiffer(t, |history|, n);
      }
    }
  }

  /** What the queue holds is the end of the history. */
  lemma UnreadIsQueued(ring: seq<Byte>, history: seq<Byte>, size: nat)
    requires ring != [] && Recent(ring, history) && size <= |ring| && size <= |history|
    ensures Window(ring, Slot(|history| - size, |ring|), size) == history[|history| - size..]
  {
    hide Slot;
    var n, start := |ring|, |history| - size;
    forall i: nat | i < size
      ensures Window(ring, Slot(start, n), size)[i] == history[start + i]
    {
      var t := start + i;
      SlotAdd(start, i, n);
      assert ring[Slot(t, n)] == history[t];
    }
  }

  /** Positions that follow one another without going round keep their distance in the ring. */
  lemma SlotForward(a: nat, i: nat, n: nat)
    requires n != 0 && Slot(a, n) + i < n
    ensures Slot(a + i, n) == Slot(a, n) + i
  {
    hide Slot;
    SlotAdd(a, i, n);
    SlotIs(Slot(a, n) + i, n, 0, Slot(a, n) + i);
  }

  /** Counting bytes as written without touching the ring adds what the slots held. */
  lemma {:induction false} RecentReserve(ring: seq<Byte>, history: seq<Byte>, count: nat)
    requires ring != [] && Recent(ring, history)
    requires Slot(|history|, |ring|) + count <= |ring|
    ensures Recent(ring, history + ring[Slot(|history|, |ring|)..Slot(|history|, |ring|) + count])
  {
    hide Slot, Recent;
    var at := Slot(|history|, |ring|);
    if count == 0 {
      assert history + ring[at..at] == history;
    } else {
      var before := history + ring[at..at + count - 1];
      RecentReserve(ring, history, count - 1);
      SlotForward(|history|, count - 1, |ring|);
      RecentGrows(ring, before, ring[at + count - 1]);
      assert ring[at + count - 1 := ring[at + count - 1]] == ring;
      assert before + [ring[at + count - 1]] == history + ring[at..at + count];
    }
  }

  function Filled(ring: seq<Byte>, at: nat, bytes: seq<Byte>): (r: seq<Byte>)
    requires at + |bytes| <= |ring|
    ensures |r| == |ring|
  {
    ring[..at] + bytes + ring[at + |bytes|..]
  }

  lemma SuffixReplaced(s: seq<Byte>, size: nat, bytes: seq<Byte>)
    requires |bytes| <= size <= |s|
    ensures (s[..|s| - |bytes|] + bytes)[|s| - size..] == s[|s| - size..][..size - |bytes|] + bytes
  {
  }

  lemma FilledNone(ring: seq<Byte>, at: nat, bytes: seq<Byte>)
    requires at <= |ring|
    ensures Filled(ring, at, bytes[..0]) == ring
  {
  }

  lemma FilledMore(ring: seq<Byte>, at: nat, bytes: seq<Byte>, i: nat)
    requires at + |bytes| <= |ring| && i < |bytes|
    ensures Filled(ring, at, bytes[..i + 1]) == Filled(ring, at, bytes[..i])[at + i := bytes[i]]
  {
  }

  lemma RecentFill(ring: seq<Byte>, history: seq<Byte>, bytes: seq<Byte>)
    requires ring != [] && Recent(ring, history) && |bytes| <= |history|
    requires Slot(|history| - |bytes|, |ring|) + |bytes| <= |ring|
    ensures Recent(Filled(ring, Slot(|history| - |bytes|, |ring|), bytes), history[..|history| - |bytes|] + bytes)
  {
    hide Slot;
    var n, k, start := |ring|, |bytes|, |history| - |bytes|;
    var at := Slot(start, n);
    var ring', history' := Filled(ring, at, bytes), history[..start] + bytes;
    forall t: nat | |history'| - n <= t < |history'|
      ensures ring'[Slot(t, n)] == history'[t]
    {
      if t >= start {
        SlotForward(start, t - start, n);
      } else {
        assert ring[Slot(t, n)] == history[t];
        if at <= Slot(t, n) < at + k {
          var u := start + (Slot(t, n) - at);
          SlotForward(start, u - start, n);
          SlotsDiffer(t, u, n);
        }
      }
    }
  }

  class CircularDuplexStream {
    const queue: CircularQueue<Byte>
    var totalWritten: nat
    var error: bool

    /** Every byte ever written. */
    ghost var history: seq<Byte>

    ghost predicate Valid()
      reads this, queue, queue.storage
    {
      && queue.Valid()
      && totalWritten == |history| && queue.size <= totalWritten
      && queue.head == Slot(totalWritten - queue.size, queue.storage.Length)
      && Recent(queue.storage[..], history)
    }

    /** The bytes written and not yet read or discarded. */
    ghost function Unread(): seq<Byte>
      requires Valid()
      reads this, queue, queue.storage
    {
      history[|history| - queue.size..]
    }

    constructor (capacity: nat)
      requires capacity != 0
      ensures Valid() && history == [] && !error && queue.storage.Length == capacity && fresh(queue) && fresh(queue.storage)
    {
      queue := new CircularQueue<Byte>(capacity);
      totalWritten, error, history := 0, false, [];
      new;
      SlotIs(0, capacity, 0, 0);
    }

    lemma QueueIsUnread()
      requires Valid()
      ensures queue.Contents() == Unread()
    {
      hide Slot, Window, Recent;
      UnreadIsQueued(queue.storage[..], history, queue.size);
    }

    /** One turn of the loop in write, which counts the bytes only when it is done. */
    method WriteByte(byte: Byte)
      requires Valid() && queue.size < queue.storage.Length
      modifies this, queue, queue.storage
      ensures Valid() && history == old(history) + [byte] && queue.size == old(queue.size) + 1 && error == old(error)
    {
      hide Slot, Window, Recent;
      SlotAdd(totalWritten - queue.size, queue.size, queue.storage.Length);
      RecentGrows(queue.storage[..], history, byte);
      queue.Enqueue(byte);
      totalWritten := totalWritten + 1;
      history := history + [byte];
    }

    method Write(bytes: seq<Byte>) returns (written: nat)
      requires Valid()
      modifies this, queue, queue.storage
      ensures Valid() && error == old(error)
      ensures written == if |bytes| < queue.storage.Length - old(queue.size) then |bytes|
                         else queue.storage.Length - old(queue.size)
      ensures history == old(history) + bytes[..written]
      ensures Unread() == old(Unread()) + bytes[..written]
    {
      hide Slot, Window, Recent;
      var room := queue.storage.Length - queue.size;
      written := if |bytes| < room then |bytes| else room;
      for i := 0 to written
        invariant Valid() && error == old(error) && queue.size == old(queue.size) + i
        invariant history == old(history) + bytes[..i]
      {
        WriteByte(bytes[i]);
      }
    }

    method WriteOrError(bytes: seq<Byte>) returns (ok: bool)
      requires Valid()
      modifies this, queue, queue.storage
      ensures Valid() && (ok <==> |bytes| <= queue.storage.Length - old(queue.size))
      ensures ok ==> Unread() == old(Unread()) + bytes && error == old(error)
      ensures !ok ==> history == old(history) && Unread() == old(Unread()) && error
    {
      hide Slot, Window, Recent;
      if queue.storage.Length - queue.size < |bytes| {
        error := true;
        return false;
      }
      var written := Write(bytes);
      assert written == |bytes| && bytes[..written] == bytes;
      return true;
    }

    /** One dequeued byte: the first unread one. */
    method TakeByte() returns (byte: Byte)
      requires Valid() && queue.size != 0
      modifies queue
      ensures Valid() && [byte] + Unread() == old(Unread()) && queue.size == old(queue.size) - 1
    {
      hide Slot, Window, Recent;
      QueueIsUnread();
      SlotAdd(totalWritten - queue.size, 1, queue.storage.Length);
      byte := queue.Dequeue();
      QueueIsUnread();
    }

    method Read(count: nat) returns (bytes: seq<Byte>)
      requires Valid()
      modifies queue
      ensures Valid()
      ensures |bytes| == if error then 0 else if count < old(queue.size) then count else old(queue.size)
      ensures bytes + Unread() == old(Unread())
    {
      hide Slot, Window, Recent;
      bytes := [];
      if error {
        return;
      }
      var nread := if count < queue.size then count else queue.size;
      while |bytes| < nread
        invariant Valid() && |bytes| <= nread && queue.size == old(queue.size) - |bytes|
        invariant bytes + Unread() == old(Unread())
      {
        ghost var unread := Unread();
        var byte := TakeByte();
        assert bytes + [byte] + Unread() == bytes + unread;
        bytes := bytes + [byte];
      }
    }

    /** The seek-back read: bytes of the history, whether or not they have been dequeued. */
    method ReadBack(count: nat, seekback: nat) returns (bytes: seq<Byte>)
      requires Valid()
      modifies this`error
      ensures Valid()
      ensures seekback <= queue.storage.Length && seekback <= |history| ==>
                && error == old(error)
                && bytes == history[|history| - seekback..][..if count < seekback then count else seekback]
      ensures seekback > queue.storage.Length || seekback > |history| ==> bytes == [] && error
    {
      hide Slot, Window;
      bytes := [];
      if seekback > queue.storage.Length || seekback > totalWritten {
        error := true;
        return;
      }
      var nread := if count < seekback then count else seekback;
      for i := 0 to nread
        invariant bytes == history[|history| - seekback..][..i] && error == old(error) && Valid()
      {
        var t: nat := totalWritten - seekback + i;
        assert queue.storage[..][Slot(t, queue.storage.Length)] == history[t];
        bytes := bytes + [queue.storage[Slot(t, queue.storage.Length)]];
      }
    }

    method ReadOrError(count: nat) returns (ok: bool, bytes: seq<Byte>)
      requires Valid()
      modifies this`error, queue
      ensures Valid() && (ok <==> count <= old(queue.size))
      ensures bytes + Unread() == old(Unread())
      ensures |bytes| == if ok && !old(error) then count else 0
      ensures error == (old(error) || !ok)
    {
      hide Slot, Window, Recent;
      bytes := [];
      if queue.size < count {
        error := true;
        return false, [];
      }
      bytes := Read(count);
      ok := true;
    }

    method DiscardOrError(count: nat) returns (ok: bool)
      requires Valid()
      modifies this`error, queue
      ensures Valid() && (ok <==> count <= |old(Unread())|)
      ensures Unread() == if ok then old(Unread())[count..] else old(Unread())
      ensures error == (old(error) || !ok)
    {
      hide Slot, Window, Recent;
      if queue.size < count {
        error := true;
        return false;
      }
      for i := 0 to count
        invariant Valid() && queue.size == old(queue.size) - i && error == old(error)
        invariant Unread() == old(Unread())[i..]
      {
        var byte := TakeByte();
      }
      return true;
    }

    method RemainingContiguousSpace() returns (space: nat)
      requires Valid()
      ensures space <= queue.storage.Length - queue.size
      ensures Slot(totalWritten, queue.storage.Length) + space <= queue.storage.Length
      ensures space == queue.storage.Length - queue.size
           || Slot(totalWritten, queue.storage.Length) + space == queue.storage.Length
    {
      hide Slot, Window, Recent;
      SlotAdd(totalWritten - queue.size, queue.size, queue.storage.Length);
      var room := queue.storage.Length - queue.size;
      var ahead := queue.storage.Length - Slot(queue.head + queue.size, queue.storage.Length);
      space := if room < ahead then room else ahead;
    }

    /** The reserved bytes count as written at once, with whatever the slots hold until they are filled. */
    method ReserveContiguousSpace(count: nat) returns (at: nat)
      requires Valid() && count <= queue.storage.Length - queue.size
      requires Slot(totalWritten, queue.storage.Length) + count <= queue.storage.Length
      modifies this, queue
      ensures Valid() && at == Slot(old(totalWritten), queue.storage.Length) && error == old(error)
      ensures history == old(history) + queue.storage[at..at + count]
      ensures Unread() == old(Unread()) + queue.storage[at..at + count]
    {
      hide Slot, Window, Recent;
      SlotAdd(totalWritten - queue.size, queue.size, queue.storage.Length);
      RecentReserve(queue.storage[..], history, count);
      at := Slot(queue.head + queue.size, queue.storage.Length);
      assert queue.storage[..][at..at + count] == queue.storage[at..at + count];
      queue.size := queue.size + count;
      totalWritten := totalWritten + count;
      history := history + queue.storage[at..at + count];
    }

    /** The caller's writes through the span it reserved last. */
    method FillReserved(at: nat, bytes: seq<Byte>)
      requires Valid() && |bytes| <= queue.size && at + |bytes| <= queue.storage.Length
      requires at == Slot(totalWritten - |bytes|, queue.storage.Length)
      modifies this`history, queue.storage
      ensures Valid() && history == old(history)[..totalWritten - |bytes|] + bytes
      ensures Unread() == old(Unread())[..queue.size - |bytes|] + bytes
    {
      hide Slot, Window, Recent, Filled;
      ghost var ring := queue.storage[..];
      RecentFill(ring, history, bytes);
      FilledNone(ring, at, bytes);
      for i := 0 to |bytes|
        invariant queue.storage[..] == Filled(ring, at, bytes[..i])
        modifies queue.storage
      {
        FilledMore(ring, at, bytes, i);
        queue.storage[at + i] := bytes[i];
      }
      assert bytes[..|bytes|] == bytes;
      SuffixReplaced(history, queue.size, bytes);
      history := history[..totalWritten - |bytes|] + bytes;
    }
  }

  /** After a write that did not fit, a read of a byte that is there succeeds and delivers nothing. */
  method SuccessWithoutBytes() returns (first: bool, second: bool, ok: bool, bytes: seq<Byte>)
    ensures first && !second && ok && bytes == []
  {
    hide Slot, Window, Recent;
    var stream := new CircularDuplexStream(2);
    first := stream.WriteOrError([1, 2]);
    second := stream.WriteOrError([3]);
    ok, bytes := stream.ReadOrError(1);
  }
}
