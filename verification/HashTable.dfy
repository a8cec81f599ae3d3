/**
  The open-addressing table of AK/HashTable.h, holding the key/value entries of
  AK/HashMap.h.

  A probe applies the function `next` (`double_hash` in the source) to the key's
  hash again and again, and has no other exit than a matching or a never-used
  bucket. Nothing in the source makes it meet one, so a probe that goes on
  forever is an outcome here, returned exactly when no probe of the infinite
  orbit stops.
*/
module HashTable {
  import opened Basics

  const HASHES: nat := 0x1_0000_0000

  type Hash = h: int | 0 <= h < 0x1_0000_0000

  // ---------- the probe sequence ----------

  function Orbit(next: Hash -> Hash, h: Hash, k: nat): Hash {
    if k == 0 then h else next(Orbit(next, h, k - 1))
  }

  function Place(next: Hash -> Hash, h: Hash, k: nat, capacity: nat): (i: nat)
    requires capacity != 0
    ensures i < capacity
  {
    Orbit(next, h, k) % capacity
  }

  /** At most n different numbers are below n. */
  lemma {:induction false} FewBelow(s: set<nat>, n: nat)
    requires forall x :: x in s ==> x < n
    ensures |s| <= n
  {
    if n == 0 {
      assert s == {};
    } else {
      FewBelow(s - {n - 1}, n - 1);
    }
  }

  ghost function Visited(next: Hash -> Hash, h: Hash, k: nat): set<nat> {
    if k == 0 then {} else Visited(next, h, k - 1) + {Orbit(next, h, k - 1)}
  }

  lemma {:induction false} VisitedAreHashes(next: Hash -> Hash, h: Hash, k: nat)
    ensures forall x :: x in Visited(next, h, k) ==> x < HASHES
  {
    hide Orbit;
    if k != 0 {
      VisitedAreHashes(next, h, k - 1);
    }
  }

  lemma {:induction false} NotVisited(next: Hash -> Hash, h: Hash, j: nat, k: nat)
    requires forall i: nat :: i < k ==> Orbit(next, h, i) != Orbit(next, h, j)
    ensures Orbit(next, h, j) !in Visited(next, h, k)
  {
    hide Orbit;
    if k != 0 {
      NotVisited(next, h, j, k - 1);
    }
  }

  ghost predicate NoRepeat(next: Hash -> Hash, h: Hash, k: nat) {
    forall i: nat, j: nat :: i < j < k ==> Orbit(next, h, i) != Orbit(next, h, j)
  }

  /** No repetition among the first k probes makes k distinct values. */
  lemma {:induction false} AllDistinct(next: Hash -> Hash, h: Hash, k: nat)
    requires NoRepeat(next, h, k)
    ensures |Visited(next, h, k)| == k
  {
    hide Orbit;
    if k != 0 {
      AllDistinct(next, h, k - 1);
      NotVisited(next, h, k - 1, k - 1);
    }
  }

  /** The orbit meets itself within 2^32 steps. */
  lemma FirstRepeat(next: Hash -> Hash, h: Hash) returns (i: nat, j: nat)
    ensures i < j <= HASHES && Orbit(next, h, i) == Orbit(next, h, j)
  {
    hide Orbit, Visited;
    if NoRepeat(next, h, HASHES + 1) {
      AllDistinct(next, h, HASHES + 1);
      VisitedAreHashes(next, h, HASHES + 1);
      FewBelow(Visited(next, h, HASHES + 1), HASHES);
      assert false;
    }
    i, j :| i < j < HASHES + 1 && Orbit(next, h, i) == Orbit(next, h, j);
  }

  lemma {:induction false} OrbitFrom(next: Hash -> Hash, h: Hash, i: nat, j: nat, k: nat)
    requires Orbit(next, h, i) == Orbit(next, h, j)
    ensures Orbit(next, h, i + k) == Orbit(next, h, j + k)
  {
    if k != 0 {
      OrbitFrom(next, h, i, j, k - 1);
    }
  }

  /** Every probe, however late, repeats one of the first 2^32. */
  lemma {:induction false} Recurs(next: Hash -> Hash, h: Hash, k: nat) returns (j: nat)
    ensures j < HASHES && Orbit(next, h, j) == Orbit(next, h, k)
  {
    hide Orbit;
    if k < HASHES {
      j := k;
    } else {
      var a, b := FirstRepeat(next, h);
      OrbitFrom(next, h, a, b, k - b);
      j := Recurs(next, h, k - (b - a));
    }
  }

  // ---------- buckets ----------

  datatype Storage<K, V> = Raw | Entry(key: K, value: V)

  datatype Bucket<K, V> = Bucket(used: bool, deleted: bool, end: bool, storage: Storage<K, V>) {
    predicate Free() { !used && !deleted }
    ghost predicate Has(key: K) { used && storage.Entry? && storage.key == key }
  }

  function Zeroed<K, V>(): Bucket<K, V> { Bucket(false, false, false, Raw) }

  ghost predicate WellFormed<K, V>(b: seq<Bucket<K, V>>) {
    && 5 <= |b|
    && (forall i :: 0 <= i < |b| ==> (b[i].used <==> b[i].storage.Entry?) && !(b[i].used && b[i].deleted))
    && (forall i :: 0 <= i < |b| ==> (b[i].end <==> i == |b| - 1))
    && b[|b| - 1].Free()
  }

  /** The first k probes from h meet no never-used bucket. */
  ghost predicate Beaten<K, V>(next: Hash -> Hash, b: seq<Bucket<K, V>>, h: Hash, k: nat)
    requires 5 <= |b|
  {
    forall j: nat :: j < k ==> Blocked(next, b, h, j)
  }

  ghost predicate Blocked<K, V>(next: Hash -> Hash, b: seq<Bucket<K, V>>, h: Hash, j: nat)
    requires 5 <= |b|
  {
    !b[Place(next, h, j, |b| - 1)].Free()
  }

  /** Key x sits where its probe number steps[x] leads, past no never-used bucket. */
  ghost predicate Settled<K, V>(next: Hash -> Hash, b: seq<Bucket<K, V>>, hash: K -> Hash, m: map<K, V>, steps: map<K, nat>, x: K)
    requires 5 <= |b| && x in m && x in steps
  {
    && b[Place(next, hash(x), steps[x], |b| - 1)].used
    && b[Place(next, hash(x), steps[x], |b| - 1)].storage == Entry(x, m[x])
    && Beaten(next, b, hash(x), steps[x])
  }

  ghost predicate Owned<K, V>(next: Hash -> Hash, b: seq<Bucket<K, V>>, hash: K -> Hash, steps: map<K, nat>, i: nat)
    requires 5 <= |b| && i < |b| && b[i].storage.Entry?
  {
    b[i].storage.key in steps && Place(next, hash(b[i].storage.key), steps[b[i].storage.key], |b| - 1) == i
  }

  /** The buckets hold the map m: one bucket a key, reachable by its probe. */
  ghost predicate Table<K, V>(next: Hash -> Hash, b: seq<Bucket<K, V>>, hash: K -> Hash, m: map<K, V>, steps: map<K, nat>) {
    && WellFormed(b)
    && m.Keys == steps.Keys
    && (forall x :: x in m ==> Settled(next, b, hash, m, steps, x))
    && (forall i :: 0 <= i < |b| && b[i].used ==> Owned(next, b, hash, steps, i))
  }

  lemma OneBucketPerKey<K, V>(next: Hash -> Hash, b: seq<Bucket<K, V>>, hash: K -> Hash, m: map<K, V>, steps: map<K, nat>, i: nat, j: nat)
    requires Table(next, b, hash, m, steps)
    requires i < |b| && j < |b| && b[i].used && b[j].used && b[i].storage.key == b[j].storage.key
    ensures i == j
  {
    hide Orbit, Place;
    assert Owned(next, b, hash, steps, i) && Owned(next, b, hash, steps, j);
  }

  // ---------- what a probe finds ----------

  /** Probe k from h ends a search for key. */
  ghost predicate Stops<K, V>(next: Hash -> Hash, b: seq<Bucket<K, V>>, h: Hash, key: K, k: nat)
    requires 5 <= |b|
  {
    var bucket := b[Place(next, h, k, |b| - 1)];
    bucket.Has(key) || bucket.Free()
  }

  ghost predicate Endless<K, V>(next: Hash -> Hash, b: seq<Bucket<K, V>>, h: Hash, key: K)
    requires 5 <= |b|
  {
    forall k: nat :: !Stops(next, b, h, key, k)
  }

  ghost predicate Passed<K, V>(next: Hash -> Hash, b: seq<Bucket<K, V>>, h: Hash, key: K, k: nat)
    requires 5 <= |b|
  {
    forall j: nat :: j < k ==> !Stops(next, b, h, key, j)
  }

  lemma RoundAndRound<K, V>(next: Hash -> Hash, b: seq<Bucket<K, V>>, h: Hash, key: K)
    requires 5 <= |b| && Passed(next, b, h, key, HASHES)
    ensures Endless(next, b, h, key)
  {
    hide Orbit;
    forall k: nat
      ensures !Stops(next, b, h, key, k)
    {
      var j := Recurs(next, h, k);
      assert !Stops(next, b, h, key, j);
    }
  }

  lemma FoundEntry<K, V>(next: Hash -> Hash, b: seq<Bucket<K, V>>, hash: K -> Hash, m: map<K, V>, steps: map<K, nat>, key: K, i: nat)
    requires Table(next, b, hash, m, steps) && i < |b| && b[i].Has(key)
    ensures key in m && b[i].storage == Entry(key, m[key])
    ensures i == Place(next, hash(key), steps[key], |b| - 1) && i < |b| - 1
  {
    hide Orbit, Place;
    assert Owned(next, b, hash, steps, i);
    assert Settled(next, b, hash, m, steps, key);
  }

  lemma SettledStops<K, V>(next: Hash -> Hash, b: seq<Bucket<K, V>>, hash: K -> Hash, m: map<K, V>, steps: map<K, nat>, key: K)
    requires Table(next, b, hash, m, steps) && key in m
    ensures Stops(next, b, hash(key), key, steps[key]) && Beaten(next, b, hash(key), steps[key])
    ensures b[Place(next, hash(key), steps[key], |b| - 1)].used
  {
    hide Orbit, Place;
    assert Settled(next, b, hash, m, steps, key);
  }

  lemma FreeMeansAbsent<K, V>(next: Hash -> Hash, b: seq<Bucket<K, V>>, hash: K -> Hash, m: map<K, V>, steps: map<K, nat>, key: K, k: nat)
    requires Table(next, b, hash, m, steps)
    requires Passed(next, b, hash(key), key, k) && b[Place(next, hash(key), k, |b| - 1)].Free()
    ensures key !in m
  {
    hide Orbit, Place;
    assert !Blocked(next, b, hash(key), k);
    if key in m {
      SettledStops(next, b, hash, m, steps, key);
    }
  }

  // ---------- changing one bucket ----------

  lemma StillBeaten<K, V>(next: Hash -> Hash, b: seq<Bucket<K, V>>, i: nat, bucket: Bucket<K, V>, h: Hash, k: nat)
    requires 5 <= |b| && i < |b| && Beaten(next, b, h, k) && !bucket.Free()
    ensures Beaten(next, b[i := bucket], h, k)
  {
    hide Orbit, Place;
    var b' := b[i := bucket];
    forall j: nat | j < k
      ensures Blocked(next, b', h, j)
    {
      assert Blocked(next, b, h, j);
    }
  }

  lemma PutNew<K, V>(next: Hash -> Hash, b: seq<Bucket<K, V>>, hash: K -> Hash, m: map<K, V>, steps: map<K, nat>, key: K, value: V, k: nat)
    requires Table(next, b, hash, m, steps) && key !in m
    requires !b[Place(next, hash(key), k, |b| - 1)].used && Beaten(next, b, hash(key), k)
    ensures Table(next, b[Place(next, hash(key), k, |b| - 1) := Bucket(true, false, false, Entry(key, value))],
                  hash, m[key := value], steps[key := k])
  {
    hide Orbit;
    var i := Place(next, hash(key), k, |b| - 1);
    var bucket := Bucket(true, false, false, Entry(key, value));
    var b', m', steps' := b[i := bucket], m[key := value], steps[key := k];
    forall x | x in m'
      ensures Settled(next, b', hash, m', steps', x)
    {
      if x == key {
        StillBeaten(next, b, i, bucket, hash(key), k);
      } else {
        assert Settled(next, b, hash, m, steps, x);
        StillBeaten(next, b, i, bucket, hash(x), steps[x]);
      }
    }
    forall j | 0 <= j < |b'| && b'[j].used
      ensures Owned(next, b', hash, steps', j)
    {
      if j != i {
        assert Owned(next, b, hash, steps, j);
      }
    }
  }

  lemma Overwrite<K, V>(next: Hash -> Hash, b: seq<Bucket<K, V>>, hash: K -> Hash, m: map<K, V>, steps: map<K, nat>, key: K, value: V, i: nat)
    requires Table(next, b, hash, m, steps) && i < |b| && b[i].Has(key)
    ensures Table(next, b[i := b[i].(storage := Entry(key, value))], hash, m[key := value], steps)
  {
    hide Orbit, Place;
    FoundEntry(next, b, hash, m, steps, key, i);
    var bucket := b[i].(storage := Entry(key, value));
    var b', m' := b[i := bucket], m[key := value];
    forall x | x in m'
      ensures Settled(next, b', hash, m', steps, x)
    {
      assert Settled(next, b, hash, m, steps, x);
      StillBeaten(next, b, i, bucket, hash(x), steps[x]);
    }
    forall j | 0 <= j < |b'| && b'[j].used
      ensures Owned(next, b', hash, steps, j)
    {
      assert Owned(next, b, hash, steps, j);
    }
  }

  lemma Erase<K, V>(next: Hash -> Hash, b: seq<Bucket<K, V>>, hash: K -> Hash, m: map<K, V>, steps: map<K, nat>, key: K, i: nat)
    requires Table(next, b, hash, m, steps) && i < |b| && b[i].Has(key)
    ensures Table(next, b[i := b[i].(used := false, deleted := true, storage := Raw)], hash, m - {key}, steps - {key})
  {
    hide Orbit, Place;
    FoundEntry(next, b, hash, m, steps, key, i);
    var bucket := b[i].(used := false, deleted := true, storage := Raw);
    var b', m', steps' := b[i := bucket], m - {key}, steps - {key};
    forall x | x in m'
      ensures Settled(next, b', hash, m', steps', x)
    {
      assert Settled(next, b, hash, m, steps, x);
      StillBeaten(next, b, i, bucket, hash(x), steps[x]);
    }
    forall j | 0 <= j < |b'| && b'[j].used
      ensures Owned(next, b', hash, steps', j)
    {
      assert Owned(next, b, hash, steps, j);
    }
  }

  // ---------- counting ----------

  function Used<K, V>(b: seq<Bucket<K, V>>): nat {
    if b == [] then 0 else Used(b[..|b| - 1]) + (if b[|b| - 1].used then 1 else 0)
  }

  function Deleted<K, V>(b: seq<Bucket<K, V>>): nat {
    if b == [] then 0 else Deleted(b[..|b| - 1]) + (if b[|b| - 1].deleted then 1 else 0)
  }

  function One(p: bool): nat { if p then 1 else 0 }

  lemma {:induction false} CountsChange<K, V>(b: seq<Bucket<K, V>>, i: nat, bucket: Bucket<K, V>)
    requires i < |b|
    ensures Used(b[i := bucket]) == Used(b) - One(b[i].used) + One(bucket.used)
    ensures Deleted(b[i := bucket]) == Deleted(b) - One(b[i].deleted) + One(bucket.deleted)
  {
    var n := |b| - 1;
    if i == n {
      assert b[i := bucket][..n] == b[..n];
    } else {
      assert b[i := bucket][..n] == b[..n][i := bucket];
      CountsChange(b[..n], i, bucket);
    }
  }

  lemma {:induction false} NothingCounted<K, V>(b: seq<Bucket<K, V>>)
    requires forall i :: 0 <= i < |b| ==> b[i].Free()
    ensures Used(b) == 0 && Deleted(b) == 0
  {
    if b != [] {
      NothingCounted(b[..|b| - 1]);
    }
  }

  /** Fewer used and deleted buckets than places leave a never-used place. */
  lemma {:induction false} SomeFree<K, V>(b: seq<Bucket<K, V>>) returns (i: nat)
    requires Used(b) + Deleted(b) < |b|
    ensures i < |b| && b[i].Free()
  {
    var n := |b| - 1;
    if b[n].Free() {
      i := n;
    } else {
      i := SomeFree(b[..n]);
    }
  }

  lemma FreePlace<K, V>(b: seq<Bucket<K, V>>) returns (i: nat)
    requires WellFormed(b) && Used(b) + Deleted(b) < |b| - 1
    ensures i < |b| - 1 && b[i].Free()
  {
    i := SomeFree(b[..|b| - 1]);
  }

  // ---------- when probes end ----------

  /** The orbit of h meets every place of a table of this capacity. */
  ghost predicate Covers(next: Hash -> Hash, h: Hash, capacity: nat)
    requires capacity != 0
  {
    forall i: nat :: i < capacity ==> Meets(next, h, capacity, i)
  }

  ghost predicate Meets(next: Hash -> Hash, h: Hash, capacity: nat, i: nat)
    requires capacity != 0
  {
    exists k: nat :: Place(next, h, k, capacity) == i
  }

  lemma CoveringEnds<K, V>(next: Hash -> Hash, b: seq<Bucket<K, V>>, h: Hash, key: K)
    requires WellFormed(b) && Used(b) + Deleted(b) < |b| - 1
    requires Covers(next, h, |b| - 1)
    ensures !Endless(next, b, h, key)
  {
    hide Orbit, Place, Used, Deleted;
    var i := FreePlace(b);
    assert Meets(next, h, |b| - 1, i);
    var k: nat :| Place(next, h, k, |b| - 1) == i;
    assert Stops(next, b, h, key, k);
  }

  // ---------- growth ----------

  const LOAD_FACTOR_IN_PERCENT: nat := 60

  predicate Crowded(taken: nat, capacity: nat) {
    (taken + 1) * 100 >= capacity * LOAD_FACTOR_IN_PERCENT
  }

  function AtLeastFour(n: nat): nat { if n < 4 then 4 else n }

  /** By how much a table falls short; each doubling makes it smaller. */
  function Excess(taken: nat, capacity: nat): nat {
    if Crowded(taken, capacity) then (taken + 1) * 100 - capacity * LOAD_FACTOR_IN_PERCENT + 1 else 0
  }

  /** The largest capacity reached when a rehash into this capacity may grow again. */
  function Limit(size: nat, capacity: nat): nat {
    if Crowded(size, capacity) then 4 * (size + 1) else capacity
  }

  /** The largest capacity reached by preparing one insertion. */
  function Ceiling(size: nat, deleted: nat, capacity: nat): nat {
    if Crowded(size + deleted, capacity) then Limit(size, AtLeastFour(2 * capacity)) else capacity
  }

  /** Half way through a rehash the table may be crowded by the final size, not by what it holds. */
  predicate Spread(size: nat, count: nat, capacity: nat) {
    !Crowded(size, capacity) || capacity >= 4 * (count + 1)
  }

  /** Some key among these has an orbit that misses a place of a table this large. */
  ghost predicate Culprit<K>(next: Hash -> Hash, keys: set<K>, hash: K -> Hash, low: nat, high: nat)
    requires 4 <= low
  {
    exists x, c :: x in keys && low <= c <= high && !Covers(next, hash(x), c)
  }

  lemma CulpritAmongMore<K>(next: Hash -> Hash, keys: set<K>, more: set<K>, hash: K -> Hash, low: nat, high: nat, low': nat, high': nat)
    requires 4 <= low' <= low && high <= high' && keys <= more && Culprit(next, keys, hash, low, high)
    ensures Culprit(next, more, hash, low', high')
  {
  }

  lemma NoCulprit<K>(next: Hash -> Hash, hash: K -> Hash, low: nat, high: nat)
    requires 4 <= low
    ensures !Culprit<K>(next, {}, hash, low, high)
  {
  }

  datatype Found = At(index: nat) | Nowhere | Hangs
  datatype ForWriting = Existing(index: nat) | Vacant(index: nat) | WriteHangs
  datatype SetResult = InsertedNewEntry | ReplacedExistingEntry | SetHangs
  datatype Removal = Removed | Missing | RemoveHangs
  datatype Progress = Done | Hanging

  class HashTable<K(==), V> {
    const hash: K -> Hash
    const next: Hash -> Hash
    var buckets: array?<Bucket<K, V>>
    var size: nat
    var capacity: nat
    var deletedCount: nat

    /** The entries now in the buckets, and how many probes each key takes. */
    ghost var model: map<K, V>
    ghost var steps: map<K, nat>

    /** What holds at all times, also half way through a rehash. */
    ghost predicate Consistent()
      reads this, buckets
    {
      if buckets == null then
        capacity == 0 && deletedCount == 0 && model == map[] && steps == map[]
      else
        && buckets.Length == capacity + 1
        && Table(next, buckets[..], hash, model, steps)
        && |model| == Used(buckets[..])
        && deletedCount == Deleted(buckets[..])
    }

    /** What holds between operations: counts are exact and the load is bounded. */
    ghost predicate Valid()
      reads this, buckets
    {
      && Consistent()
      && size == |model|
      && (capacity == 0 || (size + deletedCount) * 100 < capacity * LOAD_FACTOR_IN_PERCENT)
    }

    constructor (hash: K -> Hash, next: Hash -> Hash)
      ensures Valid() && model == map[] && this.hash == hash && this.next == next && capacity == 0 && buckets == null
    {
      this.hash, this.next := hash, next;
      buckets := null;
      size, capacity, deletedCount := 0, 0, 0;
      model, steps := map[], map[];
    }

    constructor WithCapacity(hash: K -> Hash, next: Hash -> Hash, n: nat)
      ensures Valid() && model == map[] && this.hash == hash && this.next == next && capacity == AtLeastFour(n) && fresh(buckets)
      ensures deletedCount == 0 && buckets[..] == Cleared(capacity)
    {
      this.hash, this.next := hash, next;
      buckets := null;
      size, capacity, deletedCount := 0, 0, 0;
      model, steps := map[], map[];
      new;
      var r := Rehash(n);
      NoCulprit(this.next, this.hash, AtLeastFour(n), Limit(0, AtLeastFour(n)));
    }

    lemma NeverUsedBucket() returns (i: nat)
      requires Valid() && buckets != null
      ensures i < capacity && buckets[i].Free()
    {
      i := FreePlace(buckets[..]);
    }

    predicate ShouldGrow()
      reads this
    {
      Crowded(size + deletedCount, capacity)
    }

    method LookupWithHash(h: Hash, key: K) returns (r: Found)
      requires Valid() && h == hash(key)
      ensures r.At? ==> r.index < capacity && key in model && buckets != null
                        && buckets[r.index].used && buckets[r.index].storage == Entry(key, model[key])
      ensures r.Nowhere? ==> key !in model
      ensures r.Hangs? <==> size != 0 && Endless(next, buckets[..], h, key)
    {
      hide Orbit, Place, Used, Deleted, Table, Stops, Passed, Endless;
      if size == 0 {
        return Nowhere;
      }
      ghost var b := buckets[..];
      FlagsOf(next, b, hash, model, steps);
      PassedNone(next, b, h, key);
      var at, k := h, 0;
      OrbitStart(next, h);
      while k < HASHES
        invariant k <= HASHES && at == Orbit(next, h, k) && Passed(next, b, h, key, k)
      {
        var i := at % capacity;
        ProbeHere(next, b, h, k, key, i);
        if buckets[i].used && buckets[i].storage.key == key {
          FoundEntry(next, b, hash, model, steps, key, i);
          NotEndless(next, b, h, key, k);
          return At(i);
        }
        if !buckets[i].used && !buckets[i].deleted {
          FreeMeansAbsent(next, b, hash, model, steps, key, k);
          NotEndless(next, b, h, key, k);
          return Nowhere;
        }
        PassedOn(next, b, h, key, k);
        at, k := next(at), k + 1;
        OrbitStep(next, h, k);
      }
      // The source's loop has no end here: every later probe repeats an earlier one.
      RoundAndRound(next, b, h, key);
      return Hangs;
    }
  
    /** The bucket with the key, or else the first unused one of a probe that shows the key is absent. */
    ghost predicate Answers(key: K, r: ForWriting, step: nat)
      reads this, buckets
    {
      && buckets != null && buckets.Length == capacity + 1 && 4 <= capacity
      && (r.WriteHangs? <==> Endless(next, buckets[..], hash(key), key))
      && (r.Existing? ==> r.index < capacity && buckets[r.index].Has(key))
      && (r.Vacant? ==>
            && key !in model && r.index == Place(next, hash(key), step, capacity)
            && !buckets[r.index].used && Beaten(next, buckets[..], hash(key), step))
    }

    /** The probe loop of lookup_for_writing. */
    method ProbeForWriting(key: K) returns (r: ForWriting, ghost step: nat)
      requires Consistent() && buckets != null
      ensures Answers(key, r, step)
    {
      hide Orbit, Place, Used, Deleted, Table, Stops, Passed, Endless, Beaten;
      ghost var b := buckets[..];
      FlagsOf(next, b, hash, model, steps);
      var h := hash(key);
      PassedNone(next, b, h, key);
      var at, k := h, 0;
      var firstEmpty: Found := Nowhere;
      step := 0;
      OrbitStart(next, h);
      while k < HASHES
        invariant k <= HASHES && at == Orbit(next, h, k) && Passed(next, b, h, key, k)
        invariant firstEmpty.At? ==> firstEmpty.index == Place(next, h, step, capacity)
                                     && !b[firstEmpty.index].used && Beaten(next, b, h, step)
        invariant !firstEmpty.Hangs?
      {
        var i := at % capacity;
        ProbeHere(next, b, h, k, key, i);
        if buckets[i].used && buckets[i].storage.key == key {
          NotEndless(next, b, h, key, k);
          return Existing(i), 0;
        }
        if !buckets[i].used {
          if firstEmpty.Nowhere? {
            firstEmpty, step := At(i), k;
            PassedBeaten(next, b, h, key, k);
          }
          if !buckets[i].deleted {
            FreeMeansAbsent(next, b, hash, model, steps, key, k);
            NotEndless(next, b, h, key, k);
            return Vacant(firstEmpty.index), step;
          }
        }
        PassedOn(next, b, h, key, k);
        at, k := next(at), k + 1;
        OrbitStep(next, h, k);
      }
      // The source's loop has no end here: every later probe repeats an earlier one.
      RoundAndRound(next, b, h, key);
      return WriteHangs, 0;
    }
  
    method LookupForWriting(key: K) returns (r: ForWriting, ghost step: nat)
      requires Consistent() && |model| <= size
      modifies this
      ensures size == old(size)
      ensures !r.WriteHangs? ==> Consistent() && buckets != null && model == old(model)
      ensures !old(ShouldGrow()) ==> unchanged(this)
      ensures !r.WriteHangs? && old(ShouldGrow()) ==>
                && fresh(buckets) && deletedCount == 0
                && Regrown(size, |model|, AtLeastFour(2 * old(capacity)), capacity)
      ensures !r.WriteHangs? || !old(ShouldGrow()) ==> Answers(key, r, step)
      ensures r.WriteHangs? <==> old(Lost(key))
      ensures !r.WriteHangs? ==> buckets[..] == old(Ready())
      ensures r.WriteHangs? ==>
                Culprit(next, old(model.Keys) + {key}, hash, AtLeastFour(old(capacity)), old(Ceiling(size, deletedCount, capacity)))
      decreases Excess(size + deletedCount, capacity), 0
    {
      hide Orbit, Place, Used, Deleted, Table, Stops, Passed, Endless, Beaten, Covers, Culprit;
      if ShouldGrow() {
        var done := Rehash(2 * capacity);
        if done.Hanging? {
          CulpritAmongMore(next, old(model.Keys), old(model.Keys) + {key}, hash,
            AtLeastFour(2 * old(capacity)), Limit(size, AtLeastFour(2 * old(capacity))),
            AtLeastFour(old(capacity)), old(Ceiling(size, deletedCount, capacity)));
          return WriteHangs, 0;
        }
      }
      FlagsOf(next, buckets[..], hash, model, steps);
      r, step := ProbeForWriting(key);
      if r.WriteHangs? {
        HangsOver(next, buckets[..], hash, key, old(model.Keys) + {key}, AtLeastFour(old(capacity)), old(Ceiling(size, deletedCount, capacity)));
      }
    }

    method InsertDuringRehash(key: K, value: V) returns (r: Progress)
      requires Consistent() && buckets != null && key !in model && |model| < size && deletedCount == 0
      requires Spread(size, |model|, capacity)
      modifies this, buckets
      ensures size == old(size)
      ensures r.Done? ==> Consistent() && buckets != null && (buckets == old(buckets) || fresh(buckets))
      ensures r.Done? ==> model == old(model)[key := value] && deletedCount == 0
      ensures r.Done? ==> Spread(size, |model|, capacity) && old(capacity) <= capacity <= old(Ceiling(size, 0, capacity))
      ensures old(Added(key, value)) == if r.Done? then Some(buckets[..]) else None
      ensures r.Hanging? ==>
                Culprit(next, old(model.Keys) + {key}, hash, AtLeastFour(old(capacity)), old(Ceiling(size, 0, capacity)))
      decreases Excess(size, capacity), 1
    {
      hide Orbit, Place, Used, Deleted, Table, Stops, Passed, Endless, Beaten, Covers, Culprit, Put, Lost, Ready;
      var spot, step := LookupForWriting(key);
      if spot.WriteHangs? {
        return Hanging;
      }
      ghost var b := buckets[..];
      if spot.Existing? {
        FoundEntry(next, b, hash, model, steps, key, spot.index);
      }
      NoneDeleted(b, spot.index);
      FlagsOf(next, b, hash, model, steps);
      UnusedStops(next, b, hash, model, steps, key, step);
      PutAt(next, b, hash(key), key, value, step);
      buckets[spot.index] := buckets[spot.index].(used := true, storage := Entry(key, value));
      PutNew(next, b, hash, model, steps, key, value, step);
      CountsChange(b, spot.index, Bucket(true, false, false, Entry(key, value)));
      assert buckets[..] == b[spot.index := Bucket(true, false, false, Entry(key, value))];
      model, steps := model[key := value], steps[key := step];
      return Done;
    }

    /** The allocation at the head of rehash. */
    method Reset(n: nat)
      requires 4 <= n
      modifies this
      ensures size == old(size) && Consistent() && buckets != null && fresh(buckets)
      ensures model == map[] && capacity == n && deletedCount == 0 && buckets[..] == Cleared(n)
    {
      hide Orbit, Place, Used, Deleted, Table;
      buckets := new Bucket<K, V>[n + 1](_ => Zeroed());
      capacity := n;
      deletedCount := 0;
      buckets[capacity] := buckets[capacity].(end := true);
      model, steps := map[], map[];
      EmptyTable(next, buckets[..], hash, n);
    }

    /** One used bucket of the old array, moved. */
    method MoveBucket(key: K, value: V, n: nat, ghost b: seq<Bucket<K, V>>, ghost m: map<K, V>, ghost steps0: map<K, nat>, ghost i: nat)
      returns (r: Progress)
      requires Consistent() && buckets != null && deletedCount == 0 && 4 <= n && Regrown(size, |model|, n, capacity)
      requires Table(next, b, hash, m, steps0) && i < |b| - 1 && b[i].used && b[i].storage == Entry(key, value)
      requires Moved(next, b, hash, m, steps0, model, i) && |model| == Used(b[..i]) && Used(b) <= size
      requires WellFormed(b) && Refill(next, hash, b, size, n, i) == Some(buckets[..])
      modifies this, buckets
      ensures size == old(size)
      ensures r.Done? ==> Consistent() && buckets != null && (buckets == old(buckets) || fresh(buckets)) && deletedCount == 0
      ensures r.Done? ==> Regrown(size, |model|, n, capacity)
      ensures r.Done? ==> Moved(next, b, hash, m, steps0, model, i + 1) && |model| == Used(b[..i + 1])
      ensures r.Hanging? ==> Culprit(next, m.Keys, hash, n, Limit(size, n))
      ensures Refill(next, hash, b, size, n, i + 1) == if r.Done? then Some(buckets[..]) else None
      decreases Excess(size, n), 2
    {
      hide Orbit, Place, Used, Deleted, Table, Culprit, Moved, Crowded, Limit, Spread, Excess, Ceiling, Consistent,
        Endless, Put, Refill, Joined, Added;
      RefillStep(next, hash, b, size, n, i);
      AddedIsJoined(key, value);
      UsedUpTo(b, i);
      MovedFresh(next, b, hash, m, steps0, model, i);
      CeilingWithin(size, n, capacity);
      ghost var c0, keys := capacity, model.Keys;
      r := InsertDuringRehash(key, value);
      if r.Hanging? {
        CulpritAmongMore(next, keys + {key}, m.Keys, hash, AtLeastFour(c0), Ceiling(size, 0, c0), n, Limit(size, n));
      }
    }

    /** One turn of the loop of rehash. */
    method MoveNext(oldBuckets: array<Bucket<K, V>>, i: nat, n: nat, ghost m: map<K, V>, ghost steps0: map<K, nat>) returns (r: Progress)
      requires Consistent() && buckets != null && deletedCount == 0 && 4 <= n && Regrown(size, |model|, n, capacity)
      requires Table(next, oldBuckets[..], hash, m, steps0) && i < oldBuckets.Length - 1 && oldBuckets != buckets
      requires Moved(next, oldBuckets[..], hash, m, steps0, model, i) && |model| == Used(oldBuckets[..i]) && Used(oldBuckets[..]) <= size
      requires WellFormed(oldBuckets[..]) && Refill(next, hash, oldBuckets[..], size, n, i) == Some(buckets[..])
      modifies this, buckets
      ensures size == old(size)
      ensures r.Done? ==> Consistent() && buckets != null && (buckets == old(buckets) || fresh(buckets)) && deletedCount == 0
      ensures r.Done? ==> Regrown(size, |model|, n, capacity)
      ensures r.Done? ==> Moved(next, oldBuckets[..], hash, m, steps0, model, i + 1) && |model| == Used(oldBuckets[..i + 1])
      ensures r.Hanging? ==> Culprit(next, m.Keys, hash, n, Limit(size, n))
      ensures oldBuckets[..] == old(oldBuckets[..]) && Refill(next, hash, oldBuckets[..], size, n, i + 1) == if r.Done? then Some(buckets[..]) else None
      decreases Excess(size, n), 3
    {
      hide Orbit, Place, Used, Deleted, Table, Culprit, Moved, Regrown, Crowded, Limit, Excess, Consistent, Endless, Put, Refill, Joined;
      ghost var b := oldBuckets[..];
      assert b[..i] == oldBuckets[..i] && b[..i + 1] == oldBuckets[..i + 1];
      if oldBuckets[i].used {
        r := MoveBucket(oldBuckets[i].storage.key, oldBuckets[i].storage.value, n, b, m, steps0, i);
      } else {
        UsedUpTo(b, i);
        MovedSkip(next, b, hash, m, steps0, model, i);
        RefillStep(next, hash, b, size, n, i);
        r := Done;
      }
    }

    lemma Unfold()
      requires Consistent() || Valid()
      ensures Consistent()
      ensures buckets == null ==> model == map[]
      ensures buckets != null ==> buckets.Length == capacity + 1 && Table(next, buckets[..], hash, model, steps)
                                  && |model| == Used(buckets[..])
    {
    }

    /** The buckets after moving the entries, in bucket order, into an empty table of capacity n; None if that never ends. */
    ghost function Rehashed(n: nat): Option<seq<Bucket<K, V>>>
      requires 4 <= n
      reads this, buckets
    {
      if buckets != null && buckets.Length == capacity + 1 && WellFormed(buckets[..]) then Refill(next, hash, buckets[..], size, n, capacity)
      else Some(Cleared(n))
    }

    /** Growing, or the search for the key once the table has grown, never ends. */
    ghost predicate GrowthHangs(key: K)
      reads this, buckets
    {
      var r := Rehashed(AtLeastFour(2 * capacity));
      r.None? || (5 <= |r.value| && Endless(next, r.value, hash(key), key))
    }

    /** Setting the key never ends. */
    ghost predicate Lost(key: K)
      reads this, buckets
    {
      if ShouldGrow() then GrowthHangs(key) else Stuck(key)
    }

    /** The buckets in which a key is set, grown if need be. */
    ghost function Ready(): seq<Bucket<K, V>>
      reads this, buckets
    {
      if ShouldGrow() then
        var r := Rehashed(AtLeastFour(2 * capacity));
        if r.Some? then r.value else []
      else if buckets != null then buckets[..] else []
    }

    /** The buckets after a new key is set in a table without deleted buckets; None if that never ends. */
    ghost function Added(key: K, value: V): Option<seq<Bucket<K, V>>>
      reads this, buckets
    {
      if Lost(key) || |Ready()| < 5 then None else Some(Put(next, Ready(), hash(key), key, value))
    }

    lemma AddedIsJoined(key: K, value: V)
      requires Consistent() && buckets != null && deletedCount == 0
      ensures WellFormed(buckets[..]) && Added(key, value) == Joined(next, hash, buckets[..], size, key, value)
    {
      hide Orbit, Place, Used, Deleted, Endless, Refill, Put;
    }

    /** A growth that never ends meets a partly filled table: it holds the entries of the first i buckets, and a key it does not hold,
        one of the table's or the new one, has no end to its search. */
    lemma PartlyFilled(key: K) returns (i: nat, b: seq<Bucket<K, V>>, m: map<K, V>, t: map<K, nat>, x: K)
      requires Valid() && buckets != null && GrowthHangs(key)
      ensures i <= capacity && 5 <= buckets.Length == capacity + 1 && Table(next, buckets[..], hash, model, steps)
      ensures Moved(next, buckets[..], hash, model, steps, m, i)
      ensures |b| == AtLeastFour(2 * capacity) + 1 && Table(next, b, hash, m, t) && Deleted(b) == 0
      ensures Endless(next, b, hash(x), x) && x !in m && (x == key || x in model)
    {
      hide Orbit, Place, Used, Deleted, Table, Moved, Endless, Refill;
      var n, now := AtLeastFour(2 * capacity), buckets[..];
      FlagsOf(next, now, hash, model, steps);
      LoadBound();
      if Refill(next, hash, now, size, n, capacity).None? {
        i := FirstLost(next, hash, now, size, n, capacity);
        x := now[i].storage.key;
        EntryInTable(next, now, hash, model, steps, i);
      } else {
        i, x := capacity, key;
      }
      b := Refill(next, hash, now, size, n, i).value;
      KeepsCapacity(next, hash, now, size, n, i);
      m, t := RefillHolds(next, hash, now, model, steps, size, n, i);
      HeldStops(next, b, hash, m, t, x);
    }

    /** Growing a table without entries, and the first insertion into it, ends. */
    lemma EmptyGrows(key: K)
      requires Consistent() && model == map[]
      ensures !GrowthHangs(key)
    {
      hide Orbit, Place, Used, Deleted, Table, Endless, Refill, Cleared;
      var n := AtLeastFour(2 * capacity);
      ClearedEnds<K, V>(next, n, hash(key), key);
      if buckets != null {
        FlagsOf(next, buckets[..], hash, model, steps);
        NoneUsedAt(buckets[..]);
        RefillNothing(next, hash, buckets[..], size, n, capacity);
      }
    }

    method Rehash(newCapacity: nat) returns (r: Progress)
      requires Consistent() && |model| <= size
      modifies this
      ensures size == old(size)
      ensures r.Done? ==> Consistent() && buckets != null && fresh(buckets) && deletedCount == 0
      ensures r.Done? ==> model == old(model) && Regrown(size, |model|, AtLeastFour(newCapacity), capacity)
      ensures r.Hanging? ==>
                Culprit(next, old(model.Keys), hash, AtLeastFour(newCapacity), Limit(size, AtLeastFour(newCapacity)))
      ensures old(Rehashed(AtLeastFour(newCapacity))) == if r.Done? then Some(buckets[..]) else None
      decreases Excess(size, AtLeastFour(newCapacity)), 5
    {
      hide Orbit, Place, Used, Deleted, Table, Culprit, Moved, Regrown, Crowded, Limit, Excess, Consistent, Refill;
      var n := AtLeastFour(newCapacity);
      var oldBuckets, oldCapacity := buckets, capacity;
      ghost var m0, steps0 := model, steps;
      Unfold();
      Reset(n);
      FreshSpread(size, n);
      if oldBuckets == null {
        return Done;
      }
      r := MoveAll(oldBuckets, n, m0, steps0);
    }

    /** The loop of rehash. */
    method MoveAll(oldBuckets: array<Bucket<K, V>>, n: nat, ghost m: map<K, V>, ghost steps0: map<K, nat>) returns (r: Progress)
      requires Consistent() && buckets != null && deletedCount == 0 && 4 <= n && Regrown(size, 0, n, capacity)
      requires Table(next, oldBuckets[..], hash, m, steps0) && Used(oldBuckets[..]) <= size && oldBuckets != buckets
      requires model == map[] && buckets[..] == Cleared(n)
      modifies this, buckets
      ensures size == old(size)
      ensures r.Done? ==> Consistent() && buckets != null && (buckets == old(buckets) || fresh(buckets)) && deletedCount == 0
      ensures r.Done? ==> model == m && Regrown(size, |model|, n, capacity)
      ensures r.Hanging? ==> Culprit(next, m.Keys, hash, n, Limit(size, n))
      ensures oldBuckets[..] == old(oldBuckets[..]) && WellFormed(oldBuckets[..]) && 5 <= oldBuckets.Length
      ensures Refill(next, hash, oldBuckets[..], size, n, oldBuckets.Length - 1) == if r.Done? then Some(buckets[..]) else None
      decreases Excess(size, n), 4
    {
      hide Orbit, Place, Used, Deleted, Table, Culprit, Moved, Regrown, Crowded, Limit, Excess, Consistent, Refill, Cleared;
      ghost var b := oldBuckets[..];
      FlagsOf(next, b, hash, m, steps0);
      MovedNone(next, b, hash, m, steps0);
      RefillStarts(next, hash, b, size, n);
      assert b[..0] == oldBuckets[..0];
      for i := 0 to oldBuckets.Length - 1
        invariant Consistent() && buckets != null && (buckets == old(buckets) || fresh(buckets)) && deletedCount == 0 && size == old(size)
        invariant oldBuckets != buckets && oldBuckets[..] == b && Regrown(size, |model|, n, capacity)
        invariant Refill(next, hash, b, size, n, i) == Some(buckets[..])
        invariant Moved(next, b, hash, m, steps0, model, i) && |model| == Used(oldBuckets[..i])
      {
        r := MoveNext(oldBuckets, i, n, m, steps0);
        if r.Hanging? {
          StaysLost(next, hash, b, size, n, i + 1, |b| - 1);
          return;
        }
      }
      MovedAll(next, b, hash, m, steps0, model);
      return Done;
    }

    method Set(key: K, value: V) returns (r: SetResult)
      requires Valid()
      modifies this, buckets
      ensures !r.SetHangs? ==> Valid() && model == old(model)[key := value]
      ensures !r.SetHangs? ==> buckets == old(buckets) || fresh(buckets)
      ensures !r.SetHangs? ==> (r == InsertedNewEntry <==> key !in old(model))
      ensures !r.SetHangs? ==> capacity == if old(ShouldGrow()) then AtLeastFour(2 * old(capacity)) else old(capacity)
      ensures !r.SetHangs? && old(ShouldGrow()) ==> deletedCount == 0
      ensures r.SetHangs? ==>
                Culprit(next, old(model.Keys) + {key}, hash, AtLeastFour(old(capacity)), AtLeastFour(2 * old(capacity)))
      ensures r.SetHangs? <==> old(Lost(key))
      ensures old(deletedCount) == 0 && key !in old(model) ==> old(Added(key, value)) == if r.SetHangs? then None else Some(buckets[..])
      ensures !r.SetHangs? && old(deletedCount) == 0 ==> deletedCount == 0
    {
      hide Orbit, Place, Used, Deleted, Table, Stops, Passed, Endless, Beaten, Covers, Culprit, Ceiling, Put, Lost, Ready;
      LoadBound();
      var spot, step := LookupForWriting(key);
      if spot.WriteHangs? {
        CulpritAmongMore(next, old(model.Keys) + {key}, old(model.Keys) + {key}, hash,
          AtLeastFour(old(capacity)), old(Ceiling(size, deletedCount, capacity)),
          AtLeastFour(old(capacity)), AtLeastFour(2 * old(capacity)));
        return SetHangs;
      }
      if spot.Existing? {
        Replace(spot.index, key, value);
        return ReplacedExistingEntry;
      }
      if deletedCount == 0 {
        UnusedStops(next, buckets[..], hash, model, steps, key, step);
        PutAt(next, buckets[..], hash(key), key, value, step);
      }
      Construct(spot.index, key, value, step);
      return InsertedNewEntry;
    }

    /** A search for the key in the present buckets goes on forever. */
    ghost predicate Stuck(key: K)
      reads this, buckets
    {
      buckets != null && 5 <= buckets.Length && Endless(next, buckets[..], hash(key), key)
    }

    lemma LoadBound()
      requires Valid()
      ensures !Crowded(size, AtLeastFour(2 * capacity))
      ensures Ceiling(size, deletedCount, capacity) <= AtLeastFour(2 * capacity)
    {
      hide Orbit, Place, Used, Deleted;
      GrowOnce(size, deletedCount, capacity);
    }

    method Replace(i: nat, key: K, value: V)
      requires Consistent() && buckets != null && i < capacity && buckets[i].Has(key)
      modifies this`model, this`steps, buckets
      ensures Consistent() && key in old(model) && model == old(model)[key := value] && |model| == |old(model)|
    {
      hide Orbit, Place, Used, Deleted, Table;
      ghost var b := buckets[..];
      FoundEntry(next, b, hash, model, steps, key, i);
      Overwrite(next, b, hash, model, steps, key, value, i);
      CountsChange(b, i, b[i].(storage := Entry(key, value)));
      buckets[i] := buckets[i].(storage := Entry(key, value));
      assert buckets[..] == b[i := b[i].(storage := Entry(key, value))];
      assert model[key := value].Keys == model.Keys;
      model := model[key := value];
    }

    method Construct(i: nat, key: K, value: V, ghost step: nat)
      requires Consistent() && Answers(key, Vacant(i), step)
      modifies this`model, this`steps, this`size, this`deletedCount, buckets
      ensures Consistent() && model == old(model)[key := value] && |model| == |old(model)| + 1
      ensures size == old(size) + 1 && deletedCount <= old(deletedCount)
      ensures buckets[..] == old(buckets[..])[i := Bucket(true, false, false, Entry(key, value))]
    {
      hide Orbit, Place, Used, Deleted, Table, Stops, Passed, Endless, Beaten;
      ghost var b := buckets[..];
      FlagsOf(next, b, hash, model, steps);
      PutNew(next, b, hash, model, steps, key, value, step);
      CountsChange(b, i, Bucket(true, false, false, Entry(key, value)));
      buckets[i] := buckets[i].(used := true, storage := Entry(key, value));
      if buckets[i].deleted {
        buckets[i] := buckets[i].(deleted := false);
        deletedCount := deletedCount - 1;
      }
      size := size + 1;
      assert buckets[..] == b[i := Bucket(true, false, false, Entry(key, value))];
      model, steps := model[key := value], steps[key := step];
    }

    method Find(key: K) returns (r: Found)
      requires Valid()
      ensures r.At? ==> r.index < capacity && key in model && buckets != null
                        && buckets[r.index].used && buckets[r.index].storage == Entry(key, model[key])
      ensures r.Nowhere? ==> key !in model
      ensures r.Hangs? <==> size != 0 && Stuck(key)
      ensures r.Hangs? ==> capacity != 0 && !Covers(next, hash(key), capacity)
    {
      hide Orbit, Place, Used, Deleted, Stops, Endless, Covers;
      r := LookupWithHash(hash(key), key);
      if r.Hangs? && Covers(next, hash(key), capacity) {
        CoveringEnds(next, buckets[..], hash(key), key);
      }
    }

    method Remove(key: K) returns (r: Removal)
      requires Valid()
      modifies this, buckets
      ensures Valid() && buckets == old(buckets) && capacity == old(capacity)
      ensures !r.RemoveHangs? ==> model == old(model) - {key} && (r == Removed <==> key in old(model))
      ensures r.RemoveHangs? <==> old(size != 0 && Stuck(key))
      ensures r.RemoveHangs? ==> model == old(model) && capacity != 0 && !Covers(next, hash(key), capacity)
    {
      hide Orbit, Place, Used, Deleted, Table, Stops, Endless, Covers;
      var it := Find(key);
      match it
      case Hangs =>
        return RemoveHangs;
      case Nowhere =>
        assert model - {key} == model;
        return Missing;
      case At(i) =>
        RemoveAt(i, key);
        return Removed;
    }

    method RemoveAt(i: nat, ghost key: K)
      requires Valid() && buckets != null && i < capacity && buckets[i].Has(key)
      modifies this`model, this`steps, this`size, this`deletedCount, buckets
      ensures Valid() && key in old(model) && model == old(model) - {key}
    {
      hide Orbit, Place, Used, Deleted, Table;
      ghost var b := buckets[..];
      FlagsOf(next, b, hash, model, steps);
      FoundEntry(next, b, hash, model, steps, key, i);
      Erase(next, b, hash, model, steps, key, i);
      CountsChange(b, i, b[i].(used := false, deleted := true, storage := Raw));
      buckets[i] := buckets[i].(storage := Raw);
      buckets[i] := buckets[i].(used := false);
      buckets[i] := buckets[i].(deleted := true);
      assert buckets[..] == b[i := b[i].(used := false, deleted := true, storage := Raw)];
      OneLess(model, key);
      size := size - 1;
      deletedCount := deletedCount + 1;
      model, steps := model - {key}, steps - {key};
    }

    method EnsureCapacity(wanted: nat) returns (r: Progress)
      requires Valid() && size <= wanted
      modifies this
      ensures r.Done? ==> Valid() && model == old(model) && !Crowded(size, capacity) && 2 * wanted <= capacity
      ensures r.Hanging? ==>
                Culprit(next, old(model.Keys), hash, AtLeastFour(2 * wanted), Limit(old(size), AtLeastFour(2 * wanted)))
      ensures r.Hanging? <==> old(Rehashed(AtLeastFour(2 * wanted))).None?
    {
      hide Orbit, Place, Used, Deleted, Table, Culprit;
      r := Rehash(2 * wanted);
    }
  
    method Begin() returns (it: Found)
      requires Consistent()
      ensures !it.Hangs?
      ensures it.At? ==> buckets != null && it.index < capacity && buckets[it.index].used && NoneUsed(0, it.index)
      ensures it.Nowhere? ==> NoneUsed(0, capacity)
    {
      hide Orbit, Place, Used, Deleted, Table;
      for i := 0 to capacity
        invariant NoneUsed(0, i)
      {
        if buckets[i].used {
          return At(i);
        }
      }
      return Nowhere;
    }

    ghost predicate NoneUsed(low: nat, high: nat)
      reads this, buckets
    {
      low < high ==> buckets != null && high <= buckets.Length && forall k :: low <= k < high ==> !buckets[k].used
    }

    method SkipToNext(i: nat) returns (it: Found)
      requires Consistent() && i < capacity
      ensures !it.Hangs?
      ensures it.At? ==> buckets != null && i < it.index < capacity && buckets[it.index].used && NoneUsed(i + 1, it.index)
      ensures it.Nowhere? ==> NoneUsed(i + 1, capacity)
    {
      hide Orbit, Place, Used, Deleted, Table;
      FlagsOf(next, buckets[..], hash, model, steps);
      var p := i;
      while !buckets[p].end
        invariant i <= p <= capacity && NoneUsed(i + 1, p + 1)
        decreases capacity - p
      {
        p := p + 1;
        if buckets[p].used {
          return At(p);
        }
      }
      return Nowhere;
    }

    /** The buckets before `i`, and no others, have been copied. */
    ghost predicate Copied(done: map<K, V>, i: nat)
      reads this, buckets
    {
      && buckets != null && i < buckets.Length && Table(next, buckets[..], hash, model, steps)
      && Moved(next, buckets[..], hash, model, steps, done, i)
    }

    lemma CopiedTo(done: map<K, V>, i: nat, j: nat)
      requires Copied(done, i) && i <= j < buckets.Length && NoneUsed(i, j)
      ensures Copied(done, j)
    {
      hide Orbit, Place, Moved, Table;
      MovedSkipTo(next, buckets[..], hash, model, steps, done, i, j);
    }

    /** The copy holds the entries of the first i buckets, and stands as refilling with them leaves it. */
    ghost predicate CopiedInto(copy: HashTable<K, V>, i: nat)
      reads this, buckets, copy, copy.buckets
    {
      && copy.Valid() && copy.buckets != null && copy.hash == hash && copy.next == next
      && copy.deletedCount == 0 && copy.capacity == capacity
      && Copied(copy.model, i) && Recopied(i) == Some(copy.buckets[..])
    }

    method CopyEntry(copy: HashTable<K, V>, i: nat) returns (r: SetResult)
      requires Valid() && buckets != null && i < capacity && buckets[i].used && copy != this && copy.buckets != buckets
      requires CopiedInto(copy, i)
      modifies copy, copy.buckets
      ensures !r.SetHangs? ==> CopiedInto(copy, i + 1) && (copy.buckets == old(copy.buckets) || fresh(copy.buckets))
      ensures r.SetHangs? ==> Recopied(i + 1).None?
    {
      hide Orbit, Place, Used, Deleted, Culprit, Moved, Table, Endless, Put, Refill, Joined, Lost, Ready, Added;
      FlagsOf(next, buckets[..], hash, model, steps);
      FlagsOf(next, copy.buckets[..], hash, copy.model, copy.steps);
      var entry := buckets[i].storage;
      MovedFresh(next, buckets[..], hash, model, steps, copy.model, i);
      FewerThan(copy.model.Keys, model.Keys, entry.key);
      copy.AddedIsJoined(entry.key, entry.value);
      JoinedAnyTotal(next, hash, copy.buckets[..], 0, copy.size, entry.key, entry.value);
      RefillStep(next, hash, buckets[..], 0, capacity, i);
      r := copy.Set(entry.key, entry.value);
    }

    lemma CopiedIntoTo(copy: HashTable<K, V>, i: nat, j: nat)
      requires Valid() && buckets != null && CopiedInto(copy, i) && i <= j <= capacity && NoneUsed(i, j)
      ensures CopiedInto(copy, j)
    {
      hide Copied, NoneUsed, Recopied, Orbit, Place, Used, Deleted, Table;
      CopiedTo(copy.model, i, j);
      RecopiedTo(i, j);
    }

    /** The buckets of a copy after the entries of the first i buckets; it never needs to grow. */
    ghost function Recopied(i: nat): Option<seq<Bucket<K, V>>>
      reads this, buckets
    {
      if buckets != null && buckets.Length == capacity + 1 && WellFormed(buckets[..]) && i <= capacity then
        Refill(next, hash, buckets[..], 0, capacity, i)
      else Some(Cleared(4))
    }

    lemma RecopiedTo(i: nat, j: nat)
      requires Consistent() && i <= j <= capacity && NoneUsed(i, j)
      ensures Recopied(i) == Recopied(j)
    {
      hide Orbit, Place, Used, Deleted, Table, Refill;
      if buckets != null {
        FlagsOf(next, buckets[..], hash, model, steps);
        RefillSkips(next, hash, buckets[..], 0, capacity, i, j);
      }
    }

    /** The copying constructor. */
    method Copy() returns (copy: HashTable<K, V>, r: Progress)
      requires Valid()
      ensures fresh(copy) && copy.hash == hash && copy.next == next
      ensures r.Done? ==> copy.Valid() && copy.model == model && copy.buckets != null
      ensures Recopied(capacity) == if r.Done? then Some(copy.buckets[..]) else None
    {
      hide Orbit, Place, Used, Deleted, Table, Culprit, Moved, Valid, Consistent, NoneUsed, Recopied, CopiedInto;
      Unfold();
      copy := new HashTable.WithCapacity(hash, next, capacity);
      r := Done;
      var it := Begin();
      CopyStarts(copy);
      if buckets == null {
        return;
      }
      CopiedIntoTo(copy, 0, Position(it));
      while it.At?
        invariant CopiedInto(copy, Position(it)) && fresh(copy) && fresh(copy.buckets) && !it.Hangs?
        invariant it.At? ==> it.index < capacity && buckets[it.index].used
        decreases capacity - Position(it)
      {
        var i := it.index;
        var added := CopyEntry(copy, i);
        if added.SetHangs? {
          StaysUncopied(i + 1);
          return copy, Hanging;
        }
        it := SkipToNext(i);
        CopiedIntoTo(copy, i + 1, Position(it));
      }
      AllCopied(copy);
    }

    lemma CopyStarts(copy: HashTable<K, V>)
      requires Valid() && copy.Valid() && copy.buckets != null && copy.hash == hash && copy.next == next && copy.model == map[]
      requires copy.deletedCount == 0 && copy.capacity == AtLeastFour(capacity) && copy.buckets[..] == Cleared(copy.capacity)
      ensures buckets == null ==> capacity == 0 && Recopied(0) == Some(copy.buckets[..])
      ensures buckets != null ==> CopiedInto(copy, 0)
    {
      hide Orbit, Place, Used, Deleted, Table, Moved;
      if buckets != null {
        FlagsOf(next, buckets[..], hash, model, steps);
        NothingCopied();
      }
    }

    lemma StaysUncopied(i: nat)
      requires Consistent() && i <= capacity && Recopied(i).None?
      ensures Recopied(capacity).None?
    {
      hide Orbit, Place, Used, Deleted, Refill;
      StaysLost(next, hash, buckets[..], 0, capacity, i, capacity);
    }

    lemma NothingCopied()
      requires Consistent() && buckets != null
      ensures Copied(map[], 0)
    {
      hide Orbit, Place, Used, Deleted, Table, Moved;
      MovedNone(next, buckets[..], hash, model, steps);
      FlagsOf(next, buckets[..], hash, model, steps);
    }

    lemma AllCopied(copy: HashTable<K, V>)
      requires Valid() && buckets != null && CopiedInto(copy, capacity)
      ensures copy.Valid() && copy.model == model && copy.buckets != null && Recopied(capacity) == Some(copy.buckets[..])
    {
      hide Orbit, Place, Table, Moved, Used, Deleted;
      MovedAll(next, buckets[..], hash, model, steps, copy.model);
    }

    ghost function Position(it: Found): nat
      reads this
    {
      if it.At? then it.index else capacity
    }
  }

  lemma FewerThan<K>(some: set<K>, all: set<K>, x: K)
    requires some <= all && x in all && x !in some
    ensures |some| < |all|
  {
    var rest := all - some;
    assert all == some + rest && x in rest;
  }

  lemma OneLess<K, V>(m: map<K, V>, key: K)
    requires key in m
    ensures |m - {key}| == |m| - 1
  {
    var rest := m - {key};
    assert m == rest[key := m[key]];
  }

  /** When a table grows, and to what: at three fifths of its capacity, the next entry included, to twice that, and from nothing to four. */
  lemma GrowthPoint(taken: nat, capacity: nat)
    requires capacity == 0 || 4 <= capacity
    ensures (if Crowded(taken, capacity) then AtLeastFour(2 * capacity) else capacity)
         == if capacity == 0 then 4 else if 5 * (taken + 1) >= 3 * capacity then 2 * capacity else capacity
  {
  }

  /** Between operations one doubling is always enough. */
  lemma GrowOnce(size: nat, deleted: nat, capacity: nat)
    requires if capacity == 0 then size == 0 && deleted == 0
             else 4 <= capacity && (size + deleted) * 100 < capacity * LOAD_FACTOR_IN_PERCENT
    ensures !Crowded(size, AtLeastFour(2 * capacity))
    ensures Ceiling(size, deleted, capacity) <= AtLeastFour(2 * capacity)
  {
  }

  /** What growing to at least n leaves: no less, no more than needed, and room for the next entry. */
  predicate Regrown(size: nat, count: nat, n: nat, capacity: nat) {
    n <= capacity <= Limit(size, n) && Spread(size, count, capacity)
  }

  lemma FreshSpread(size: nat, n: nat)
    requires 4 <= n
    ensures Regrown(size, 0, n, n)
  {
  }

  /** Growing again half way through a rehash stays within its limit, and comes strictly nearer to it. */
  lemma CeilingWithin(size: nat, n: nat, capacity: nat)
    requires 4 <= n <= capacity <= Limit(size, n)
    ensures capacity <= Ceiling(size, 0, capacity) <= Limit(size, n)
    ensures Excess(size, capacity) <= Excess(size, n)
  {
  }

  lemma EmptyTable<K, V>(next: Hash -> Hash, b: seq<Bucket<K, V>>, hash: K -> Hash, n: nat)
    requires 4 <= n && |b| == n + 1
    requires forall i :: 0 <= i < n ==> b[i] == Zeroed()
    requires b[n] == Zeroed<K, V>().(end := true)
    ensures Table(next, b, hash, map[], map[]) && Used(b) == 0 && Deleted(b) == 0
  {
    hide Orbit, Place;
    NothingCounted(b);
  }

  lemma {:induction false} NoneDeleted<K, V>(b: seq<Bucket<K, V>>, i: nat)
    requires i < |b| && Deleted(b) == 0
    ensures !b[i].deleted
  {
    if i < |b| - 1 {
      NoneDeleted(b[..|b| - 1], i);
    }
  }

  lemma HangsOver<K, V>(next: Hash -> Hash, b: seq<Bucket<K, V>>, hash: K -> Hash, key: K, keys: set<K>, low: nat, high: nat)
    requires WellFormed(b) && Used(b) + Deleted(b) < |b| - 1 && Endless(next, b, hash(key), key)
    requires key in keys && 4 <= low <= |b| - 1 <= high
    ensures Culprit(next, keys, hash, low, high)
  {
    hide Orbit, Place, Used, Deleted, Endless;
    if Covers(next, hash(key), |b| - 1) {
      CoveringEnds(next, b, hash(key), key);
    }
  }

  // ---------- refilling an empty table ----------

  /** The first probe that ends the search, from j on. */
  ghost function FirstStop<K, V>(next: Hash -> Hash, b: seq<Bucket<K, V>>, h: Hash, key: K, j: nat, bound: nat): (k: nat)
    requires 5 <= |b| && j <= bound && Stops(next, b, h, key, bound) && Passed(next, b, h, key, j)
    ensures Stops(next, b, h, key, k) && Passed(next, b, h, key, k)
    decreases bound - j
  {
    if Stops(next, b, h, key, j) then j else FirstStop(next, b, h, key, j + 1, bound)
  }

  /** The buckets after an entry went to the first place where the search for its key ends, if it ends. */
  ghost function Put<K, V>(next: Hash -> Hash, b: seq<Bucket<K, V>>, h: Hash, key: K, value: V): (b': seq<Bucket<K, V>>)
    requires 5 <= |b|
    ensures |b'| == |b| && (WellFormed(b) ==> WellFormed(b'))
  {
    if Endless(next, b, h, key) then b
    else
      var bound: nat :| Stops(next, b, h, key, bound);
      b[Place(next, h, FirstStop(next, b, h, key, 0, bound), |b| - 1) := Bucket(true, false, false, Entry(key, value))]
  }

  lemma PutAt<K, V>(next: Hash -> Hash, b: seq<Bucket<K, V>>, h: Hash, key: K, value: V, k: nat)
    requires 5 <= |b| && Stops(next, b, h, key, k) && Passed(next, b, h, key, k)
    ensures !Endless(next, b, h, key)
    ensures Put(next, b, h, key, value) == b[Place(next, h, k, |b| - 1) := Bucket(true, false, false, Entry(key, value))]
  {
    hide Orbit, Place, Stops;
    var bound: nat :| Stops(next, b, h, key, bound)
      && Put(next, b, h, key, value)
         == b[Place(next, h, FirstStop(next, b, h, key, 0, bound), |b| - 1) := Bucket(true, false, false, Entry(key, value))];
  }

  /** Without deleted buckets the first unused place of a probe is where the search for an absent key ends. */
  lemma UnusedStops<K, V>(next: Hash -> Hash, b: seq<Bucket<K, V>>, hash: K -> Hash, m: map<K, V>, steps: map<K, nat>, key: K, k: nat)
    requires Table(next, b, hash, m, steps) && Deleted(b) == 0 && key !in m
    requires !b[Place(next, hash(key), k, |b| - 1)].used && Beaten(next, b, hash(key), k)
    ensures Stops(next, b, hash(key), key, k) && Passed(next, b, hash(key), key, k)
  {
    hide Orbit, Place, Deleted;
    NoneDeleted(b, Place(next, hash(key), k, |b| - 1));
    forall j: nat | j < k
      ensures !Stops(next, b, hash(key), key, j)
    {
      assert Blocked(next, b, hash(key), j);
      var i := Place(next, hash(key), j, |b| - 1);
      if b[i].Has(key) {
        FoundEntry(next, b, hash, m, steps, key, i);
      }
    }
  }

  function Cleared<K, V>(n: nat): (b: seq<Bucket<K, V>>)
    ensures |b| == n + 1 && (4 <= n ==> WellFormed(b))
  {
    seq(n + 1, j requires 0 <= j => Bucket(false, false, j == n, Raw))
  }

  /** An empty table of capacity n after the entries of the first i buckets of b, in that order; None if one of them has no
      end to its search. The table grows on the way while `total` entries crowd it. */
  ghost function Refill<K, V>(next: Hash -> Hash, hash: K -> Hash, b: seq<Bucket<K, V>>, total: nat, n: nat, i: nat): (r: Option<seq<Bucket<K, V>>>)
    requires WellFormed(b) && 4 <= n && i <= |b|
    ensures r.Some? ==> WellFormed(r.value) && n < |r.value|
    decreases Excess(total, n), 2, i
  {
    if i == 0 then Some(Cleared(n))
    else
      var r := Refill(next, hash, b, total, n, i - 1);
      if r.Some? && b[i - 1].used then Joined(next, hash, r.value, total, b[i - 1].storage.key, b[i - 1].storage.value) else r
  }

  /** One more entry, in a table that has grown first if need be. */
  ghost function Joined<K, V>(next: Hash -> Hash, hash: K -> Hash, b: seq<Bucket<K, V>>, total: nat, key: K, value: V): (r: Option<seq<Bucket<K, V>>>)
    requires WellFormed(b)
    ensures r.Some? ==> WellFormed(r.value) && |b| <= |r.value|
    decreases Excess(total, |b| - 1), 1, 0
  {
    var r := Grown(next, hash, b, total);
    if r.None? || Endless(next, r.value, hash(key), key) then None else Some(Put(next, r.value, hash(key), key, value))
  }

  ghost function Grown<K, V>(next: Hash -> Hash, hash: K -> Hash, b: seq<Bucket<K, V>>, total: nat): (r: Option<seq<Bucket<K, V>>>)
    requires WellFormed(b)
    ensures r.Some? ==> WellFormed(r.value) && |b| <= |r.value|
    decreases Excess(total, |b| - 1), 0, 0
  {
    if Crowded(total, |b| - 1) then Refill(next, hash, b, total, 2 * (|b| - 1), |b| - 1) else Some(b)
  }

  lemma JoinedAnyTotal<K, V>(next: Hash -> Hash, hash: K -> Hash, b: seq<Bucket<K, V>>, total: nat, total': nat, key: K, value: V)
    requires WellFormed(b) && !Crowded(total, |b| - 1) && !Crowded(total', |b| - 1)
    ensures Joined(next, hash, b, total, key, value) == Joined(next, hash, b, total', key, value)
  {
    hide Endless, Put, Refill;
  }

  lemma RefillStarts<K, V>(next: Hash -> Hash, hash: K -> Hash, b: seq<Bucket<K, V>>, total: nat, n: nat)
    requires WellFormed(b) && 4 <= n
    ensures Refill(next, hash, b, total, n, 0) == Some(Cleared(n))
  {
  }

  lemma RefillStep<K, V>(next: Hash -> Hash, hash: K -> Hash, b: seq<Bucket<K, V>>, total: nat, n: nat, i: nat)
    requires WellFormed(b) && 4 <= n && i < |b|
    ensures var r := Refill(next, hash, b, total, n, i);
            Refill(next, hash, b, total, n, i + 1)
            == if r.Some? && b[i].used then Joined(next, hash, r.value, total, b[i].storage.key, b[i].storage.value) else r
  {
  }

  lemma {:induction false} RefillSkips<K, V>(next: Hash -> Hash, hash: K -> Hash, b: seq<Bucket<K, V>>, total: nat, n: nat, i: nat, j: nat)
    requires WellFormed(b) && 4 <= n && i <= j <= |b| && forall k :: i <= k < j ==> !b[k].used
    ensures Refill(next, hash, b, total, n, i) == Refill(next, hash, b, total, n, j)
    decreases j - i
  {
    hide Refill, Joined;
    if i < j {
      RefillStep(next, hash, b, total, n, i);
      RefillSkips(next, hash, b, total, n, i + 1, j);
    }
  }

  lemma {:induction false} StaysLost<K, V>(next: Hash -> Hash, hash: K -> Hash, b: seq<Bucket<K, V>>, total: nat, n: nat, i: nat, i': nat)
    requires WellFormed(b) && 4 <= n && i <= i' <= |b| && Refill(next, hash, b, total, n, i).None?
    ensures Refill(next, hash, b, total, n, i').None?
    decreases i'
  {
    hide Refill, Joined;
    if i < i' {
      StaysLost(next, hash, b, total, n, i, i' - 1);
      RefillStep(next, hash, b, total, n, i' - 1);
    }
  }

  /** A refilled table holds exactly the entries moved so far. */
  lemma {:induction false} RefillHolds<K, V>(next: Hash -> Hash, hash: K -> Hash, b: seq<Bucket<K, V>>, m: map<K, V>, steps: map<K, nat>,
      total: nat, n: nat, i: nat) returns (m': map<K, V>, steps': map<K, nat>)
    requires Table(next, b, hash, m, steps) && 4 <= n && i < |b| && Refill(next, hash, b, total, n, i).Some?
    ensures var t := Refill(next, hash, b, total, n, i).value;
            Table(next, t, hash, m', steps') && Deleted(t) == 0 && Moved(next, b, hash, m, steps, m', i)
    decreases Excess(total, n), 2, i
  {
    hide Orbit, Place, Table, Moved, Stops, Passed, Endless, Beaten, Used, Deleted, Put, Refill, Grown;
    FlagsOf(next, b, hash, m, steps);
    if i == 0 {
      m', steps' := map[], map[];
      RefillStarts(next, hash, b, total, n);
      ClearedTable<K, V>(next, hash, n);
      MovedNone(next, b, hash, m, steps);
    } else {
      RefillStep(next, hash, b, total, n, i - 1);
      m', steps' := RefillHolds(next, hash, b, m, steps, total, n, i - 1);
      if b[i - 1].used {
        var key, value := b[i - 1].storage.key, b[i - 1].storage.value;
        MovedFresh(next, b, hash, m, steps, m', i - 1);
        steps' := JoinedHolds(next, hash, Refill(next, hash, b, total, n, i - 1).value, m', steps', total, key, value);
        m' := m'[key := value];
      } else {
        MovedSkip(next, b, hash, m, steps, m', i - 1);
      }
    }
  }

  lemma {:induction false} JoinedHolds<K, V>(next: Hash -> Hash, hash: K -> Hash, b: seq<Bucket<K, V>>, m: map<K, V>, steps: map<K, nat>,
      total: nat, key: K, value: V) returns (steps': map<K, nat>)
    requires Table(next, b, hash, m, steps) && Deleted(b) == 0 && key !in m && Joined(next, hash, b, total, key, value).Some?
    ensures var t := Joined(next, hash, b, total, key, value).value;
            Table(next, t, hash, m[key := value], steps') && Deleted(t) == 0
    decreases Excess(total, |b| - 1), 1, 0
  {
    hide Orbit, Place, Table, Moved, Stops, Passed, Endless, Beaten, Used, Deleted, Put, Refill;
    FlagsOf(next, b, hash, m, steps);
    var t := b;
    steps' := steps;
    if Crowded(total, |b| - 1) {
      var n := 2 * (|b| - 1);
      t := Refill(next, hash, b, total, n, |b| - 1).value;
      var m';
      m', steps' := RefillHolds(next, hash, b, m, steps, total, n, |b| - 1);
      MovedAll(next, b, hash, m, steps, m');
    }
    var k := PutHolds(next, t, hash, m, steps', key, value);
    steps' := steps'[key := k];
  }

  lemma PutHolds<K, V>(next: Hash -> Hash, b: seq<Bucket<K, V>>, hash: K -> Hash, m: map<K, V>, steps: map<K, nat>, key: K, value: V)
    returns (k: nat)
    requires Table(next, b, hash, m, steps) && Deleted(b) == 0 && key !in m && !Endless(next, b, hash(key), key)
    ensures Table(next, Put(next, b, hash(key), key, value), hash, m[key := value], steps[key := k])
    ensures Deleted(Put(next, b, hash(key), key, value)) == 0
  {
    hide Orbit, Table, Beaten, Used, Deleted, Put, Place;
    FlagsOf(next, b, hash, m, steps);
    var bound: nat :| Stops(next, b, hash(key), key, bound);
    k := FirstStop(next, b, hash(key), key, 0, bound);
    var i := Place(next, hash(key), k, |b| - 1);
    PutAt(next, b, hash(key), key, value, k);
    if b[i].Has(key) {
      FoundEntry(next, b, hash, m, steps, key, i);
    }
    PassedBeaten(next, b, hash(key), key, k);
    PutNew(next, b, hash, m, steps, key, value, k);
    CountsChange(b, i, Bucket(true, false, false, Entry(key, value)));
  }

  lemma ClearedTable<K, V>(next: Hash -> Hash, hash: K -> Hash, n: nat)
    requires 4 <= n
    ensures Table(next, Cleared<K, V>(n), hash, map[], map[]) && Used(Cleared<K, V>(n)) == 0 && Deleted(Cleared<K, V>(n)) == 0
  {
    hide Orbit, Place, Used, Deleted;
    EmptyTable(next, Cleared<K, V>(n), hash, n);
  }

  /** Where a refill that does not grow on the way meets a search without end. */
  lemma {:induction false} FirstLost<K, V>(next: Hash -> Hash, hash: K -> Hash, b: seq<Bucket<K, V>>, total: nat, n: nat, i: nat) returns (j: nat)
    requires WellFormed(b) && 4 <= n && i <= |b| && !Crowded(total, n) && Refill(next, hash, b, total, n, i).None?
    ensures j < i && b[j].used && Refill(next, hash, b, total, n, j).Some?
    ensures Endless(next, Refill(next, hash, b, total, n, j).value, hash(b[j].storage.key), b[j].storage.key)
    decreases i
  {
    hide Refill, Endless, Put;
    if i == 0 {
      RefillStarts(next, hash, b, total, n);
    } else if Refill(next, hash, b, total, n, i - 1).None? {
      j := FirstLost(next, hash, b, total, n, i - 1);
    } else {
      j := i - 1;
      RefillStep(next, hash, b, total, n, j);
      KeepsCapacity(next, hash, b, total, n, j);
    }
  }

  lemma {:induction false} KeepsCapacity<K, V>(next: Hash -> Hash, hash: K -> Hash, b: seq<Bucket<K, V>>, total: nat, n: nat, i: nat)
    requires WellFormed(b) && 4 <= n && i <= |b| && !Crowded(total, n) && Refill(next, hash, b, total, n, i).Some?
    ensures |Refill(next, hash, b, total, n, i).value| == n + 1
  {
    hide Refill, Endless, Put;
    if i == 0 {
      RefillStarts(next, hash, b, total, n);
    } else {
      RefillStep(next, hash, b, total, n, i - 1);
      KeepsCapacity(next, hash, b, total, n, i - 1);
    }
  }

  lemma EntryInTable<K, V>(next: Hash -> Hash, b: seq<Bucket<K, V>>, hash: K -> Hash, m: map<K, V>, steps: map<K, nat>, i: nat)
    requires Table(next, b, hash, m, steps) && i < |b| && b[i].used
    ensures b[i].storage.Entry? && b[i].storage.key in m
  {
    FoundEntry(next, b, hash, m, steps, b[i].storage.key, i);
  }

  lemma HeldStops<K, V>(next: Hash -> Hash, b: seq<Bucket<K, V>>, hash: K -> Hash, m: map<K, V>, steps: map<K, nat>, key: K)
    requires Table(next, b, hash, m, steps) && Endless(next, b, hash(key), key)
    ensures key !in m
  {
    hide Orbit, Place, Stops;
    if key in m {
      SettledStops(next, b, hash, m, steps, key);
    }
  }

  lemma {:induction false} NoneUsedAt<K, V>(b: seq<Bucket<K, V>>)
    requires Used(b) == 0
    ensures forall i :: 0 <= i < |b| ==> !b[i].used
  {
    if b != [] {
      NoneUsedAt(b[..|b| - 1]);
    }
  }

  lemma {:induction false} RefillNothing<K, V>(next: Hash -> Hash, hash: K -> Hash, b: seq<Bucket<K, V>>, total: nat, n: nat, i: nat)
    requires WellFormed(b) && 4 <= n && i <= |b| && forall j :: 0 <= j < i ==> !b[j].used
    ensures Refill(next, hash, b, total, n, i) == Some(Cleared(n))
  {
    hide Put, Endless, Cleared;
    if i != 0 {
      RefillNothing(next, hash, b, total, n, i - 1);
    }
  }

  /** In a table that was never used every search ends at once. */
  lemma ClearedEnds<K, V>(next: Hash -> Hash, n: nat, h: Hash, key: K)
    requires 4 <= n
    ensures !Endless(next, Cleared<K, V>(n), h, key)
  {
    hide Orbit, Place;
    assert Stops(next, Cleared<K, V>(n), h, key, 0);
  }

  // ---------- moving entries ----------

  /** The entries of the first i buckets, and no others, are in `done`. */
  ghost predicate Moved<K, V>(next: Hash -> Hash, b: seq<Bucket<K, V>>, hash: K -> Hash, m: map<K, V>, steps: map<K, nat>, done: map<K, V>, i: nat)
    requires Table(next, b, hash, m, steps) && i < |b|
  {
    && (forall x :: x in done ==> x in m && done[x] == m[x] && Place(next, hash(x), steps[x], |b| - 1) < i)
    && (forall j :: 0 <= j < i && b[j].used ==> b[j].storage.key in done)
  }

  lemma MovedNone<K, V>(next: Hash -> Hash, b: seq<Bucket<K, V>>, hash: K -> Hash, m: map<K, V>, steps: map<K, nat>)
    requires Table(next, b, hash, m, steps)
    ensures Moved(next, b, hash, m, steps, map[], 0) && Used(b[..0]) == 0
  {
  }

  lemma MovedSkip<K, V>(next: Hash -> Hash, b: seq<Bucket<K, V>>, hash: K -> Hash, m: map<K, V>, steps: map<K, nat>, done: map<K, V>, i: nat)
    requires Table(next, b, hash, m, steps) && i < |b| - 1 && Moved(next, b, hash, m, steps, done, i) && !b[i].used
    ensures Moved(next, b, hash, m, steps, done, i + 1)
  {
    hide Orbit, Place;
  }

  lemma {:induction false} MovedSkipTo<K, V>(next: Hash -> Hash, b: seq<Bucket<K, V>>, hash: K -> Hash, m: map<K, V>, steps: map<K, nat>, done: map<K, V>,
      i: nat, j: nat)
    requires Table(next, b, hash, m, steps) && i <= j < |b| && Moved(next, b, hash, m, steps, done, i)
    requires forall k :: i <= k < j ==> !b[k].used
    ensures Moved(next, b, hash, m, steps, done, j)
    decreases j - i
  {
    hide Orbit, Place, Moved, Table;
    if i < j {
      MovedSkip(next, b, hash, m, steps, done, i);
      MovedSkipTo(next, b, hash, m, steps, done, i + 1, j);
    }
  }

  lemma MovedFresh<K, V>(next: Hash -> Hash, b: seq<Bucket<K, V>>, hash: K -> Hash, m: map<K, V>, steps: map<K, nat>, done: map<K, V>, i: nat)
    requires Table(next, b, hash, m, steps) && i < |b| - 1 && Moved(next, b, hash, m, steps, done, i) && b[i].used
    ensures b[i].storage.key !in done && b[i].storage.key in m && done.Keys <= m.Keys
    ensures Moved(next, b, hash, m, steps, done[b[i].storage.key := b[i].storage.value], i + 1)
  {
    hide Orbit, Place;
    FoundEntry(next, b, hash, m, steps, b[i].storage.key, i);
  }

  lemma MovedAll<K, V>(next: Hash -> Hash, b: seq<Bucket<K, V>>, hash: K -> Hash, m: map<K, V>, steps: map<K, nat>, done: map<K, V>)
    requires Table(next, b, hash, m, steps) && Moved(next, b, hash, m, steps, done, |b| - 1)
    ensures done == m
  {
    hide Orbit, Place;
    forall x | x in m
      ensures x in done
    {
      assert Settled(next, b, hash, m, steps, x);
    }
  }

  lemma {:induction false} UsedUpTo<K, V>(b: seq<Bucket<K, V>>, i: nat)
    requires i < |b|
    ensures Used(b[..i + 1]) == Used(b[..i]) + One(b[i].used) <= Used(b)
    decreases |b| - i
  {
    assert b[..i + 1][..i] == b[..i];
    if i + 1 < |b| {
      UsedUpTo(b, i + 1);
    } else {
      assert b[..i + 1] == b;
    }
  }

  lemma PassedBeaten<K, V>(next: Hash -> Hash, b: seq<Bucket<K, V>>, h: Hash, key: K, k: nat)
    requires 5 <= |b| && Passed(next, b, h, key, k)
    ensures Beaten(next, b, h, k)
  {
    hide Orbit, Place;
    forall j: nat | j < k
      ensures Blocked(next, b, h, j)
    {
      assert !Stops(next, b, h, key, j);
    }
  }

  lemma FlagsOf<K, V>(next: Hash -> Hash, b: seq<Bucket<K, V>>, hash: K -> Hash, m: map<K, V>, steps: map<K, nat>)
    requires Table(next, b, hash, m, steps)
    ensures WellFormed(b)
  {
  }

  lemma OrbitStart(next: Hash -> Hash, h: Hash)
    ensures Orbit(next, h, 0) == h
  {
  }

  lemma PassedNone<K, V>(next: Hash -> Hash, b: seq<Bucket<K, V>>, h: Hash, key: K)
    requires 5 <= |b|
    ensures Passed(next, b, h, key, 0)
  {
  }

  lemma PassedOn<K, V>(next: Hash -> Hash, b: seq<Bucket<K, V>>, h: Hash, key: K, k: nat)
    requires 5 <= |b| && Passed(next, b, h, key, k) && !Stops(next, b, h, key, k)
    ensures Passed(next, b, h, key, k + 1)
  {
    hide Orbit, Place, Stops;
  }

  lemma NotEndless<K, V>(next: Hash -> Hash, b: seq<Bucket<K, V>>, h: Hash, key: K, k: nat)
    requires 5 <= |b| && Stops(next, b, h, key, k)
    ensures !Endless(next, b, h, key)
  {
    hide Orbit, Place, Stops;
  }

  lemma OrbitStep(next: Hash -> Hash, h: Hash, k: nat)
    requires k != 0
    ensures Orbit(next, h, k) == next(Orbit(next, h, k - 1))
  {
  }

  lemma ProbeHere<K, V>(next: Hash -> Hash, b: seq<Bucket<K, V>>, h: Hash, k: nat, key: K, i: nat)
    requires 5 <= |b| && i == Orbit(next, h, k) % (|b| - 1)
    ensures i == Place(next, h, k, |b| - 1)
    ensures Stops(next, b, h, key, k) <==> b[i].Has(key) || b[i].Free()
  {
    hide Orbit;
  }
}
