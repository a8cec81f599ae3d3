/**
  The function AK/HashFunctions.h gives the table for its probes, on the 32 bits
  of a hash. It has a fixed point, so a probe that starts there stays there.
*/
module DoubleHashing {
  import opened HashTable

  function Mixed(k0: bv32): bv32 {
    var k1 := !k0 + (k0 >> 23);
    var k2 := k1 ^ (k1 << 12);
    var k3 := k2 ^ (k2 >> 7);
    var k4 := k3 ^ (k3 << 2);
    k4 ^ (k4 >> 20)
  }

  function DoubleHash(key: Hash): Hash {
    Mixed(key as bv32) as int
  }

  const STUCK_BITS: bv32 := 1711463637
  const STUCK: Hash := STUCK_BITS as int

  lemma MixedStays()
    ensures Mixed(STUCK_BITS) == STUCK_BITS
  {
  }

  lemma ThereAndBack(b: bv32)
    ensures (b as int) as bv32 == b
  {
  }

  /** `double_hash` maps this value to itself. */
  lemma StuckStays()
    ensures DoubleHash(STUCK) == STUCK
  {
    hide Mixed;
    ThereAndBack(STUCK_BITS);
    MixedStays();
  }

  /** A probe from a fixed point stays there, whatever the function. */
  lemma {:induction false} FixedOrbit(next: Hash -> Hash, h: Hash, k: nat)
    requires next(h) == h
    ensures Orbit(next, h, k) == h
  {
    if k != 0 {
      FixedOrbit(next, h, k - 1);
    }
  }

  /** A key whose hash is a fixed point is searched for without end exactly when its place holds another entry or a deleted one. */
  lemma FixedKey<K, V>(next: Hash -> Hash, b: seq<Bucket<K, V>>, h: Hash, key: K)
    requires WellFormed(b) && next(h) == h
    ensures Endless(next, b, h, key) <==> !b[h % (|b| - 1)].Has(key) && !b[h % (|b| - 1)].Free()
  {
    hide Orbit;
    forall k: nat
      ensures Stops(next, b, h, key, k) <==> b[h % (|b| - 1)].Has(key) || b[h % (|b| - 1)].Free()
    {
      FixedOrbit(next, h, k);
    }
    assert Endless(next, b, h, key) ==> !Stops(next, b, h, key, 0);
  }

  lemma FixedAt<K, V>(next: Hash -> Hash, b: seq<Bucket<K, V>>, hash: K -> Hash, m: map<K, V>, steps: map<K, nat>, key: K)
    requires Table(next, b, hash, m, steps) && key in m && next(hash(key)) == hash(key)
    ensures b[hash(key) % (|b| - 1)].used && b[hash(key) % (|b| - 1)].storage == Entry(key, m[key])
  {
    hide Orbit;
    FixedOrbit(next, hash(key), steps[key]);
    assert Settled(next, b, hash, m, steps, key);
  }

  /** Once a key with a fixed hash is in the table, a search for another with the same hash never ends. */
  lemma StuckAfter<K, V>(table: HashTable<K, V>, first: K, second: K)
    requires table.Consistent() && first in table.model && first != second
    requires table.hash(first) == table.hash(second) && table.next(table.hash(first)) == table.hash(first)
    ensures table.Stuck(second)
  {
    hide Orbit, Used, Deleted, Table, Endless, Place;
    var b := table.buckets[..];
    FlagsOf(table.next, b, table.hash, table.model, table.steps);
    FixedAt(table.next, b, table.hash, table.model, table.steps, first);
    FixedKey(table.next, b, table.hash(second), second);
  }

  /** Of two keys with that hash the first goes into an empty table, and inserting the second never finishes. */
  method TwoStuckKeys<K(==), V>(hash: K -> Hash, first: K, second: K, value: V) returns (r: SetResult, r': SetResult)
    requires first != second && hash(first) == STUCK && hash(second) == STUCK
    ensures r == InsertedNewEntry && r'.SetHangs?
  {
    hide Orbit, Used, Deleted, Table, Culprit, Ceiling, Limit, Endless, Place, Stops, DoubleHash;
    StuckStays();
    var table := new HashTable<K, V>(hash, DoubleHash);
    table.EmptyGrows(first);
    r := table.Set(first, value);
    StuckAfter(table, first, second);
    r' := table.Set(second, value);
  }

  const NEAR_BITS: bv32 := 65
  const NEAR: Hash := NEAR_BITS as int

  lemma MixedNear()
    ensures Mixed(NEAR_BITS) == 1329540
  {
  }

  lemma DoubleHashNear()
    ensures DoubleHash(NEAR) == 1329540
  {
    hide Mixed;
    ThereAndBack(NEAR_BITS);
    MixedNear();
  }

  /** Where probes from these two values lead in a table of capacity 4. */
  lemma NearProbes()
    ensures Place(DoubleHash, STUCK, 0, 4) == 1
    ensures Place(DoubleHash, NEAR, 0, 4) == 1 && Place(DoubleHash, NEAR, 1, 4) == 0
  {
    hide DoubleHash;
    DoubleHashNear();
    assert Orbit(DoubleHash, NEAR, 0) == NEAR;
    assert Orbit(DoubleHash, NEAR, 1) == DoubleHash(NEAR);
  }

  function Taken<K, V>(key: K, value: V): Bucket<K, V> {
    Bucket(true, false, false, Entry(key, value))
  }

  /** The stuck key first: the other one passes it. */
  lemma StuckThenNear<K, V>(first: K, second: K, value: V)
    requires first != second
    ensures var b := Cleared<K, V>(4)[1 := Taken(first, value)];
            && !Endless(DoubleHash, Cleared<K, V>(4), STUCK, first)
            && Put(DoubleHash, Cleared<K, V>(4), STUCK, first, value) == b
            && !Endless(DoubleHash, b, NEAR, second)
            && Put(DoubleHash, b, NEAR, second, value) == b[0 := Taken(second, value)]
  {
    hide Orbit, Place, Endless, Put, DoubleHash;
    NearProbes();
    var b := Cleared<K, V>(4);
    PutAt(DoubleHash, b, STUCK, first, value, 0);
    b := b[1 := Taken(first, value)];
    PutAt(DoubleHash, b, NEAR, second, value, 1);
  }

  /** The other one first: the stuck key finds its only place taken. */
  lemma NearThenStuck<K, V>(first: K, second: K, value: V)
    requires first != second
    ensures var b := Cleared<K, V>(4)[1 := Taken(second, value)];
            && !Endless(DoubleHash, Cleared<K, V>(4), NEAR, second)
            && Put(DoubleHash, Cleared<K, V>(4), NEAR, second, value) == b
            && Endless(DoubleHash, b, STUCK, first)
  {
    hide Orbit, Place, Endless, Put, DoubleHash;
    NearProbes();
    StuckStays();
    var b := Cleared<K, V>(4);
    PutAt(DoubleHash, b, NEAR, second, value, 0);
    FixedKey(DoubleHash, b[1 := Taken(second, value)], STUCK, first);
  }

  /** Refilling in bucket order meets the two keys the other way round. */
  lemma RefillReverses<K, V>(hash: K -> Hash, first: K, second: K, value: V)
    requires first != second && hash(first) == STUCK && hash(second) == NEAR
    ensures var b := Cleared<K, V>(4)[1 := Taken(first, value)][0 := Taken(second, value)];
            WellFormed(b) && Refill(DoubleHash, hash, b, 0, 4, 4).None?
  {
    hide Orbit, Place, Endless, Put, DoubleHash, Refill;
    NearThenStuck(first, second, value);
    var b := Cleared<K, V>(4)[1 := Taken(first, value)][0 := Taken(second, value)];
    RefillStarts(DoubleHash, hash, b, 0, 4);
    RefillStep(DoubleHash, hash, b, 0, 4, 0);
    RefillStep(DoubleHash, hash, b, 0, 4, 1);
    StaysLost(DoubleHash, hash, b, 0, 4, 2, 4);
  }

  /** Two keys that a table takes, one after the other, and that copying the table never gets past. */
  method CopyHangs<K(==), V>(hash: K -> Hash, first: K, second: K, value: V) returns (r: SetResult, r': SetResult, copied: Progress)
    requires first != second && hash(first) == STUCK && hash(second) == NEAR
    ensures r == InsertedNewEntry && r' == InsertedNewEntry && copied == Hanging
  {
    hide Orbit, Used, Deleted, Table, Culprit, Ceiling, Limit, Endless, Place, Stops, DoubleHash, Put, Refill, Cleared;
    StuckThenNear(first, second, value);
    RefillReverses(hash, first, second, value);
    var table := new HashTable<K, V>(hash, DoubleHash);
    r := table.Set(first, value);
    r' := table.Set(second, value);
    var copy;
    copy, copied := table.Copy();
  }
}
