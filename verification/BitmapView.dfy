/** AK/BitmapView.h: looking for a run of unset bits a 32-bit word at a time. */
module BitmapView {
  import opened Basics

  type Byte = x: int | 0 <= x < 256

  const ALL_ONES: nat := 0xffff_ffff

  // ---------- bits of a word ----------

  function BitOf(w: nat, i: nat): bool {
    if i == 0 then w % 2 == 1 else BitOf(w / 2, i - 1)
  }

  function ShiftRight(w: nat, k: nat): nat {
    if k == 0 then w else ShiftRight(w / 2, k - 1)
  }

  function TrailingZeroes(w: nat): nat
    requires w > 0
  {
    if w % 2 == 1 then 0 else 1 + TrailingZeroes(w / 2)
  }

  function Complement(w: nat): nat
    requires w <= ALL_ONES
  {
    ALL_ONES - w
  }

  lemma {:induction false} ShiftedBit(w: nat, k: nat, i: nat)
    ensures BitOf(ShiftRight(w, k), i) == BitOf(w, k + i)
    ensures ShiftRight(w, k) <= w
  {
    if k > 0 {
      ShiftedBit(w / 2, k - 1, i);
    }
  }

  lemma {:induction false} ShiftTwice(w: nat, k: nat, l: nat)
    ensures ShiftRight(ShiftRight(w, k), l) == ShiftRight(w, k + l)
  {
    if k > 0 {
      ShiftTwice(w / 2, k - 1, l);
    }
  }

  lemma {:induction false} ShiftBounds(w: nat, k: nat, n: nat)
    requires k <= n && w < Pow2(n)
    ensures ShiftRight(w, k) < Pow2(n - k)
  {
    if k > 0 {
      ShiftBounds(w / 2, k - 1, n - 1);
    }
  }

  lemma {:induction false} ZeroHasNoBits(i: nat)
    ensures !BitOf(0, i)
  {
    if i > 0 {
      ZeroHasNoBits(i - 1);
    }
  }

  lemma {:induction false} TrailingZeroBits(w: nat, n: nat)
    requires 0 < w < Pow2(n)
    ensures TrailingZeroes(w) < n && BitOf(w, TrailingZeroes(w))
    ensures forall i :: 0 <= i < TrailingZeroes(w) ==> !BitOf(w, i)
  {
    if w % 2 == 0 {
      assert n > 0;
      TrailingZeroBits(w / 2, n - 1);
      forall i | 0 <= i < TrailingZeroes(w) ensures !BitOf(w, i) {
        if i > 0 {
          assert !BitOf(w / 2, i - 1);
        }
      }
    }
  }

  lemma {:induction false} ComplementBits(w: nat, n: nat, i: nat)
    requires w < Pow2(n) && i < n
    ensures BitOf(Pow2(n) - 1 - w, i) == !BitOf(w, i)
  {
    if i > 0 {
      assert (Pow2(n) - 1 - w) / 2 == Pow2(n - 1) - 1 - w / 2;
      ComplementBits(w / 2, n - 1, i - 1);
    }
  }

  lemma Pow2Of32()
    ensures Pow2(32) == ALL_ONES + 1
  {
    assert Pow2(8) == 256;
    assert Pow2(16) == 65536;
    assert Pow2(24) == 0x100_0000;
  }

  // ---------- the bitmap ----------

  function Bit(data: seq<Byte>, i: nat): bool
    requires i / 8 < |data|
  {
    BitOf(data[i / 8], i % 8)
  }

  /** Word k of the bitmap, as a little-endian machine reads it. */
  function Word(data: seq<Byte>, k: nat): nat
    requires 4 * k + 4 <= |data|
  {
    var a: nat, b: nat, c: nat, d: nat := data[4 * k], data[4 * k + 1], data[4 * k + 2], data[4 * k + 3];
    a + 256 * (b + 256 * (c + 256 * d))
  }

  lemma LowByte(b: nat, rest: nat, i: nat)
    requires b < 256
    ensures i < 8 ==> BitOf(b + 256 * rest, i) == BitOf(b, i)
    ensures i >= 8 ==> BitOf(b + 256 * rest, i) == BitOf(rest, i - 8)
  {
    assert Pow2(7) == 128 && Pow2(8) == 256;
    if i < 8 {
      LowBitsIn(b, rest, 8, i);
    } else {
      ShiftedBit(b + 256 * rest, 8, i - 8);
      ShiftDrops(b, rest, 8);
    }
  }

  lemma {:induction false} ShiftDrops(b: nat, rest: nat, n: nat)
    requires b < Pow2(n)
    ensures ShiftRight(b + Pow2(n) * rest, n) == rest
  {
    if n > 0 {
      assert Pow2(n) * rest == 2 * (Pow2(n - 1) * rest);
      assert (b + Pow2(n) * rest) / 2 == b / 2 + Pow2(n - 1) * rest;
      ShiftDrops(b / 2, rest, n - 1);
    }
  }

  lemma {:induction false} LowBitsIn(b: nat, rest: nat, n: nat, i: nat)
    requires i < n
    ensures BitOf(b + Pow2(n) * rest, i) == BitOf(b, i)
  {
    assert Pow2(n) * rest == 2 * (Pow2(n - 1) * rest);
    if i > 0 {
      assert (b + Pow2(n) * rest) / 2 == b / 2 + Pow2(n - 1) * rest;
      LowBitsIn(b / 2, rest, n - 1, i - 1);
    }
  }

  lemma WordBit(data: seq<Byte>, k: nat, i: nat)
    requires 4 * k + 4 <= |data| && i < 32
    ensures BitOf(Word(data, k), i) == Bit(data, 32 * k + i)
  {
    var a: nat, b: nat, c: nat, d: nat := data[4 * k], data[4 * k + 1], data[4 * k + 2], data[4 * k + 3];
    LowByte(a, b + 256 * (c + 256 * d), i);
    if i >= 8 {
      LowByte(b, c + 256 * d, i - 8);
      if i >= 16 {
        LowByte(c, d, i - 16);
      }
    }
    assert (32 * k + i) / 8 == 4 * k + i / 8 && (32 * k + i) % 8 == i % 8;
  }

  // ---------- runs of unset bits ----------

  ghost predicate AllUnset(data: seq<Byte>, i: nat, j: nat)
    requires j <= 8 * |data|
  {
    forall k :: i <= k < j ==> !Bit(data, k)
  }

  /** A run of n unset bits starts at i, within the first `size` bits. */
  ghost predicate FitsAt(data: seq<Byte>, size: nat, n: nat, i: nat)
    requires size <= 8 * |data|
  {
    i + n <= size && AllUnset(data, i, i + n)
  }

  /** Naive first fit: try every position in turn. */
  ghost function FirstFitFrom(data: seq<Byte>, size: nat, n: nat, i: nat): (r: Option<nat>)
    requires size <= 8 * |data|
    ensures r.Some? ==> i <= r.value && FitsAt(data, size, n, r.value) && forall j :: i <= j < r.value ==> !FitsAt(data, size, n, j)
    ensures r.None? ==> forall j :: i <= j ==> !FitsAt(data, size, n, j)
    decreases size - i
  {
    if FitsAt(data, size, n, i) then Some(i)
    else if i >= size then None
    else FirstFitFrom(data, size, n, i + 1)
  }

  /** After the bits from `origin` up to `pos`: the last `free` of them are unset, the bit
      before those is set unless they begin the scan, and no run of n bits started earlier. */
  ghost predicate Scanned(data: seq<Byte>, n: nat, origin: nat, pos: nat, free: nat, from: nat)
    requires pos <= 8 * |data|
  {
    origin + free <= pos && AllUnset(data, pos - free, pos)
    && (pos - free > origin ==> Bit(data, pos - free - 1))
    && (free > 0 ==> from == pos - free)
    && forall i :: origin <= i < pos - free ==> !FitsAt(data, pos, n, i)
  }

  lemma NoFitAcross(data: seq<Byte>, size: nat, n: nat, i: nat, b: nat)
    requires size <= 8 * |data| && i <= b < i + n && b < 8 * |data| && Bit(data, b)
    ensures !FitsAt(data, size, n, i)
  {
  }

  lemma RunGrows(data: seq<Byte>, n: nat, origin: nat, pos: nat, free: nat, from: nat, k: nat)
    requires pos + k <= 8 * |data| && Scanned(data, n, origin, pos, free, from) && AllUnset(data, pos, pos + k)
    ensures Scanned(data, n, origin, pos + k, free + k, if free == 0 then pos else from)
  {
    var e := pos + k;
    forall i | origin <= i < pos - free ensures !FitsAt(data, e, n, i) {
      assert !FitsAt(data, pos, n, i);
      if i + n > pos - free {
        NoFitAcross(data, e, n, i, pos - free - 1);
      }
    }
  }

  lemma RunBreaks(data: seq<Byte>, n: nat, origin: nat, pos: nat, free: nat, from: nat, k: nat)
    requires 0 < k && pos + k <= 8 * |data| && Scanned(data, n, origin, pos, free, from) && free < n
    requires forall i :: pos <= i < pos + k ==> Bit(data, i)
    ensures Scanned(data, n, origin, pos + k, 0, from)
  {
    var e := pos + k;
    forall i | origin <= i < e ensures !FitsAt(data, e, n, i) {
      if i < pos - free {
        assert !FitsAt(data, pos, n, i);
        if i + n > pos {
          NoFitAcross(data, e, n, i, pos);
        }
      } else {
        NoFitAcross(data, e, n, i, if i < pos then pos else i);
      }
    }
    assert Bit(data, e - 1);
  }

  /** A long enough run found so far is the first fit. */
  lemma RunFits(data: seq<Byte>, size: nat, n: nat, origin: nat, pos: nat, free: nat, from: nat)
    requires pos <= size <= 8 * |data| && Scanned(data, n, origin, pos, free, from) && free >= n && (n == 0 ==> from == origin)
    ensures FirstFitFrom(data, size, n, origin) == Some(from) && FitsAt(data, size, free, from)
  {
    assert FitsAt(data, size, n, from);
    forall i | origin <= i < from ensures !FitsAt(data, size, n, i) {
      assert !FitsAt(data, pos, n, i);
      if i + n > pos - free {
        NoFitAcross(data, size, n, i, pos - free - 1);
      }
    }
  }

  lemma NothingFits(data: seq<Byte>, size: nat, n: nat, origin: nat, free: nat, from: nat)
    requires size <= 8 * |data| && Scanned(data, n, origin, size, free, from) && free < n
    ensures FirstFitFrom(data, size, n, origin) == None
  {
    forall i | origin <= i ensures !FitsAt(data, size, n, i) {
      if i < size - free {
        assert !FitsAt(data, size, n, i);
      }
    }
  }

  // ---------- the word scan ----------

  lemma EmptyRest(data: seq<Byte>, k: nat, viewed: nat)
    requires 4 * k + 4 <= |data| && viewed <= 32 && ShiftRight(Word(data, k), viewed) == 0
    ensures AllUnset(data, 32 * k + viewed, 32 * k + 32) && ShiftRight(Word(data, k), 32) == 0
  {
    Pow2Of32();
    ShiftBounds(Word(data, k), 32, 32);
    forall j | 32 * k + viewed <= j < 32 * k + 32 ensures !Bit(data, j) {
      var i := j - 32 * k;
      WordBit(data, k, i);
      ShiftedBit(Word(data, k), viewed, i - viewed);
      ZeroHasNoBits(i - viewed);
    }
  }

  lemma LeadingZeroes(data: seq<Byte>, k: nat, viewed: nat)
    requires 4 * k + 4 <= |data| && viewed < 32 && ShiftRight(Word(data, k), viewed) > 0
    ensures var z := TrailingZeroes(ShiftRight(Word(data, k), viewed));
            viewed + z < 32 && AllUnset(data, 32 * k + viewed, 32 * k + viewed + z) && Bit(data, 32 * k + viewed + z)
            && ShiftRight(Word(data, k), viewed + z) % 2 == 1
  {
    hide ShiftRight, TrailingZeroes, Bit;
    var w := Word(data, k);
    var b := ShiftRight(w, viewed);
    var z := TrailingZeroes(b);
    Pow2Of32();
    ShiftBounds(w, viewed, 32);
    TrailingZeroBits(b, 32 - viewed);
    forall j | 32 * k + viewed <= j < 32 * k + viewed + z ensures !Bit(data, j) {
      WordBit(data, k, j - 32 * k);
      ShiftedBit(w, viewed, j - 32 * k - viewed);
    }
    WordBit(data, k, viewed + z);
    ShiftedBit(w, viewed, z);
    ShiftedBit(w, viewed + z, 0);
  }

  lemma LeadingOnes(data: seq<Byte>, k: nat, viewed: nat)
    requires 4 * k + 4 <= |data| && viewed < 32 && Word(data, k) != ALL_ONES && ShiftRight(Word(data, k), viewed) % 2 == 1
    ensures ShiftRight(Word(data, k), viewed) < ALL_ONES
    ensures var o := TrailingZeroes(Complement(ShiftRight(Word(data, k), viewed)));
            0 < o && viewed + o <= 32 && forall j :: 32 * k + viewed <= j < 32 * k + viewed + o ==> Bit(data, j)
  {
    hide TrailingZeroes, Bit;
    var w := Word(data, k);
    var b := ShiftRight(w, viewed);
    Pow2Of32();
    ShiftBounds(w, viewed, 32);
    if viewed == 0 {
      assert b == w;
    } else {
      Pow2Halves(32 - viewed);
    }
    var c := Complement(b);
    TrailingZeroBits(c, 32);
    var o := TrailingZeroes(c);
    assert o <= 32 - viewed by {
      if o > 32 - viewed {
        ComplementBits(b, 32, 32 - viewed);
        HighBitClear(b, 32 - viewed);
      }
    }
    forall j | 32 * k + viewed <= j < 32 * k + viewed + o ensures Bit(data, j) {
      var i := j - 32 * k - viewed;
      ComplementBits(b, 32, i);
      WordBit(data, k, viewed + i);
      ShiftedBit(w, viewed, i);
    }
  }

  lemma {:induction false} HighBitClear(b: nat, n: nat)
    requires b < Pow2(n)
    ensures !BitOf(b, n)
  {
    if n > 0 {
      HighBitClear(b / 2, n - 1);
    }
  }

  lemma Pow2Halves(n: nat)
    requires n < 32
    ensures Pow2(n) <= ALL_ONES
  {
    Pow2Of32();
    Pow2Grows(n, 31);
  }

  lemma FullWord(data: seq<Byte>, k: nat)
    requires 4 * k + 4 <= |data| && Word(data, k) == ALL_ONES
    ensures forall j :: 32 * k <= j < 32 * k + 32 ==> Bit(data, j)
  {
    Pow2Of32();
    forall j | 32 * k <= j < 32 * k + 32 ensures Bit(data, j) {
      var i := j - 32 * k;
      WordBit(data, k, i);
      ComplementBits(0, 32, i);
      ZeroHasNoBits(i);
    }
  }

  lemma WordBounds(data: seq<Byte>, k: nat)
    requires 4 * k + 4 <= |data|
    ensures Word(data, k) <= ALL_ONES
  {
  }

  /** The inner loop: the rest of a word that is neither empty nor full. */
  method ScanWord(data: seq<Byte>, k: nat, start: nat, min: nat, free0: nat, from0: nat, ghost origin: nat)
    returns (found: bool, free: nat, from: nat)
    requires 4 * k + 4 <= |data| && start < 32 && Word(data, k) != ALL_ONES && Word(data, k) != 0
    requires Scanned(data, min, origin, 32 * k + start, free0, from0) && (min == 0 ==> from0 == origin && 32 * k + start == origin + free0)
    ensures found ==> free >= min
    ensures found ==> forall size :: 32 * k + 32 <= size <= 8 * |data| ==>
              FirstFitFrom(data, size, min, origin) == Some(from) && FitsAt(data, size, free, from)
    ensures !found ==> Scanned(data, min, origin, 32 * k + 32, free, from) && (min == 0 ==> from == origin && 32 * k + 32 == origin + free)
  {
    hide Scanned, AllUnset, FirstFitFrom, Word, ShiftRight, TrailingZeroes;
    WordBounds(data, k);
    var bucket, viewed := Word(data, k), start;
    free, from := free0, from0;
    ShiftNone(bucket);
    bucket := ShiftRight(bucket, viewed);
    while viewed < 32
      invariant viewed <= 32 && bucket == ShiftRight(Word(data, k), viewed)
      invariant Scanned(data, min, origin, 32 * k + viewed, free, from)
      invariant min == 0 ==> from == origin && 32 * k + viewed == origin + free
      decreases 32 - viewed
    {
      if bucket == 0 {
        EmptyRest(data, k, viewed);
        RunGrows(data, min, origin, 32 * k + viewed, free, from, 32 - viewed);
        if free == 0 {
          from := 32 * k + viewed;
        }
        free := free + 32 - viewed;
        viewed := 32;
      } else {
        LeadingZeroes(data, k, viewed);
        var zeroes := TrailingZeroes(bucket);
        RunGrows(data, min, origin, 32 * k + viewed, free, from, zeroes);
        ShiftTwice(Word(data, k), viewed, zeroes);
        bucket := ShiftRight(bucket, zeroes);
        if free == 0 {
          from := 32 * k + viewed;
        }
        free := free + zeroes;
        viewed := viewed + zeroes;
        if free >= min {
          FitsWhatever(data, min, origin, 32 * k + viewed, free, from, 32 * k + 32);
          return true, free, from;
        }
        LeadingOnes(data, k, viewed);
        var ones := TrailingZeroes(Complement(bucket));
        RunBreaks(data, min, origin, 32 * k + viewed, free, from, ones);
        ShiftTwice(Word(data, k), viewed, ones);
        bucket := ShiftRight(bucket, ones);
        viewed := viewed + ones;
        free := 0;
      }
    }
    return false, free, from;
  }

  lemma ShiftNone(w: nat)
    ensures ShiftRight(w, 0) == w
  {
  }

  lemma FitsWhatever(data: seq<Byte>, n: nat, origin: nat, pos: nat, free: nat, from: nat, least: nat)
    requires pos <= least && pos <= 8 * |data| && Scanned(data, n, origin, pos, free, from) && free >= n && (n == 0 ==> from == origin)
    ensures forall size :: least <= size <= 8 * |data| ==>
              FirstFitFrom(data, size, n, origin) == Some(from) && FitsAt(data, size, free, from)
  {
    forall size | least <= size <= 8 * |data|
      ensures FirstFitFrom(data, size, n, origin) == Some(from) && FitsAt(data, size, free, from)
    {
      RunFits(data, size, n, origin, pos, free, from);
    }
  }

  /** The bits after the last whole word, one at a time. */
  method ScanTail(data: seq<Byte>, size: nat, min: nat, free0: nat, from0: nat, ghost origin: nat)
    returns (found: bool, free: nat, from: nat)
    requires size <= 8 * |data| && free0 < min
    requires Scanned(data, min, origin, size / 32 * 32, free0, from0)
    ensures found ==> free >= min
    ensures found ==> FirstFitFrom(data, size, min, origin) == Some(from) && FitsAt(data, size, free, from)
    ensures !found ==> FirstFitFrom(data, size, min, origin) == None
  {
    hide Scanned, AllUnset, FirstFitFrom;
    var first, trailing := size / 32 * 32, size % 32;
    free, from := free0, from0;
    for i := 0 to trailing
      invariant free < min
      invariant Scanned(data, min, origin, first + i, free, from)
    {
      OneBit(data, first + i);
      if !Bit(data, first + i) {
        RunGrows(data, min, origin, first + i, free, from, 1);
        if free == 0 {
          from := first + i;
        }
        free := free + 1;
        if free >= min {
          RunFits(data, size, min, origin, first + i + 1, free, from);
          return true, free, from;
        }
      } else {
        RunBreaks(data, min, origin, first + i, free, from, 1);
        free := 0;
      }
    }
    NothingFits(data, size, min, origin, free, from);
    return false, free, from;
  }

  lemma OneBit(data: seq<Byte>, i: nat)
    requires i < 8 * |data|
    ensures !Bit(data, i) ==> AllUnset(data, i, i + 1)
  {
  }

  /** Where the search really begins: inside an empty word it moves back to the word's first
      bit, and inside the bits after the last whole word to the first of those. */
  ghost function Origin(data: seq<Byte>, size: nat, start: nat): nat
    requires size <= 8 * |data|
  {
    if start / 32 >= size / 32 then size / 32 * 32
    else if Word(data, start / 32) == 0 then start / 32 * 32
    else start
  }

  lemma FitsShorter(data: seq<Byte>, size: nat, m: nat, n: nat, i: nat)
    requires size <= 8 * |data| && m <= n && FitsAt(data, size, n, i)
    ensures FitsAt(data, size, m, i)
  {
  }

  /** `find_next_range_of_unset_bits`: the length found and the new value of `from`. */
  method FindNextRange(data: seq<Byte>, size: nat, start: nat, min: nat, max: nat) returns (r: Option<nat>, from: nat)
    requires size <= 8 * |data|
    ensures min > max ==> r == None && from == start
    ensures (min > 0 || start <= size / 32 * 32) && min <= max && r.Some? ==>
              && min <= r.value <= max && FitsAt(data, size, r.value, from)
              && FirstFitFrom(data, size, min, Origin(data, size, start)) == Some(from)
    ensures (min > 0 || start <= size / 32 * 32) && min <= max && r.None? ==>
              FirstFitFrom(data, size, min, Origin(data, size, start)) == None
    ensures min == 0 && start > size / 32 * 32 ==> r == Some(0) && from == start
  {
    hide Scanned, AllUnset, FirstFitFrom, FitsAt, Word, BitOf;
    ghost var exact := min > 0 || start <= size / 32 * 32;
    ghost var origin := Origin(data, size, start);
    from := start;
    if min > max {
      return None, from;
    }
    var index: nat, bit: nat := start / 32, start % 32;
    var free: nat := 0;
    ghost var pos: nat := origin;
    ScanBegins(data, min, origin, start);
    while index < size / 32
      invariant pos <= 8 * |data| && (exact ==> Scanned(data, min, origin, pos, free, from))
      invariant index < size / 32 ==> pos == if Word(data, index) == 0 then 32 * index else 32 * index + bit
      invariant index >= size / 32 ==> pos == size / 32 * 32
      invariant exact && min == 0 ==> pos == origin + free && (from == origin || (free == 0 && index < size / 32 && Word(data, index) == 0))
      invariant !exact ==> free == 0 && from == start && index >= size / 32
      invariant bit < 32
      decreases size / 32 - index
    {
      WordBounds(data, index);
      if Word(data, index) == ALL_ONES {
        if free >= min {
          RunFits(data, size, min, origin, pos, free, from);
          FitsShorter(data, size, Min(free, max), free, from);
          return Some(Min(free, max)), from;
        }
        FullWord(data, index);
        RunBreaks(data, min, origin, pos, free, from, 32 - bit);
        free := 0;
      } else if Word(data, index) == 0 {
        ZeroWord(data, index);
        RunGrows(data, min, origin, pos, free, from, 32);
        if free == 0 {
          from := index * 32;
        }
        free := free + 32;
        if free >= max {
          RunFits(data, size, min, origin, pos + 32, free, from);
          FitsShorter(data, size, max, free, from);
          return Some(max), from;
        }
      } else {
        var found;
        found, free, from := ScanWord(data, index, bit, min, free, from, origin);
        if found {
          FitsShorter(data, size, Min(free, max), free, from);
          return Some(Min(free, max)), from;
        }
      }
      bit := 0;
      index := index + 1;
      pos := 32 * index;
    }
    if free < min {
      var found;
      found, free, from := ScanTail(data, size, min, free, from, origin);
      if found { FitsShorter(data, size, Min(free, max), free, from); }
      return if found then Some(Min(free, max)) else None, from;
    }
    if exact {
      RunFits(data, size, min, origin, size / 32 * 32, free, from);
      FitsShorter(data, size, Min(free, max), free, from);
    }
    return Some(Min(free, max)), from;
  }

  lemma ScanBegins(data: seq<Byte>, n: nat, origin: nat, from: nat)
    requires origin <= 8 * |data|
    ensures Scanned(data, n, origin, origin, 0, from)
  {
  }

  lemma ZeroWord(data: seq<Byte>, k: nat)
    requires 4 * k + 4 <= |data| && Word(data, k) == 0
    ensures AllUnset(data, 32 * k, 32 * k + 32)
  {
    EmptyRest(data, k, 0);
  }

  method FindFirstFit(data: seq<Byte>, size: nat, minimum: nat) returns (r: Option<nat>)
    requires size <= 8 * |data|
    ensures r == FirstFitFrom(data, size, minimum, 0)
  {
    hide FirstFitFrom;
    var length, start := FindNextRange(data, size, 0, minimum, minimum);
    if length.Some? {
      return Some(start);
    }
    return None;
  }

  // ---------- where the search begins ----------

  /** Beginning the search earlier gives the same result exactly when no run begins in
      between; otherwise it finds one of those. */
  lemma EarlierStart(data: seq<Byte>, size: nat, n: nat, origin: nat, start: nat)
    requires size <= 8 * |data| && origin <= start
    ensures FirstFitFrom(data, size, n, origin) == FirstFitFrom(data, size, n, start)
       <==> forall i :: origin <= i < start ==> !FitsAt(data, size, n, i)
    ensures FirstFitFrom(data, size, n, origin) != FirstFitFrom(data, size, n, start) ==>
              FirstFitFrom(data, size, n, origin).Some? && FirstFitFrom(data, size, n, origin).value < start
  {
    hide FitsAt;
    var early := FirstFitFrom(data, size, n, origin);
    if early.Some? && early.value < start {
      assert FitsAt(data, size, n, early.value);
    }
  }

  /** The search from any start is the first fit from there exactly when no run begins
      between where it really begins and the start. */
  lemma FromStartWhen(data: seq<Byte>, size: nat, n: nat, start: nat)
    requires size <= 8 * |data|
    ensures Origin(data, size, start) <= start
    ensures FirstFitFrom(data, size, n, Origin(data, size, start)) == FirstFitFrom(data, size, n, start)
       <==> forall i :: Origin(data, size, start) <= i < start ==> !FitsAt(data, size, n, i)
    ensures FirstFitFrom(data, size, n, Origin(data, size, start)) != FirstFitFrom(data, size, n, start) ==>
              var early := FirstFitFrom(data, size, n, Origin(data, size, start));
              early.Some? && early.value < start
  {
    hide FirstFitFrom, FitsAt;
    OriginBefore(data, size, start);
    EarlierStart(data, size, n, Origin(data, size, start), start);
  }

  lemma OriginBefore(data: seq<Byte>, size: nat, start: nat)
    requires size <= 8 * |data|
    ensures Origin(data, size, start) <= start
  {
    hide Word;
  }

  /** A start inside a whole word is moved back to a run before it exactly when the word is
      empty, the start is not its first bit, and the run fits from there. */
  lemma MovedBack(data: seq<Byte>, size: nat, start: nat, n: nat)
    requires size <= 8 * |data| && 0 < n && start / 32 < size / 32
    ensures FirstFitFrom(data, size, n, Origin(data, size, start)) != FirstFitFrom(data, size, n, start)
       <==> Word(data, start / 32) == 0 && start % 32 != 0 && FitsAt(data, size, n, start / 32 * 32)
    ensures Word(data, start / 32) == 0 && start % 32 != 0 && FitsAt(data, size, n, start / 32 * 32) ==>
              FirstFitFrom(data, size, n, Origin(data, size, start)) == Some(start / 32 * 32)
              && start / 32 * 32 < start
  {
    hide FirstFitFrom, Word;
    var k := start / 32;
    FromStartWhen(data, size, n, start);
    if Word(data, k) == 0 {
      ZeroWord(data, k);
      forall i | 32 * k <= i < start && FitsAt(data, size, n, i)
        ensures FitsAt(data, size, n, 32 * k)
      {
        RunBeginsEarlier(data, size, n, 32 * k, i);
      }
      FitsFirst(data, size, n, 32 * k);
    }
  }

  lemma RunBeginsEarlier(data: seq<Byte>, size: nat, n: nat, j: nat, i: nat)
    requires size <= 8 * |data| && j <= i && FitsAt(data, size, n, i) && AllUnset(data, j, i)
    ensures FitsAt(data, size, n, j)
  {
  }

  lemma FitsFirst(data: seq<Byte>, size: nat, n: nat, i: nat)
    requires size <= 8 * |data|
    ensures FitsAt(data, size, n, i) ==> FirstFitFrom(data, size, n, i) == Some(i)
  {
  }

  /** Runs of up to a word: an empty word and a start that is not its first bit are enough. */
  lemma MovedBackWithinWord(data: seq<Byte>, size: nat, start: nat, n: nat)
    requires size <= 8 * |data| && 0 < n <= 32 && start / 32 < size / 32
    ensures FirstFitFrom(data, size, n, Origin(data, size, start)) != FirstFitFrom(data, size, n, start)
       <==> Word(data, start / 32) == 0 && start % 32 != 0
  {
    hide FirstFitFrom, Word;
    MovedBack(data, size, start, n);
    if Word(data, start / 32) == 0 {
      ZeroWord(data, start / 32);
    }
  }

  /** A start after the last whole word is moved back to a run before it exactly when a run
      begins between the end of that word and the start. */
  lemma MovedBackInTail(data: seq<Byte>, size: nat, start: nat, n: nat)
    requires size <= 8 * |data| && size / 32 <= start / 32
    ensures FirstFitFrom(data, size, n, Origin(data, size, start)) != FirstFitFrom(data, size, n, start)
       <==> exists i :: size / 32 * 32 <= i < start && FitsAt(data, size, n, i)
  {
    hide FirstFitFrom, FitsAt, Word;
    FromStartWhen(data, size, n, start);
  }

  /** An empty bitmap of 40 bits: a search for one bit from 5 finds 0, and from 35 finds 32. */
  lemma MovedBackExample()
    ensures var data: seq<Byte> := [0, 0, 0, 0, 0];
            && FirstFitFrom(data, 40, 1, Origin(data, 40, 5)) == Some(0)
            && FirstFitFrom(data, 40, 1, Origin(data, 40, 35)) == Some(32)
  {
    var data: seq<Byte> := [0, 0, 0, 0, 0];
    NoBits();
    assert Word(data, 0) == 0;
    FitsFirst(data, 40, 1, 0);
    FitsFirst(data, 40, 1, 32);
  }

  lemma NoBits()
    ensures forall i :: 0 <= i < 40 ==> !Bit([0, 0, 0, 0, 0], i)
  {
    forall i: nat | i < 40
      ensures !Bit([0, 0, 0, 0, 0], i)
    {
      ZeroHasNoBits(i % 8);
    }
  }
}
