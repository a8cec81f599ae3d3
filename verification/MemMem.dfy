/** AK/MemMem.h: substring search by bitap and by Knuth-Morris-Pratt over chunks. */
module MemMem {
  import opened Basics

  type Byte = x: int | 0 <= x < 256

  // ---------- what is searched for ----------

  predicate MatchesAt(h: seq<Byte>, w: seq<Byte>, i: nat) {
    i + |w| <= |h| && h[i..i + |w|] == w
  }

  /** Naive search: try every position in turn. */
  function FindFrom(h: seq<Byte>, w: seq<Byte>, i: nat): (r: Option<nat>)
    ensures r.Some? ==> i <= r.value && MatchesAt(h, w, r.value) && forall j :: i <= j < r.value ==> !MatchesAt(h, w, j)
    ensures r.None? ==> forall j :: i <= j ==> !MatchesAt(h, w, j)
    decreases |h| - i
  {
    if MatchesAt(h, w, i) then Some(i)
    else if i >= |h| then None
    else FindFrom(h, w, i + 1)
  }

  function Find(h: seq<Byte>, w: seq<Byte>): (r: Option<nat>) {
    FindFrom(h, w, 0)
  }

  lemma FoundAt(h: seq<Byte>, w: seq<Byte>, i: nat)
    requires MatchesAt(h, w, i) && forall j :: 0 <= j < i ==> !MatchesAt(h, w, j)
    ensures Find(h, w) == Some(i)
  {
  }

  lemma FoundNowhere(h: seq<Byte>, w: seq<Byte>)
    requires forall j :: 0 <= j ==> !MatchesAt(h, w, j)
    ensures Find(h, w) == None
  {
  }

  // ---------- Knuth-Morris-Pratt ----------

  /** The first k bytes of w are also the last k of its first i. */
  ghost predicate Border(w: seq<Byte>, i: nat, k: nat) {
    k <= i <= |w| && w[..k] == w[i - k..i]
  }

  /** k is where to go on after w[i] failed to match: the longest border of w[..i] that
      is not followed by w[i] again. */
  ghost predicate Fallback(w: seq<Byte>, i: nat, k: int) {
    i < |w| && -1 <= k < i
    && (k >= 0 ==> Border(w, i, k) && w[k] != w[i])
    && forall j :: 0 <= j < i && k < j && Border(w, i, j) ==> w[j] == w[i]
  }

  ghost predicate LongestBorder(w: seq<Byte>, i: nat, k: nat) {
    k < i && Border(w, i, k) && forall j :: k < j < i ==> !Border(w, i, j)
  }

  /** Borders of a border are borders. */
  lemma BorderOfBorder(w: seq<Byte>, i: nat, k: nat, j: nat)
    requires Border(w, i, k) && j <= k
    ensures Border(w, i, j) <==> Border(w, k, j)
  {
    assert w[i - j..i] == w[i - k..i][k - j..];
    assert w[k - j..k] == w[..k][k - j..];
  }

  lemma ExtendBorder(w: seq<Byte>, i: nat, k: nat)
    requires i < |w| && k < i
    ensures Border(w, i + 1, k + 1) <==> Border(w, i, k) && w[k] == w[i]
  {
    assert w[..k + 1] == w[..k] + [w[k]];
    assert w[i - k..i + 1] == w[i - k..i] + [w[i]];
  }

  /** No border longer than c goes on with the byte at i. */
  ghost predicate Skipped(w: seq<Byte>, i: nat, c: int) {
    i < |w| && -1 <= c < i && (c >= 0 ==> Border(w, i, c))
    && forall j :: 0 <= j < i && c < j && Border(w, i, j) ==> w[j] != w[i]
  }

  method PrepareTable(w: seq<Byte>) returns (table: array<int>)
    requires |w| > 0
    ensures fresh(table) && table.Length == |w|
    ensures forall i :: 0 <= i < |w| ==> Fallback(w, i, table[i])
  {
    table := new int[|w|];
    var position := 1;
    var candidate := 0;
    table[0] := -1;
    FirstEntries(w);
    hide Fallback, Border, LongestBorder, Skipped;
    while position < |w|
      invariant 1 <= position <= |w| && 0 <= candidate < position
      invariant LongestBorder(w, position, candidate)
      invariant forall i :: 0 <= i < position ==> -1 <= table[i] < i && Fallback(w, i, table[i])
    {
      if w[position] == w[candidate] {
        FallbackOfCandidate(w, position, candidate, table[candidate]);
        LongestExtends(w, position, candidate);
        table[position] := table[candidate];
      } else {
        LongestIsFallback(w, position, candidate);
        table[position] := candidate;
        SkipOn(w, position, candidate, table[candidate]);
        candidate := table[candidate];
        while candidate >= 0 && w[candidate] != w[position]
          invariant -1 <= candidate < position && Skipped(w, position, candidate)
          modifies {}
        {
          SkipOn(w, position, candidate, table[candidate]);
          candidate := table[candidate];
        }
        NextLongest(w, position, candidate);
      }
      position := position + 1;
      candidate := candidate + 1;
    }
  }

  lemma FirstEntries(w: seq<Byte>)
    requires |w| > 0
    ensures Fallback(w, 0, -1) && LongestBorder(w, 1, 0)
  {
  }

  lemma LongestIsFallback(w: seq<Byte>, i: nat, k: nat)
    requires 0 < i < |w| && LongestBorder(w, i, k) && w[i] != w[k]
    ensures Fallback(w, i, k) && Skipped(w, i, k)
  {
  }

  lemma FallbackOfCandidate(w: seq<Byte>, i: nat, k: nat, f: int)
    requires 0 < i < |w| && LongestBorder(w, i, k) && w[i] == w[k] && Fallback(w, k, f)
    ensures Fallback(w, i, f)
  {
    forall j | 0 <= j < k ensures Border(w, i, j) <==> Border(w, k, j) {
      BorderOfBorder(w, i, k, j);
    }
  }

  lemma LongestExtends(w: seq<Byte>, i: nat, k: nat)
    requires 0 < i < |w| && LongestBorder(w, i, k) && w[i] == w[k]
    ensures LongestBorder(w, i + 1, k + 1)
  {
    ExtendBorder(w, i, k);
    var n := i + 1;
    forall j | k + 1 < j < n ensures !Border(w, n, j) {
      ExtendBorder(w, i, j - 1);
    }
  }

  lemma SkipOn(w: seq<Byte>, i: nat, k: nat, f: int)
    requires k < i && Skipped(w, i, k) && w[i] != w[k] && Fallback(w, k, f)
    ensures Skipped(w, i, f)
  {
    forall j | 0 <= j < k ensures Border(w, i, j) <==> Border(w, k, j) {
      BorderOfBorder(w, i, k, j);
    }
  }

  lemma NextLongest(w: seq<Byte>, i: nat, c: int)
    requires 0 < i && Skipped(w, i, c) && (c >= 0 ==> w[c] == w[i])
    ensures LongestBorder(w, i + 1, c + 1)
  {
    if c >= 0 {
      ExtendBorder(w, i, c);
    }
    var n := i + 1;
    forall j | c + 1 < j < n ensures !Border(w, n, j) {
      ExtendBorder(w, i, j - 1);
    }
  }

  // ---------- the search ----------

  ghost function Flatten(chunks: seq<seq<Byte>>): seq<Byte> {
    if chunks == [] then [] else chunks[0] + Flatten(chunks[1..])
  }

  lemma {:induction false} FlattenSplits(chunks: seq<seq<Byte>>, c: nat)
    requires c <= |chunks|
    ensures Flatten(chunks) == Flatten(chunks[..c]) + Flatten(chunks[c..])
  {
    if c == 0 {
      assert chunks[..0] == [] && chunks[0..] == chunks;
    } else {
      FlattenSplits(chunks[1..], c - 1);
      assert chunks[1..][..c - 1] == chunks[..c][1..] && chunks[1..][c - 1..] == chunks[c..];
      assert chunks[..c][0] == chunks[0];
    }
  }

  /** Where the scan stands: n bytes of w match up to p, and no match starts earlier. */
  ghost predicate Scanned(h: seq<Byte>, w: seq<Byte>, p: nat, n: nat) {
    n <= p <= |h| && n < |w| && w[..n] == h[p - n..p]
    && forall q :: 0 <= q < p - n ==> !MatchesAt(h, w, q)
  }

  lemma ScanFallsBack(h: seq<Byte>, w: seq<Byte>, p: nat, n: nat, f: int)
    requires Scanned(h, w, p, n) && p < |h| && w[n] != h[p] && Fallback(w, n, f)
    ensures if f < 0 then Scanned(h, w, p + 1, 0) else Scanned(h, w, p, f)
  {
    if f >= 0 {
      assert w[..f] == w[n - f..n] == w[..n][n - f..] == h[p - n..p][n - f..] == h[p - f..p];
    }
    var limit := if f < 0 then p + 1 else p - f;
    forall q | p - n <= q < limit ensures !MatchesAt(h, w, q) {
      if MatchesAt(h, w, q) {
        MatchGivesBorder(h, w, p, n, q);
      }
    }
  }

  lemma MatchGivesBorder(h: seq<Byte>, w: seq<Byte>, p: nat, n: nat, q: nat)
    requires n <= p < |h| && n < |w| && w[..n] == h[p - n..p] && p - n <= q <= p && MatchesAt(h, w, q)
    ensures Border(w, n, p - q) && w[p - q] == h[p]
  {
    var k := p - q;
    assert w[..k] == h[q..q + |w|][..k] == h[q..p];
    assert w[n - k..n] == w[..n][n - k..] == h[p - n..p][n - k..] == h[q..p];
    assert w[k] == h[q..q + |w|][k];
  }

  lemma ScanAdvances(h: seq<Byte>, w: seq<Byte>, p: nat, n: nat)
    requires Scanned(h, w, p, n) && p < |h| && w[n] == h[p]
    ensures if n + 1 == |w| then MatchesAt(h, w, p + 1 - |w|) && Find(h, w) == Some(p + 1 - |w|) else Scanned(h, w, p + 1, n + 1)
  {
    assert w[..n + 1] == w[..n] + [w[n]] && h[p - n..p + 1] == h[p - n..p] + [h[p]];
    if n + 1 == |w| {
      assert w[..n + 1] == w;
      FoundAt(h, w, p + 1 - |w|);
    }
  }

  method SearchChunks(chunks: seq<seq<Byte>>, needle: seq<Byte>) returns (r: Option<nat>)
    requires |needle| > 0
    ensures r == Find(Flatten(chunks), needle)
  {
    hide Fallback, Scanned, Flatten, Find;
    var table := PrepareTable(needle);
    ghost var h := Flatten(chunks);
    var total, current, n, c := 0, 0, 0, 0;
    ScanStarts(h, needle);
    ChunkAt(chunks, 0, 0);
    while c < |chunks|
      invariant 0 <= c <= |chunks| && 0 <= current && 0 <= n < |needle| && total >= 0
      invariant c < |chunks| ==> current <= |chunks[c]|
      invariant Scanned(h, needle, total, n)
      invariant total == |Flatten(chunks[..c])| + current && (c == |chunks| ==> current == 0)
      modifies {}
      decreases |chunks| - c, if c < |chunks| then |chunks[c]| - current else 0, n
    {
      var chunk := chunks[c];
      ChunkAt(chunks, c, current);
      if current >= |chunk| {
        current := 0;
        c := c + 1;
        continue;
      }
      if needle[n] == chunk[current] {
        ScanAdvances(h, needle, total, n);
        n := n + 1;
        current := current + 1;
        total := total + 1;
        if n == |needle| {
          return Some(total - n);
        }
        continue;
      }
      ScanFallsBack(h, needle, total, n, table[n]);
      FallbackBelow(needle, n, table[n]);
      n := table[n];
      if n < 0 {
        n := n + 1;
        current := current + 1;
        total := total + 1;
      }
    }
    ChunkAt(chunks, c, 0);
    ScanEnds(h, needle, total, n);
    return None;
  }

  lemma FallbackBelow(w: seq<Byte>, i: nat, k: int)
    requires Fallback(w, i, k)
    ensures -1 <= k < i
  {
  }

  lemma ScanStarts(h: seq<Byte>, w: seq<Byte>)
    requires |w| > 0
    ensures Scanned(h, w, 0, 0)
  {
  }

  lemma ScanEnds(h: seq<Byte>, w: seq<Byte>, p: nat, n: nat)
    requires Scanned(h, w, p, n) && p == |h|
    ensures Find(h, w) == None
  {
    FoundNowhere(h, w);
  }

  /** Byte `current` of chunk c, seen from the whole haystack. */
  lemma ChunkAt(chunks: seq<seq<Byte>>, c: nat, current: nat)
    requires c <= |chunks| && (c < |chunks| ==> current <= |chunks[c]|) && (c == |chunks| ==> current == 0)
    ensures var h, p := Flatten(chunks), |Flatten(chunks[..c])| + current;
            p <= |h| && (c == |chunks| ==> p == |h|) && (c == 0 ==> p == current)
            && (c < |chunks| && current < |chunks[c]| ==> p < |h| && h[p] == chunks[c][current])
            && (c < |chunks| && current == |chunks[c]| ==> p == |Flatten(chunks[..c + 1])|)
  {
    FlattenSplits(chunks, c);
    if c < |chunks| {
      assert Flatten(chunks[c..]) == chunks[c] + Flatten(chunks[c..][1..]);
      FlattenSplits(chunks[..c + 1], c);
      assert chunks[..c + 1][..c] == chunks[..c] && chunks[..c + 1][c..] == [chunks[c]];
      assert Flatten([chunks[c]]) == chunks[c] + Flatten([]) == chunks[c];
    } else {
      assert chunks[..c] == chunks && chunks[c..] == [];
    }
  }

  // ---------- bitap ----------

  /** A 64-bit word, least significant bit first. */
  type Word = w: seq<bool> | |w| == 64 witness seq(64, i => false)

  function Bits(lo: int, hi: int): Word {
    seq(64, i => lo <= i < hi)
  }

  function Or(a: Word, b: Word): Word {
    seq(64, i requires 0 <= i < 64 => a[i] || b[i])
  }

  function ShiftLeft(a: Word): Word {
    [false] + a[..63]
  }

  predicate Disjoint(a: Word, b: Word) {
    forall i :: 0 <= i < 64 ==> !(a[i] && b[i])
  }

  /** `0x00000001 << n` is a signed 32-bit integer: at 31 it is negative, and widening it
      to 64 bits copies its sign into the upper half. */
  function IntBit(n: nat): Word
    requires n < 32
  {
    if n == 31 then Bits(31, 64) else Bits(n, n + 1)
  }

  /** Bit j of the lookup word is clear when the last j bytes read are the needle's first j. */
  ghost predicate Tracks(lookup: Word, h: seq<Byte>, i: nat, w: seq<Byte>) {
    i <= |h| && |w| < 32 && !lookup[0]
    && forall j :: 1 <= j <= |w| ==> (!lookup[j] <==> j <= i && w[..j] == h[i - j..i])
  }

  ghost predicate MaskFor(mask: Word, w: seq<Byte>, n: nat, c: int) {
    forall j :: 0 <= j < 64 ==> (mask[j] <==> j < 32 && !(j < n <= |w| && w[j] == c))
  }

  lemma TracksOn(lookup: Word, mask: Word, h: seq<Byte>, i: nat, w: seq<Byte>)
    requires Tracks(lookup, h, i, w) && i < |h| && MaskFor(mask, w, |w|, h[i])
    ensures Tracks(ShiftLeft(Or(lookup, mask)), h, i + 1, w)
    ensures |w| == 31 ==> ShiftLeft(Or(lookup, mask))[32]
  {
    var l := ShiftLeft(Or(lookup, mask));
    forall j | 1 <= j <= |w| ensures !l[j] <==> j <= i + 1 && w[..j] == h[i + 1 - j..i + 1] {
      var k := j - 1;
      assert l[j] == (lookup[k] || mask[k]);
      assert w[..j] == w[..k] + [w[k]];
      if j <= i + 1 {
        assert h[i + 1 - j..i + 1] == h[i - k..i] + [h[i]];
        if k == 0 {
          assert w[..0] == h[i..i];
        }
      }
    }
  }

  method Bitap(h: seq<Byte>, w: seq<Byte>) returns (r: Option<nat>)
    requires |w| < 32
    ensures 1 <= |w| <= 30 ==> r == Find(h, w)
    ensures |w| == 31 ==> r == None
    ensures |w| == 0 ==> r == if h == [] then None else Some(1)
  {
    hide Find, FindFrom, Tracks, MaskFor;
    var lookup := Bits(1, 32);
    var masks := NeedleMasks(w);
    TracksStart(h, w);
    for i := 0 to |h|
      invariant Tracks(lookup, h, i, w)
      invariant |w| > 0 && |w| < 31 ==> forall q :: 0 <= q && q + |w| <= i ==> !MatchesAt(h, w, q)
      invariant |w| == 0 ==> i == 0
      modifies {}
    {
      TracksOn(lookup, masks[h[i]], h, i, w);
      lookup := Or(lookup, masks[h[i]]);
      lookup := ShiftLeft(lookup);
      TracksMatch(lookup, h, i + 1, w);
      if Disjoint(lookup, IntBit(|w|)) {
        if 1 <= |w| {
          FoundAt(h, w, i + 1 - |w|);
        }
        return Some(i + 1 - |w|);
      }
    }
    if 1 <= |w| <= 30 {
      FoundNowhere(h, w);
    }
    return None;
  }

  lemma TracksStart(h: seq<Byte>, w: seq<Byte>)
    requires |w| < 32
    ensures Tracks(Bits(1, 32), h, 0, w)
  {
  }

  /** What the test after each byte decides. */
  lemma TracksMatch(lookup: Word, h: seq<Byte>, i: nat, w: seq<Byte>)
    requires Tracks(lookup, h, i, w) && (|w| == 31 ==> lookup[32])
    ensures 1 <= |w| <= 30 ==> (Disjoint(lookup, IntBit(|w|)) <==> |w| <= i && MatchesAt(h, w, i - |w|))
    ensures |w| == 31 ==> !Disjoint(lookup, IntBit(|w|))
    ensures |w| == 0 ==> Disjoint(lookup, IntBit(|w|))
  {
    var b := IntBit(|w|);
    if 1 <= |w| <= 30 {
      assert Disjoint(lookup, b) <==> !lookup[|w|] by {
        assert b[|w|];
      }
      assert w[..|w|] == w;
    } else if |w| == 31 {
      assert b[32];
    }
  }

  method NeedleMasks(w: seq<Byte>) returns (masks: array<Word>)
    requires |w| < 32
    ensures fresh(masks) && masks.Length == 256
    ensures forall c :: 0 <= c < 256 ==> MaskFor(masks[c], w, |w|, c)
  {
    masks := new Word[256](i => Bits(0, 32));
    for i := 0 to |w|
      invariant forall c :: 0 <= c < 256 ==> MaskFor(masks[c], w, i, c)
    {
      masks[w[i]] := masks[w[i]][i := false];
    }
  }

  method MemMemOptional(h: seq<Byte>, w: seq<Byte>) returns (r: Option<nat>)
    ensures r == Find(h, w) <==> !(|w| == 31 && |h| > 31 && Find(h, w).Some?)
    ensures |w| == 31 && |h| > 31 ==> r == None
  {
    hide Find, FindFrom;
    if |w| == 0 {
      FoundAt(h, w, 0);
      return Some(0);
    }
    if |h| < |w| {
      FoundNowhere(h, w);
      return None;
    }
    if |h| == |w| {
      if h == w {
        assert h[0..|w|] == w;
        FoundAt(h, w, 0);
        return Some(0);
      }
      assert h[0..|w|] == h;
      FoundNowhere(h, w);
      return None;
    }
    if |w| < 32 {
      r := Bitap(h, w);
      return;
    }
    r := SearchChunks([h], w);
    assert Flatten([h]) == h + Flatten([]) == h;
  }

  const NEEDLE: seq<Byte> := [1, 2, 3, 4, 5, 6, 7, 8, 9, 10, 11, 12, 13, 14, 15, 16,
                              17, 18, 19, 20, 21, 22, 23, 24, 25, 26, 27, 28, 29, 30, 31]

  /** A 31-byte needle at the front of a 32-byte haystack is not found. */
  method NeedleMissed() returns (r: Option<nat>)
    ensures |NEEDLE| == 31 && Find(NEEDLE + [0], NEEDLE) == Some(0)
    ensures r == None
  {
    assert MatchesAt(NEEDLE + [0], NEEDLE, 0);
    FoundAt(NEEDLE + [0], NEEDLE, 0);
    r := MemMemOptional(NEEDLE + [0], NEEDLE);
  }
}
