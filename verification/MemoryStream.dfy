/** AK/MemoryStream.h: the duplex stream that keeps its bytes in chunks. */
module MemoryStream {
  import opened Basics
  import opened MemMem

  const CHUNK: nat := 4096

  /** Byte k of the bytes the chunks hold. */
  function ByteAt(chunks: seq<seq<Byte>>, k: nat): Byte
    requires k / CHUNK < |chunks| && |chunks[k / CHUNK]| == CHUNK
  {
    chunks[k / CHUNK][k % CHUNK]
  }

  /** The chunks hold exactly `bytes`, in as few chunks as possible. */
  ghost predicate Stores(chunks: seq<seq<Byte>>, bytes: seq<Byte>) {
    |chunks| == (|bytes| + CHUNK - 1) / CHUNK
    && (forall c :: 0 <= c < |chunks| ==> |chunks[c]| == CHUNK)
    && forall k :: 0 <= k < |bytes| ==> ByteAt(chunks, k) == bytes[k]
  }

  /** Room for at least one more byte after `bytes`; what is past them is arbitrary. */
  ghost predicate Room(chunks: seq<seq<Byte>>, bytes: seq<Byte>) {
    |chunks| == |bytes| / CHUNK + 1
    && (forall c :: 0 <= c < |chunks| ==> |chunks[c]| == CHUNK)
    && forall k :: 0 <= k < |bytes| ==> ByteAt(chunks, k) == bytes[k]
  }

  lemma MakeRoom(chunks: seq<seq<Byte>>, bytes: seq<Byte>, chunk: seq<Byte>)
    requires Stores(chunks, bytes) && |chunk| == CHUNK
    ensures Room(if |bytes| % CHUNK == 0 then chunks + [chunk] else chunks, bytes)
  {
    if |bytes| % CHUNK == 0 {
      forall k | 0 <= k < |bytes| ensures ByteAt(chunks + [chunk], k) == bytes[k] {
        assert (chunks + [chunk])[k / CHUNK] == chunks[k / CHUNK];
        assert ByteAt(chunks, k) == bytes[k];
      }
    }
  }

  /** Copying into the last chunk appends to the bytes. */
  lemma FillRoom(chunks: seq<seq<Byte>>, bytes: seq<Byte>, more: seq<Byte>)
    requires Room(chunks, bytes) && 0 < |more| <= CHUNK - |bytes| % CHUNK
    ensures var o, l := |bytes| % CHUNK, |chunks| - 1;
            Stores(chunks[l := chunks[l][..o] + more + chunks[l][o + |more|..]], bytes + more)
  {
    var o, l := |bytes| % CHUNK, |chunks| - 1;
    var chunk := chunks[l][..o] + more + chunks[l][o + |more|..];
    var chunks', bytes' := chunks[l := chunk], bytes + more;
    forall k | 0 <= k < |bytes'| ensures ByteAt(chunks', k) == bytes'[k] {
      if k < |bytes| {
        assert ByteAt(chunks, k) == bytes[k];
        assert k / CHUNK == l ==> k % CHUNK < o;
      } else {
        assert k / CHUNK == l && k % CHUNK == o + (k - |bytes|);
      }
    }
  }

  /** From byte k on, its chunk holds the next bytes. */
  lemma ChunkHolds(chunks: seq<seq<Byte>>, bytes: seq<Byte>, k: nat)
    requires Stores(chunks, bytes) && k < |bytes|
    ensures k / CHUNK < |chunks| && |chunks[k / CHUNK]| == CHUNK
    ensures var n := Min(CHUNK - k % CHUNK, |bytes| - k);
            chunks[k / CHUNK][k % CHUNK..k % CHUNK + n] == bytes[k..k + n]
  {
    var n := Min(CHUNK - k % CHUNK, |bytes| - k);
    var chunk, o := chunks[k / CHUNK], k % CHUNK;
    forall j | k <= j < k + n ensures bytes[j] == chunk[o + (j - k)] {
      assert ByteAt(chunks, j) == bytes[j];
      assert j / CHUNK == k / CHUNK && j % CHUNK == o + (j - k);
    }
    assert chunk[o..o + n] == bytes[k..k + n];
  }

  lemma DropChunk(chunks: seq<seq<Byte>>, bytes: seq<Byte>)
    requires Stores(chunks, bytes) && |bytes| >= CHUNK
    ensures chunks != [] && Stores(chunks[1..], bytes[CHUNK..])
  {
    forall k | 0 <= k < |bytes| - CHUNK ensures ByteAt(chunks[1..], k) == bytes[CHUNK..][k] {
      assert ByteAt(chunks, k + CHUNK) == bytes[k + CHUNK];
      assert (k + CHUNK) / CHUNK == k / CHUNK + 1 && (k + CHUNK) % CHUNK == k % CHUNK;
    }
  }

  lemma FlattenNone()
    ensures Flatten([]) == []
  {
  }

  lemma FlattenOneMore(spans: seq<seq<Byte>>, span: seq<Byte>)
    ensures Flatten(spans + [span]) == Flatten(spans) + span
  {
    FlattenSplits(spans + [span], |spans|);
    assert (spans + [span])[..|spans|] == spans && (spans + [span])[|spans|..] == [span];
    assert Flatten([span]) == span + Flatten([]) == span;
  }

  /** The same bytes, counted from two different offsets. */
  lemma Reslice(s: seq<Byte>, a: nat, b: nat, k: nat, m: nat)
    requires a <= b && b + k + m <= |s|
    ensures s[a..][b - a + k..b - a + k + m] == s[b..][k..k + m]
  {
  }

  lemma Aligned(base: nat, n: nat)
    requires base % CHUNK == 0
    ensures (base + n) % CHUNK == n % CHUNK
  {
  }

  /** Where the chunks that start at byte `base` hold what follows byte `read + n` of everything written. */
  lemma NextBytes(chunks: seq<seq<Byte>>, written: seq<Byte>, base: nat, read: nat, n: nat)
    requires base % CHUNK == 0 && base <= read && read + n < |written| && Stores(chunks, written[base..])
    ensures var index, offset := (read - base + n) / CHUNK, (read + n) % CHUNK;
            var m := Min(CHUNK - offset, |written| - read - n);
            && offset == (read - base + n) % CHUNK && index < |chunks| && |chunks[index]| == CHUNK
            && chunks[index][offset..][..m] == written[read..][n..n + m]
  {
    hide Stores;
    var k := read - base + n;
    Aligned(base, k);
    ChunkHolds(chunks, written[base..], k);
    var offset := k % CHUNK;
    var m := Min(CHUNK - offset, |written| - read - n);
    Reslice(written, base, read, n, m);
    Slices(chunks[k / CHUNK], offset, m);
  }

  lemma Slices<T>(s: seq<T>, offset: nat, m: nat)
    requires offset + m <= |s|
    ensures s[offset..][..m] == s[offset..offset + m]
  {
  }

  lemma PrefixGrows(u: seq<Byte>, k: nat, more: seq<Byte>)
    requires k + |more| <= |u| && more == u[k..k + |more|]
    ensures u[..k] + more == u[..k + |more|]
  {
  }

  lemma PlaceIs(k: nat, index: int, offset: nat)
    requires index * CHUNK + offset == k && offset < CHUNK
    ensures index == k / CHUNK && offset == k % CHUNK
  {
  }

  lemma WholeSlice<T>(s: seq<T>)
    ensures s[..|s|] == s && s[0..] == s
  {
  }

  lemma ShorterSlice(u: seq<Byte>, k: nat, m: nat, n: nat)
    requires n <= m && k + m <= |u|
    ensures u[k..k + m][..n] == u[k..k + n]
  {
  }

  class DuplexMemoryStream {
    var chunks: seq<seq<Byte>>
    var writeOffset: nat
    var readOffset: nat
    var baseOffset: nat
    var error: bool
    ghost var written: seq<Byte>   // every byte ever written

    ghost predicate Valid()
      reads this
    {
      baseOffset % CHUNK == 0 && baseOffset <= readOffset <= writeOffset == |written|
      && readOffset - baseOffset < CHUNK
      && Stores(chunks, written[baseOffset..])
    }

    /** The bytes still to be read. */
    ghost function Unread(): seq<Byte>
      requires Valid()
      reads this
    {
      written[readOffset..]
    }

    constructor ()
      ensures Valid() && written == [] && Unread() == [] && !error
    {
      chunks, writeOffset, readOffset, baseOffset, error := [], 0, 0, 0, false;
      written := [];
    }

    method Write(bytes: seq<Byte>) returns (nwritten: nat)
      requires Valid()
      modifies this
      ensures Valid() && nwritten == |bytes| && error == old(error)
      ensures written == old(written) + bytes && Unread() == old(Unread()) + bytes
    {
      hide Stores;
      nwritten := 0;
      ghost var held := written[baseOffset..];
      assert held + bytes[..0] == held;
      while |bytes| - nwritten > 0
        invariant 0 <= nwritten <= |bytes|
        invariant Stores(chunks, held + bytes[..nwritten])
        modifies this`chunks
      {
        ghost var so := held + bytes[..nwritten];
        var offset := (writeOffset + nwritten) % CHUNK;
        Aligned(baseOffset, |so|);
        if offset == 0 {
          var uninitialized := new Byte[CHUNK];
          MakeRoom(chunks, so, uninitialized[..]);
          chunks := chunks + [uninitialized[..]];
        } else {
          MakeRoom(chunks, so, seq(CHUNK, i => 0));
        }
        var last := chunks[|chunks| - 1];
        var n := Min(|bytes| - nwritten, CHUNK - offset);
        FillRoom(chunks, so, bytes[nwritten..nwritten + n]);
        assert so + bytes[nwritten..nwritten + n] == held + bytes[..nwritten + n];
        chunks := chunks[|chunks| - 1 := last[..offset] + bytes[nwritten..nwritten + n] + last[offset + n..]];
        nwritten := nwritten + n;
      }
      assert held + bytes[..nwritten] == (written + bytes)[baseOffset..];
      writeOffset := writeOffset + nwritten;
      written := written + bytes;
    }

    method ReadWithoutConsuming(capacity: nat) returns (bytes: seq<Byte>)
      requires Valid()
      ensures bytes == Unread()[..Min(capacity, |Unread()|)]
    {
      hide Stores;
      bytes := [];
      while capacity - |bytes| > 0 && writeOffset - readOffset - |bytes| > 0
        invariant |bytes| <= capacity && |bytes| <= |Unread()| && bytes == Unread()[..|bytes|]
      {
        var nread := |bytes|;
        NextBytes(chunks, written, baseOffset, readOffset, nread);
        var index := (readOffset - baseOffset + nread) / CHUNK;
        var offset := (readOffset + nread) % CHUNK;
        var available := chunks[index][offset..];
        available := available[..Min(|available|, writeOffset - readOffset - nread)];
        var n := Min(|available|, capacity - nread);
        ShorterSlice(Unread(), nread, |available|, n);
        PrefixGrows(Unread(), nread, available[..n]);
        bytes := bytes + available[..n];
      }
    }

    method TryDiscardChunks()
      requires baseOffset % CHUNK == 0 && baseOffset <= readOffset <= writeOffset == |written|
      requires Stores(chunks, written[baseOffset..])
      modifies this`chunks, this`baseOffset
      ensures Valid()
    {
      hide Stores;
      while readOffset - baseOffset >= CHUNK
        invariant baseOffset % CHUNK == 0 && baseOffset <= readOffset
        invariant Stores(chunks, written[baseOffset..])
      {
        DropChunk(chunks, written[baseOffset..]);
        assert written[baseOffset..][CHUNK..] == written[baseOffset + CHUNK..];
        chunks := chunks[1..];
        baseOffset := baseOffset + CHUNK;
      }
    }

    method Read(capacity: nat) returns (bytes: seq<Byte>)
      requires Valid()
      modifies this
      ensures Valid() && written == old(written) && error == old(error)
      ensures bytes == if error then [] else old(Unread())[..Min(capacity, |old(Unread())|)]
      ensures old(Unread()) == bytes + Unread()
    {
      hide Stores;
      if error {
        return [];
      }
      bytes := ReadWithoutConsuming(capacity);
      readOffset := readOffset + |bytes|;
      TryDiscardChunks();
    }

    method DiscardOrError(count: nat) returns (ok: bool)
      requires Valid()
      modifies this
      ensures Valid() && written == old(written)
      ensures ok <==> count <= |old(Unread())|
      ensures Unread() == if ok then old(Unread())[count..] else old(Unread())
      ensures error == (old(error) || !ok)
    {
      hide Stores;
      if writeOffset - readOffset < count {
        error := true;
        return false;
      }
      readOffset := readOffset + count;
      TryDiscardChunks();
      return true;
    }

    method OffsetOf(value: seq<Byte>) returns (r: Option<nat>)
      requires Valid() && |value| > 0
      ensures r == Find(Unread(), value)
    {
      hide Stores, Find, Flatten;
      var spans: seq<seq<Byte>> := [];
      var index := (readOffset - baseOffset) / CHUNK;
      var offset := (readOffset - baseOffset) % CHUNK;
      var left := writeOffset - readOffset;
      ghost var unread := Unread();
      ghost var start := readOffset - baseOffset;
      FlattenNone();
      while left > 0
        invariant 0 <= left <= |unread| && 0 <= offset < CHUNK
        invariant left > 0 ==> index * CHUNK + offset == start + |unread| - left
        invariant Flatten(spans) == unread[..|unread| - left]
        decreases left
      {
        ghost var done := |unread| - left;
        NextBytes(chunks, written, baseOffset, readOffset, done);
        PlaceIs(start + done, index, offset);
        var span := chunks[index];
        if offset > 0 {
          span := span[offset..];
          offset := 0;
        }
        if left < |span| {
          FlattenOneMore(spans, span[..left]);
          PrefixGrows(unread, done, span[..left]);
          spans := spans + [span[..left]];
          left := 0;
          break;
        }
        WholeSlice(span);
        FlattenOneMore(spans, span);
        PrefixGrows(unread, done, span);
        left := left - |span|;
        spans := spans + [span];
        index := index + 1;
      }
      assert Unread()[..|Unread()|] == Unread();
      r := SearchChunks(spans, value);
    }
  }
}
