/**
  The bit streams of AK/BitStream.h. A machine word is the sequence of its bits,
  least significant first, so shifting is indexing and a little-endian store is
  a cut into bytes.
*/
module BitStream {
  import opened Basics

  type Bits = seq<bool>
  type Byte = b: Bits | |b| == 8 witness [false, false, false, false, false, false, false, false]
  type Word = w: Bits | |w| == 32 witness seq(32, _ => false)

  function Zeros(n: nat): (z: Bits)
    ensures |z| == n && forall i :: 0 <= i < n ==> !z[i]
  {
    seq(n, _ => false)
  }

  /** The bits of the bytes in order. */
  function Flatten(bytes: seq<Byte>): (r: Bits)
    ensures |r| == 8 * |bytes|
  {
    if bytes == [] then [] else Flatten(bytes[..|bytes| - 1]) + bytes[|bytes| - 1]
  }

  lemma FlattenOne(bytes: seq<Byte>, byte: Byte)
    ensures Flatten(bytes + [byte]) == Flatten(bytes) + byte
  {
    assert (bytes + [byte])[..|bytes|] == bytes;
  }

  lemma {:induction false} FlattenFirst(bytes: seq<Byte>)
    requires bytes != []
    ensures Flatten(bytes) == bytes[0] + Flatten(bytes[1..])
  {
    if |bytes| == 1 {
      assert bytes == [] + [bytes[0]];
      FlattenOne([], bytes[0]);
    } else {
      var front, last := bytes[..|bytes| - 1], bytes[|bytes| - 1];
      FlattenFirst(front);
      assert bytes[1..] == front[1..] + [last];
      FlattenOne(front[1..], last);
      FlattenOne(front, last);
      assert bytes == front + [last];
    }
  }

  /** The bytes of a little-endian store. */
  function Cut(bits: Bits): (bytes: seq<Byte>)
    requires |bits| % 8 == 0
    ensures |bytes| == |bits| / 8
  {
    if bits == [] then [] else [bits[..8]] + Cut(bits[8..])
  }

  lemma CutFirst(bits: Bits)
    requires |bits| % 8 == 0 && bits != []
    ensures 8 <= |bits| && Cut(bits) == [bits[..8]] + Cut(bits[8..])
  {
  }

  lemma {:induction false} FlattenCut(bytes: seq<Byte>, bits: Bits)
    requires |bits| % 8 == 0
    ensures Flatten(bytes + Cut(bits)) == Flatten(bytes) + bits
    decreases |bits|
  {
    hide Flatten;
    if bits == [] {
      assert bytes + Cut(bits) == bytes && Flatten(bytes) + bits == Flatten(bytes);
    } else {
      hide Cut;
      CutFirst(bits);
      var first, rest := bits[..8], bits[8..];
      FlattenOne(bytes, first);
      FlattenCut(bytes + [first], rest);
      assert bytes + Cut(bits) == bytes + [first] + Cut(rest);
      assert Flatten(bytes) + bits == Flatten(bytes) + first + rest;
    }
  }

  function Padding(n: nat): nat {
    if n % 8 == 0 then 0 else 8 - n % 8
  }

  /** Bits filled up with zeros to whole bytes. */
  function Padded(bits: Bits): (r: Bits)
    ensures |r| % 8 == 0
  {
    bits + Zeros(Padding(|bits|))
  }

  /** A byte stream with room for so many bytes; what does not fit is refused whole. */
  class Sink {
    const room: nat
    var bytes: seq<Byte>
    var error: bool

    constructor (room: nat)
      ensures this.room == room && bytes == [] && !error
    {
      this.room := room;
      bytes, error := [], false;
    }

    method WriteOrError(data: seq<Byte>) returns (ok: bool)
      modifies this
      ensures ok <==> |old(bytes)| + |data| <= room
      ensures if ok then bytes == old(bytes) + data && error == old(error) else bytes == old(bytes) && error
    {
      ok := |bytes| + |data| <= room;
      if ok {
        bytes := bytes + data;
      } else {
        error := true;
      }
    }
  }

  class Source {
    var bytes: seq<Byte>
    var error: bool

    constructor (bytes: seq<Byte>)
      ensures this.bytes == bytes && !error
    {
      this.bytes, error := bytes, false;
    }

    /** One byte, or anything at all with the error set. */
    method ReadByteOrError() returns (byte: Byte)
      modifies this
      ensures if old(bytes) == [] then bytes == [] && error
              else [byte] + bytes == old(bytes) && error == old(error)
    {
      byte := *;
      if bytes == [] {
        error := true;
      } else {
        byte, bytes := bytes[0], bytes[1..];
      }
    }
  }

  // ---------- writing ----------

  class OutputBitStream {
    const sink: Sink
    var nextByte: Option<Byte>
    var bitOffset: nat
    var fatal: bool

    /** A started byte is clear above its offset. */
    ghost predicate Filling()
      reads this, sink
    {
      && (nextByte.Some? ==> bitOffset < 8 && forall i :: bitOffset <= i < 8 ==> !nextByte.value[i])
      && |sink.bytes| <= sink.room
    }

    ghost predicate Valid()
      reads this, sink
    {
      Filling() && (nextByte.Some? ==> bitOffset != 0)
    }

    /** Every bit accepted so far. */
    ghost function Written(): Bits
      requires Filling()
      reads this, sink
    {
      Flatten(sink.bytes) + (if nextByte.Some? then nextByte.value[..bitOffset] else [])
    }

    constructor (sink: Sink)
      requires |sink.bytes| <= sink.room
      ensures Valid() && this.sink == sink && nextByte.None? && !fatal
    {
      this.sink := sink;
      nextByte, bitOffset, fatal := None, 0, false;
    }

    method Store(bits: Bits)
      requires |bits| % 8 == 0 && Valid() && nextByte.None?
      modifies sink
      ensures Valid() && (!sink.error ==> !old(sink.error) && Written() == old(Written()) + bits)
      ensures sink.error == (old(sink.error) || (|old(Written())| + |bits|) / 8 > sink.room)
    {
      hide Cut;
      FlattenCut(sink.bytes, bits);
      var ok := sink.WriteOrError(Cut(bits));
    }

    /** One turn of the loop that has a byte to fill. */
    method PutBit(bit: bool)
      requires Filling() && nextByte.Some? && !sink.error
      modifies this, sink
      ensures Valid() && fatal == old(fatal)
      ensures !sink.error ==> Written() == old(Written()) + [bit]
      ensures sink.error <==> (|old(Written())| + 1) / 8 > sink.room
    {
      ghost var before := nextByte.value;
      nextByte := Some(nextByte.value[bitOffset := nextByte.value[bitOffset] || bit]);
      bitOffset := bitOffset + 1;
      if bitOffset == 8 {
        FlattenOne(sink.bytes, nextByte.value);
        assert nextByte.value == before[..7] + [bit];
        var ok := sink.WriteOrError([nextByte.value]);
        nextByte := None;
      } else {
        assert nextByte.value[..bitOffset] == before[..bitOffset - 1] + [bit];
      }
    }

    method WriteBits(bits: Word, count: nat)
      requires Valid() && count <= 32
      modifies this, sink
      ensures Valid()
      ensures !sink.error ==> !old(sink.error) && Written() == old(Written()) + bits[..count] && fatal == old(fatal)
      ensures !old(sink.error) ==> (sink.error <==> (|old(Written())| + count) / 8 > sink.room)
    {
      hide Cut, Filling, Written, Flatten, Zeros;
      assert bits[..32] == bits;
      if count == 32 && nextByte.None? {
        Store(bits);
        return;
      }
      var written := 0;
      while written < count
        invariant Filling() && written <= count && (old(sink.error) ==> sink.error)
        invariant nextByte.Some? && bitOffset == 0 ==> written < count && !sink.error
        invariant !sink.error ==> Written() == old(Written()) + bits[..written] && fatal == old(fatal)
        invariant sink.error && !old(sink.error) ==> (|old(Written())| + count) / 8 > sink.room
        decreases count - written, if nextByte.None? then 1 else 0
      {
        if sink.error {
          SetFatalError();
          return;
        }
        if nextByte.Some? {
          PutBit(bits[written]);
          written := written + 1;
        } else if count - written >= 16 {
          Store(bits[written..written + 16]);
          assert bits[..written] + bits[written..written + 16] == bits[..written + 16];
          written := written + 16;
        } else if count - written >= 8 {
          Store(bits[written..written + 8]);
          assert bits[..written] + bits[written..written + 8] == bits[..written + 8];
          written := written + 8;
        } else {
          StartByte();
        }
      }
      Fits();
    }

    method SetFatalError()
      requires Filling()
      modifies this`fatal
      ensures Filling() && fatal
    {
      fatal := true;
    }

    method StartByte()
      requires Filling() && nextByte.None?
      modifies this
      ensures Filling() && Written() == old(Written()) && nextByte.Some? && bitOffset == 0 && fatal == old(fatal)
    {
      bitOffset := 0;
      nextByte := Some(Zeros(8));
    }

    lemma Fits()
      requires Filling()
      ensures |Written()| / 8 <= sink.room
    {
    }

    method AlignToByteBoundary()
      requires Valid()
      modifies this, sink
      ensures Valid() && nextByte.None?
      ensures !sink.error ==> !old(sink.error) && Flatten(sink.bytes) == Padded(old(Written())) && fatal == old(fatal)
      ensures !old(sink.error) ==> (sink.error <==> old(nextByte.Some?) && |old(sink.bytes)| + 1 > sink.room)
    {
      hide Flatten, Padded;
      if nextByte.Some? {
        PaddedByte(sink.bytes, nextByte.value, bitOffset);
        var ok := sink.WriteOrError([nextByte.value]);
        if !ok {
          fatal := true;
        }
        nextByte := None;
      } else {
        PaddedWhole(sink.bytes);
      }
    }
  }

  /** A started byte, written whole, is its bits and padding. */
  lemma PaddedByte(bytes: seq<Byte>, byte: Byte, offset: nat)
    requires 0 < offset < 8 && forall i :: offset <= i < 8 ==> !byte[i]
    ensures Flatten(bytes + [byte]) == Padded(Flatten(bytes) + byte[..offset])
  {
    FlattenOne(bytes, byte);
    hide Flatten;
    assert byte == byte[..offset] + Zeros(8 - offset);
    assert Padding(|Flatten(bytes) + byte[..offset]|) == 8 - offset;
  }

  lemma PaddedWhole(bytes: seq<Byte>)
    ensures Flatten(bytes) == Padded(Flatten(bytes) + [])
  {
    hide Flatten;
  }

  // ---------- reading ----------

  /** The bits as the low end of a word. */
  function Low(bits: Bits): (w: Word)
    requires |bits| <= 32
  {
    bits + Zeros(32 - |bits|)
  }

  lemma LowNone(bits: Bits)
    ensures Low(bits[..0]) == Zeros(32)
  {
  }

  lemma LowGrows(bits: Bits, n: nat)
    requires n < |bits| && n < 32
    ensures var w := Low(bits[..n]); Low(bits[..n + 1]) == w[n := w[n] || bits[n]]
  {
  }

  lemma FirstBit(byte: Byte, offset: nat, rest: Bits)
    requires offset < 8
    ensures byte[offset..] + rest == [byte[offset]] + (byte[offset + 1..] + rest)
    ensures offset == 7 ==> byte[offset..] + rest == [byte[offset]] + ([] + rest)
  {
  }

  class InputBitStream {
    const source: Source
    var nextByte: Option<Byte>
    var bitOffset: nat
    var fatal: bool

    ghost predicate Valid()
      reads this
    {
      nextByte.Some? ==> bitOffset < 8
    }

    /** The bits not yet read. */
    ghost function Remaining(): Bits
      requires Valid()
      reads this, source
    {
      (if nextByte.Some? then nextByte.value[bitOffset..] else []) + Flatten(source.bytes)
    }

    constructor (source: Source)
      ensures Valid() && this.source == source && nextByte.None? && !fatal
    {
      this.source := source;
      nextByte, bitOffset, fatal := None, 0, false;
    }

    /** One turn of the loop that has a byte at hand. */
    method TakeBit() returns (bit: bool)
      requires Valid() && nextByte.Some?
      modifies this
      ensures Valid() && fatal == old(fatal) && [bit] + Remaining() == old(Remaining())
    {
      hide Flatten;
      bit := nextByte.value[bitOffset];
      FirstBit(nextByte.value, bitOffset, Flatten(source.bytes));
      bitOffset := bitOffset + 1;
      if bitOffset == 8 {
        nextByte := None;
      }
    }

    /** One turn that fetches a byte. */
    method Fetch()
      requires Valid() && nextByte.None? && !source.error
      modifies this, source
      ensures Valid() && nextByte.Some? && fatal == old(fatal)
      ensures source.error <==> old(Remaining()) == []
      ensures !source.error ==> Remaining() == old(Remaining())
    {
      if source.bytes != [] {
        FlattenFirst(source.bytes);
      }
      var byte := source.ReadByteOrError();
      nextByte := Some(byte);
      bitOffset := 0;
    }

    method ReadBits(count: nat) returns (result: Word)
      requires Valid() && count <= 32
      modifies this, source
      ensures Valid()
      ensures var failed := count > |old(Remaining())| || (old(source.error) && count != 0);
              if failed then source.error && fatal && result == Zeros(32)
              else
                && source.error == old(source.error) && fatal == old(fatal)
                && result == Low(old(Remaining())[..count]) && Remaining() == old(Remaining())[count..]
    {
      hide Flatten, Remaining, Low, Zeros;
      result := Zeros(32);
      ghost var before := Remaining();
      LowNone(before);
      var nread := 0;
      while nread < count
        invariant Valid() && nread <= count
        invariant source.error ==> if old(source.error) then nread == 0 else nread < count && count > |before|
        invariant old(source.error) ==> source.error
        invariant !source.error || old(source.error) ==>
                    && nread <= |before| && fatal == old(fatal)
                    && result == Low(before[..nread]) && Remaining() == before[nread..]
        decreases count - nread, if source.error then 0 else 1, if nextByte.None? then 1 else 0
      {
        if source.error {
          fatal := true;
          return Zeros(32);
        }
        if nextByte.Some? {
          var bit := TakeBit();
          assert before[nread] == bit && before[nread..][1..] == before[nread + 1..];
          LowGrows(before, nread);
          result := result[nread := result[nread] || bit];
          nread := nread + 1;
        } else {
          Fetch();
        }
      }
    }

    method AlignToByteBoundary()
      requires Valid()
      modifies this
      ensures Valid() && Remaining() == Flatten(source.bytes)
    {
      if nextByte.Some? {
        nextByte := None;
      }
    }
  }

  // ---------- there and back ----------

  datatype Call = Call(bits: Word, count: nat)

  /** What a run of calls writes. */
  function Joined(calls: seq<Call>): Bits
    requires forall i :: 0 <= i < |calls| ==> calls[i].count <= 32
  {
    if calls == [] then []
    else Joined(calls[..|calls| - 1]) + calls[|calls| - 1].bits[..calls[|calls| - 1].count]
  }

  lemma JoinedOne(calls: seq<Call>, i: nat)
    requires forall i :: 0 <= i < |calls| ==> calls[i].count <= 32
    requires i < |calls|
    ensures Joined(calls[..i + 1]) == Joined(calls[..i]) + calls[i].bits[..calls[i].count]
  {
    assert calls[..i + 1][..i] == calls[..i];
  }

  lemma {:induction false} JoinedPrefix(calls: seq<Call>, i: nat)
    requires forall i :: 0 <= i < |calls| ==> calls[i].count <= 32
    requires i <= |calls|
    ensures Joined(calls[..i]) <= Joined(calls)
    decreases |calls| - i
  {
    if i == |calls| {
      assert calls[..i] == calls;
    } else {
      JoinedOne(calls, i);
      JoinedPrefix(calls, i + 1);
    }
  }

  method WriteAll(calls: seq<Call>) returns (bytes: seq<Byte>)
    requires forall i :: 0 <= i < |calls| ==> calls[i].count <= 32
    ensures Flatten(bytes) == Padded(Joined(calls))
  {
    var sink := new Sink((|Joined(calls)| + 7) / 8);
    var output := new OutputBitStream(sink);
    for i := 0 to |calls|
      invariant output.Valid() && !sink.error && fresh(output) && fresh(sink) && output.sink == sink
      invariant output.Written() == Joined(calls[..i]) && sink.room == (|Joined(calls)| + 7) / 8
    {
      JoinedOne(calls, i);
      JoinedPrefix(calls, i + 1);
      output.WriteBits(calls[i].bits, calls[i].count);
    }
    assert calls[..|calls|] == calls;
    output.AlignToByteBoundary();
    bytes := sink.bytes;
  }

  /** Reading back with the same counts gives the low bits of every value. */
  method WriteThenRead(calls: seq<Call>) returns (values: seq<Word>)
    requires forall i :: 0 <= i < |calls| ==> calls[i].count <= 32
    ensures |values| == |calls|
    ensures forall i :: 0 <= i < |calls| ==> values[i] == Low(calls[i].bits[..calls[i].count])
  {
    hide Flatten, Padded, Joined, Low;
    var bytes := WriteAll(calls);
    var source := new Source(bytes);
    var input := new InputBitStream(source);
    ghost var all := Padded(Joined(calls));
    ghost var at: nat := 0;
    values := [];
    JoinedNone(calls);
    for i := 0 to |calls|
      invariant input.Valid() && !source.error && fresh(input) && fresh(source) && input.source == source
      invariant at == |Joined(calls[..i])| <= |all| && input.Remaining() == all[at..]
      invariant |values| == i && forall k :: 0 <= k < i ==> values[k] == Low(calls[k].bits[..calls[k].count])
    {
      Piece(calls, i);
      var value := input.ReadBits(calls[i].count);
      assert all[at..][calls[i].count..] == all[at + calls[i].count..];
      at := at + calls[i].count;
      values := values + [value];
    }
  }

  lemma JoinedNone(calls: seq<Call>)
    requires forall i :: 0 <= i < |calls| ==> calls[i].count <= 32
    ensures Joined(calls[..0]) == []
  {
  }

  /** Where the bits of call i are. */
  lemma Piece(calls: seq<Call>, i: nat)
    requires forall i :: 0 <= i < |calls| ==> calls[i].count <= 32
    requires i < |calls|
    ensures var at, all := |Joined(calls[..i])|, Padded(Joined(calls));
            && at + calls[i].count == |Joined(calls[..i + 1])| <= |all|
            && all[at..][..calls[i].count] == calls[i].bits[..calls[i].count]
  {
    hide Joined;
    JoinedOne(calls, i);
    JoinedPrefix(calls, i + 1);
  }

  // ---------- numbers ----------

  function Value(bits: Bits): (v: nat) {
    if bits == [] then 0 else (if bits[0] then 1 else 0) + 2 * Value(bits[1..])
  }

  lemma {:induction false} ValueSplits(low: Bits, high: Bits)
    ensures Value(low + high) == Value(low) + Pow2(|low|) * Value(high)
    ensures Value(low) < Pow2(|low|)
  {
    if low == [] {
      assert low + high == high;
    } else {
      ValueSplits(low[1..], high);
      assert (low + high)[1..] == low[1..] + high;
      Doubled(Pow2(|low| - 1), Value(high));
    }
  }

  lemma Doubled(a: nat, b: nat)
    ensures 2 * a * b == 2 * (a * b)
  {
  }

  lemma {:induction false} ZerosValue(n: nat)
    ensures Value(Zeros(n)) == 0
  {
    if n != 0 {
      assert Zeros(n)[1..] == Zeros(n - 1);
      ZerosValue(n - 1);
    }
  }

  /** The low bits are the value modulo a power of two. */
  lemma LowIsModulo(bits: Word, count: nat)
    requires count <= 32
    ensures Value(Low(bits[..count])) == Value(bits) % Pow2(count)
  {
    hide Value, Pow2;
    var low, high := bits[..count], bits[count..];
    assert bits == low + high;
    ValueSplits(low, high);
    ValueSplits(low, Zeros(32 - count));
    ZerosValue(32 - count);
    QuotientIs(Value(bits), Pow2(count), Value(high), Value(low));
  }
}
