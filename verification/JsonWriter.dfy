/** AK/StringBuilder.cpp, AK/Format.cpp and the JSON serializers: writing a value. */
module JsonWriter {
  import opened JsonText
  import JsonRoundTrip
  import JsonParser

  /** The text built so far. */
  class StringBuilder {
    var text: Text

    constructor ()
      ensures text == []
    {
      text := [];
    }

    method Append(t: Text)
      modifies this
      ensures text == old(text) + t
    {
      text := text + t;
    }

    method AppendEscapedForJson(s: Text)
      modifies this
      ensures text == old(text) + Escape(s)
    {
      hide Escape, Escaped;
      EscapeNone(s);
      var i := 0;
      while i < |s|
        invariant 0 <= i <= |s| && text == old(text) + Escape(s[..i])
      {
        EscapeGrows(s, i);
        AppendEscapedByte(s[i]);
        i := i + 1;
      }
      assert s[..i] == s;
    }

    /** The switch in the loop of append_escaped_for_json. */
    method AppendEscapedByte(b: Byte)
      modifies this
      ensures text == old(text) + Escaped(b)
    {
      if b == 27 {
        Append([BACKSLASH, 117, 48, 48, 49, 66]);
      } else if b == 8 {
        Append([BACKSLASH, 98]);
      } else if b == 10 {
        Append([BACKSLASH, 110]);
      } else if b == 9 {
        Append([BACKSLASH, 116]);
      } else if b == QUOTE {
        Append([BACKSLASH, QUOTE]);
      } else if b == BACKSLASH {
        Append([BACKSLASH, BACKSLASH]);
      } else {
        Append([b]);
      }
    }

    /** The plain decimal path of `put_i64` and `put_u64`. */
    method AppendNumber(n: int)
      requires I64_MIN <= n <= U64_MAX
      modifies this
      ensures text == old(text) + NumberText(n)
    {
      var value := if n < 0 then Signed(-n) else n;
      WrappedMagnitude(n);
      var digits := ConvertUnsignedToString(value % (U64_MAX + 1));
      if n < 0 {
        Append([MINUS]);
      }
      Append(digits);
    }
  }

  const U64_MAX: int := 0xffff_ffff_ffff_ffff

  /** An i64 result of an operation that keeps the low 64 bits. */
  function Signed(n: int): int {
    (n - I64_MIN) % (U64_MAX + 1) + I64_MIN
  }

  /** Negating the least i64 gives it back, and as a u64 it is the magnitude all the same. */
  lemma WrappedMagnitude(n: int)
    requires I64_MIN <= n <= U64_MAX
    ensures (if n < 0 then Signed(-n) else n) % (U64_MAX + 1) == if n < 0 then -n else n
  {
  }

  lemma EscapeNone(s: Text)
    ensures Escape(s[..0]) == []
  {
  }

  lemma {:induction false} EscapeGrows(s: Text, i: nat)
    requires i < |s|
    ensures Escape(s[..i + 1]) == Escape(s[..i]) + Escaped(s[i])
  {
    if i == 0 {
      assert s[..1] == [s[0]] && s[..0] == [];
      assert Escape([s[0]]) == Escaped(s[0]) + Escape([]);
    } else {
      assert s[..i + 1][1..] == s[1..][..i] && s[..i][1..] == s[1..][..i - 1];
      EscapeGrows(s[1..], i - 1);
    }
  }

  // ---------- digits ----------

  function Reversed(s: Text): Text {
    seq(|s|, i requires 0 <= i < |s| => s[|s| - 1 - i])
  }

  lemma TwentyDigitsSuffice()
    ensures Pow10(20) > 0xffff_ffff_ffff_ffff
  {
    assert Pow10(5) == 100000;
    assert Pow10(10) == 10000000000;
    assert Pow10(15) == 1000000000000000;
  }

  /** After some turns of the digit loop: the buffer holds the last digits, backwards. */
  ghost predicate Unwound(n: nat, value: nat, buffered: Text) {
    Digits(n) == (if value > 0 then Digits(value) else []) + Reversed(buffered)
  }

  lemma UnwindOne(n: nat, value: nat, buffered: Text)
    requires value > 0 && Unwound(n, value, buffered)
    ensures Unwound(n, value / 10, buffered + [48 + value % 10])
  {
    var d: Byte := 48 + value % 10;
    var front := if value / 10 > 0 then Digits(value / 10) else [];
    assert Digits(value) == front + [d];
    ReversedMore(buffered, d);
    assert front + [d] + Reversed(buffered) == front + ([d] + Reversed(buffered));
  }

  lemma ReversedMore(s: Text, d: Byte)
    ensures Reversed(s + [d]) == [d] + Reversed(s)
  {
  }

  method ConvertUnsignedToString(n: nat) returns (digits: Text)
    requires n <= 0xffff_ffff_ffff_ffff
    ensures digits == Digits(n)
  {
    hide Unwound, Pow10;
    var buffer := new Byte[128];
    if n == 0 {
      buffer[0] := 48;
      return buffer[..1];
    }
    var used: nat, value: nat := 0, n;
    TwentyDigitsSuffice();
    UnwindNone(n);
    while value > 0
      invariant 0 <= used <= 20 && value < Pow10(20 - used)
      invariant Unwound(n, value, buffer[..used])
    {
      UnwindOne(n, value, buffer[..used]);
      Pow10Shrinks(value, 20 - used);
      ghost var before := buffer[..used];
      buffer[used] := 48 + value % 10;
      assert buffer[..used + 1] == before + [48 + value % 10];
      used := used + 1;
      value := value / 10;
    }
    UnwindAll(n, buffer[..used]);
    ReverseBuffer(buffer, used);
    return buffer[..used];
  }

  lemma Pow10Shrinks(value: nat, k: nat)
    requires 0 < value < Pow10(k)
    ensures k > 0 && value / 10 < Pow10(k - 1)
  {
  }

  lemma UnwindNone(n: nat)
    requires n > 0
    ensures Unwound(n, n, [])
  {
    assert Digits(n) + Reversed([]) == Digits(n);
  }

  lemma UnwindAll(n: nat, buffered: Text)
    requires Unwound(n, 0, buffered)
    ensures Digits(n) == Reversed(buffered)
  {
    assert [] + Reversed(buffered) == Reversed(buffered);
  }

  method ReverseBuffer(buffer: array<Byte>, used: nat)
    requires used <= buffer.Length
    modifies buffer
    ensures buffer[..used] == Reversed(old(buffer[..used]))
  {
    ghost var was := buffer[..used];
    var i := 0;
    while i < used / 2
      invariant 0 <= i <= used / 2
      invariant forall k :: 0 <= k < i || used - i <= k < used ==> buffer[k] == was[used - 1 - k]
      invariant forall k :: i <= k < used - i ==> buffer[k] == was[k]
    {
      buffer[i], buffer[used - i - 1] := buffer[used - i - 1], buffer[i];
      i := i + 1;
    }
    assert forall k :: 0 <= k < used ==> buffer[k] == was[used - 1 - k];
  }

  // ---------- the serializers ----------

  class ArraySerializer {
    const builder: StringBuilder
    var empty: bool
    var finished: bool

    constructor (builder: StringBuilder)
      modifies builder
      ensures this.builder == builder && empty && !finished
      ensures builder.text == old(builder.text) + [LBRACKET]
    {
      this.builder := builder;
      empty, finished := true, false;
      new;
      builder.Append([LBRACKET]);
    }

    method BeginItem()
      modifies this, builder
      ensures !empty && finished == old(finished)
      ensures builder.text == old(builder.text) + (if old(empty) then [] else [COMMA])
    {
      if !empty {
        builder.Append([COMMA]);
      }
      empty := false;
    }

    method Finish()
      requires !finished
      modifies this, builder
      ensures finished && builder.text == old(builder.text) + [RBRACKET]
    {
      finished := true;
      builder.Append([RBRACKET]);
    }
  }

  class ObjectSerializer {
    const builder: StringBuilder
    var empty: bool
    var finished: bool

    constructor (builder: StringBuilder)
      modifies builder
      ensures this.builder == builder && empty && !finished
      ensures builder.text == old(builder.text) + [LBRACE]
    {
      this.builder := builder;
      empty, finished := true, false;
      new;
      builder.Append([LBRACE]);
    }

    method BeginItem(key: Text)
      modifies this, builder
      ensures !empty && finished == old(finished)
      ensures builder.text == old(builder.text) + (if old(empty) then [] else [COMMA]) + (Quoted(key) + [COLON])
    {
      hide Escape;
      if !empty {
        builder.Append([COMMA]);
      }
      empty := false;
      builder.Append([QUOTE]);
      builder.AppendEscapedForJson(key);
      builder.Append([QUOTE, COLON]);
    }

    method Finish()
      requires !finished
      modifies this, builder
      ensures finished && builder.text == old(builder.text) + [RBRACE]
    {
      finished := true;
      builder.Append([RBRACE]);
    }
  }

  /** The numbers a JsonValue can hold and the formatter can print. */
  predicate Printable(v: Json) {
    match v
    case Double(_, _, _) => false
    case Number(n) => I64_MIN <= n <= U64_MAX
    case Array(items) => forall i :: 0 <= i < |items| ==> Printable(items[i])
    case Object(members) => forall i :: 0 <= i < |members| ==> Printable(members[i].value)
    case _ => true
  }

  lemma {:induction false} MoreItemsGrow(items: seq<Json>, i: nat)
    requires i < |items|
    ensures SerializeMoreItems(items[..i + 1]) == SerializeMoreItems(items[..i]) + ([COMMA] + Serialize(items[i]))
  {
    if i == 0 {
      assert items[..1] == [items[0]] && items[..0] == [];
      assert SerializeMoreItems([items[0]]) == [COMMA] + Serialize(items[0]) + SerializeMoreItems([]);
    } else {
      assert items[..i + 1][1..] == items[1..][..i] && items[..i][1..] == items[1..][..i - 1];
      MoreItemsGrow(items[1..], i - 1);
    }
  }

  lemma ItemsGrow(items: seq<Json>, i: nat)
    requires i < |items|
    ensures SerializeItems(items[..i + 1]) == SerializeItems(items[..i]) + ((if i == 0 then [] else [COMMA]) + Serialize(items[i]))
  {
    if i == 0 {
      assert items[..1] == [items[0]] && items[..0] == [];
      assert SerializeItems([items[0]]) == Serialize(items[0]) + SerializeMoreItems([]);
    } else {
      assert items[..i + 1][1..] == items[1..][..i] && items[..i][1..] == items[1..][..i - 1];
      MoreItemsGrow(items[1..], i - 1);
    }
  }

  lemma {:induction false} MoreMembersGrow(members: seq<Member>, i: nat)
    requires i < |members|
    ensures SerializeMoreMembers(members[..i + 1]) == SerializeMoreMembers(members[..i]) + ([COMMA] + SerializeMember(members[i]))
  {
    if i == 0 {
      assert members[..1] == [members[0]] && members[..0] == [];
      assert SerializeMoreMembers([members[0]]) == [COMMA] + SerializeMember(members[0]) + SerializeMoreMembers([]);
    } else {
      assert members[..i + 1][1..] == members[1..][..i] && members[..i][1..] == members[1..][..i - 1];
      MoreMembersGrow(members[1..], i - 1);
    }
  }

  lemma MembersGrow(members: seq<Member>, i: nat)
    requires i < |members|
    ensures SerializeMembers(members[..i + 1])
         == SerializeMembers(members[..i]) + ((if i == 0 then [] else [COMMA]) + SerializeMember(members[i]))
  {
    if i == 0 {
      assert members[..1] == [members[0]] && members[..0] == [];
      assert SerializeMembers([members[0]]) == SerializeMember(members[0]) + SerializeMoreMembers([]);
    } else {
      assert members[..i + 1][1..] == members[1..][..i] && members[..i][1..] == members[1..][..i - 1];
      MoreMembersGrow(members[1..], i - 1);
    }
  }

  method SerializeInto(v: Json, builder: StringBuilder)
    requires Printable(v)
    modifies builder
    ensures builder.text == old(builder.text) + Serialize(v)
    decreases v, 1
  {
    hide Escape, NumberText;
    match v
    case Null => builder.Append(NULL);
    case Bool(b) => builder.Append(if b then TRUE else FALSE);
    case Number(n) => builder.AppendNumber(n);
    case String(t) =>
      builder.Append([QUOTE]);
      builder.AppendEscapedForJson(t);
      builder.Append([QUOTE]);
    case Array(items) => SerializeArray(items, builder);
    case Object(members) => SerializeObject(members, builder);
  }

  method SerializeArray(items: seq<Json>, builder: StringBuilder)
    requires forall i :: 0 <= i < |items| ==> Printable(items[i])
    modifies builder
    ensures builder.text == old(builder.text) + Serialize(Array(items))
    decreases items, 0
  {
    hide Serialize, SerializeItems, SerializeMoreItems;
    ghost var start := builder.text;
    var serializer := new ArraySerializer(builder);
    ItemsOfNone(items);
    for i := 0 to |items|
      invariant serializer.empty == (i == 0) && !serializer.finished
      invariant builder.text == start + [LBRACKET] + SerializeItems(items[..i])
    {
      ItemsGrow(items, i);
      serializer.BeginItem();
      SerializeInto(items[i], builder);
    }
    serializer.Finish();
    assert items[..|items|] == items;
    ArrayText(items);
  }

  lemma ItemsOfNone(items: seq<Json>)
    ensures SerializeItems(items[..0]) == []
  {
  }

  lemma ArrayText(items: seq<Json>)
    ensures Serialize(Array(items)) == [LBRACKET] + SerializeItems(items) + [RBRACKET]
  {
  }

  method SerializeObject(members: seq<Member>, builder: StringBuilder)
    requires forall i :: 0 <= i < |members| ==> Printable(members[i].value)
    modifies builder
    ensures builder.text == old(builder.text) + Serialize(Object(members))
    decreases members, 0
  {
    hide Serialize, SerializeMembers, SerializeMoreMembers, Quoted;
    ghost var start := builder.text;
    var serializer := new ObjectSerializer(builder);
    MembersOfNone(members);
    for i := 0 to |members|
      invariant serializer.empty == (i == 0) && !serializer.finished
      invariant builder.text == start + [LBRACE] + SerializeMembers(members[..i])
    {
      MembersGrow(members, i);
      serializer.BeginItem(members[i].key);
      SerializeInto(members[i].value, builder);
    }
    serializer.Finish();
    assert members[..|members|] == members;
    ObjectText(members);
  }

  lemma MembersOfNone(members: seq<Member>)
    ensures SerializeMembers(members[..0]) == []
  {
  }

  lemma ObjectText(members: seq<Member>)
    ensures Serialize(Object(members)) == [LBRACE] + SerializeMembers(members) + [RBRACE]
  {
  }

  /** Write a value and read it back. */
  method WriteAndRead(v: Json) returns (r: Outcome<Json>)
    requires JsonRoundTrip.Plain(v) && Printable(v)
    ensures r == Ok(v) <==> JsonRoundTrip.InRange(v)
  {
    hide Serialize, Parse;
    var builder := new StringBuilder();
    SerializeInto(v, builder);
    assert [] + Serialize(v) == Serialize(v);
    var parser := new JsonParser.JsonParser(builder.text);
    r := parser.Parse();
    JsonRoundTrip.RoundTrip(v);
  }
}
