/** Parsing what was serialized: exactly which values come back. */
module JsonRoundTrip {
  import opened Basics
  import opened JsonText

  /** A value as JsonValue can hold it, doubles aside: keys of an object do not repeat. */
  predicate Plain(v: Json) {
    match v
    case Double(_, _, _) => false
    case Array(items) => forall i :: 0 <= i < |items| ==> Plain(items[i])
    case Object(members) => PlainMembers(members)
    case _ => true
  }

  predicate PlainMembers(members: seq<Member>) {
    (forall i :: 0 <= i < |members| ==> Plain(members[i].value))
    && forall i, j :: 0 <= i < j < |members| ==> members[i].key != members[j].key
  }

  /** The value that comes back: a number below the i32 range is cut to 32 bits, and one
      above the i64 range is refused. */
  function Reread(v: Json): Option<Json> {
    match v
    case Number(n) =>
      if n > I64_MAX || n < I64_MIN then None
      else if n < 0 then Some(Number(Narrow(n)))
      else Some(v)
    case Array(items) => var r := RereadItems(items); if r.Some? then Some(Array(r.value)) else None
    case Object(members) => var r := RereadMembers(members); if r.Some? then Some(Object(r.value)) else None
    case _ => Some(v)
  }

  function RereadItems(items: seq<Json>): Option<seq<Json>> {
    if items == [] then Some([])
    else
      var first, others := Reread(items[0]), RereadItems(items[1..]);
      if first.Some? && others.Some? then Some([first.value] + others.value) else None
  }

  function RereadMembers(members: seq<Member>): Option<seq<Member>> {
    if members == [] then Some([])
    else
      var first, others := Reread(members[0].value), RereadMembers(members[1..]);
      if first.Some? && others.Some? then Some([Member(members[0].key, first.value)] + others.value) else None
  }

  /** Every number in the value lies between the least i32 and the greatest i64. */
  predicate InRange(v: Json) {
    match v
    case Number(n) => I32_MIN <= n <= I64_MAX
    case Array(items) => forall i :: 0 <= i < |items| ==> InRange(items[i])
    case Object(members) => forall i :: 0 <= i < |members| ==> InRange(members[i].value)
    case _ => true
  }

  lemma {:induction false} RereadExactly(v: Json)
    ensures Reread(v) == Some(v) <==> InRange(v)
  {
    match v
    case Array(items) => RereadItemsExactly(items);
    case Object(members) => RereadMembersExactly(members);
    case _ =>
  }

  lemma {:induction false} RereadItemsExactly(items: seq<Json>)
    ensures RereadItems(items) == Some(items) <==> forall i :: 0 <= i < |items| ==> InRange(items[i])
    ensures RereadItems(items).Some? ==> |RereadItems(items).value| == |items|
  {
    if items != [] {
      RereadExactly(items[0]);
      RereadItemsExactly(items[1..]);
      assert items == [items[0]] + items[1..];
      assert forall i :: 1 <= i < |items| ==> items[i] == items[1..][i - 1];
      var r := RereadItems(items);
      if r == Some(items) {
        assert r.value[0] == items[0] && r.value[1..] == items[1..];
      }
    }
  }

  lemma {:induction false} RereadMembersExactly(members: seq<Member>)
    ensures RereadMembers(members) == Some(members) <==> forall i :: 0 <= i < |members| ==> InRange(members[i].value)
    ensures RereadMembers(members).Some? ==> |RereadMembers(members).value| == |members|
  {
    if members != [] {
      RereadExactly(members[0].value);
      RereadMembersExactly(members[1..]);
      assert members == [members[0]] + members[1..];
      assert forall i :: 1 <= i < |members| ==> members[i] == members[1..][i - 1];
      var r := RereadMembers(members);
      if r == Some(members) {
        assert r.value[0] == members[0] && r.value[1..] == members[1..];
      }
    }
  }

  // ---------- numbers ----------

  predicate Boundary(rest: Text) {
    rest == [] || !IsNumeric(rest[0])
  }

  lemma {:induction false} PrefixOfRun(s: Text, rest: Text)
    requires Boundary(rest) && forall i :: 0 <= i < |s| ==> IsNumeric(s[i])
    ensures NumericPrefix(s + rest) == s
  {
    if s == [] {
      assert s + rest == rest;
    } else {
      assert (s + rest)[0] == s[0] && (s + rest)[1..] == s[1..] + rest;
      PrefixOfRun(s[1..], rest);
    }
  }

  lemma NumberTextMeans(n: int)
    ensures var t := NumberText(n);
            |t| > 0 && (forall i :: 0 <= i < |t| ==> IsDigit(t[i]) || t[i] == MINUS) && (t[0] == MINUS || IsDigit(t[0])) && DOT !in t
    ensures match Reread(Number(n)) {
              case Some(v) => NumberOf(NumberText(n)) == Ok(v)
              case None => NumberOf(NumberText(n)) == Rejected
            }
  {
    var t := NumberText(n);
    if n < 0 {
      DigitsRead(-n);
      assert t[1..] == Digits(-n) && t[0] == MINUS;
      assert ToUint(t) == None;
    } else {
      DigitsRead(n);
    }
  }

  lemma ParseNumberText(n: int, rest: Text)
    requires Boundary(rest)
    ensures match Reread(Number(n)) {
              case Some(v) => ParseValue(NumberText(n) + rest) == Ok((v, rest))
              case None => ParseValue(NumberText(n) + rest) == Rejected
            }
  {
    var t := NumberText(n);
    NumberTextMeans(n);
    PrefixOfRun(t, rest);
    assert (t + rest)[0] == t[0] && (t + rest)[|t|..] == rest;
    assert SkipSpace(t + rest) == t + rest;
  }

  // ---------- nested values ----------

  /** The text of a value starts with a byte that is no space and no closing bracket. */
  lemma TextStarts(v: Json)
    requires Plain(v)
    ensures var t := Serialize(v); |t| > 0 && !IsSpace(t[0]) && t[0] != RBRACKET && t[0] != RBRACE
  {
    if v.Number? {
      NumberTextMeans(v.number);
    }
  }

  lemma NoSpace(s: Text)
    requires s != [] && !IsSpace(s[0])
    ensures SkipSpace(s) == s
  {
  }

  ghost predicate Answers(r: Outcome<(Json, Text)>, v: Option<Json>, rest: Text) {
    match v
    case Some(w) => r == Ok((w, rest))
    case None => r == Rejected
  }

  lemma Dispatch(s: Text)
    requires s != [] && !IsSpace(s[0])
    ensures s[0] == LBRACKET ==> ParseValue(s) == ParseItems(s[1..], [])
    ensures s[0] == LBRACE ==> ParseValue(s) == ParseMembers(s[1..], [])
    ensures s[0] == QUOTE ==> ParseValue(s) == match Unescape(s[1..]) {
                                 case Ok(p) => Ok((String(p.0), p.1))
                                 case Rejected => Rejected
                                 case Aborted => Aborted
                               }
  {
    NoSpace(s);
  }

  lemma ParseLiteralText(v: Json, rest: Text)
    requires v.Null? || v.Bool?
    ensures ParseValue(Serialize(v) + rest) == Ok((v, rest))
  {
    var t := Serialize(v);
    assert t <= t + rest && (t + rest)[|t|..] == rest;
    NoSpace(t + rest);
  }

  lemma {:induction false} ParseSerialized(v: Json, rest: Text)
    requires Plain(v) && Boundary(rest)
    ensures Answers(ParseValue(Serialize(v) + rest), Reread(v), rest)
    decreases v, 2
  {
    hide ParseValue, ParseItems, ParseMembers, Escape, SerializeItems, SerializeMembers, RereadItems, RereadMembers;
    var s := Serialize(v) + rest;
    TextStarts(v);
    Dispatch(s);
    if v.Number? {
      ParseNumberText(v.number, rest);
    } else if v.String? {
      assert s[1..] == Escape(v.text) + [QUOTE] + rest;
      UnescapeEscaped(v.text, rest);
    } else if v.Array? {
      assert s[1..] == SerializeItems(v.items) + ([RBRACKET] + rest);
      ParseAllItems(v.items, rest);
    } else if v.Object? {
      assert s[1..] == SerializeMembers(v.members) + ([RBRACE] + rest);
      ParseAllMembers(v.members, rest);
    } else {
      ParseLiteralText(v, rest);
    }
  }

  lemma {:induction false} ParseAllItems(items: seq<Json>, rest: Text)
    requires forall i :: 0 <= i < |items| ==> Plain(items[i])
    ensures Answers(ParseItems(SerializeItems(items) + ([RBRACKET] + rest), []), Reread(Array(items)), rest)
    decreases items, 1
  {
    hide ParseValue, Serialize;
    if items == [] {
      assert SerializeItems(items) + ([RBRACKET] + rest) == [RBRACKET] + rest;
      NoSpace([RBRACKET] + rest);
    } else {
      ParseTheItems(items, [], rest);
      var r := RereadItems(items);
      assert r.Some? ==> [] + r.value == r.value;
      assert SerializeItems(items) + ([RBRACKET] + rest) == Serialize(items[0]) + (SerializeMoreItems(items[1..]) + ([RBRACKET] + rest));
    }
  }

  ghost function ItemsAfter(done: seq<Json>, items: seq<Json>): Option<Json> {
    var r := RereadItems(items);
    if r.Some? then Some(Array(done + r.value)) else None
  }

  lemma {:induction false} ParseTheItems(items: seq<Json>, done: seq<Json>, rest: Text)
    requires items != [] && forall i :: 0 <= i < |items| ==> Plain(items[i])
    ensures Answers(ParseItems(Serialize(items[0]) + (SerializeMoreItems(items[1..]) + ([RBRACKET] + rest)), done), ItemsAfter(done, items), rest)
    decreases items, 0
  {
    hide Serialize, Reread, ParseValue;
    var tail := SerializeMoreItems(items[1..]) + ([RBRACKET] + rest);
    var s := Serialize(items[0]) + tail;
    TextStarts(items[0]);
    NoSpace(s);
    assert tail[0] == RBRACKET || tail[0] == COMMA;
    NoSpace(tail);
    ParseSerialized(items[0], tail);
    if Reread(items[0]).Some? {
      var v := Reread(items[0]).value;
      if |items| == 1 {
        assert items[1..] == [];
        assert tail == [RBRACKET] + rest;
        assert tail[1..] == rest;
        assert RereadItems(items[1..]) == Some([]) && [v] + [] == [v];
      } else {
        var more := items[1..];
        ItemsGoOn(more, rest);
        TextStarts(more[0]);
        var u := Serialize(more[0]) + (SerializeMoreItems(more[1..]) + ([RBRACKET] + rest));
        assert tail[1..] == u;
        NoSpace(u);
        ParseTheItems(more, done + [v], rest);
        if RereadItems(more).Some? {
          assert done + [v] + RereadItems(more).value == done + ([v] + RereadItems(more).value);
        }
      }
    }
  }

  lemma ItemsGoOn(more: seq<Json>, rest: Text)
    requires more != []
    ensures SerializeMoreItems(more) + ([RBRACKET] + rest) == [COMMA] + (Serialize(more[0]) + (SerializeMoreItems(more[1..]) + ([RBRACKET] + rest)))
  {
    hide Serialize;
    Associates([COMMA], Serialize(more[0]), SerializeMoreItems(more[1..]), [RBRACKET] + rest);
  }

  lemma Associates<T>(a: seq<T>, b: seq<T>, c: seq<T>, d: seq<T>)
    ensures a + b + c + d == a + (b + (c + d))
  {
  }

  lemma {:induction false} ParseAllMembers(members: seq<Member>, rest: Text)
    requires PlainMembers(members)
    ensures Answers(ParseMembers(SerializeMembers(members) + ([RBRACE] + rest), []), Reread(Object(members)), rest)
    decreases members, 1
  {
    hide ParseMembers, SerializeMembers, SerializeMember, SerializeMoreMembers, RereadMembers, Reread, PlainMembers;
    ObjectReread(members);
    if members == [] {
      ParseNoMembers(rest);
    } else {
      AbsentNone(members);
      ParseTheMembers(members, [], rest);
      MembersText(members, [RBRACE] + rest);
    }
  }

  lemma ParseNoMembers(rest: Text)
    ensures Answers(ParseMembers(SerializeMembers([]) + ([RBRACE] + rest), []), MembersAfter([], []), rest)
  {
    var none: seq<Member> := [];
    assert SerializeMembers(none) + ([RBRACE] + rest) == [RBRACE] + rest;
    NoSpace([RBRACE] + rest);
    assert RereadMembers(none) == Some(none) && none + none == none;
    assert ([RBRACE] + rest)[1..] == rest;
  }

  lemma ObjectReread(members: seq<Member>)
    ensures Reread(Object(members)) == MembersAfter([], members)
  {
    hide RereadMembers;
    var r := RereadMembers(members);
    assert r.Some? ==> [] + r.value == r.value;
  }

  lemma AbsentNone(members: seq<Member>)
    ensures Absent([], members)
  {
  }

  lemma MembersText(members: seq<Member>, tail: Text)
    requires members != []
    ensures SerializeMembers(members) + tail == SerializeMember(members[0]) + (SerializeMoreMembers(members[1..]) + tail)
  {
    hide SerializeMember, SerializeMoreMembers;
    assert forall a: Text, b: Text :: a + b + tail == a + (b + tail);
  }

  ghost function MembersAfter(done: seq<Member>, members: seq<Member>): Option<Json> {
    var r := RereadMembers(members);
    if r.Some? then Some(Object(done + r.value)) else None
  }

  ghost predicate Absent(done: seq<Member>, members: seq<Member>) {
    forall i, j :: 0 <= i < |done| && 0 <= j < |members| ==> done[i].key != members[j].key
  }

  lemma {:induction false} SetNew(done: seq<Member>, key: Text, v: Json)
    requires forall i :: 0 <= i < |done| ==> done[i].key != key
    ensures Set(done, key, v) == done + [Member(key, v)]
  {
    if done != [] {
      SetNew(done[1..], key, v);
      assert WithoutKey(done, key) == done by {
        assert WithoutKey(done[1..], key) == Set(done[1..], key, v)[..|done| - 1] == done[1..];
      }
    }
  }

  /** The first member is read as its key and reread value, and the parser goes on after it. */
  lemma ParseOneMember(member: Member, done: seq<Member>, tail: Text)
    requires Plain(member.value) && Answers(ParseValue(Serialize(member.value) + tail), Reread(member.value), tail)
    requires tail != [] && (tail[0] == RBRACE || (tail[0] == COMMA && |tail| > 1 && tail[1] == QUOTE))
    ensures var r, v := ParseMembers(SerializeMember(member) + tail, done), Reread(member.value);
            if v.None? then r == Rejected
            else if tail[0] == RBRACE then r == Ok((Object(Set(done, member.key, v.value)), tail[1..]))
            else r == ParseMembers(tail[1..], Set(done, member.key, v.value))
  {
    hide Serialize, Reread, ParseValue, Escape, Unescape, Set;
    var s := SerializeMember(member) + tail;
    var colon := [COLON] + (Serialize(member.value) + tail);
    assert s == [QUOTE] + (Escape(member.key) + [QUOTE] + colon);
    assert s[1..] == Escape(member.key) + [QUOTE] + colon;
    NoSpace(s);
    UnescapeEscaped(member.key, colon);
    NoSpace(colon);
    assert colon[1..] == Serialize(member.value) + tail;
    TextStarts(member.value);
    NoSpace(Serialize(member.value) + tail);
    NoSpace(tail);
    if tail[0] == COMMA {
      NoSpace(tail[1..]);
    }
  }

  lemma {:induction false} ParseTheMembers(members: seq<Member>, done: seq<Member>, rest: Text)
    requires members != [] && PlainMembers(members) && Absent(done, members)
    ensures var s := SerializeMember(members[0]) + (SerializeMoreMembers(members[1..]) + ([RBRACE] + rest));
            Answers(ParseMembers(s, done), MembersAfter(done, members), rest)
    decreases members, 0
  {
    hide Serialize, SerializeMember, Reread, ParseValue, ParseMembers, SkipSpace, Set;
    var key, value, more := members[0].key, members[0].value, members[1..];
    var tail := SerializeMoreMembers(more) + ([RBRACE] + rest);
    if more == [] {
      assert tail == [RBRACE] + rest && tail[1..] == rest;
    } else {
      MembersGoOn(more, rest);
      MemberStarts(more[0]);
    }
    ParseSerialized(value, tail);
    ParseOneMember(members[0], done, tail);
    if Reread(value).Some? {
      var v := Reread(value).value;
      SetNew(done, key, v);
      if more == [] {
        assert RereadMembers(more) == Some([]) && [Member(key, v)] + [] == [Member(key, v)];
      } else {
        assert tail[1..] == SerializeMember(more[0]) + (SerializeMoreMembers(more[1..]) + ([RBRACE] + rest));
        ParseTheMembers(more, done + [Member(key, v)], rest);
        if RereadMembers(more).Some? {
          assert done + [Member(key, v)] + RereadMembers(more).value == done + ([Member(key, v)] + RereadMembers(more).value);
        }
      }
    }
  }

  lemma MembersGoOn(more: seq<Member>, rest: Text)
    requires more != []
    ensures SerializeMoreMembers(more) + ([RBRACE] + rest)
         == [COMMA] + (SerializeMember(more[0]) + (SerializeMoreMembers(more[1..]) + ([RBRACE] + rest)))
  {
    hide SerializeMember;
    Associates([COMMA], SerializeMember(more[0]), SerializeMoreMembers(more[1..]), [RBRACE] + rest);
  }

  lemma MemberStarts(member: Member)
    ensures SerializeMember(member) != [] && SerializeMember(member)[0] == QUOTE
  {
  }

  /** Parsing a serialized value gives the reread value, and the value itself exactly when
      all its numbers are in range. */
  lemma RoundTrip(v: Json)
    requires Plain(v)
    ensures Parse(Serialize(v)) == (match Reread(v) case Some(w) => Ok(w) case None => Rejected)
    ensures Parse(Serialize(v)) == Ok(v) <==> InRange(v)
  {
    ParseSerialized(v, []);
    assert Serialize(v) + [] == Serialize(v);
    RereadExactly(v);
  }

  /** One below the range comes back narrowed to 32 bits; one above it does not come back. */
  lemma OutOfRange()
    ensures Parse(Serialize(Number(-0x8000_0001))) == Ok(Number(0x7fff_ffff))
    ensures Parse(Serialize(Number(0x8000_0000_0000_0000))) == Rejected
  {
    hide Parse, Serialize;
    RoundTrip(Number(-0x8000_0001));
    RoundTrip(Number(0x8000_0000_0000_0000));
  }
}
