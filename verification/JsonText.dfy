/**
 The text format of AK/JsonObject.h, AK/JsonParser.cpp and their helpers: what a value
 serializes to, what a text parses to, and how far the one undoes the other.
 */
module JsonText {
  import opened Basics

  type Byte = x: int | 0 <= x < 256
  type Text = seq<Byte>

  /** An object's members in insertion order; keys do not repeat.  A double is the sum of
      `whole` and `fraction / divider`, before rounding. */
  datatype Json =
    | Null
    | Bool(value: bool)
    | Number(number: int)
    | Double(whole: int, fraction: int, divider: int)
    | String(text: Text)
    | Array(items: seq<Json>)
    | Object(members: seq<Member>)

  datatype Member = Member(key: Text, value: Json)

  /** A parser's answer: a value, a rejection, or a failed VERIFY. */
  datatype Outcome<+T> = Ok(value: T) | Rejected | Aborted {
    predicate IsFailure() { !Ok? }
    function PropagateFailure<U>(): Outcome<U>
      requires IsFailure()
    {
      if Rejected? then Outcome<U>.Rejected else Outcome<U>.Aborted
    }
    function Extract(): T
      requires Ok?
    {
      value
    }
  }

  const QUOTE: Byte := 34
  const BACKSLASH: Byte := 92
  const COMMA: Byte := 44
  const COLON: Byte := 58
  const MINUS: Byte := 45
  const DOT: Byte := 46
  const LBRACKET: Byte := 91
  const RBRACKET: Byte := 93
  const LBRACE: Byte := 123
  const RBRACE: Byte := 125

  predicate IsSpace(b: Byte) { b == 32 || 9 <= b <= 13 }
  predicate IsDigit(b: Byte) { 48 <= b <= 57 }
  predicate IsNumeric(b: Byte) { IsDigit(b) || b == MINUS || b == DOT }

  // ---------- numbers ----------

  function Digits(n: nat): Text {
    if n < 10 then [48 + n] else Digits(n / 10) + [48 + n % 10]
  }

  predicate AllDigits(s: Text) {
    forall i :: 0 <= i < |s| ==> IsDigit(s[i])
  }

  function Decimal(s: Text): nat
    requires AllDigits(s)
  {
    if s == [] then 0 else 10 * Decimal(s[..|s| - 1]) + (s[|s| - 1] - 48)
  }

  ghost function Pow10(n: nat): (p: nat)
    ensures 0 < p
  {
    if n == 0 then 1 else 10 * Pow10(n - 1)
  }

  lemma {:induction false} DigitsRead(n: nat)
    ensures AllDigits(Digits(n)) && Decimal(Digits(n)) == n && |Digits(n)| > 0
  {
    if n < 10 {
      assert Decimal([]) == 0;
      assert Digits(n)[..0] == [];
    } else {
      DigitsRead(n / 10);
      assert Digits(n)[..|Digits(n)| - 1] == Digits(n / 10);
    }
  }

  function NumberText(n: int): Text {
    if n < 0 then [MINUS] + Digits(-n) else Digits(n)
  }

  const U32_MAX: int := 0xffff_ffff
  const I32_MAX: int := 0x7fff_ffff
  const I32_MIN: int := -0x8000_0000
  const I64_MAX: int := 0x7fff_ffff_ffff_ffff
  const I64_MIN: int := -0x8000_0000_0000_0000

  /** convert_to_uint<u32>: digits only, and no overflow on the way. */
  function ToUint(s: Text): (r: Option<nat>) {
    if s != [] && AllDigits(s) && Decimal(s) <= U32_MAX then Some(Decimal(s)) else None
  }

  /** convert_to_int<i64> of a trimmed text. */
  function ToInt64(s: Text): (r: Option<int>) {
    var signed := s != [] && s[0] in {MINUS, 43};
    var digits := if signed then s[1..] else s;
    if digits == [] || !AllDigits(digits) then None
    else
      var magnitude: int := Decimal(digits);
      var n := if signed && s[0] == MINUS then -magnitude else magnitude;
      if I64_MIN <= n <= I64_MAX then Some(n) else None
  }

  /** A conversion to i32 keeps the low 32 bits. */
  function Narrow(n: int): int {
    (n - I32_MIN) % (U32_MAX + 1) + I32_MIN
  }

  /** The product of tens by which the fraction is divided, as an i32 holds it. */
  function Divider(digits: nat): int {
    if digits == 0 then 1 else Narrow(10 * Divider(digits - 1))
  }

  /** The longest prefix of number characters. */
  function NumericPrefix(s: Text): Text {
    if s == [] || !IsNumeric(s[0]) then [] else [s[0]] + NumericPrefix(s[1..])
  }

  function BeforeDot(s: Text): (r: Text)
    ensures r <= s
  {
    if s == [] || s[0] == DOT then [] else [s[0]] + BeforeDot(s[1..])
  }

  function WithoutDots(s: Text): Text {
    if s == [] then [] else if s[0] == DOT then WithoutDots(s[1..]) else [s[0]] + WithoutDots(s[1..])
  }

  /** What the characters before and after a decimal point mean to the parser. */
  function DoubleOf(whole: Text, fraction: Text): Outcome<Json> {
    if ToUint(whole).None? && (ToInt64(whole).None? || !(I32_MIN <= ToInt64(whole).value <= I32_MAX)) then Rejected
    else if ToUint(fraction).None? then Rejected
    else
      var w := if ToUint(whole).Some? then Narrow(ToUint(whole).value) else ToInt64(whole).value;
      var f := Narrow(ToUint(fraction).value);
      Ok(Double(w, if w < 0 then Narrow(-f) else f, Divider(|fraction|)))
  }

  /** What a run of number characters means to the parser. */
  function NumberOf(s: Text): Outcome<Json> {
    var whole := BeforeDot(s);
    if DOT in s then
      DoubleOf(whole, WithoutDots(s[|whole|..]))
    else if ToUint(s).Some? then Ok(Number(ToUint(s).value))
    else if ToInt64(s).None? then Rejected
    else if ToInt64(s).value <= I32_MAX then Ok(Number(Narrow(ToInt64(s).value)))
    else Ok(Number(ToInt64(s).value))
  }

  // ---------- strings ----------

  function Escaped(b: Byte): Text {
    if b == 27 then [BACKSLASH, 117, 48, 48, 49, 66]
    else if b == 8 then [BACKSLASH, 98]
    else if b == 10 then [BACKSLASH, 110]
    else if b == 9 then [BACKSLASH, 116]
    else if b == QUOTE then [BACKSLASH, QUOTE]
    else if b == BACKSLASH then [BACKSLASH, BACKSLASH]
    else [b]
  }

  function Escape(s: Text): Text {
    if s == [] then [] else Escaped(s[0]) + Escape(s[1..])
  }

  function Quoted(s: Text): Text {
    [QUOTE] + Escape(s) + [QUOTE]
  }

  function TrimLeft(s: Text): Text {
    if s != [] && IsSpace(s[0]) then TrimLeft(s[1..]) else s
  }

  function TrimRight(s: Text): Text {
    if s != [] && IsSpace(s[|s| - 1]) then TrimRight(s[..|s| - 1]) else s
  }

  function HexDigit(b: Byte): Option<nat> {
    if IsDigit(b) then Some(b - 48)
    else if 97 <= b <= 102 then Some(b - 87)
    else if 65 <= b <= 70 then Some(b - 55)
    else None
  }

  predicate AllHex(s: Text) {
    forall i :: 0 <= i < |s| ==> HexDigit(s[i]).Some?
  }

  function Hexadecimal(s: Text): nat
    requires AllHex(s)
  {
    if s == [] then 0 else 16 * Hexadecimal(s[..|s| - 1]) + HexDigit(s[|s| - 1]).value
  }

  /** convert_to_uint_from_hex<u32>. */
  function FromHex(s: Text): Option<nat> {
    var t := TrimRight(TrimLeft(s));
    if t != [] && AllHex(t) && Hexadecimal(t) <= U32_MAX then Some(Hexadecimal(t)) else None
  }

  /** append_code_point: UTF-8, with a replacement character past the last code point. */
  function Utf8(c: nat): Text {
    if c <= 0x7f then [c]
    else if c <= 0x7ff then [0xc0 + c / 64, 0x80 + c % 64]
    else if c <= 0xffff then [0xe0 + c / 4096, 0x80 + c / 64 % 64, 0x80 + c % 64]
    else if c <= 0x10ffff then [0xf0 + c / 262144, 0x80 + c / 4096 % 64, 0x80 + c / 64 % 64, 0x80 + c % 64]
    else [0xef, 0xbf, 0xbd]
  }

  /** What a backslash and the bytes after it stand for, and how many bytes it takes. */
  function Escapee(s: Text): (Text, nat)
    requires |s| >= 2 && s[0] == BACKSLASH
  {
    var e := s[1];
    if e == 110 then ([10], 2)
    else if e == 114 then ([13], 2)
    else if e == 116 then ([9], 2)
    else if e == 98 then ([8], 2)
    else if e == 102 then ([12], 2)
    else if e == 117 then
      var n := Min(4, |s| - 2);
      var c := FromHex(s[2..2 + n]);
      (if c.Some? then Utf8(c.value) else [63], 2 + n)
    else ([e], 2)
  }

  /** The string up to the closing quote, and the text after it. */
  function Unescape(s: Text): (r: Outcome<(Text, Text)>)
    ensures r.Ok? ==> |r.value.1| < |s|
    decreases |s|
  {
    if s == [] then Rejected
    else if s[0] == QUOTE then Ok(([], s[1..]))
    else if s[0] != BACKSLASH then
      var (t, rest) :- Unescape(s[1..]);
      Ok(([s[0]] + t, rest))
    else if |s| == 1 then Aborted
    else
      var (c, n) := Escapee(s);
      var (t, rest) :- Unescape(s[n..]);
      Ok((c + t, rest))
  }

  lemma UnescapeOne(b: Byte, t: Text)
    ensures var e := Escaped(b);
            |e| > 0 && e[0] != QUOTE
            && if e[0] == BACKSLASH then Escapee(e + t) == ([b], |e|) else e == [b]
  {
    if b == 27 {
      var s := Escaped(b) + t;
      assert s[2..6] == [48, 48, 49, 66];
      HexOfEscape();
    }
  }

  lemma HexOfEscape()
    ensures FromHex([48, 48, 49, 66]) == Some(27)
  {
    var s: Text := [48, 48, 49, 66];
    assert TrimLeft(s) == s && TrimRight(s) == s && AllHex(s);
    assert s[..3] == [48, 48, 49];
    var u: Text := [48, 48, 49];
    assert u[..2] == [48, 48];
    var v: Text := [48, 48];
    assert v[..1] == [48];
    var w: Text := [48];
    assert w[..0] == [];
    assert Hexadecimal(w) == 0;
    assert Hexadecimal(v) == 0;
    assert Hexadecimal(u) == 1;
  }

  /** Unescaping undoes escaping, for every byte string. */
  lemma {:induction false} UnescapeEscaped(s: Text, rest: Text)
    ensures Unescape(Escape(s) + [QUOTE] + rest) == Ok((s, rest))
  {
    hide Escaped, Escapee;
    if s == [] {
      assert Escape(s) + [QUOTE] + rest == [QUOTE] + rest;
    } else {
      var e, t := Escaped(s[0]), Escape(s[1..]) + [QUOTE] + rest;
      assert Escape(s) + [QUOTE] + rest == e + t;
      UnescapeOne(s[0], t);
      assert (e + t)[0] == e[0];
      UnescapeEscaped(s[1..], rest);
      assert (e + t)[|e|..] == t;
      assert [s[0]] + s[1..] == s;
    }
  }

  // ---------- serializing ----------

  const TRUE: Text := [116, 114, 117, 101]
  const FALSE: Text := [102, 97, 108, 115, 101]
  const NULL: Text := [110, 117, 108, 108]

  function Serialize(v: Json): Text {
    match v
    case Null => NULL
    case Bool(b) => if b then TRUE else FALSE
    case Number(n) => NumberText(n)
    case Double(_, _, _) => []
    case String(t) => Quoted(t)
    case Array(items) => [LBRACKET] + SerializeItems(items) + [RBRACKET]
    case Object(members) => [LBRACE] + SerializeMembers(members) + [RBRACE]
  }

  function SerializeItems(items: seq<Json>): Text {
    if items == [] then []
    else Serialize(items[0]) + SerializeMoreItems(items[1..])
  }

  function SerializeMoreItems(items: seq<Json>): Text {
    if items == [] then [] else [COMMA] + Serialize(items[0]) + SerializeMoreItems(items[1..])
  }

  function SerializeMember(m: Member): Text {
    Quoted(m.key) + [COLON] + Serialize(m.value)
  }

  function SerializeMembers(members: seq<Member>): Text {
    if members == [] then []
    else SerializeMember(members[0]) + SerializeMoreMembers(members[1..])
  }

  function SerializeMoreMembers(members: seq<Member>): Text {
    if members == [] then [] else [COMMA] + SerializeMember(members[0]) + SerializeMoreMembers(members[1..])
  }

  // ---------- parsing ----------

  function SkipSpace(s: Text): (r: Text)
    ensures |r| <= |s| && (r != [] ==> !IsSpace(r[0]))
  {
    if s != [] && IsSpace(s[0]) then SkipSpace(s[1..]) else s
  }

  /** The next byte, or zero at the end. */
  function Peek(s: Text): Byte {
    if s == [] then 0 else s[0]
  }

  /** JsonObject::set: a key set again moves to the end. */
  function Set(members: seq<Member>, key: Text, value: Json): seq<Member> {
    WithoutKey(members, key) + [Member(key, value)]
  }

  function WithoutKey(members: seq<Member>, key: Text): seq<Member> {
    if members == [] then []
    else if members[0].key == key then members[1..]
    else [members[0]] + WithoutKey(members[1..], key)
  }

  function ParseString(s: Text): (r: Outcome<(Text, Text)>)
    ensures r.Ok? ==> |r.value.1| < |s|
  {
    if Peek(s) == QUOTE && s != [] then Unescape(s[1..]) else Rejected
  }

  function ParseLiteral(s: Text, literal: Text, v: Json): (r: Outcome<(Json, Text)>)
    requires literal != []
    ensures r.Ok? ==> |r.value.1| < |s|
  {
    if literal <= s then Ok((v, s[|literal|..])) else Rejected
  }

  function ParseNumber(s: Text): (r: Outcome<(Json, Text)>)
    requires s != [] && IsNumeric(s[0])
    ensures r.Ok? ==> |r.value.1| < |s|
  {
    var n := NumericPrefix(s);
    PrefixIsPrefix(s);
    var v :- NumberOf(n);
    Ok((v, s[|n|..]))
  }

  lemma {:induction false} PrefixIsPrefix(s: Text)
    ensures NumericPrefix(s) <= s && (s != [] && IsNumeric(s[0]) ==> NumericPrefix(s) != [])
  {
    if s != [] && IsNumeric(s[0]) {
      PrefixIsPrefix(s[1..]);
    }
  }

  function ParseValue(input: Text): (r: Outcome<(Json, Text)>)
    ensures r.Ok? ==> |r.value.1| < |input|
    decreases |input|, 0
  {
    var s := SkipSpace(input);
    var p := Peek(s);
    if s == [] then Rejected
    else if p == LBRACE then ParseMembers(s[1..], [])
    else if p == LBRACKET then ParseItems(s[1..], [])
    else if p == QUOTE then
      var (t, rest) :- ParseString(s);
      Ok((String(t), rest))
    else if p == MINUS || IsDigit(p) then ParseNumber(s)
    else if p == 102 then ParseLiteral(s, FALSE, Bool(false))
    else if p == 116 then ParseLiteral(s, TRUE, Bool(true))
    else if p == 110 then ParseLiteral(s, NULL, Null)
    else Rejected
  }

  function ParseItems(input: Text, done: seq<Json>): (r: Outcome<(Json, Text)>)
    ensures r.Ok? ==> |r.value.1| < |input|
    decreases |input|, 1
  {
    var s := SkipSpace(input);
    if s != [] && s[0] == RBRACKET then Ok((Array(done), s[1..]))
    else
      var (v, after) :- ParseValue(s);
      var t := SkipSpace(after);
      if t == [] then Rejected
      else if t[0] == RBRACKET then Ok((Array(done + [v]), t[1..]))
      else if t[0] != COMMA then Rejected
      else
        var u := SkipSpace(t[1..]);
        if u != [] && u[0] == RBRACKET then Rejected else ParseItems(u, done + [v])
  }

  function ParseMembers(input: Text, done: seq<Member>): (r: Outcome<(Json, Text)>)
    ensures r.Ok? ==> |r.value.1| < |input|
    decreases |input|, 1
  {
    var s := SkipSpace(input);
    if s != [] && s[0] == RBRACE then Ok((Object(done), s[1..]))
    else
      var (key, afterKey) :- ParseString(s);
      var k := SkipSpace(afterKey);
      if k == [] || k[0] != COLON then Rejected
      else
        var (v, after) :- ParseValue(SkipSpace(k[1..]));
        var t := SkipSpace(after);
        if t == [] then Rejected
        else if t[0] == RBRACE then Ok((Object(Set(done, key, v)), t[1..]))
        else if t[0] != COMMA then Rejected
        else
          var u := SkipSpace(t[1..]);
          if u != [] && u[0] == RBRACE then Rejected else ParseMembers(u, Set(done, key, v))
  }

  function Parse(input: Text): (r: Outcome<Json>) {
    var (v, rest) :- ParseValue(input);
    if SkipSpace(rest) == [] then Ok(v) else Rejected
  }
}
