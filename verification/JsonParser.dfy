/** AK/JsonParser.cpp: the recursive-descent parser, with the conversions it calls. */
module JsonParser {
  import opened Basics
  import opened JsonText

  // ---------- conversions (AK/StringUtils.cpp) ----------

  function Trimmed(s: Text): Text { TrimRight(TrimLeft(s)) }

  ghost predicate Spaceless(s: Text) {
    forall i :: 0 <= i < |s| ==> !IsSpace(s[i])
  }

  lemma NothingToTrim(s: Text)
    requires Spaceless(s)
    ensures Trimmed(s) == s
  {
  }

  method TrimWhitespace(s: Text) returns (r: Text)
    ensures r == Trimmed(s)
  {
    r := s;
    while r != [] && IsSpace(r[0])
      invariant TrimLeft(s) == TrimLeft(r)
      decreases |r|
    {
      r := r[1..];
    }
    while r != [] && IsSpace(r[|r| - 1])
      invariant TrimRight(TrimLeft(s)) == TrimRight(r)
      decreases |r|
    {
      r := r[..|r| - 1];
    }
  }

  lemma DecimalGrows(s: Text, i: nat)
    requires i < |s| && AllDigits(s[..i + 1])
    ensures AllDigits(s[..i]) && Decimal(s[..i + 1]) == 10 * Decimal(s[..i]) + (s[i] - 48)
  {
    assert s[..i + 1][..i] == s[..i];
  }

  lemma DecimalNone(s: Text)
    ensures AllDigits(s[..0]) && Decimal(s[..0]) == 0
  {
  }

  lemma {:induction false} DecimalMonotone(s: Text, i: nat)
    requires AllDigits(s) && i <= |s|
    ensures AllDigits(s[..i]) && Decimal(s[..i]) <= Decimal(s)
    decreases |s| - i
  {
    if i == |s| {
      assert s[..i] == s;
    } else {
      DecimalMonotone(s, i + 1);
      DecimalGrows(s, i);
    }
  }

  method ConvertToUint(s: Text) returns (r: Option<nat>)
    ensures r == ToUint(Trimmed(s))
  {
    hide Decimal, Trimmed;
    var t := TrimWhitespace(s);
    if t == [] {
      return None;
    }
    DecimalNone(t);
    var value: nat := 0;
    var i := 0;
    while i < |t|
      invariant 0 <= i <= |t| && AllDigits(t[..i]) && value == Decimal(t[..i]) <= U32_MAX
    {
      if t[i] < 48 || t[i] > 57 {
        assert !IsDigit(t[i]);
        return None;
      }
      DecimalGrows(t, i);
      if AllDigits(t) {
        DecimalMonotone(t, i + 1);
      }
      if value * 10 > U32_MAX {
        return None;
      }
      value := value * 10;
      if value + (t[i] - 48) > U32_MAX {
        return None;
      }
      value := value + (t[i] - 48);
      i := i + 1;
    }
    assert t[..i] == t;
    return Some(value);
  }

  ghost function Signed(sign: int, n: int): int {
    if sign == 1 then n else -n
  }

  predicate InI64(n: int) { I64_MIN <= n <= I64_MAX }

  ghost function SignedValue(digits: Text, sign: int): Option<int> {
    if AllDigits(digits) && InI64(Signed(sign, Decimal(digits))) then Some(Signed(sign, Decimal(digits))) else None
  }

  /** Once a prefix is out of range, or ten times it, so is the whole. */
  lemma StaysOut(digits: Text, k: nat, sign: int)
    requires AllDigits(digits) && k < |digits|
    ensures AllDigits(digits[..k]) && AllDigits(digits[..k + 1])
    ensures !InI64(Signed(sign, 10 * Decimal(digits[..k]))) ==> SignedValue(digits, sign).None?
    ensures !InI64(Signed(sign, Decimal(digits[..k + 1]))) ==> SignedValue(digits, sign).None?
  {
    hide Decimal;
    DecimalGrows(digits, k);
    DecimalMonotone(digits, k + 1);
  }

  /** The loop of convert_to_int after the sign. */
  method AccumulateDigits(digits: Text, sign: int) returns (r: Option<int>)
    requires sign == 1 || sign == -1
    ensures r == SignedValue(digits, sign)
  {
    hide Decimal;
    DecimalNone(digits);
    var value: int := 0;
    var i := 0;
    while i < |digits|
      invariant 0 <= i <= |digits| && AllDigits(digits[..i])
      invariant value == Signed(sign, Decimal(digits[..i])) && InI64(value)
    {
      if digits[i] < 48 || digits[i] > 57 {
        assert !IsDigit(digits[i]);
        return None;
      }
      DecimalGrows(digits, i);
      if AllDigits(digits) {
        StaysOut(digits, i, sign);
      }
      value := value * 10;
      if !InI64(value) {
        return None;
      }
      var digit: int := digits[i] - 48;
      value := value + (if sign == 1 then digit else -digit);
      if !InI64(value) {
        return None;
      }
      i := i + 1;
    }
    assert digits[..i] == digits;
    return Some(value);
  }

  method ConvertToInt64(s: Text) returns (r: Option<int>)
    ensures r == ToInt64(Trimmed(s))
  {
    hide Decimal, AllDigits, Trimmed;
    var t := TrimWhitespace(s);
    if t == [] {
      return None;
    }
    var sign, first := 1, 0;
    if t[0] == MINUS || t[0] == 43 {
      if |t| == 1 {
        return None;
      }
      first := 1;
      if t[0] == MINUS {
        sign := -1;
      }
    }
    assert t[0..] == t;
    r := AccumulateDigits(t[first..], sign);
  }

  lemma {:induction false} HexMonotone(s: Text, i: nat)
    requires AllHex(s) && i <= |s|
    ensures AllHex(s[..i]) && Hexadecimal(s[..i]) <= Hexadecimal(s)
    decreases |s| - i
  {
    if i == |s| {
      assert s[..i] == s;
    } else {
      HexMonotone(s, i + 1);
      assert s[..i + 1][..i] == s[..i];
    }
  }

  method ConvertToUintFromHex(s: Text) returns (r: Option<nat>)
    ensures r == FromHex(s)
  {
    var t := TrimWhitespace(s);
    if t == [] {
      return None;
    }
    var value: nat := 0;
    var i := 0;
    while i < |t|
      invariant 0 <= i <= |t| && AllHex(t[..i]) && value == Hexadecimal(t[..i]) <= U32_MAX
    {
      assert t[..i + 1][..i] == t[..i];
      if value > U32_MAX / 16 {
        if AllHex(t) { HexMonotone(t, i + 1); }
        return None;
      }
      var digit := HexDigit(t[i]);
      if digit.None? {
        return None;
      }
      value := value * 16 + digit.value;
      i := i + 1;
    }
    assert t[..i] == t;
    return Some(value);
  }

  // ---------- the parser ----------

  /** Unescaping `s` amounts to `text` followed by unescaping `rest`. */
  ghost predicate Resumes(s: Text, text: Text, rest: Text) {
    Unescape(s) == match Unescape(rest) {
                     case Ok(p) => Ok((text + p.0, p.1))
                     case Rejected => Rejected
                     case Aborted => Aborted
                   }
  }

  lemma ResumesAtFirst(s: Text)
    ensures Resumes(s, [], s)
  {
    var u := Unescape(s);
    if u.Ok? {
      assert [] + u.value.0 == u.value.0;
    }
  }

  lemma ResumesAtLast(s: Text, text: Text, rest: Text)
    requires Resumes(s, text, rest)
    ensures rest == [] ==> Unescape(s) == Rejected
    ensures rest != [] && rest[0] == QUOTE ==> Unescape(s) == Ok((text, rest[1..]))
    ensures |rest| == 1 && rest[0] == BACKSLASH ==> Unescape(s) == Aborted
  {
    assert text + [] == text;
  }

  lemma ResumesAfterByte(s: Text, text: Text, rest: Text)
    requires Resumes(s, text, rest) && rest != [] && rest[0] != QUOTE && rest[0] != BACKSLASH
    ensures Resumes(s, text + [rest[0]], rest[1..])
  {
    var u := Unescape(rest[1..]);
    if u.Ok? {
      assert text + [rest[0]] + u.value.0 == text + ([rest[0]] + u.value.0);
    }
  }

  lemma ResumesAfterEscape(s: Text, text: Text, rest: Text)
    requires Resumes(s, text, rest) && |rest| >= 2 && rest[0] == BACKSLASH
    ensures Resumes(s, text + Escapee(rest).0, rest[Escapee(rest).1..])
  {
    var (c, n) := Escapee(rest);
    var u := Unescape(rest[n..]);
    if u.Ok? {
      assert text + c + u.value.0 == text + (c + u.value.0);
    }
  }

  lemma {:induction false} DotStaysFirst(n: Text, b: Byte)
    ensures DOT in n ==> BeforeDot(n + [b]) == BeforeDot(n)
    ensures DOT !in n ==> BeforeDot(n) == n && BeforeDot(n + [b]) == (if b == DOT then n else n + [b])
  {
    if n == [] {
      assert n + [b] == [b];
    } else {
      assert (n + [b])[1..] == n[1..] + [b];
      assert n == [n[0]] + n[1..];
      DotStaysFirst(n[1..], b);
    }
  }

  lemma BeforeDotGrows(n: Text, b: Byte)
    ensures DOT in n ==> BeforeDot(n + [b]) == BeforeDot(n)
                         && WithoutDots((n + [b])[|BeforeDot(n)|..]) == WithoutDots(n[|BeforeDot(n)|..]) + (if b == DOT then [] else [b])
    ensures DOT !in n ==> BeforeDot(n) == n && BeforeDot(n + [b]) == (if b == DOT then n else n + [b])
    ensures DOT !in n && b == DOT ==> WithoutDots((n + [b])[|n|..]) == []
  {
    hide BeforeDot;
    var k := |BeforeDot(n)|;
    DotStaysFirst(n, b);
    assert (n + [b])[k..] == n[k..] + [b];
    WithoutDotsGrows(n[k..], b);
  }

  lemma {:induction false} WithoutDotsGrows(n: Text, b: Byte)
    ensures WithoutDots(n + [b]) == WithoutDots(n) + (if b == DOT then [] else [b])
  {
    if n == [] {
      assert n + [b] == [b];
    } else {
      assert (n + [b])[1..] == n[1..] + [b];
      WithoutDotsGrows(n[1..], b);
    }
  }

  ghost predicate Collected(n: Text, whole: Text, fraction: Text, isDouble: bool) {
    && (isDouble <==> DOT in n) && whole == BeforeDot(n) && fraction == WithoutDots(n[|whole|..])
    && Spaceless(whole) && Spaceless(fraction)
  }

  lemma CollectedNone()
    ensures Collected([], [], [], false)
  {
  }

  lemma CollectMore(n: Text, b: Byte, whole: Text, fraction: Text, isDouble: bool)
    requires Collected(n, whole, fraction, isDouble) && !IsSpace(b)
    ensures b == DOT ==> Collected(n + [b], whole, fraction, true)
    ensures b != DOT && isDouble ==> Collected(n + [b], whole, fraction + [b], true)
    ensures b != DOT && !isDouble ==> Collected(n + [b], whole + [b], fraction, false)
  {
    BeforeDotGrows(n, b);
    if DOT !in n {
      assert n[|n|..] == [] && (n + [b])[|n + [b]|..] == [];
    }
  }

  method MultiplyTens(digits: nat) returns (divider: int)
    ensures divider == Divider(digits)
  {
    hide Narrow;
    divider := 1;
    for i := 0 to digits
      invariant divider == Divider(i)
    {
      divider := Narrow(divider * 10);
    }
  }

  /** The rest of `parse_number`. */
  method ConvertNumber(whole: Text, fraction: Text, isDouble: bool, ghost n: Text) returns (r: Outcome<Json>)
    requires Collected(n, whole, fraction, isDouble)
    ensures r == NumberOf(n)
  {
    hide ToUint, ToInt64, Narrow, Trimmed;
    BeforeDotGrows(n, 0);
    NothingToTrim(whole);
    NothingToTrim(fraction);
    var u := ConvertToUint(whole);
    if isDouble {
      var w: int;
      if u.Some? {
        w := Narrow(u.value);
      } else {
        var i := ConvertToInt64(whole);
        if i.None? || !(I32_MIN <= i.value <= I32_MAX) {
          return Rejected;
        }
        w := i.value;
      }
      var f := ConvertToUint(fraction);
      if f.None? {
        return Rejected;
      }
      var numerator := Narrow(f.value);
      if w < 0 {
        numerator := Narrow(-numerator);
      }
      var divider := MultiplyTens(|fraction|);
      return Ok(Double(w, numerator, divider));
    }
    if u.Some? {
      return Ok(Number(u.value));
    }
    var i := ConvertToInt64(whole);
    if i.None? {
      return Rejected;
    }
    if i.value <= I32_MAX {
      return Ok(Number(Narrow(i.value)));
    }
    return Ok(Number(i.value));
  }

  lemma SpaceShrinks(s: Text)
    ensures |SkipSpace(s)| <= |s|
  {
  }

  /** One turn of the loop over an array's items. */
  lemma ItemsUnfold(input: Text, done: seq<Json>)
    ensures var s := SkipSpace(input);
            ParseItems(input, done) ==
            if s != [] && s[0] == RBRACKET then Ok((Array(done), s[1..]))
            else match ParseValue(s) {
              case Rejected => Rejected
              case Aborted => Aborted
              case Ok(p) =>
                var t := SkipSpace(p.1);
                if t == [] then Rejected
                else if t[0] == RBRACKET then Ok((Array(done + [p.0]), t[1..]))
                else if t[0] != COMMA then Rejected
                else
                  var u := SkipSpace(t[1..]);
                  if u != [] && u[0] == RBRACKET then Rejected else ParseItems(u, done + [p.0])
            }
  {
  }

  /** One turn of the loop over an object's members. */
  lemma MembersUnfold(input: Text, done: seq<Member>)
    ensures var s := SkipSpace(input);
            ParseMembers(input, done) ==
            if s != [] && s[0] == RBRACE then Ok((Object(done), s[1..]))
            else match ParseString(s) {
              case Rejected => Rejected
              case Aborted => Aborted
              case Ok(k) =>
                var c := SkipSpace(k.1);
                if c == [] || c[0] != COLON then Rejected
                else match ParseValue(SkipSpace(c[1..])) {
                  case Rejected => Rejected
                  case Aborted => Aborted
                  case Ok(p) =>
                    var t := SkipSpace(p.1);
                    if t == [] then Rejected
                    else if t[0] == RBRACE then Ok((Object(Set(done, k.0, p.0)), t[1..]))
                    else if t[0] != COMMA then Rejected
                    else
                      var u := SkipSpace(t[1..]);
                      if u != [] && u[0] == RBRACE then Rejected else ParseMembers(u, Set(done, k.0, p.0))
                }
            }
  {
  }

  class JsonParser {
    const input: Text
    var index: nat

    constructor (input: Text)
      ensures this.input == input && index == 0
    {
      this.input := input;
      index := 0;
    }

    ghost predicate Valid()
      reads this
    {
      index <= |input|
    }

    ghost function Rest(): Text
      requires Valid()
      reads this
    {
      input[index..]
    }

    function PeekByte(): (b: Byte)
      requires Valid()
      reads this
      ensures b == Peek(Rest())
    {
      if index < |input| then input[index] else 0
    }

    method IgnoreSpaces()
      requires Valid()
      modifies this
      ensures Valid() && Rest() == SkipSpace(old(Rest()))
    {
      while index < |input| && IsSpace(input[index])
        invariant Valid() && SkipSpace(Rest()) == SkipSpace(old(Rest()))
      {
        assert Rest()[1..] == input[index + 1..];
        index := index + 1;
      }
    }

    method ConsumeByte(b: Byte) returns (found: bool)
      requires Valid() && b != 0
      modifies this
      ensures Valid() && (found <==> old(Rest()) != [] && old(Rest())[0] == b)
      ensures Rest() == if found then old(Rest())[1..] else old(Rest())
    {
      found := PeekByte() == b;
      if found {
        index := index + 1;
      }
    }

    method ConsumeText(t: Text) returns (found: bool)
      requires Valid() && t != [] && forall i :: 0 <= i < |t| ==> t[i] != 0
      modifies this
      ensures Valid() && (found <==> t <= old(Rest()))
      ensures Rest() == if found then old(Rest())[|t|..] else old(Rest())
    {
      var i := 0;
      while i < |t|
        invariant 0 <= i <= |t| && i <= |Rest()| && t[..i] == Rest()[..i] && index == old(index)
      {
        if index + i >= |input| || input[index + i] != t[i] {
          assert |Rest()| <= i || Rest()[i] != t[i];
          return false;
        }
        i := i + 1;
      }
      index := index + |t|;
      return true;
    }

    /** Copies bytes up to a quote, a backslash or the end of the input. */
    method CopyPlain(before: Text, ghost s: Text) returns (text: Text)
      requires Valid() && Resumes(s, before, Rest())
      modifies this
      ensures Valid() && Resumes(s, text, Rest()) && index >= old(index)
      ensures index < |input| ==> input[index] == QUOTE || input[index] == BACKSLASH
    {
      hide Resumes;
      text := before;
      var peek := index;
      while peek < |input| && input[peek] != QUOTE && input[peek] != BACKSLASH
        invariant index <= peek <= |input|
        invariant forall i :: index <= i < peek ==> input[i] != QUOTE && input[i] != BACKSLASH
      {
        peek := peek + 1;
      }
      while peek != index
        invariant old(index) <= index <= peek && Resumes(s, text, Rest())
        invariant forall i :: index <= i < peek ==> input[i] != QUOTE && input[i] != BACKSLASH
        decreases peek - index
      {
        ResumesAfterByte(s, text, Rest());
        assert Rest()[1..] == input[index + 1..];
        text := text + [input[index]];
        index := index + 1;
      }
    }

    /** A backslash and what it escapes. */
    method ConsumeEscape() returns (bytes: Text)
      requires Valid() && |Rest()| >= 2 && Rest()[0] == BACKSLASH
      modifies this
      ensures Valid() && bytes == Escapee(old(Rest())).0 && Rest() == old(Rest())[Escapee(old(Rest())).1..]
      ensures index > old(index)
    {
      ghost var s := Rest();
      index := index + 1;
      var e := input[index];
      index := index + 1;
      if e == 110 {
        bytes := [10];
      } else if e == 114 {
        bytes := [13];
      } else if e == 116 {
        bytes := [9];
      } else if e == 98 {
        bytes := [8];
      } else if e == 102 {
        bytes := [12];
      } else if e == 117 {
        var n := Min(4, |input| - index);
        var digits := input[index..index + n];
        assert digits == s[2..2 + n];
        index := index + n;
        var c := ConvertToUintFromHex(digits);
        if c.Some? {
          bytes := Utf8(c.value);
        } else {
          bytes := [63];
        }
      } else {
        bytes := [e];
      }
    }

    /** The body of a string, after its opening quote. */
    method UnescapeBody() returns (r: Outcome<Text>)
      requires Valid()
      modifies this
      ensures Valid()
      ensures match Unescape(old(Rest())) {
                case Ok(p) => r == Ok(p.0) && Rest() == p.1
                case Rejected => r == Rejected
                case Aborted => r == Aborted
              }
    {
      hide Resumes, Unescape;
      var text: Text := [];
      ResumesAtFirst(Rest());
      while true
        invariant Valid() && Resumes(old(Rest()), text, Rest())
        decreases |input| - index
      {
        text := CopyPlain(text, old(Rest()));
        ResumesAtLast(old(Rest()), text, Rest());
        if index == |input| {
          r := Rejected;
          return;
        }
        if input[index] == QUOTE {
          index := index + 1;
          r := Ok(text);
          return;
        }
        if index + 1 == |input| {
          r := Aborted;
          return;
        }
        ghost var s := Rest();
        var bytes := ConsumeEscape();
        ResumesAfterEscape(old(Rest()), text, s);
        text := text + bytes;
      }
    }

    method ConsumeAndUnescapeString() returns (r: Outcome<Text>)
      requires Valid()
      modifies this
      ensures Valid()
      ensures match ParseString(old(Rest())) {
                case Ok(p) => r == Ok(p.0) && Rest() == p.1
                case Rejected => r == Rejected
                case Aborted => r == Aborted
              }
    {
      var quoted := ConsumeByte(QUOTE);
      if !quoted {
        return Rejected;
      }
      r := UnescapeBody();
    }

    /** The loop of `parse_number`: collects the characters before and after the dot. */
    method ScanNumber() returns (whole: Text, fraction: Text, isDouble: bool)
      requires Valid()
      modifies this
      ensures Valid() && NumericPrefix(old(Rest())) <= old(Rest()) && Rest() == old(Rest())[|NumericPrefix(old(Rest()))|..]
      ensures Collected(NumericPrefix(old(Rest())), whole, fraction, isDouble)
    {
      hide Collected;
      ghost var s, n := Rest(), [];
      whole, fraction, isDouble := [], [], false;
      CollectedNone();
      assert [] + NumericPrefix(s) == NumericPrefix(s);
      while index < |input| && IsNumeric(input[index])
        invariant index <= |input| && n <= s && Rest() == s[|n|..]
        invariant NumericPrefix(s) == n + NumericPrefix(Rest())
        invariant Collected(n, whole, fraction, isDouble)
      {
        var b := input[index];
        assert Rest()[0] == b;
        assert Rest()[1..] == input[index + 1..];
        assert n + NumericPrefix(Rest()) == n + [b] + NumericPrefix(Rest()[1..]);
        CollectMore(n, b, whole, fraction, isDouble);
        if b == DOT {
          isDouble := true;
        } else if isDouble {
          fraction := fraction + [b];
        } else {
          whole := whole + [b];
        }
        assert s[..|n| + 1] == n + [b];
        n := n + [b];
        index := index + 1;
      }
      assert n + [] == n;
    }

    method ParseNumberHere() returns (r: Outcome<Json>)
      requires Valid() && Rest() != [] && IsNumeric(Rest()[0])
      modifies this
      ensures Valid() && Agrees(r, ParseNumber(old(Rest())))
    {
      hide Collected, NumberOf;
      var whole, fraction, isDouble := ScanNumber();
      r := ConvertNumber(whole, fraction, isDouble, NumericPrefix(old(Rest())));
    }

    /** The method's answer and position are what the function says. */
    ghost predicate Agrees(r: Outcome<Json>, expected: Outcome<(Json, Text)>)
      requires Valid()
      reads this
    {
      match expected
      case Ok(p) => r == Ok(p.0) && Rest() == p.1
      case Rejected => r == Rejected
      case Aborted => r == Aborted
    }

    method ParseLiteralHere(literal: Text, v: Json) returns (r: Outcome<Json>)
      requires Valid() && literal != [] && forall i :: 0 <= i < |literal| ==> literal[i] != 0
      modifies this
      ensures Valid() && Agrees(r, ParseLiteral(old(Rest()), literal, v))
    {
      var found := ConsumeText(literal);
      r := if found then Ok(v) else Rejected;
    }

    method ParseArrayHere() returns (r: Outcome<Json>)
      requires Valid() && Rest() != [] && Rest()[0] == LBRACKET
      modifies this
      ensures Valid() && Agrees(r, ParseItems(old(Rest())[1..], []))
      decreases |input| - index, 0
    {
      hide ParseValue, ParseItems, ParseMembers, SkipSpace;
      ghost var expected := ParseItems(Rest()[1..], []);
      var items: seq<Json> := [];
      var _ := ConsumeByte(LBRACKET);
      ghost var started := index;
      while true
        invariant Valid() && started <= index && expected == ParseItems(Rest(), items)
        decreases |input| - index
      {
        ItemsUnfold(Rest(), items);
        ghost var before := Rest();
        IgnoreSpaces();
        SpaceShrinks(before);
        if PeekByte() == RBRACKET {
          break;
        }
        var item := ParseHelper();
        if !item.Ok? {
          return item;
        }
        items := items + [item.value];
        ghost var after := Rest();
        IgnoreSpaces();
        SpaceShrinks(after);
        if PeekByte() == RBRACKET {
          break;
        }
        var comma := ConsumeByte(COMMA);
        if !comma {
          return Rejected;
        }
        after := Rest();
        IgnoreSpaces();
        SpaceShrinks(after);
        if PeekByte() == RBRACKET {
          return Rejected;
        }
      }
      var _ := ConsumeByte(RBRACKET);
      return Ok(Array(items));
    }
    
    method ParseHelper() returns (r: Outcome<Json>)
      requires Valid()
      modifies this
      ensures Valid() && Agrees(r, ParseValue(old(Rest()))) && (r.Ok? ==> index > old(index))
      decreases |input| - index, 1
    {
      hide ParseItems, ParseMembers, ParseNumber, ParseString, Unescape;
      ghost var s := Rest();
      IgnoreSpaces();
      SpaceShrinks(s);
      var hint := PeekByte();
      if hint == LBRACE {
        r := ParseObjectHere();
      } else if hint == LBRACKET {
        r := ParseArrayHere();
      } else if hint == QUOTE {
        var t := ConsumeAndUnescapeString();
        r := if t.Ok? then Ok(String(t.value)) else t.PropagateFailure();
      } else if hint == MINUS || 48 <= hint <= 57 {
        r := ParseNumberHere();
      } else if hint == 102 {
        r := ParseLiteralHere(FALSE, Bool(false));
      } else if hint == 116 {
        r := ParseLiteralHere(TRUE, Bool(true));
      } else if hint == 110 {
        r := ParseLiteralHere(NULL, Null);
      } else {
        r := Rejected;
      }
    }

    method ParseObjectHere() returns (r: Outcome<Json>)
      requires Valid() && Rest() != [] && Rest()[0] == LBRACE
      modifies this
      ensures Valid() && Agrees(r, ParseMembers(old(Rest())[1..], []))
      decreases |input| - index, 0
    {
      hide ParseValue, ParseItems, ParseMembers, SkipSpace, ParseString, Set;
      ghost var expected := ParseMembers(Rest()[1..], []);
      var members: seq<Member> := [];
      var _ := ConsumeByte(LBRACE);
      ghost var started := index;
      while true
        invariant Valid() && started <= index && expected == ParseMembers(Rest(), members)
        decreases |input| - index
      {
        MembersUnfold(Rest(), members);
        ghost var before := Rest();
        IgnoreSpaces();
        SpaceShrinks(before);
        if PeekByte() == RBRACE {
          break;
        }
        var name := ConsumeAndUnescapeString();
        if !name.Ok? {
          return name.PropagateFailure();
        }
        ghost var after := Rest();
        IgnoreSpaces();
        SpaceShrinks(after);
        var colon := ConsumeByte(COLON);
        if !colon {
          return Rejected;
        }
        after := Rest();
        IgnoreSpaces();
        SpaceShrinks(after);
        var value := ParseHelper();
        if !value.Ok? {
          return value;
        }
        members := Set(members, name.value, value.value);
        after := Rest();
        IgnoreSpaces();
        SpaceShrinks(after);
        if PeekByte() == RBRACE {
          break;
        }
        var comma := ConsumeByte(COMMA);
        if !comma {
          return Rejected;
        }
        after := Rest();
        IgnoreSpaces();
        SpaceShrinks(after);
        if PeekByte() == RBRACE {
          return Rejected;
        }
      }
      var _ := ConsumeByte(RBRACE);
      return Ok(Object(members));
    }

    method Parse() returns (r: Outcome<Json>)
      requires index == 0
      modifies this
      ensures r == JsonText.Parse(input)
    {
      r := ParseHelper();
      if !r.Ok? {
        return;
      }
      IgnoreSpaces();
      if index < |input| {
        return Rejected;
      }
    }
  }
}
