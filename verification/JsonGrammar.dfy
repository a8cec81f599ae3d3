/**
  The texts of AK/JsonParser.cpp and the serializers, byte by byte: the grammar of
  RFC 8259, and the wider one the parser accepts. A syntax tree holds every byte of a
  text, white space included; nothing here uses the parser's own constants.
*/
module JsonGrammar {
  import opened Basics
  import opened JsonText
  import JsonRoundTrip

  // ---------- UTF-8 ----------

  /** A continuation byte, and the six bits it carries. */
  predicate Trail(b: Byte) { 0x80 <= b < 0xc0 }

  function Bits(b: Byte, mark: int): int { b - mark }

  /** The code point that lead and continuation bytes stand for (section 3 of RFC 3629). */
  function Decoded(b: Text): Option<int> {
    if |b| == 1 && b[0] < 0x80 then Some(b[0])
    else if |b| == 2 && 0xc0 <= b[0] < 0xe0 && Trail(b[1]) then
      Some(Bits(b[0], 0xc0) * 0x40 + Bits(b[1], 0x80))
    else if |b| == 3 && 0xe0 <= b[0] < 0xf0 && Trail(b[1]) && Trail(b[2]) then
      Some(Bits(b[0], 0xe0) * 0x1000 + Bits(b[1], 0x80) * 0x40 + Bits(b[2], 0x80))
    else if |b| == 4 && 0xf0 <= b[0] < 0xf8 && Trail(b[1]) && Trail(b[2]) && Trail(b[3]) then
      Some(Bits(b[0], 0xf0) * 0x40000 + Bits(b[1], 0x80) * 0x1000 + Bits(b[2], 0x80) * 0x40 + Bits(b[3], 0x80))
    else None
  }

  /** Encoding is undone by decoding, in the shortest form; past the last code point it is the replacement character. */
  lemma Utf8Decodes(c: nat)
    ensures Decoded(Utf8(c)) == Some(if c <= 0x10ffff then c else 0xfffd)
    ensures |Utf8(c)| == if c < 0x80 then 1 else if c < 0x800 then 2 else if c < 0x1_0000 || c > 0x10ffff then 3 else 4
  {
    if c < 0x1_0000 {
      ThreeBytes(c);
    } else if c <= 0x10ffff {
      FourBytes(c);
    }
  }

  lemma ThreeBytes(c: nat)
    requires c < 0x1_0000
    ensures c == c / 4096 * 4096 + c / 64 % 64 * 64 + c % 64
    ensures c / 4096 < 16 && (c < 0x800 ==> c / 64 < 32)
    ensures c >= 0x80 ==> Decoded(Utf8(c)) == Some(c)
  {
    var q := c / 64;
    QuotientIs(c, 4096, q / 64, q % 64 * 64 + c % 64);
  }

  lemma FourBytes(c: nat)
    requires 0x1_0000 <= c <= 0x10ffff
    ensures Decoded(Utf8(c)) == Some(c) && |Utf8(c)| == 4
  {
    var q := c / 64;
    QuotientIs(c, 4096, q / 64, q % 64 * 64 + c % 64);
    var p := c / 4096;
    QuotientIs(c, 262144, p / 64, p % 64 * 4096 + q % 64 * 64 + c % 64);
  }

  // ---------- strings ----------

  datatype Char =
    | Plain(b: Byte)
    | Short(letter: Byte)
    | Hex(digits: Text)

  function CharText(c: Char): Text {
    match c
    case Plain(b) => [b]
    case Short(letter) => [0x5c, letter]
    case Hex(digits) => [0x5c, 0x75] + digits
  }

  /** What the parser takes for a character. */
  predicate LaxChar(c: Char) {
    match c
    case Plain(b) => b != 0x22 && b != 0x5c
    case Short(letter) => letter != 0x75
    case Hex(digits) => |digits| == 4
  }

  predicate HexByte(b: Byte) { 0x30 <= b <= 0x39 || 0x41 <= b <= 0x46 || 0x61 <= b <= 0x66 }

  /** A character of section 7 of RFC 8259. */
  predicate StrictChar(c: Char) {
    match c
    case Plain(b) => b >= 0x20 && b != 0x22 && b != 0x5c
    case Short(letter) => letter in {0x22, 0x5c, 0x2f, 0x62, 0x66, 0x6e, 0x72, 0x74}
    case Hex(digits) => |digits| == 4 && forall i :: 0 <= i < 4 ==> HexByte(digits[i])
  }

  function Named(letter: Byte): Byte {
    if letter == 0x62 then 0x08
    else if letter == 0x66 then 0x0c
    else if letter == 0x6e then 0x0a
    else if letter == 0x72 then 0x0d
    else if letter == 0x74 then 0x09
    else letter
  }

  function HexWorth(b: Byte): nat
    requires HexByte(b)
  {
    if b <= 0x39 then b - 0x30 else if b <= 0x46 then b - 0x41 + 10 else b - 0x61 + 10
  }

  function Worth(digits: Text): nat
    requires |digits| == 4 && forall i :: 0 <= i < 4 ==> HexByte(digits[i])
  {
    0x1000 * HexWorth(digits[0]) + 0x100 * HexWorth(digits[1]) + 0x10 * HexWorth(digits[2]) + HexWorth(digits[3])
  }

  /** What the parser reads a character as. */
  function CharRead(c: Char): Text {
    match c
    case Plain(b) => [b]
    case Short(letter) => [Named(letter)]
    case Hex(digits) => if FromHex(digits).Some? then Utf8(FromHex(digits).value) else [0x3f]
  }

  /** Four hexadecimal digits are read as the encoding of their worth. */
  lemma HexRead(digits: Text)
    requires StrictChar(Hex(digits))
    ensures FromHex(digits) == Some(Worth(digits)) && CharRead(Hex(digits)) == Utf8(Worth(digits))
    ensures Decoded(CharRead(Hex(digits))) == Some(Worth(digits))
  {
    hide Utf8;
    HexDigits(digits);
    Utf8Decodes(Worth(digits));
  }

  lemma HexDigits(s: Text)
    requires |s| == 4 && forall i :: 0 <= i < 4 ==> HexByte(s[i])
    ensures FromHex(s) == Some(Worth(s))
  {
    assert forall i :: 0 <= i < 4 ==> HexDigit(s[i]) == Some(HexWorth(s[i]));
    assert !IsSpace(s[0]) && !IsSpace(s[3]);
    assert TrimRight(TrimLeft(s)) == s && AllHex(s);
    hide HexDigit, HexWorth;
    var u, v, w := s[..3], s[..2], s[..1];
    assert s[..3] == u && u[..2] == v && v[..1] == w && w[..0] == [];
    assert Hexadecimal([]) == 0;
    assert Hexadecimal(w) == HexWorth(s[0]);
    assert Hexadecimal(v) == 16 * Hexadecimal(w) + HexWorth(s[1]);
    assert Hexadecimal(u) == 16 * Hexadecimal(v) + HexWorth(s[2]);
    WorthBound(s);
  }

  /** A byte that is neither a hexadecimal digit nor white space makes the four a question mark. */
  lemma HexRefused(digits: Text, i: nat)
    requires i < |digits| == 4 && !HexByte(digits[i]) && digits[i] !in {0x09, 0x0a, 0x0b, 0x0c, 0x0d, 0x20}
    ensures CharRead(Hex(digits)) == [0x3f]
  {
    hide TrimLeft, TrimRight, Utf8, Hexadecimal;
    var b := digits[i];
    TrimKeeps(digits, b);
    assert HexDigit(b).None?;
  }

  lemma TrimKeeps(s: Text, b: Byte)
    requires b in s && !IsSpace(b)
    ensures b in TrimRight(TrimLeft(s))
  {
    LeftKeeps(s, b);
    RightKeeps(TrimLeft(s), b);
  }

  lemma {:induction false} LeftKeeps(s: Text, b: Byte)
    requires b in s && !IsSpace(b)
    ensures b in TrimLeft(s)
  {
    if IsSpace(s[0]) {
      LeftKeeps(s[1..], b);
    }
  }

  lemma {:induction false} RightKeeps(s: Text, b: Byte)
    requires b in s && !IsSpace(b)
    ensures b in TrimRight(s)
  {
    if IsSpace(s[|s| - 1]) {
      RightKeeps(s[..|s| - 1], b);
    }
  }

  lemma WorthBound(s: Text)
    requires |s| == 4 && forall i :: 0 <= i < 4 ==> HexByte(s[i])
    ensures Worth(s) <= 0xffff
  {
  }

  function CharsText(cs: seq<Char>): Text {
    if cs == [] then [] else CharText(cs[0]) + CharsText(cs[1..])
  }

  function CharsRead(cs: seq<Char>): Text {
    if cs == [] then [] else CharRead(cs[0]) + CharsRead(cs[1..])
  }

  predicate LaxChars(cs: seq<Char>) {
    forall i :: 0 <= i < |cs| ==> LaxChar(cs[i])
  }

  predicate StrictChars(cs: seq<Char>) {
    forall i :: 0 <= i < |cs| ==> StrictChar(cs[i])
  }

  /** One character at the front of a string. */
  lemma UnescapeChar(c: Char, t: Text)
    requires LaxChar(c)
    ensures match Unescape(t) {
              case Ok(p) => Unescape(CharText(c) + t) == Ok((CharRead(c) + p.0, p.1))
              case Rejected => Unescape(CharText(c) + t) == Rejected
              case Aborted => Unescape(CharText(c) + t) == Aborted
            }
  {
    hide FromHex, Utf8;
    var s := CharText(c) + t;
    assert s[|CharText(c)|..] == t;
    if c.Hex? {
      assert s[2..6] == c.digits;
    }
  }

  lemma {:induction false} ReadsString(cs: seq<Char>, rest: Text)
    requires LaxChars(cs)
    ensures Unescape(CharsText(cs) + [0x22] + rest) == Ok((CharsRead(cs), rest))
  {
    hide Unescape, CharText, CharRead, LaxChar;
    if cs == [] {
      assert CharsText(cs) + [0x22] + rest == [0x22] + rest;
      ClosingQuote(rest);
    } else {
      ReadsString(cs[1..], rest);
      UnescapeChar(cs[0], CharsText(cs[1..]) + [0x22] + rest);
      assert CharsText(cs) + [0x22] + rest == CharText(cs[0]) + (CharsText(cs[1..]) + [0x22] + rest);
    }
  }

  lemma ClosingQuote(rest: Text)
    ensures Unescape([0x22] + rest) == Ok(([], rest))
  {
  }

  /** The character at the front of a text that is read as a string. */
  lemma FrontChar(s: Text) returns (c: Char)
    requires Unescape(s).Ok? && s[0] != 0x22
    ensures LaxChar(c) && |CharText(c)| <= |s| && s == CharText(c) + s[|CharText(c)|..]
  {
    hide FromHex, Utf8;
    if s[0] != 0x5c {
      c := Plain(s[0]);
    } else if s[1] != 0x75 {
      c := Short(s[1]);
    } else {
      var n := Escapee(s).1;
      assert Unescape(s[n..]).Ok?;
      c := Hex(s[2..6]);
    }
  }

  /** Whatever the parser reads as a string is made of such characters and a quote. */
  lemma {:induction false} StringIs(s: Text) returns (cs: seq<Char>)
    requires Unescape(s).Ok?
    ensures var (t, rest) := Unescape(s).value;
            LaxChars(cs) && s == CharsText(cs) + [0x22] + rest && t == CharsRead(cs)
    decreases |s|
  {
    hide Unescape, CharRead, LaxChar, CharText;
    StringBegins(s);
    if s[0] == 0x22 {
      cs := [];
      assert s == [0x22] + s[1..];
      ClosingQuote(s[1..]);
    } else {
      var c := FrontChar(s);
      var rest := s[|CharText(c)|..];
      UnescapeChar(c, rest);
      CharIsThere(c);
      var more := StringIs(rest);
      cs := [c] + more;
      assert cs[1..] == more;
      assert s == CharText(c) + (CharsText(more) + [0x22] + Unescape(rest).value.1);
    }
  }

  lemma StringBegins(s: Text)
    requires Unescape(s).Ok?
    ensures s != []
  {
  }

  lemma CharIsThere(c: Char)
    ensures |CharText(c)| > 0
  {
  }

  // ---------- values ----------

  datatype Syntax =
    | Word(value: Json)
    | Numeral(text: Text)
    | Quote(chars: seq<Char>)
    | List(space: Text, items: seq<Padded>)
    | Record(space: Text, entries: seq<Entry>)

  /** A value with the white space around it. */
  datatype Padded = Padded(before: Text, value: Syntax, after: Text)

  /** A key, the white space around it, and after a colon its value. */
  datatype Entry = Entry(before: Text, key: seq<Char>, after: Text, item: Padded)

  function WordText(v: Json): Text {
    if v.Null? then [0x6e, 0x75, 0x6c, 0x6c]
    else if v == Bool(true) then [0x74, 0x72, 0x75, 0x65]
    else [0x66, 0x61, 0x6c, 0x73, 0x65]
  }

  function TextOf(c: Syntax): Text {
    match c
    case Word(v) => WordText(v)
    case Numeral(text) => text
    case Quote(chars) => [0x22] + CharsText(chars) + [0x22]
    case List(space, items) => [0x5b] + (if items == [] then space else ItemsText(items)) + [0x5d]
    case Record(space, entries) => [0x7b] + (if entries == [] then space else EntriesText(entries)) + [0x7d]
  }

  function PaddedText(p: Padded): Text {
    p.before + TextOf(p.value) + p.after
  }

  function ItemsText(items: seq<Padded>): Text
    requires items != []
  {
    if |items| == 1 then PaddedText(items[0]) else PaddedText(items[0]) + [0x2c] + ItemsText(items[1..])
  }

  function EntryText(e: Entry): Text {
    e.before + [0x22] + CharsText(e.key) + [0x22] + e.after + [0x3a] + PaddedText(e.item)
  }

  function EntriesText(entries: seq<Entry>): Text
    requires entries != []
  {
    if |entries| == 1 then EntryText(entries[0]) else EntryText(entries[0]) + [0x2c] + EntriesText(entries[1..])
  }

  // ---------- what the parser accepts ----------

  predicate LaxSpace(s: Text) {
    forall i :: 0 <= i < |s| ==> s[i] in {0x09, 0x0a, 0x0b, 0x0c, 0x0d, 0x20}
  }

  predicate NumeralByte(b: Byte) { b == 0x2d || b == 0x2e || 0x30 <= b <= 0x39 }

  predicate Lax(c: Syntax) {
    match c
    case Word(v) => v.Null? || v.Bool?
    case Numeral(text) => text != [] && text[0] != 0x2e && forall i :: 0 <= i < |text| ==> NumeralByte(text[i])
    case Quote(chars) => LaxChars(chars)
    case List(space, items) => LaxSpace(space) && forall i :: 0 <= i < |items| ==> LaxPadded(items[i])
    case Record(space, entries) => LaxSpace(space) && forall i :: 0 <= i < |entries| ==> LaxEntry(entries[i])
  }

  predicate LaxPadded(p: Padded) {
    LaxSpace(p.before) && Lax(p.value) && LaxSpace(p.after)
  }

  predicate LaxEntry(e: Entry) {
    LaxSpace(e.before) && LaxChars(e.key) && LaxSpace(e.after) && LaxPadded(e.item)
  }

  /** The value read, or None if a numeral is refused. */
  function Read(c: Syntax): Option<Json> {
    match c
    case Word(v) => Some(v)
    case Numeral(text) => if NumberOf(text).Ok? then Some(NumberOf(text).value) else None
    case Quote(chars) => Some(String(CharsRead(chars)))
    case List(_, items) => ReadItems(items, [])
    case Record(_, entries) => ReadEntries(entries, [])
  }

  function ReadItems(items: seq<Padded>, done: seq<Json>): Option<Json> {
    if items == [] then Some(Array(done))
    else
      var v := Read(items[0].value);
      if v.None? then None else ReadItems(items[1..], done + [v.value])
  }

  function ReadEntries(entries: seq<Entry>, done: seq<Member>): Option<Json> {
    if entries == [] then Some(Object(done))
    else
      var v := Read(entries[0].item.value);
      if v.None? then None else ReadEntries(entries[1..], Set(done, CharsRead(entries[0].key), v.value))
  }

  // ---------- every such text is read ----------

  lemma {:induction false} SkipsSpace(space: Text, s: Text)
    requires LaxSpace(space)
    ensures SkipSpace(space + s) == SkipSpace(s)
  {
    if space == [] {
      assert space + s == s;
    } else {
      assert (space + s)[1..] == space[1..] + s;
      SkipsSpace(space[1..], s);
    }
  }

  lemma SpaceBefore(space: Text, s: Text)
    requires LaxSpace(space)
    ensures ParseValue(space + s) == ParseValue(s)
    ensures forall done :: ParseItems(space + s, done) == ParseItems(s, done)
    ensures forall done :: ParseMembers(space + s, done) == ParseMembers(s, done)
  {
    SkipsSpace(space, s);
  }

  /** After a value: no byte that could continue a numeral. */
  predicate Ends(rest: Text) {
    rest == [] || !NumeralByte(rest[0])
  }

  lemma SpaceEnds(space: Text, s: Text)
    requires LaxSpace(space) && Ends(s)
    ensures Ends(space + s)
  {
    assert space != [] ==> (space + s)[0] == space[0];
    assert space == [] ==> space + s == s;
  }

  lemma ReadsNumeral(text: Text, rest: Text)
    requires Lax(Numeral(text)) && Ends(rest)
    ensures JsonRoundTrip.Answers(ParseValue(text + rest), Read(Numeral(text)), rest)
  {
    hide NumberOf;
    JsonRoundTrip.PrefixOfRun(text, rest);
    var s := text + rest;
    assert s[0] == text[0] && s[|text|..] == rest;
    NumeralRejects(text);
    assert SkipSpace(s) == s;
  }

  /** A numeral is read or refused, and never fails the VERIFY. */
  lemma NumeralRejects(text: Text)
    ensures !NumberOf(text).Aborted?
  {
  }

  lemma ReadsWord(v: Json, rest: Text)
    requires v.Null? || v.Bool?
    ensures ParseValue(WordText(v) + rest) == Ok((v, rest))
  {
    var t := WordText(v);
    var s := t + rest;
    assert t <= s && s[|t|..] == rest && s[0] == t[0];
    assert SkipSpace(s) == s;
  }

  lemma ReadsQuote(chars: seq<Char>, rest: Text)
    requires LaxChars(chars)
    ensures ParseValue([0x22] + CharsText(chars) + [0x22] + rest) == Ok((String(CharsRead(chars)), rest))
  {
    hide CharsText, CharsRead, Unescape;
    var s := [0x22] + CharsText(chars) + [0x22] + rest;
    assert s[1..] == CharsText(chars) + [0x22] + rest;
    ReadsString(chars, rest);
    assert SkipSpace(s) == s;
  }

  /** The first byte of a value is no white space and closes nothing. */
  predicate Opens(s: Text) {
    s != [] && s[0] !in {0x09, 0x0a, 0x0b, 0x0c, 0x0d, 0x20, 0x5d, 0x7d}
  }

  lemma ValueOpens(c: Syntax, rest: Text)
    requires Lax(c)
    ensures Opens(TextOf(c) + rest)
  {
    assert TextOf(c) != [] && (TextOf(c) + rest)[0] == TextOf(c)[0];
  }

  lemma OpenStays(s: Text)
    requires Opens(s)
    ensures SkipSpace(s) == s
  {
  }

  /** What follows an item: the end of the array, or a comma and another item. */
  predicate GoesOn(tail: Text, close: Byte) {
    tail != [] && (tail[0] == close || (tail[0] == 0x2c && SkipSpace(tail[1..]) != [] && SkipSpace(tail[1..])[0] != close))
  }

  lemma PaddedParts(p: Padded, tail: Text)
    ensures PaddedText(p) + tail == p.before + (TextOf(p.value) + (p.after + tail))
  {
    hide TextOf;
  }

  lemma ReadsOneItem(p: Padded, tail: Text, done: seq<Json>)
    requires LaxPadded(p) && GoesOn(tail, 0x5d)
    requires JsonRoundTrip.Answers(ParseValue(TextOf(p.value) + (p.after + tail)), Read(p.value), p.after + tail)
    ensures var r, v := ParseItems(PaddedText(p) + tail, done), Read(p.value);
            if v.None? then r == Rejected
            else if tail[0] == 0x5d then r == Ok((Array(done + [v.value]), tail[1..]))
            else r == ParseItems(tail[1..], done + [v.value])
  {
    hide TextOf, Read, ParseValue, Lax, PaddedText;
    PaddedParts(p, tail);
    var s := TextOf(p.value) + (p.after + tail);
    ValueOpens(p.value, p.after + tail);
    OpenStays(s);
    SkipsSpace(p.before, s);
    SkipsSpace(p.after, tail);
    NoSpaceAhead(tail);
    if Read(p.value).Some? && tail[0] != 0x5d {
      SkippedItems(tail[1..], done + [Read(p.value).value]);
    }
  }

  lemma NoSpaceAhead(s: Text)
    requires s != [] && s[0] in {0x2c, 0x3a, 0x5d, 0x7d, 0x22}
    ensures SkipSpace(s) == s
  {
  }

  lemma SkippedItems(s: Text, done: seq<Json>)
    ensures ParseItems(SkipSpace(s), done) == ParseItems(s, done)
  {
    SkipTwice(s);
  }

  lemma SkipTwice(s: Text)
    ensures SkipSpace(SkipSpace(s)) == SkipSpace(s)
  {
  }

  ghost function ItemsTail(items: seq<Padded>, rest: Text): Text {
    if items == [] then [0x5d] + rest else [0x2c] + (ItemsText(items) + ([0x5d] + rest))
  }

  lemma ItemsParts(items: seq<Padded>, rest: Text)
    requires items != []
    ensures ItemsText(items) + ([0x5d] + rest) == PaddedText(items[0]) + ItemsTail(items[1..], rest)
  {
    hide PaddedText;
  }

  lemma ItemOpens(items: seq<Padded>, more: Text)
    requires items != [] && LaxPadded(items[0])
    ensures Opens(SkipSpace(ItemsText(items) + more))
  {
    hide TextOf, Lax;
    var p := items[0];
    var rest := if |items| == 1 then more else [0x2c] + ItemsText(items[1..]) + more;
    assert ItemsText(items) + more == p.before + (TextOf(p.value) + (p.after + rest));
    ValueOpens(p.value, p.after + rest);
    OpenStays(TextOf(p.value) + (p.after + rest));
    SkipsSpace(p.before, TextOf(p.value) + (p.after + rest));
  }

  lemma ItemsGoOn(items: seq<Padded>, rest: Text)
    requires forall i :: 0 <= i < |items| ==> LaxPadded(items[i])
    ensures GoesOn(ItemsTail(items, rest), 0x5d) && Ends(ItemsTail(items, rest))
  {
    hide PaddedText, ItemsText, SkipSpace;
    var tail := ItemsTail(items, rest);
    if items != [] {
      assert tail[1..] == ItemsText(items) + ([0x5d] + rest);
      ItemOpens(items, [0x5d] + rest);
    }
  }

  lemma {:induction false} ReadsItems(items: seq<Padded>, done: seq<Json>, rest: Text)
    requires items != [] && forall i :: 0 <= i < |items| ==> LaxPadded(items[i])
    ensures JsonRoundTrip.Answers(ParseItems(ItemsText(items) + ([0x5d] + rest), done), ReadItems(items, done), rest)
    decreases items, 0
  {
    hide TextOf, Read, ParseValue, ParseItems, Lax, ItemsText, PaddedText, SkipSpace;
    var p, more := items[0], items[1..];
    var tail := ItemsTail(more, rest);
    ItemsParts(items, rest);
    ItemsGoOn(more, rest);
    SpaceEnds(p.after, tail);
    ReadsValue(p.value, p.after + tail);
    ReadsOneItem(p, tail, done);
    if Read(p.value).Some? {
      if more == [] {
        assert tail[1..] == rest;
      } else {
        assert tail[1..] == ItemsText(more) + ([0x5d] + rest);
        ReadsItems(more, done + [Read(p.value).value], rest);
      }
    }
  }

  lemma ReadsNoItems(space: Text, rest: Text)
    requires LaxSpace(space)
    ensures ParseItems(space + ([0x5d] + rest), []) == Ok((Array([]), rest))
  {
    SkipsSpace(space, [0x5d] + rest);
    NoSpaceAhead([0x5d] + rest);
  }

  lemma EntryParts(e: Entry, tail: Text)
    ensures EntryText(e) + tail
         == e.before + ([0x22] + (CharsText(e.key) + [0x22] + (e.after + ([0x3a] + (e.item.before + (TextOf(e.item.value) + (e.item.after + tail)))))))
  {
    hide TextOf, CharsText;
    PaddedParts(e.item, tail);
    var a := [0x22] + CharsText(e.key) + [0x22];
    var b := e.after + [0x3a];
    assert EntryText(e) + tail == e.before + a + b + (PaddedText(e.item) + tail);
    assert b + (PaddedText(e.item) + tail) == e.after + ([0x3a] + (PaddedText(e.item) + tail));
  }

  lemma ReadsOneEntry(e: Entry, tail: Text, done: seq<Member>)
    requires LaxEntry(e) && GoesOn(tail, 0x7d)
    requires JsonRoundTrip.Answers(ParseValue(TextOf(e.item.value) + (e.item.after + tail)), Read(e.item.value), e.item.after + tail)
    ensures var r, v := ParseMembers(EntryText(e) + tail, done), Read(e.item.value);
            if v.None? then r == Rejected
            else if tail[0] == 0x7d then r == Ok((Object(Set(done, CharsRead(e.key), v.value)), tail[1..]))
            else r == ParseMembers(tail[1..], Set(done, CharsRead(e.key), v.value))
  {
    hide TextOf, Read, ParseValue, Lax, EntryText, PaddedText, CharsText, CharsRead, Unescape, LaxChars, Set;
    EntryParts(e, tail);
    var p := e.item;
    var value := TextOf(p.value) + (p.after + tail);
    var colon := [0x3a] + (p.before + value);
    var key := [0x22] + (CharsText(e.key) + [0x22] + (e.after + colon));
    assert key[1..] == CharsText(e.key) + [0x22] + (e.after + colon) && colon[1..] == p.before + value;
    SkipsSpace(e.before, key);
    NoSpaceAhead(key);
    ReadsString(e.key, e.after + colon);
    SkipsSpace(e.after, colon);
    NoSpaceAhead(colon);
    ValueOpens(p.value, p.after + tail);
    OpenStays(value);
    SkipsSpace(p.before, value);
    SkipsSpace(p.after, tail);
    NoSpaceAhead(tail);
    if Read(p.value).Some? && tail[0] != 0x7d {
      SkippedMembers(tail[1..], Set(done, CharsRead(e.key), Read(p.value).value));
    }
  }

  lemma EntryIsLax(e: Entry)
    requires LaxEntry(e)
    ensures LaxSpace(e.before) && LaxChars(e.key) && LaxSpace(e.after)
    ensures LaxSpace(e.item.before) && Lax(e.item.value) && LaxSpace(e.item.after)
  {
  }

  lemma SkippedMembers(s: Text, done: seq<Member>)
    ensures ParseMembers(SkipSpace(s), done) == ParseMembers(s, done)
  {
    SkipTwice(s);
  }

  ghost function EntriesTail(entries: seq<Entry>, rest: Text): Text {
    if entries == [] then [0x7d] + rest else [0x2c] + (EntriesText(entries) + ([0x7d] + rest))
  }

  lemma EntriesParts(entries: seq<Entry>, rest: Text)
    requires entries != []
    ensures EntriesText(entries) + ([0x7d] + rest) == EntryText(entries[0]) + EntriesTail(entries[1..], rest)
  {
    hide EntryText;
  }

  lemma EntryOpens(entries: seq<Entry>, more: Text)
    requires entries != [] && LaxEntry(entries[0])
    ensures Opens(SkipSpace(EntriesText(entries) + more))
  {
    hide TextOf, Lax, PaddedText, CharsText;
    var e := entries[0];
    var rest := if |entries| == 1 then more else [0x2c] + EntriesText(entries[1..]) + more;
    assert EntriesText(entries) + more == EntryText(e) + rest;
    EntryParts(e, rest);
    var key := [0x22] + (CharsText(e.key) + [0x22] + (e.after + ([0x3a] + (e.item.before + (TextOf(e.item.value) + (e.item.after + rest))))));
    OpenStays(key);
    SkipsSpace(e.before, key);
  }

  lemma EntriesGoOn(entries: seq<Entry>, rest: Text)
    requires forall i :: 0 <= i < |entries| ==> LaxEntry(entries[i])
    ensures GoesOn(EntriesTail(entries, rest), 0x7d) && Ends(EntriesTail(entries, rest))
  {
    hide EntryText, EntriesText, SkipSpace;
    var tail := EntriesTail(entries, rest);
    if entries != [] {
      assert tail[1..] == EntriesText(entries) + ([0x7d] + rest);
      EntryOpens(entries, [0x7d] + rest);
    }
  }

  lemma {:induction false} ReadsEntries(entries: seq<Entry>, done: seq<Member>, rest: Text)
    requires entries != [] && forall i :: 0 <= i < |entries| ==> LaxEntry(entries[i])
    ensures JsonRoundTrip.Answers(ParseMembers(EntriesText(entries) + ([0x7d] + rest), done), ReadEntries(entries, done), rest)
    decreases entries, 0
  {
    hide TextOf, Read, ParseValue, ParseMembers, Lax, EntriesText, EntryText, SkipSpace, Set, CharsRead;
    var e, more := entries[0], entries[1..];
    var tail := EntriesTail(more, rest);
    EntriesParts(entries, rest);
    EntriesGoOn(more, rest);
    EntryIsLax(e);
    SpaceEnds(e.item.after, tail);
    ReadsValue(e.item.value, e.item.after + tail);
    ReadsOneEntry(e, tail, done);
    if Read(e.item.value).Some? {
      if more == [] {
        assert tail[1..] == rest;
      } else {
        assert tail[1..] == EntriesText(more) + ([0x7d] + rest);
        ReadsEntries(more, Set(done, CharsRead(e.key), Read(e.item.value).value), rest);
      }
    }
  }

  lemma ReadsNoEntries(space: Text, rest: Text)
    requires LaxSpace(space)
    ensures ParseMembers(space + ([0x7d] + rest), []) == Ok((Object([]), rest))
  {
    SkipsSpace(space, [0x7d] + rest);
    NoSpaceAhead([0x7d] + rest);
  }

  lemma Bracketed(open: Byte, body: Text, close: Byte, rest: Text)
    ensures var s := [open] + body + [close] + rest;
            s[0] == open && s[1..] == body + ([close] + rest)
  {
  }

  /** Every text the wider grammar spells is read as the tree says. */
  lemma {:induction false} ReadsValue(c: Syntax, rest: Text)
    requires Lax(c) && Ends(rest)
    ensures JsonRoundTrip.Answers(ParseValue(TextOf(c) + rest), Read(c), rest)
    decreases c, 1
  {
    hide ParseValue, ParseItems, ParseMembers, NumberOf, CharsText, CharsRead, ItemsText, EntriesText, WordText, SkipSpace;
    match c
    case Word(v) => ReadsWord(v, rest);
    case Numeral(text) => ReadsNumeral(text, rest);
    case Quote(chars) => ReadsQuote(chars, rest);
    case List(space, items) =>
      var body := if items == [] then space else ItemsText(items);
      Bracketed(0x5b, body, 0x5d, rest);
      JsonRoundTrip.Dispatch(TextOf(c) + rest);
      if items == [] {
        ReadsNoItems(space, rest);
      } else {
        ReadsItems(items, [], rest);
      }
    case Record(space, entries) =>
      var body := if entries == [] then space else EntriesText(entries);
      Bracketed(0x7b, body, 0x7d, rest);
      JsonRoundTrip.Dispatch(TextOf(c) + rest);
      if entries == [] {
        ReadsNoEntries(space, rest);
      } else {
        ReadsEntries(entries, [], rest);
      }
  }

  // ---------- and no other ----------

  lemma {:induction false} SkippedIsSpace(s: Text) returns (space: Text)
    ensures LaxSpace(space) && s == space + SkipSpace(s)
  {
    if s != [] && IsSpace(s[0]) {
      var more := SkippedIsSpace(s[1..]);
      space := [s[0]] + more;
    } else {
      space := [];
    }
  }

  lemma NumeralIs(s: Text)
    requires s != [] && (s[0] == 0x2d || IsDigit(s[0])) && ParseNumber(s).Ok?
    ensures var n, (v, rest) := NumericPrefix(s), ParseNumber(s).value;
            Lax(Numeral(n)) && Read(Numeral(n)) == Some(v) && s == n + rest
  {
    hide NumberOf;
    PrefixIsPrefix(s);
    PrefixIsNumeric(s);
    assert NumericPrefix(s)[0] == s[0];
  }

  lemma {:induction false} PrefixIsNumeric(s: Text)
    ensures forall i :: 0 <= i < |NumericPrefix(s)| ==> NumeralByte(NumericPrefix(s)[i])
  {
    if s != [] && IsNumeric(s[0]) {
      PrefixIsNumeric(s[1..]);
    }
  }

  /** Which kind of value the first byte begins. */
  lemma Begins(s: Text)
    requires ParseValue(s).Ok? && SkipSpace(s) == s
    ensures s != []
    ensures var r := ParseValue(s);
            if s[0] == 0x7b then r == ParseMembers(s[1..], [])
            else if s[0] == 0x5b then r == ParseItems(s[1..], [])
            else if s[0] == 0x22 then Unescape(s[1..]).Ok? && r == Ok((String(Unescape(s[1..]).value.0), Unescape(s[1..]).value.1))
            else if s[0] == 0x2d || IsDigit(s[0]) then r == ParseNumber(s)
            else exists v :: Lax(Word(v)) && WordText(v) <= s && r == Ok((v, s[|WordText(v)|..]))
  {
    hide Unescape, ParseNumber, ParseItems, ParseMembers;
    if s[0] == 0x66 {
      assert Lax(Word(Bool(false)));
    } else if s[0] == 0x74 {
      assert Lax(Word(Bool(true)));
    } else if s[0] == 0x6e {
      assert Lax(Word(Null));
    }
  }

  lemma {:induction false} ValueIs(s: Text) returns (space: Text, c: Syntax)
    requires ParseValue(s).Ok?
    ensures var (v, rest) := ParseValue(s).value;
            LaxSpace(space) && Lax(c) && s == space + TextOf(c) + rest && Read(c) == Some(v)
    decreases |s|, 2
  {
    hide ParseValue, ParseNumber, ParseItems, ParseMembers, Unescape, SkipSpace, NumberOf, NumericPrefix, CharsText, CharsRead;
    hide ItemsText, EntriesText, LaxChars;
    space := SkippedIsSpace(s);
    var u := SkipSpace(s);
    var (v, rest) := ParseValue(s).value;
    SpaceBefore(space, u);
    SkipTwice(s);
    Begins(u);
    if u[0] == 0x7b {
      c := RecordIs(u[1..]);
    } else if u[0] == 0x5b {
      c := ListIs(u[1..]);
    } else if u[0] == 0x22 {
      var cs := StringIs(u[1..]);
      c := Quote(cs);
    } else if u[0] == 0x2d || IsDigit(u[0]) {
      NumeralIs(u);
      c := Numeral(NumericPrefix(u));
    } else {
      var w :| Lax(Word(w)) && WordText(w) <= u && ParseValue(u) == Ok((w, u[|WordText(w)|..]));
      c := Word(w);
    }
    assert u == TextOf(c) + rest;
    assert s == space + (TextOf(c) + rest);
  }

  lemma {:induction false} ListIs(s: Text) returns (c: Syntax)
    requires ParseItems(s, []).Ok?
    ensures var (v, rest) := ParseItems(s, []).value;
            c.List? && Lax(c) && [0x5b] + s == TextOf(c) + rest && Read(c) == Some(v)
    decreases |s|, 4
  {
    hide ParseItems, ItemsText, SkipSpace, TextOf, PaddedText;
    var u := SkipSpace(s);
    var space := SkippedIsSpace(s);
    var (v, rest) := ParseItems(s, []).value;
    if u != [] && u[0] == 0x5d {
      c := List(space, []);
      assert u == [0x5d] + u[1..];
      ReadsNoItems(space, u[1..]);
    } else {
      var items := ItemsAre(s, []);
      c := List([], items);
    }
    ListText(c.space, c.items, rest);
  }

  lemma ListText(space: Text, items: seq<Padded>, rest: Text)
    ensures TextOf(List(space, items)) + rest == [0x5b] + ((if items == [] then space else ItemsText(items)) + ([0x5d] + rest))
  {
    hide ItemsText;
  }

  lemma RecordText(space: Text, entries: seq<Entry>, rest: Text)
    ensures TextOf(Record(space, entries)) + rest == [0x7b] + ((if entries == [] then space else EntriesText(entries)) + ([0x7d] + rest))
  {
    hide EntriesText;
  }

  /** One item and what comes after it. */
  lemma ItemFirst(s: Text, done: seq<Json>)
    requires ParseItems(s, done).Ok? && (SkipSpace(s) == [] || SkipSpace(s)[0] != 0x5d)
    ensures ParseValue(s).Ok?
    ensures var (v, after) := ParseValue(s).value;
            var t := SkipSpace(after);
            && t != [] && |after| < |s|
            && if t[0] == 0x5d then ParseItems(s, done) == Ok((Array(done + [v]), t[1..]))
               else t[0] == 0x2c && ParseItems(s, done) == ParseItems(t[1..], done + [v])
                    && (SkipSpace(t[1..]) == [] || SkipSpace(t[1..])[0] != 0x5d)
  {
    hide ParseValue;
    SkipTwice(s);
    var space := SkippedIsSpace(s);
    SpaceBefore(space, SkipSpace(s));
    var (v, after) := ParseValue(s).value;
    var t := SkipSpace(after);
    if t[0] != 0x5d {
      SkippedItems(t[1..], done + [v]);
    }
  }

  lemma {:induction false} ItemsAre(s: Text, done: seq<Json>) returns (items: seq<Padded>)
    requires ParseItems(s, done).Ok? && (SkipSpace(s) == [] || SkipSpace(s)[0] != 0x5d)
    ensures var (v, rest) := ParseItems(s, done).value;
            && items != [] && (forall i :: 0 <= i < |items| ==> LaxPadded(items[i]))
            && s == ItemsText(items) + ([0x5d] + rest) && ReadItems(items, done) == Some(v)
    decreases |s|, 3
  {
    hide ParseValue, ParseItems, TextOf, Read, Lax, SkipSpace;
    ItemFirst(s, done);
    var (v, after) := ParseValue(s).value;
    var before, c := ValueIs(s);
    var space := SkippedIsSpace(after);
    var p := Padded(before, c, space);
    var t := SkipSpace(after);
    assert s == PaddedText(p) + t;
    if t[0] == 0x5d {
      items := [p];
      assert t == [0x5d] + t[1..];
    } else {
      SpaceShorter(after);
      var more := ItemsAre(t[1..], done + [v]);
      items := [p] + more;
      assert items[1..] == more;
      assert t == [0x2c] + t[1..];
    }
  }

  lemma SpaceShorter(s: Text)
    ensures |SkipSpace(s)| <= |s|
  {
  }

  lemma {:induction false} RecordIs(s: Text) returns (c: Syntax)
    requires ParseMembers(s, []).Ok?
    ensures var (v, rest) := ParseMembers(s, []).value;
            c.Record? && Lax(c) && [0x7b] + s == TextOf(c) + rest && Read(c) == Some(v)
    decreases |s|, 4
  {
    hide ParseMembers, EntriesText, SkipSpace, TextOf, PaddedText;
    var u := SkipSpace(s);
    var space := SkippedIsSpace(s);
    var (v, rest) := ParseMembers(s, []).value;
    if u != [] && u[0] == 0x7d {
      c := Record(space, []);
      assert u == [0x7d] + u[1..];
      ReadsNoEntries(space, u[1..]);
    } else {
      var entries := EntriesAre(s, []);
      c := Record([], entries);
    }
    RecordText(c.space, c.entries, rest);
  }

  /** A key, a colon, a value, and what comes after it. */
  ghost predicate EntryAt(s: Text, key: Text, afterKey: Text, v: Json, after: Text) {
    var u, k := SkipSpace(s), SkipSpace(afterKey);
    && u != [] && u[0] == 0x22 && Unescape(u[1..]) == Ok((key, afterKey))
    && k != [] && k[0] == 0x3a && ParseValue(k[1..]) == Ok((v, after))
  }

  lemma EntryFirst(s: Text, done: seq<Member>) returns (key: Text, afterKey: Text, v: Json, after: Text)
    requires ParseMembers(s, done).Ok? && (SkipSpace(s) == [] || SkipSpace(s)[0] != 0x7d)
    ensures EntryAt(s, key, afterKey, v, after) && |afterKey| < |s| && |after| < |afterKey|
    ensures var t := SkipSpace(after);
            && t != []
            && if t[0] == 0x7d then ParseMembers(s, done) == Ok((Object(Set(done, key, v)), t[1..]))
               else t[0] == 0x2c && ParseMembers(s, done) == ParseMembers(t[1..], Set(done, key, v))
                    && (SkipSpace(t[1..]) == [] || SkipSpace(t[1..])[0] != 0x7d)
  {
    hide ParseValue, Unescape, Set;
    var u := SkipSpace(s);
    key, afterKey := ParseString(u).value.0, ParseString(u).value.1;
    var k := SkipSpace(afterKey);
    var space := SkippedIsSpace(k[1..]);
    SpaceBefore(space, SkipSpace(k[1..]));
    v, after := ParseValue(k[1..]).value.0, ParseValue(k[1..]).value.1;
    var t := SkipSpace(after);
    if t[0] != 0x7d {
      SkippedMembers(t[1..], Set(done, key, v));
    }
  }

  lemma EntryIs(s: Text, key: Text, afterKey: Text, v: Json, after: Text) returns (e: Entry)
    requires EntryAt(s, key, afterKey, v, after) && |afterKey| < |s|
    ensures LaxEntry(e) && s == EntryText(e) + SkipSpace(after) && CharsRead(e.key) == key && Read(e.item.value) == Some(v)
    decreases |s|, 2
  {
    hide ParseValue, Unescape, SkipSpace, TextOf, Read, Lax, CharsText, CharsRead, LaxChars;
    var u, k := SkipSpace(s), SkipSpace(afterKey);
    var before := SkippedIsSpace(s);
    var cs := StringIs(u[1..]);
    var gap := SkippedIsSpace(afterKey);
    SpaceShorter(afterKey);
    var lead, c := ValueIs(k[1..]);
    var trail := SkippedIsSpace(after);
    e := Entry(before, cs, gap, Padded(lead, c, trail));
    var t := SkipSpace(after);
    EntryParts(e, t);
    assert k == [0x3a] + (lead + (TextOf(c) + (trail + t)));
    assert u == [0x22] + (CharsText(cs) + [0x22] + (gap + k));
  }

  lemma {:induction false} EntriesAre(s: Text, done: seq<Member>) returns (entries: seq<Entry>)
    requires ParseMembers(s, done).Ok? && (SkipSpace(s) == [] || SkipSpace(s)[0] != 0x7d)
    ensures var (v, rest) := ParseMembers(s, done).value;
            && entries != [] && (forall i :: 0 <= i < |entries| ==> LaxEntry(entries[i]))
            && s == EntriesText(entries) + ([0x7d] + rest) && ReadEntries(entries, done) == Some(v)
    decreases |s|, 3
  {
    hide ParseValue, ParseMembers, TextOf, Read, Lax, LaxEntry, SkipSpace, Unescape, CharsRead, EntryText, Set;
    var key, afterKey, v, after := EntryFirst(s, done);
    var e := EntryIs(s, key, afterKey, v, after);
    var t := SkipSpace(after);
    if t[0] == 0x7d {
      entries := [e];
      assert t == [0x7d] + t[1..];
    } else {
      SpaceShorter(after);
      var more := EntriesAre(t[1..], Set(done, key, v));
      entries := [e] + more;
      assert entries[1..] == more;
      assert t == [0x2c] + t[1..];
    }
  }

  // ---------- documents ----------

  /** The parser accepts exactly the texts of the wider grammar, and reads them as the tree says. */
  lemma ParsesExactly(s: Text, v: Json)
    ensures Parse(s) == Ok(v) <==> exists d :: Spells(d, s, v)
  {
    hide ParseValue, TextOf, Read, Lax;
    if Parse(s) == Ok(v) {
      var (w, rest) := ParseValue(s).value;
      var space, c := ValueIs(s);
      var d := Padded(space, c, rest);
      SpaceOnly(rest);
      assert Spells(d, s, v);
    }
    if d :| Spells(d, s, v) {
      ReadsDocument(d);
    }
  }

  ghost predicate Spells(d: Padded, s: Text, v: Json) {
    LaxPadded(d) && PaddedText(d) == s && Read(d.value) == Some(v)
  }

  lemma SpaceOnly(s: Text)
    requires SkipSpace(s) == []
    ensures LaxSpace(s)
  {
    var space := SkippedIsSpace(s);
    assert space + [] == space;
  }

  lemma ReadsDocument(d: Padded)
    requires LaxPadded(d)
    ensures Parse(PaddedText(d)) == if Read(d.value).Some? then Ok(Read(d.value).value) else Rejected
  {
    hide ParseValue, TextOf, Read, Lax;
    PaddedParts(d, []);
    assert PaddedText(d) + [] == PaddedText(d) && d.after + [] == d.after;
    SpaceBefore(d.before, TextOf(d.value) + d.after);
    SpaceEnds(d.after, []);
    ReadsValue(d.value, d.after);
    SkipsSpace(d.after, []);
  }
}
