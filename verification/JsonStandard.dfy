/**
  RFC 8259 and this parser and serializer: the trees of the standard's grammar, what
  they denote, which of them are read as that, and which texts are written.
*/
module JsonStandard {
  import opened Basics
  import opened JsonText
  import opened JsonGrammar
  import JsonRoundTrip
  import JsonDecimals

  // ---------- the grammar of the standard ----------

  predicate StrictSpace(s: Text) {
    forall i :: 0 <= i < |s| ==> s[i] in {0x09, 0x0a, 0x0d, 0x20}
  }

  predicate DigitByte(b: Byte) { 0x30 <= b <= 0x39 }

  predicate Figures(s: Text) {
    forall i :: 0 <= i < |s| ==> DigitByte(s[i])
  }

  /** The digits before the point: no leading zero. */
  predicate StrictWhole(ds: Text) {
    ds != [] && Figures(ds) && (|ds| > 1 ==> ds[0] != 0x30)
  }

  function Minus(negative: bool): Text {
    if negative then [0x2d] else []
  }

  /** A number of section 6, without an exponent, which the parser does not know. */
  ghost predicate StrictNumeral(text: Text) {
    StrictInteger(text) || exists negative, ds, fs :: StrictDecimal(text, negative, ds, fs)
  }

  predicate StrictInteger(text: Text) {
    StrictWhole(if text != [] && text[0] == 0x2d then text[1..] else text)
  }

  predicate StrictDecimal(text: Text, negative: bool, ds: Text, fs: Text) {
    StrictWhole(ds) && fs != [] && Figures(fs) && text == Minus(negative) + ds + [0x2e] + fs
  }

  ghost predicate Strict(c: Syntax) {
    match c
    case Word(v) => v.Null? || v.Bool?
    case Numeral(text) => StrictNumeral(text)
    case Quote(chars) => StrictChars(chars)
    case List(space, items) => StrictSpace(space) && forall i :: 0 <= i < |items| ==> StrictPadded(items[i])
    case Record(space, entries) => StrictSpace(space) && forall i :: 0 <= i < |entries| ==> StrictEntry(entries[i])
  }

  ghost predicate StrictPadded(p: Padded) {
    StrictSpace(p.before) && Strict(p.value) && StrictSpace(p.after)
  }

  ghost predicate StrictEntry(e: Entry) {
    StrictSpace(e.before) && StrictChars(e.key) && StrictSpace(e.after) && StrictPadded(e.item)
  }

  /** The parser accepts every number of the standard without an exponent as a numeral. */
  lemma NumeralIsLax(text: Text)
    requires StrictNumeral(text)
    ensures Lax(Numeral(text))
  {
    if !StrictInteger(text) {
      var negative, ds, fs :| StrictDecimal(text, negative, ds, fs);
      assert text[0] == if negative then 0x2d else ds[0];
    }
  }

  lemma {:induction false} StrictIsLax(c: Syntax)
    requires Strict(c)
    ensures Lax(c)
  {
    hide StrictNumeral, StrictChar, LaxChar;
    match c
    case Word(v) =>
    case Numeral(text) => NumeralIsLax(text);
    case Quote(chars) => CharsAreLax(chars);
    case List(space, items) =>
      forall i | 0 <= i < |items| ensures LaxPadded(items[i]) {
        PaddedIsLax(items[i]);
      }
    case Record(space, entries) =>
      forall i | 0 <= i < |entries| ensures LaxEntry(entries[i]) {
        CharsAreLax(entries[i].key);
        PaddedIsLax(entries[i].item);
      }
  }

  lemma {:induction false} PaddedIsLax(p: Padded)
    requires StrictPadded(p)
    ensures LaxPadded(p)
  {
    hide Strict, Lax;
    StrictIsLax(p.value);
  }

  lemma CharsAreLax(cs: seq<Char>)
    requires StrictChars(cs)
    ensures LaxChars(cs)
  {
  }

  /** Every text of the standard's grammar without exponents is read as its tree says. */
  lemma ReadsStandard(d: Padded)
    requires StrictPadded(d)
    ensures Parse(PaddedText(d)) == if Read(d.value).Some? then Ok(Read(d.value).value) else Rejected
  {
    hide Strict, Lax, Parse, Read, PaddedText;
    PaddedIsLax(d);
    ReadsDocument(d);
  }

  /** A number with an exponent is refused. */
  lemma NoExponents(text: Text, rest: Text)
    requires StrictNumeral(text) && rest != [] && rest[0] in {0x65, 0x45}
    ensures Parse(text + rest) == Rejected
  {
    hide ParseValue, Read, Lax, StrictNumeral;
    NumeralIsLax(text);
    ReadsNumeral(text, rest);
    assert SkipSpace(rest) == rest;
  }

  // ---------- what it denotes ----------

  /** The digits by their places. */
  ghost function PlaceValue(ds: Text): nat
    requires Figures(ds)
  {
    if ds == [] then 0 else (ds[0] - 0x30) * Pow10(|ds| - 1) + PlaceValue(ds[1..])
  }

  lemma {:induction false} PlacesAppend(ds: Text, b: Byte)
    requires Figures(ds) && DigitByte(b)
    ensures PlaceValue(ds + [b]) == 10 * PlaceValue(ds) + (b - 0x30)
  {
    if ds == [] {
      assert ds + [b] == [b] && [b][1..] == [];
    } else {
      assert (ds + [b])[1..] == ds[1..] + [b];
      PlacesAppend(ds[1..], b);
      TenTimes(ds[0] - 0x30, Pow10(|ds| - 1));
    }
  }

  lemma TenTimes(a: int, p: int)
    ensures a * (10 * p) == 10 * (a * p)
  {
  }

  lemma {:induction false} PlacesAreDecimal(ds: Text)
    requires Figures(ds)
    ensures AllDigits(ds) && PlaceValue(ds) == Decimal(ds)
  {
    if ds != [] {
      var n := |ds| - 1;
      PlacesAreDecimal(ds[..n]);
      PlacesAppend(ds[..n], ds[n]);
      assert ds == ds[..n] + [ds[n]];
    }
  }

  ghost function IntegerOf(text: Text): int
    requires StrictInteger(text)
  {
    if text[0] == 0x2d then 0 - PlaceValue(text[1..]) else PlaceValue(text)
  }

  /** Integers are read exactly between -2^31 and 2^63 - 1; down to -2^63 they are cut to 32 bits, and the rest is refused. */
  lemma ReadsInteger(text: Text)
    requires StrictInteger(text)
    ensures var n := IntegerOf(text);
            Read(Numeral(text)) == if -0x8000_0000 <= n <= 0x7fff_ffff_ffff_ffff then Some(Number(n))
                                   else if -0x8000_0000_0000_0000 <= n < 0 then Some(Number(Narrow(n)))
                                   else None
  {
    hide Decimal, ToUint, ToInt64, PlaceValue, AllDigits;
    var negative := text[0] == 0x2d;
    var ds := if negative then text[1..] else text;
    PlacesAreDecimal(ds);
    JsonDecimals.WholeConverts(negative, ds);
    assert text == (if negative then [MINUS] else []) + ds;
    NoDotNumber(text);
  }

  /** The conversion to 64 bits takes a plus sign too, which no JSON number has. */
  lemma PlusSign(ds: Text)
    requires ds != [] && Figures(ds)
    ensures ToInt64([0x2b] + ds) == ToInt64(ds) == if PlaceValue(ds) <= 0x7fff_ffff_ffff_ffff then Some(PlaceValue(ds)) else None
  {
    hide Decimal, PlaceValue;
    PlacesAreDecimal(ds);
    assert ([0x2b] + ds)[1..] == ds && DigitByte(ds[0]);
  }

  /** Cut to 32 bits: the value modulo 2^32. */
  lemma Cut(n: int)
    ensures -0x8000_0000 <= Narrow(n) <= 0x7fff_ffff && (n - Narrow(n)) % 0x1_0000_0000 == 0
  {
    var y := n + 0x8000_0000;
    assert n - Narrow(n) == y / 0x1_0000_0000 * 0x1_0000_0000;
  }

  lemma NoDotNumber(s: Text)
    requires DOT !in s
    ensures NumberOf(s) == if ToUint(s).Some? then Ok(Number(ToUint(s).value))
                           else if ToInt64(s).None? then Rejected
                           else if ToInt64(s).value <= I32_MAX then Ok(Number(Narrow(ToInt64(s).value)))
                           else Ok(Number(ToInt64(s).value))
  {
  }

  function CharMeans(c: Char): Text {
    match c
    case Plain(b) => [b]
    case Short(letter) => [Named(letter)]
    case Hex(digits) => if StrictChar(c) then Utf8(Worth(digits)) else []
  }

  predicate HighHalf(c: Char) { c.Hex? && StrictChar(c) && 0xd800 <= Worth(c.digits) < 0xdc00 }
  predicate LowHalf(c: Char) { c.Hex? && StrictChar(c) && 0xdc00 <= Worth(c.digits) < 0xe000 }

  predicate PairFirst(cs: seq<Char>) {
    |cs| >= 2 && HighHalf(cs[0]) && LowHalf(cs[1])
  }

  /** The string the characters denote: two escapes of surrogates make one code point. */
  function CharsMean(cs: seq<Char>): Text {
    if cs == [] then []
    else if PairFirst(cs) then
      Utf8(0x1_0000 + (Worth(cs[0].digits) - 0xd800) * 0x400 + (Worth(cs[1].digits) - 0xdc00)) + CharsMean(cs[2..])
    else CharMeans(cs[0]) + CharsMean(cs[1..])
  }

  function Pairs(cs: seq<Char>): nat {
    if cs == [] then 0 else if PairFirst(cs) then 1 + Pairs(cs[2..]) else Pairs(cs[1..])
  }

  /** A string is read as what it denotes exactly when it has no pair of surrogates, which becomes two bytes longer. */
  lemma {:induction false} StringsRead(cs: seq<Char>)
    requires StrictChars(cs)
    ensures |CharsRead(cs)| == |CharsMean(cs)| + 2 * Pairs(cs)
    ensures CharsRead(cs) == CharsMean(cs) <==> Pairs(cs) == 0
  {
    hide Utf8, Worth, CharRead, CharMeans, StrictChar, FromHex;
    if cs != [] {
      CharReadRight(cs[0]);
      if PairFirst(cs) {
        CharReadRight(cs[1]);
        PairLengths(cs[0], cs[1]);
        StringsRead(cs[2..]);
        assert cs[1..][0] == cs[1] && cs[1..][1..] == cs[2..];
        assert CharsRead(cs) == CharRead(cs[0]) + (CharRead(cs[1]) + CharsRead(cs[2..]));
      } else {
        StringsRead(cs[1..]);
      }
    }
  }

  /** The escapes d83d and de00, of one code point, are read as six bytes instead of four. */
  lemma PairMisread()
    ensures var cs := [Hex([0x64, 0x38, 0x33, 0x64]), Hex([0x64, 0x65, 0x30, 0x30])];
            StrictChars(cs) && CharsMean(cs) == Utf8(0x1f600) && |CharsMean(cs)| == 4 && |CharsRead(cs)| == 6
  {
    hide Utf8, CharsRead, FromHex;
    var c, d := Hex([0x64, 0x38, 0x33, 0x64]), Hex([0x64, 0x65, 0x30, 0x30]);
    var cs := [c, d];
    assert Worth(c.digits) == 0xd83d && Worth(d.digits) == 0xde00;
    assert cs[2..] == [] && Pairs([]) == 0;
    Utf8Decodes(0x1f600);
    StringsRead(cs);
    assert CharsMean(cs) == Utf8(0x1f600) + [];
  }

  lemma CharReadRight(c: Char)
    requires StrictChar(c)
    ensures CharRead(c) == CharMeans(c)
  {
    hide Utf8, FromHex;
    if c.Hex? {
      HexRead(c.digits);
    }
  }

  lemma PairLengths(c: Char, d: Char)
    requires HighHalf(c) && LowHalf(d)
    ensures |CharMeans(c)| == 3 == |CharMeans(d)|
    ensures |Utf8(0x1_0000 + (Worth(c.digits) - 0xd800) * 0x400 + (Worth(d.digits) - 0xdc00))| == 4
  {
    hide Utf8, Worth;
    Utf8Decodes(Worth(c.digits));
    Utf8Decodes(Worth(d.digits));
    Utf8Decodes(0x1_0000 + (Worth(c.digits) - 0xd800) * 0x400 + (Worth(d.digits) - 0xdc00));
  }

  /** The value a tree denotes; numbers with a fraction are dealt with apart. */
  ghost function Denoted(c: Syntax): Option<Json> {
    match c
    case Word(v) => Some(v)
    case Numeral(text) => if StrictInteger(text) then Some(Number(IntegerOf(text))) else None
    case Quote(chars) => Some(String(CharsMean(chars)))
    case List(_, items) => ItemsDenoted(items, [])
    case Record(_, entries) => EntriesDenoted(entries, [])
  }

  ghost function ItemsDenoted(items: seq<Padded>, done: seq<Json>): Option<Json> {
    if items == [] then Some(Array(done))
    else
      var v := Denoted(items[0].value);
      if v.None? then None else ItemsDenoted(items[1..], done + [v.value])
  }

  ghost function EntriesDenoted(entries: seq<Entry>, done: seq<Member>): Option<Json> {
    if entries == [] then Some(Object(done))
    else
      var v := Denoted(entries[0].item.value);
      if v.None? then None else EntriesDenoted(entries[1..], Set(done, CharsMean(entries[0].key), v.value))
  }

  /** Every number is an integer between -2^31 and 2^63 - 1, and no string has a pair of surrogates. */
  ghost predicate Tame(c: Syntax) {
    match c
    case Word(_) => true
    case Numeral(text) => StrictInteger(text) && -0x8000_0000 <= IntegerOf(text) <= 0x7fff_ffff_ffff_ffff
    case Quote(chars) => Pairs(chars) == 0
    case List(_, items) => forall i :: 0 <= i < |items| ==> Tame(items[i].value)
    case Record(_, entries) => forall i :: 0 <= i < |entries| ==> Pairs(entries[i].key) == 0 && Tame(entries[i].item.value)
  }

  lemma {:induction false} ReadAsDenoted(c: Syntax)
    requires Strict(c) && Tame(c)
    ensures Denoted(c).Some? && Read(c) == Denoted(c)
    decreases c, 1
  {
    hide NumberOf, StrictNumeral, StrictInteger, StrictChars, CharsRead, CharsMean, Pairs, PlaceValue;
    match c
    case Word(v) =>
    case Numeral(text) => ReadsInteger(text);
    case Quote(chars) => StringsRead(chars);
    case List(_, items) => ItemsReadAsDenoted(items, []);
    case Record(_, entries) => EntriesReadAsDenoted(entries, []);
  }

  lemma {:induction false} ItemsReadAsDenoted(items: seq<Padded>, done: seq<Json>)
    requires forall i :: 0 <= i < |items| ==> StrictPadded(items[i]) && Tame(items[i].value)
    ensures ItemsDenoted(items, done).Some? && ReadItems(items, done) == ItemsDenoted(items, done)
    decreases items, 0
  {
    hide Strict, Tame, Read, Denoted;
    if items != [] {
      assert StrictPadded(items[0]);
      ReadAsDenoted(items[0].value);
      ItemsReadAsDenoted(items[1..], done + [Read(items[0].value).value]);
    }
  }

  lemma {:induction false} EntriesReadAsDenoted(entries: seq<Entry>, done: seq<Member>)
    requires forall i :: 0 <= i < |entries| ==> StrictEntry(entries[i]) && Pairs(entries[i].key) == 0 && Tame(entries[i].item.value)
    ensures EntriesDenoted(entries, done).Some? && ReadEntries(entries, done) == EntriesDenoted(entries, done)
    decreases entries, 0
  {
    hide Strict, Tame, Read, Denoted, StrictChars, CharsRead, CharsMean, Pairs, Set;
    if entries != [] {
      var e := entries[0];
      assert StrictEntry(e) && StrictPadded(e.item);
      StringsRead(e.key);
      ReadAsDenoted(e.item.value);
      EntriesReadAsDenoted(entries[1..], Set(done, CharsRead(e.key), Read(e.item.value).value));
    }
  }

  // ---------- what is written ----------

  /** How the serializer spells a byte of a string. */
  function Spelled(b: Byte): Char {
    if b == 0x08 then Short(0x62)
    else if b == 0x09 then Short(0x74)
    else if b == 0x0a then Short(0x6e)
    else if b == 0x1b then Hex([0x30, 0x30, 0x31, 0x42])
    else if b == 0x22 then Short(0x22)
    else if b == 0x5c then Short(0x5c)
    else Plain(b)
  }

  function SpelledChars(s: Text): seq<Char> {
    seq(|s|, i requires 0 <= i < |s| => Spelled(s[i]))
  }

  /** The serializer's spelling of a string: it denotes the string, and it is a string of the standard exactly when no
      control byte but backspace, tab, newline and escape is in it. */
  lemma {:induction false} StringWritten(s: Text)
    ensures Escape(s) == CharsText(SpelledChars(s)) && CharsMean(SpelledChars(s)) == s && Pairs(SpelledChars(s)) == 0
    ensures LaxChars(SpelledChars(s))
    ensures StrictChars(SpelledChars(s)) <==> forall i :: 0 <= i < |s| ==> CleanByte(s[i])
  {
    hide Utf8, CharMeans, CharText, Escaped, Spelled, StrictChar, LaxChar, HighHalf, LowHalf;
    if s != [] {
      var cs := SpelledChars(s);
      assert cs[0] == Spelled(s[0]) && cs[1..] == SpelledChars(s[1..]);
      StringWritten(s[1..]);
      ByteWritten(s[0]);
      assert s == [s[0]] + s[1..];
      assert forall i :: 1 <= i < |s| ==> s[i] == s[1..][i - 1];
      assert forall i :: 1 <= i < |s| ==> cs[i] == cs[1..][i - 1];
    }
  }

  predicate CleanByte(b: Byte) { b >= 0x20 || b in {0x08, 0x09, 0x0a, 0x1b} }

  lemma ByteWritten(b: Byte)
    ensures Escaped(b) == CharText(Spelled(b)) && CharMeans(Spelled(b)) == [b] && !HighHalf(Spelled(b))
    ensures LaxChar(Spelled(b)) && (StrictChar(Spelled(b)) <==> CleanByte(b))
  {
    if b == 0x1b {
      EscapeWorth();
    }
  }

  lemma EscapeWorth()
    ensures var c := Hex([0x30, 0x30, 0x31, 0x42]); StrictChar(c) && Worth(c.digits) == 0x1b
  {
  }

  /** No byte 8, 9, 10 or 27 is left in an escaped string, and quotes and backslashes only in the escapes. */
  lemma {:induction false} NothingSpecialLeft(s: Text)
    ensures forall i :: 0 <= i < |Escape(s)| ==> Escape(s)[i] !in {0x08, 0x09, 0x0a, 0x1b}
    ensures forall i :: 0 <= i < |s| && SpelledChars(s)[i].Plain? ==> s[i] !in {0x08, 0x09, 0x0a, 0x1b, 0x22, 0x5c}
  {
    if s != [] {
      NothingSpecialLeft(s[1..]);
    }
  }

  /** The tree of what is written. */
  function TreeOf(v: Json): Syntax
    decreases v, 0
  {
    match v
    case Number(n) => Numeral(NumberText(n))
    case String(t) => Quote(SpelledChars(t))
    case Array(items) => List([], Bares(items))
    case Object(members) => Record([], EntriesOf(members))
    case _ => Word(v)
  }

  function Bares(items: seq<Json>): seq<Padded>
    decreases items, 1
  {
    if items == [] then [] else [Padded([], TreeOf(items[0]), [])] + Bares(items[1..])
  }

  function EntriesOf(members: seq<Member>): seq<Entry>
    decreases members, 1
  {
    if members == [] then []
    else [Entry([], SpelledChars(members[0].key), [], Padded([], TreeOf(members[0].value), []))] + EntriesOf(members[1..])
  }

  predicate CleanText(s: Text) {
    forall i :: 0 <= i < |s| ==> CleanByte(s[i])
  }

  /** No string or key has a control byte the serializer does not escape. */
  predicate Clean(v: Json) {
    match v
    case String(t) => CleanText(t)
    case Array(items) => forall i :: 0 <= i < |items| ==> Clean(items[i])
    case Object(members) => forall i :: 0 <= i < |members| ==> CleanText(members[i].key) && Clean(members[i].value)
    case _ => true
  }

  // numbers

  lemma {:induction false} DigitsAreFigures(n: nat)
    ensures StrictWhole(Digits(n)) && PlaceValue(Digits(n)) == n && (n > 0 ==> Digits(n)[0] != 0x30)
  {
    if n < 10 {
      assert Digits(n)[1..] == [];
    } else {
      DigitsAreFigures(n / 10);
      PlacesAppend(Digits(n / 10), 48 + n % 10);
    }
  }

  lemma IntegerWritten(n: int)
    ensures StrictInteger(NumberText(n)) && IntegerOf(NumberText(n)) == n && (NumberText(n)[0] == 0x2d <==> n < 0)
  {
    hide Digits, PlaceValue;
    if n < 0 {
      DigitsAreFigures(-n);
      assert NumberText(n)[1..] == Digits(-n);
    } else {
      DigitsAreFigures(n);
    }
  }

  // arrays

  lemma {:induction false} ItemsWritten(items: seq<Json>)
    requires items != [] && forall i :: 0 <= i < |items| ==> JsonRoundTrip.Plain(items[i])
    ensures SerializeItems(items) == ItemsText(Bares(items)) && Bares(items) != []
    decreases items, 0
  {
    hide Serialize, TreeOf, TextOf, JsonRoundTrip.Plain;
    TextWritten(items[0]);
    var ps, more := Bares(items), items[1..];
    assert ps[0] == Padded([], TreeOf(items[0]), []) && ps[1..] == Bares(more);
    BareText(TreeOf(items[0]));
    if more != [] {
      ItemsWritten(more);
      assert SerializeMoreItems(more) == [0x2c] + SerializeItems(more);
    }
  }

  lemma BareText(c: Syntax)
    ensures PaddedText(Padded([], c, [])) == TextOf(c)
  {
    hide TextOf;
  }

  lemma {:induction false} EntriesWritten(members: seq<Member>)
    requires members != [] && forall i :: 0 <= i < |members| ==> JsonRoundTrip.Plain(members[i].value)
    ensures SerializeMembers(members) == EntriesText(EntriesOf(members)) && EntriesOf(members) != []
    decreases members, 0
  {
    hide Serialize, TreeOf, TextOf, EntryText, SerializeMember, JsonRoundTrip.Plain;
    var m, more, es := members[0], members[1..], EntriesOf(members);
    TextWritten(m.value);
    MemberWritten(m);
    assert es[1..] == EntriesOf(more);
    if more != [] {
      EntriesWritten(more);
      assert SerializeMoreMembers(more) == [0x2c] + SerializeMembers(more);
    }
  }

  lemma MemberWritten(m: Member)
    requires Serialize(m.value) == TextOf(TreeOf(m.value))
    ensures SerializeMember(m) == EntryText(Entry([], SpelledChars(m.key), [], Padded([], TreeOf(m.value), [])))
  {
    hide Serialize, TreeOf, TextOf, CharsText, SpelledChars, Escape;
    StringWritten(m.key);
    BareText(TreeOf(m.value));
  }

  lemma {:induction false} TextWritten(v: Json)
    requires JsonRoundTrip.Plain(v)
    ensures Serialize(v) == TextOf(TreeOf(v))
    decreases v, 1
  {
    hide SerializeItems, SerializeMembers, ItemsText, EntriesText, CharsText, Escape, NumberText, Bares, EntriesOf, SpelledChars;
    match v
    case String(s) => StringWritten(s);
    case Array(items) =>
      if items == [] {
        NoneWritten();
      } else {
        ItemsWritten(items);
      }
    case Object(members) =>
      if members == [] {
        NoneWritten();
      } else {
        EntriesWritten(members);
      }
    case _ =>
  }

  lemma NoneWritten()
    ensures Bares([]) == [] && EntriesOf([]) == [] && SerializeItems([]) == [] && SerializeMembers([]) == []
  {
  }

  // what is written denotes the value

  lemma {:induction false} TreeDenotes(v: Json)
    requires JsonRoundTrip.Plain(v)
    ensures Denoted(TreeOf(v)) == Some(v)
    decreases v, 1
  {
    hide NumberText, StrictInteger, CharsMean, SpelledChars, Bares, EntriesOf;
    match v
    case Number(n) => IntegerWritten(n);
    case String(s) => StringWritten(s);
    case Array(items) =>
      BaresDenote(items, []);
      assert [] + items == items;
    case Object(members) =>
      EntriesDenote(members, []);
      assert [] + members == members;
    case _ =>
  }

  lemma {:induction false} BaresDenote(items: seq<Json>, done: seq<Json>)
    requires forall i :: 0 <= i < |items| ==> JsonRoundTrip.Plain(items[i])
    ensures ItemsDenoted(Bares(items), done) == Some(Array(done + items))
    decreases items, 0
  {
    hide TreeOf, Denoted, JsonRoundTrip.Plain;
    if items == [] {
      assert done + items == done;
    } else {
      TreeDenotes(items[0]);
      BaresDenote(items[1..], done + [items[0]]);
      assert Bares(items)[1..] == Bares(items[1..]);
      assert done + [items[0]] + items[1..] == done + items;
    }
  }

  lemma {:induction false} EntriesDenote(members: seq<Member>, done: seq<Member>)
    requires JsonRoundTrip.PlainMembers(members) && JsonRoundTrip.Absent(done, members)
    ensures EntriesDenoted(EntriesOf(members), done) == Some(Object(done + members))
    decreases members, 0
  {
    hide EntriesOf, EntriesDenoted, JsonRoundTrip.Plain, JsonRoundTrip.PlainMembers, JsonRoundTrip.Absent;
    if members == [] {
      NoneDenoted(done);
      assert done + members == done;
    } else {
      var m, more := members[0], members[1..];
      FirstMember(members, done);
      TreeDenotes(m.value);
      EntryDenotes(members, done);
      EntriesDenote(more, done + [m]);
      assert done + [m] + more == done + members;
    }
  }

  lemma NoneDenoted(done: seq<Member>)
    ensures EntriesDenoted(EntriesOf([]), done) == Some(Object(done))
  {
  }

  lemma {:induction false} EntryDenotes(members: seq<Member>, done: seq<Member>)
    requires members != [] && Denoted(TreeOf(members[0].value)) == Some(members[0].value)
    requires forall i :: 0 <= i < |done| ==> done[i].key != members[0].key
    ensures EntriesDenoted(EntriesOf(members), done) == EntriesDenoted(EntriesOf(members[1..]), done + [members[0]])
  {
    hide TreeOf, Denoted, Set, SpelledChars, CharsMean;
    var m, es := members[0], EntriesOf(members);
    assert es[0].item.value == TreeOf(m.value) && es[0].key == SpelledChars(m.key) && es[1..] == EntriesOf(members[1..]);
    KeyMeans(m.key);
    JsonRoundTrip.SetNew(done, m.key, m.value);
    assert Member(m.key, m.value) == m;
  }

  lemma KeyMeans(s: Text)
    ensures CharsMean(SpelledChars(s)) == s
  {
    StringWritten(s);
  }

  lemma FirstMember(members: seq<Member>, done: seq<Member>)
    requires members != [] && JsonRoundTrip.PlainMembers(members) && JsonRoundTrip.Absent(done, members)
    ensures JsonRoundTrip.Plain(members[0].value) && JsonRoundTrip.PlainMembers(members[1..])
    ensures JsonRoundTrip.Absent(done + [members[0]], members[1..])
    ensures forall i :: 0 <= i < |done| ==> done[i].key != members[0].key
  {
    hide JsonRoundTrip.Plain;
    var more := members[1..];
    assert forall i :: 0 <= i < |more| ==> more[i] == members[i + 1];
  }

  // and is in the standard's grammar when it is clean

  lemma {:induction false} TreeIsStrict(v: Json)
    requires JsonRoundTrip.Plain(v)
    ensures Strict(TreeOf(v)) <==> Clean(v)
    decreases v, 1
  {
    hide NumberText, StrictInteger, StrictChars, SpelledChars, Bares, EntriesOf;
    match v
    case Number(n) => IntegerWritten(n);
    case String(s) => StringWritten(s);
    case Array(items) => BaresAreStrict(items);
    case Object(members) => EntriesAreStrict(members);
    case _ =>
  }

  lemma {:induction false} BaresAreStrict(items: seq<Json>)
    requires forall i :: 0 <= i < |items| ==> JsonRoundTrip.Plain(items[i])
    ensures (forall i :: 0 <= i < |Bares(items)| ==> StrictPadded(Bares(items)[i])) <==> forall i :: 0 <= i < |items| ==> Clean(items[i])
    ensures |Bares(items)| == |items|
    decreases items, 0
  {
    hide TreeOf, Strict, Clean, JsonRoundTrip.Plain;
    if items != [] {
      TreeIsStrict(items[0]);
      BaresAreStrict(items[1..]);
      var ps := Bares(items);
      assert StrictPadded(ps[0]) <==> Clean(items[0]);
      assert forall i :: 1 <= i < |items| ==> ps[i] == Bares(items[1..])[i - 1] && items[i] == items[1..][i - 1];
      assert forall i :: 0 <= i < |items| - 1 ==> Bares(items[1..])[i] == ps[i + 1] && items[1..][i] == items[i + 1];
    }
  }

  lemma {:induction false} EntriesAreStrict(members: seq<Member>)
    requires forall i :: 0 <= i < |members| ==> JsonRoundTrip.Plain(members[i].value)
    ensures (forall i :: 0 <= i < |EntriesOf(members)| ==> StrictEntry(EntriesOf(members)[i]))
       <==> forall i :: 0 <= i < |members| ==> CleanText(members[i].key) && Clean(members[i].value)
    ensures |EntriesOf(members)| == |members|
    decreases members, 0
  {
    hide TreeOf, Strict, Clean, CleanText, StrictChars, SpelledChars, JsonRoundTrip.Plain;
    if members != [] {
      TreeIsStrict(members[0].value);
      KeyIsStrict(members[0].key);
      EntriesAreStrict(members[1..]);
      var es := EntriesOf(members);
      assert es[0].item.value == TreeOf(members[0].value) && es[1..] == EntriesOf(members[1..]);
      StrictFirst(es);
      CleanFirst(members);
    }
  }

  lemma StrictFirst(es: seq<Entry>)
    requires es != []
    ensures (forall i :: 0 <= i < |es| ==> StrictEntry(es[i]))
       <==> StrictEntry(es[0]) && forall i :: 0 <= i < |es[1..]| ==> StrictEntry(es[1..][i])
  {
    hide StrictEntry;
    assert forall i :: 1 <= i < |es| ==> es[i] == es[1..][i - 1];
  }

  lemma CleanFirst(ms: seq<Member>)
    requires ms != []
    ensures (forall i :: 0 <= i < |ms| ==> CleanText(ms[i].key) && Clean(ms[i].value))
       <==> CleanText(ms[0].key) && Clean(ms[0].value) && forall i :: 0 <= i < |ms[1..]| ==> CleanText(ms[1..][i].key) && Clean(ms[1..][i].value)
  {
    hide CleanText, Clean;
    assert forall i :: 1 <= i < |ms| ==> ms[i] == ms[1..][i - 1];
  }

  lemma KeyIsStrict(s: Text)
    ensures StrictChars(SpelledChars(s)) <==> CleanText(s)
  {
    StringWritten(s);
  }

  /** What is written: the text of a tree that denotes the value, and of one in the standard's grammar exactly when no
      string in it has a control byte the serializer leaves as it is. */
  lemma WritesStandard(v: Json)
    requires JsonRoundTrip.Plain(v)
    ensures Serialize(v) == TextOf(TreeOf(v)) && Denoted(TreeOf(v)) == Some(v)
    ensures Strict(TreeOf(v)) <==> Clean(v)
  {
    hide Serialize, TextOf, TreeOf, Denoted, Strict, Clean, JsonRoundTrip.Plain;
    TextWritten(v);
    TreeDenotes(v);
    TreeIsStrict(v);
  }

  /** Texts byte by byte: an array, an object, and a string with a newline and a carriage return. */
  lemma ArrayText()
    ensures Serialize(Array([Number(1), Number(2)])) == [0x5b, 0x31, 0x2c, 0x32, 0x5d]
  {
    assert [Number(1), Number(2)][1..] == [Number(2)] && [Number(2)][1..] == [];
    assert SerializeMoreItems([Number(2)]) == [0x2c, 0x32];
  }

  lemma ObjectText()
    ensures Serialize(Object([Member([0x61], Bool(true))])) == [0x7b, 0x22, 0x61, 0x22, 0x3a, 0x74, 0x72, 0x75, 0x65, 0x7d]
  {
    assert [Member([0x61], Bool(true))][1..] == [] && [0x61][1..] == [];
  }

  lemma StringText()
    ensures Serialize(String([0x0a, 0x0d])) == [0x22, 0x5c, 0x6e, 0x0d, 0x22] && !Clean(String([0x0a, 0x0d]))
  {
    assert [0x0a, 0x0d][1..] == [0x0d] && [0x0d][1..] == [];
    assert !CleanByte([0x0a, 0x0d][1]);
  }
}
