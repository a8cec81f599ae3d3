/**
  When the parser of AK/JsonParser.cpp fails a VERIFY instead of accepting or rejecting:
  its input breaks off after a backslash inside a string.
*/
module JsonAborts {
  import opened Basics
  import opened JsonText

  /** Whole string characters: plain bytes and complete escapes. */
  predicate Characters(s: Text) {
    s == []
    || (s[0] != QUOTE && s[0] != BACKSLASH && Characters(s[1..]))
    || (s[0] == BACKSLASH && |s| >= 2 && s[1] != 117 && Characters(s[2..]))
    || (s[0] == BACKSLASH && |s| >= 6 && s[1] == 117 && Characters(s[6..]))
  }

  /** Whole characters and a last backslash. */
  predicate BrokenOff(s: Text) {
    s != [] && s[|s| - 1] == BACKSLASH && Characters(s[..|s| - 1])
  }

  /** Unescaping fails the VERIFY exactly on such a text. */
  lemma {:induction false} UnescapeAborts(s: Text)
    ensures Unescape(s).Aborted? <==> BrokenOff(s)
    decreases |s|
  {
    hide FromHex, Utf8;
    if |s| >= 2 && s[0] != QUOTE {
      var n := if s[0] != BACKSLASH then 1 else Escapee(s).1;
      UnescapeAborts(s[n..]);
      BrokenOffAfter(s, n);
    }
  }

  lemma BrokenOffAfter(s: Text, n: nat)
    requires |s| >= 2 && s[0] != QUOTE
    requires n == if s[0] != BACKSLASH then 1 else if s[1] != 117 then 2 else 2 + Min(4, |s| - 2)
    ensures BrokenOff(s) <==> BrokenOff(s[n..])
  {
    var t := s[..|s| - 1];
    assert t[0] == s[0] && (|t| >= 2 ==> t[1] == s[1]);
    if n < |s| {
      assert t[n..] == s[n..][..|s| - n - 1];
      assert Characters(t) <==> Characters(t[n..]);
      assert s[n..][|s| - n - 1] == s[|s| - 1];
    } else {
      assert !Characters(t);
    }
  }

  // ---------- where the string is ----------

  /** A value whose text breaks off after a backslash in a string: the value is that string,
      or an array or object that has such a value or key after its complete ones. */
  predicate BreaksOff(input: Text)
    decreases |input|, 0
  {
    var s := SkipSpace(input);
    s != [] &&
    if s[0] == QUOTE then BrokenOff(s[1..])
    else if s[0] == LBRACKET then ItemsBreakOff(s[1..])
    else s[0] == LBRACE && MembersBreakOff(s[1..])
  }

  predicate ItemsBreakOff(input: Text)
    decreases |input|, 1
  {
    var s := SkipSpace(input);
    && Peek(s) != RBRACKET
    && (BreaksOff(s) || (Continues(ParseValue(s), RBRACKET) && ItemsBreakOff(Continuation(ParseValue(s)))))
  }

  predicate MembersBreakOff(input: Text)
    decreases |input|, 1
  {
    var s := SkipSpace(input);
    && Peek(s) == QUOTE && s != []
    && (BrokenOff(s[1..])
        || (ColonAfter(Unescape(s[1..]))
            && var v := AfterColon(Unescape(s[1..]));
               BreaksOff(v) || (Continues(ParseValue(v), RBRACE) && MembersBreakOff(Continuation(ParseValue(v))))))
  }

  /** A value was read, and a comma with something other than the closing bracket after it follows. */
  predicate Continues(r: Outcome<(Json, Text)>, closing: Byte) {
    r.Ok?
    && var t := SkipSpace(r.value.1);
       t != [] && t[0] == COMMA && Peek(SkipSpace(t[1..])) != closing
  }

  function Continuation(r: Outcome<(Json, Text)>): (rest: Text)
    requires r.Ok? && SkipSpace(r.value.1) != []
    ensures |rest| < |r.value.1|
  {
    SkipSpace(SkipSpace(r.value.1)[1..])
  }

  predicate ColonAfter(r: Outcome<(Text, Text)>) {
    r.Ok? && Peek(SkipSpace(r.value.1)) == COLON
  }

  function AfterColon(r: Outcome<(Text, Text)>): (rest: Text)
    requires ColonAfter(r)
    ensures |rest| < |r.value.1|
  {
    SkipSpace(SkipSpace(r.value.1)[1..])
  }

  lemma {:induction false} ValueAborts(input: Text)
    ensures ParseValue(input).Aborted? <==> BreaksOff(input)
    decreases |input|, 0
  {
    hide Unescape, BrokenOff, NumberOf, NumericPrefix, ItemsBreakOff, MembersBreakOff;
    var s := SkipSpace(input);
    if s != [] {
      if s[0] == QUOTE {
        UnescapeAborts(s[1..]);
      } else if s[0] == LBRACKET {
        ItemsAbort(s[1..], []);
      } else if s[0] == LBRACE {
        MembersAbort(s[1..], []);
      } else if s[0] == MINUS || IsDigit(s[0]) {
        NumbersDoNotAbort(s);
      }
    }
  }

  lemma NumbersDoNotAbort(s: Text)
    requires s != [] && IsNumeric(s[0])
    ensures !ParseNumber(s).Aborted?
  {
    hide ToUint, ToInt64, Narrow, BeforeDot, WithoutDots, NumericPrefix;
  }

  lemma {:induction false} ItemsAbort(input: Text, done: seq<Json>)
    ensures ParseItems(input, done).Aborted? <==> ItemsBreakOff(input)
    decreases |input|, 1
  {
    hide ParseValue, BreaksOff;
    var s := SkipSpace(input);
    if Peek(s) != RBRACKET {
      ValueAborts(s);
      var r := ParseValue(s);
      if Continues(r, RBRACKET) {
        ItemsAbort(Continuation(r), done + [r.value.0]);
      }
    }
  }

  lemma {:induction false} MembersAbort(input: Text, done: seq<Member>)
    ensures ParseMembers(input, done).Aborted? <==> MembersBreakOff(input)
    decreases |input|, 1
  {
    hide ParseValue, BreaksOff, Unescape, BrokenOff, Set;
    var s := SkipSpace(input);
    if Peek(s) == QUOTE && s != [] {
      UnescapeAborts(s[1..]);
      var k := Unescape(s[1..]);
      if ColonAfter(k) {
        var v := AfterColon(k);
        ValueAborts(v);
        var r := ParseValue(v);
        if Continues(r, RBRACE) {
          MembersAbort(Continuation(r), Set(done, k.value.0, r.value.0));
        }
      }
    }
  }

  /** The parser fails the VERIFY exactly on an input that breaks off after a backslash in a string. */
  lemma AbortsExactlyWhen(input: Text)
    ensures Parse(input).Aborted? <==> BreaksOff(input)
  {
    hide ParseValue, BreaksOff;
    ValueAborts(input);
  }

  /** A string, alone or in an array or as a key, that breaks off after its opening quote and a backslash. */
  lemma AbortingInputs()
    ensures Parse([QUOTE, BACKSLASH]).Aborted?
    ensures Parse([LBRACKET, QUOTE, BACKSLASH]).Aborted?
    ensures Parse([LBRACE, QUOTE, BACKSLASH]).Aborted?
  {
    hide Parse;
    AbortsExactlyWhen([QUOTE, BACKSLASH]);
    AbortsExactlyWhen([LBRACKET, QUOTE, BACKSLASH]);
    AbortsExactlyWhen([LBRACE, QUOTE, BACKSLASH]);
    assert BrokenOff([BACKSLASH]);
    assert [QUOTE, BACKSLASH][1..] == [BACKSLASH];
    assert [LBRACKET, QUOTE, BACKSLASH][1..] == [QUOTE, BACKSLASH] == [LBRACE, QUOTE, BACKSLASH][1..];
  }

  // ---------- the end of the input ----------

  predicate Suffix(t: Text, s: Text) {
    |t| <= |s| && t == s[|s| - |t|..]
  }

  lemma SuffixOf(t: Text, s: Text, i: nat)
    requires i <= |s| && t == s[i..]
    ensures Suffix(t, s)
  {
  }

  lemma SuffixThrough(u: Text, t: Text, s: Text)
    requires Suffix(u, t) && Suffix(t, s)
    ensures Suffix(u, s)
  {
  }

  lemma {:induction false} SpaceLeavesSuffix(s: Text)
    ensures Suffix(SkipSpace(s), s)
  {
    if s != [] && IsSpace(s[0]) {
      SpaceLeavesSuffix(s[1..]);
      SuffixOf(s[1..], s, 1);
      SuffixThrough(SkipSpace(s), s[1..], s);
    }
  }

  lemma {:induction false} StringLeavesSuffix(s: Text)
    ensures Unescape(s).Ok? ==> Suffix(Unescape(s).value.1, s)
    decreases |s|
  {
    hide FromHex, Utf8;
    if s != [] && s[0] != QUOTE && (s[0] != BACKSLASH || |s| >= 2) {
      var n := if s[0] != BACKSLASH then 1 else Escapee(s).1;
      StringLeavesSuffix(s[n..]);
      SuffixOf(s[n..], s, n);
      if Unescape(s[n..]).Ok? {
        SuffixThrough(Unescape(s[n..]).value.1, s[n..], s);
      }
    } else if s != [] {
      SuffixOf(s[1..], s, 1);
    }
  }

  /** What follows the bracket, comma or colon at the head of the text after white space. */
  lemma PastSpace(s: Text)
    ensures SkipSpace(s) != [] ==> Suffix(SkipSpace(s)[1..], s) && Suffix(SkipSpace(SkipSpace(s)[1..]), s)
  {
    hide SkipSpace;
    SpaceLeavesSuffix(s);
    if SkipSpace(s) != [] {
      SuffixOf(SkipSpace(s)[1..], SkipSpace(s), 1);
      SuffixThrough(SkipSpace(s)[1..], SkipSpace(s), s);
      SpaceLeavesSuffix(SkipSpace(s)[1..]);
      SuffixThrough(SkipSpace(SkipSpace(s)[1..]), SkipSpace(s)[1..], s);
    }
  }

  ghost predicate Leaves(r: Outcome<(Json, Text)>, input: Text) {
    r.Ok? ==> Suffix(r.value.1, input)
  }

  lemma LeavesThrough(r: Outcome<(Json, Text)>, t: Text, s: Text)
    requires Leaves(r, t) && Suffix(t, s)
    ensures Leaves(r, s)
  {
    if r.Ok? {
      SuffixThrough(r.value.1, t, s);
    }
  }

  lemma {:induction false} ValueLeavesSuffix(input: Text)
    ensures Leaves(ParseValue(input), input)
    decreases |input|, 0
  {
    hide Unescape, NumberOf, NumericPrefix, Suffix, SkipSpace;
    SpaceLeavesSuffix(input);
    PastSpace(input);
    var s := SkipSpace(input);
    if s != [] {
      if s[0] == QUOTE {
        StringLeavesSuffix(s[1..]);
        if Unescape(s[1..]).Ok? {
          SuffixThrough(Unescape(s[1..]).value.1, s[1..], input);
        }
      } else if s[0] == LBRACKET {
        ItemsLeaveSuffix(s[1..], []);
        LeavesThrough(ParseItems(s[1..], []), s[1..], input);
      } else if s[0] == LBRACE {
        MembersLeaveSuffix(s[1..], []);
        LeavesThrough(ParseMembers(s[1..], []), s[1..], input);
      } else {
        ScalarLeavesSuffix(input);
        LeavesThrough(ParseValue(input), s, input);
      }
    }
  }

  lemma ScalarLeavesSuffix(input: Text)
    requires var s := SkipSpace(input); s != [] && s[0] != QUOTE && s[0] != LBRACKET && s[0] != LBRACE
    ensures Leaves(ParseValue(input), SkipSpace(input))
  {
    hide Unescape, ParseItems, ParseMembers, NumberOf, NumericPrefix, SkipSpace;
    var s := SkipSpace(input);
    if s[0] == MINUS || IsDigit(s[0]) {
      PrefixIsPrefix(s);
      SuffixOf(s[|NumericPrefix(s)|..], s, |NumericPrefix(s)|);
    } else if s[0] == 102 && FALSE <= s {
      SuffixOf(s[|FALSE|..], s, |FALSE|);
    } else if s[0] == 116 && TRUE <= s {
      SuffixOf(s[|TRUE|..], s, |TRUE|);
    } else if s[0] == 110 && NULL <= s {
      SuffixOf(s[|NULL|..], s, |NULL|);
    }
  }

  lemma {:induction false} ItemsLeaveSuffix(input: Text, done: seq<Json>)
    ensures Leaves(ParseItems(input, done), input)
    decreases |input|, 1
  {
    hide ParseValue, Suffix, SkipSpace;
    SpaceLeavesSuffix(input);
    PastSpace(input);
    var s := SkipSpace(input);
    if Peek(s) != RBRACKET {
      ValueLeavesSuffix(s);
      var r := ParseValue(s);
      LeavesThrough(r, s, input);
      if r.Ok? {
        PastValue(r.value.1, input);
        if Continues(r, RBRACKET) {
          ItemsLeaveSuffix(Continuation(r), done + [r.value.0]);
          LeavesThrough(ParseItems(Continuation(r), done + [r.value.0]), Continuation(r), input);
        }
      }
    }
  }

  /** What follows a value, past white space and one more byte. */
  lemma PastValue(after: Text, input: Text)
    requires Suffix(after, input)
    ensures SkipSpace(after) != [] ==>
              Suffix(SkipSpace(after)[1..], input) && Suffix(SkipSpace(SkipSpace(after)[1..]), input)
  {
    hide Suffix, SkipSpace;
    PastSpace(after);
    if SkipSpace(after) != [] {
      SuffixThrough(SkipSpace(after)[1..], after, input);
      SuffixThrough(SkipSpace(SkipSpace(after)[1..]), after, input);
    }
  }

  lemma {:induction false} MembersLeaveSuffix(input: Text, done: seq<Member>)
    ensures Leaves(ParseMembers(input, done), input)
    decreases |input|, 1
  {
    hide ParseValue, Unescape, Suffix, SkipSpace, Set;
    PastSpace(input);
    var s := SkipSpace(input);
    if Peek(s) == QUOTE && s != [] {
      StringLeavesSuffix(s[1..]);
      var k := Unescape(s[1..]);
      if ColonAfter(k) {
        SuffixThrough(k.value.1, s[1..], input);
        PastValue(k.value.1, input);
        var v := AfterColon(k);
        ValueLeavesSuffix(v);
        var r := ParseValue(v);
        LeavesThrough(r, v, input);
        if r.Ok? {
          PastValue(r.value.1, input);
          if Continues(r, RBRACE) {
            var more := Set(done, k.value.0, r.value.0);
            MembersLeaveSuffix(Continuation(r), more);
            LeavesThrough(ParseMembers(Continuation(r), more), Continuation(r), input);
          }
        }
      }
    }
  }

  /** A string begins at k and the rest of the input is whole characters and a last backslash. */
  ghost predicate OpenString(input: Text, k: nat) {
    k < |input| && input[k] == QUOTE && BrokenOff(input[k + 1..])
  }

  ghost predicate EndsOpen(input: Text) {
    exists k: nat :: OpenString(input, k)
  }

  lemma OpenThrough(t: Text, s: Text)
    requires EndsOpen(t) && Suffix(t, s)
    ensures EndsOpen(s)
  {
    hide BrokenOff;
    var k: nat :| OpenString(t, k);
    var i := |s| - |t|;
    assert s[i..][k + 1..] == s[i + k + 1..];
    assert OpenString(s, i + k);
  }

  lemma OpenHere(s: Text, input: Text)
    requires s != [] && s[0] == QUOTE && BrokenOff(s[1..]) && Suffix(s, input)
    ensures EndsOpen(input)
  {
    assert OpenString(s, 0);
    OpenThrough(s, input);
  }

  lemma {:induction false} BreaksOffOpen(input: Text)
    requires BreaksOff(input)
    ensures EndsOpen(input)
    decreases |input|, 0
  {
    hide BrokenOff, Suffix, SkipSpace, EndsOpen;
    SpaceLeavesSuffix(input);
    PastSpace(input);
    var s := SkipSpace(input);
    if s[0] == QUOTE {
      OpenHere(s, input);
    } else if s[0] == LBRACKET {
      ItemsBreakOffOpen(s[1..]);
      OpenThrough(s[1..], input);
    } else {
      MembersBreakOffOpen(s[1..]);
      OpenThrough(s[1..], input);
    }
  }

  lemma {:induction false} ItemsBreakOffOpen(input: Text)
    requires ItemsBreakOff(input)
    ensures EndsOpen(input)
    decreases |input|, 1
  {
    hide ParseValue, BreaksOff, Suffix, SkipSpace, EndsOpen;
    SpaceLeavesSuffix(input);
    var s := SkipSpace(input);
    if BreaksOff(s) {
      BreaksOffOpen(s);
      OpenThrough(s, input);
    } else {
      var r := ParseValue(s);
      ValueLeavesSuffix(s);
      LeavesThrough(r, s, input);
      PastValue(r.value.1, input);
      ItemsBreakOffOpen(Continuation(r));
      OpenThrough(Continuation(r), input);
    }
  }

  lemma {:induction false} MembersBreakOffOpen(input: Text)
    requires MembersBreakOff(input)
    ensures EndsOpen(input)
    decreases |input|, 1
  {
    hide ParseValue, Unescape, BreaksOff, BrokenOff, Suffix, SkipSpace, EndsOpen;
    SpaceLeavesSuffix(input);
    PastSpace(input);
    var s := SkipSpace(input);
    if BrokenOff(s[1..]) {
      OpenHere(s, input);
    } else {
      var k := Unescape(s[1..]);
      StringLeavesSuffix(s[1..]);
      SuffixThrough(k.value.1, s[1..], input);
      PastValue(k.value.1, input);
      var v := AfterColon(k);
      if BreaksOff(v) {
        BreaksOffOpen(v);
        OpenThrough(v, input);
      } else {
        var r := ParseValue(v);
        ValueLeavesSuffix(v);
        LeavesThrough(r, v, input);
        PastValue(r.value.1, input);
        MembersBreakOffOpen(Continuation(r));
        OpenThrough(Continuation(r), input);
      }
    }
  }

  /** So the input ends in a backslash, inside a string that began and was not closed. */
  lemma AbortsAtTheEnd(input: Text)
    requires Parse(input).Aborted?
    ensures EndsOpen(input) && input[|input| - 1] == BACKSLASH
  {
    hide Parse, BreaksOff, Characters;
    AbortsExactlyWhen(input);
    BreaksOffOpen(input);
    var k: nat :| OpenString(input, k);
  }
}
