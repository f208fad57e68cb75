/**
 Which texts cJSON_Parse accepts: exactly those that begin with a text of the grammar. And when the tree it gives is the
 one that is meant.
 */
module JsonAccepted {
  import opened Bytes
  import opened JsonStrings
  import opened JsonText
  import opened JsonRoundTrip
  import opened JsonGrammar

  // ----- A derivation for whatever parses -----

  lemma {:induction false} CharsJoin(s: seq<Byte>, i: nat, c: Char, cs: seq<Char>)
    requires FormedChar(c) && FormedChars(cs) && Has(s, i, CharText(c)) && Has(s, i + |CharText(c)|, CharsText(cs))
    ensures FormedChars([c] + cs) && Has(s, i, CharsText([c] + cs))
    ensures |CharsText([c] + cs)| == |CharText(c)| + |CharsText(cs)|
  {
    HasJoin(s, i, CharText(c), CharsText(cs));
    assert ([c] + cs)[1..] == cs;
    hide Has, FormedChar, CharText;
  }

  /** The character at the head of a literal. */
  lemma {:induction false} CharOf(s: seq<Byte>, i: nat) returns (c: Char)
    requires LiteralOk(s, i) && !LiteralStops(s, i)
    ensures FormedChar(c) && Has(s, i, CharText(c)) && LiteralOk(s, i + |CharText(c)|) && i + |CharText(c)| <= |s|
  {
    if s[i] != BACKSLASH {
      c := Raw(s[i]);
      HasSlice(s, i, CharText(c));
    } else if s[i + 1] == LOWER_U {
      c := HexOf(s, i);
    } else {
      c := Short(s[i + 1], EscapedByte(s[i + 1]));
      HasSlice(s, i, CharText(c));
    }
  }

  lemma {:induction false} HexOf(s: seq<Byte>, i: nat) returns (c: Char)
    requires At(s, i) == 0x5C && At(s, i + 1) == 0x75 && HexAt(s, i + 2)
    ensures FormedChar(c) && Has(s, i, CharText(c)) && |CharText(c)| == 6
  {
    var u, digits := Hex4(s, i + 2), s[i + 2..i + 6];
    c := Hex(u, digits);
    Hex4Spells(s, i + 2, u);
    assert Spells(digits, 0, u);
    hide Spells, Hex4;
    assert s[i..i + 6] == [0x5C, 0x75] + digits;
    HasSlice(s, i, CharText(c));
  }

  lemma {:induction false} CharsOf(s: seq<Byte>, i: nat) returns (cs: seq<Char>)
    requires i <= |s| && LiteralOk(s, i)
    ensures FormedChars(cs) && Has(s, i, CharsText(cs)) && LiteralStops(s, i + |CharsText(cs)|)
    decreases |s| - i
  {
    hide *;
    if LiteralStops(s, i) {
      cs := [];
      NothingRead(s, i);
    } else {
      var c := CharOf(s, i);
      cs := CharsOf(s, i + |CharText(c)|);
      CharsJoin(s, i, c, cs);
      cs := [c] + cs;
    }
  }

  lemma NothingRead(s: seq<Byte>, i: nat)
    requires i <= |s|
    ensures FormedChars([]) && Has(s, i, CharsText([])) && |CharsText([])| == 0
  {
  }

  /** What parse_string has read, with its quotes. */
  lemma {:induction false} QuotedOf(s: seq<Byte>, i: nat) returns (cs: seq<Char>, closed: bool)
    requires i <= |s| && ParseString(s, i).Done?
    ensures FormedChars(cs) && Has(s, i, [0x22] + CharsText(cs) + if closed then [0x22] else [])
    ensures closed || At(s, i + 1 + |CharsText(cs)|) == 0
  {
    StringBegins(s, i);
    hide *;
    cs := CharsOf(s, i + 1);
    Stops(s, i + 1 + |CharsText(cs)|);
    var e := i + 1 + |CharsText(cs)|;
    closed := At(s, e) == 0x22;
    OneByte(s, i, 0x22);
    HasJoin(s, i, [0x22], CharsText(cs));
    if closed {
      OneByte(s, e, 0x22);
      HasJoin(s, i, [0x22] + CharsText(cs), [0x22]);
    } else {
      assert [0x22] + CharsText(cs) + [] == [0x22] + CharsText(cs);
    }
  }

  lemma StringBegins(s: seq<Byte>, i: nat)
    requires i <= |s| && ParseString(s, i).Done?
    ensures i < |s| && At(s, i) == 0x22 && LiteralOk(s, i + 1)
  {
  }

  lemma OneByte(s: seq<Byte>, i: nat, b: Byte)
    requires At(s, i) == b && b != 0
    ensures i < |s| && Has(s, i, [b])
  {
    assert [b][1..] == [];
  }

  /** A run of digits. */
  lemma {:induction false} DigitsOf(s: seq<Byte>, i: nat, e: nat) returns (ds: seq<Digit>)
    requires AllDigits(s, i, e)
    ensures |ds| == e - i && DigitsAt(s, i, ds) && Has(s, i, DigitsText(ds))
    decreases e - i
  {
    ds := [];
    if i < e {
      var rest := DigitsOf(s, i + 1, e);
      var d: Digit := s[i] - 0x30;
      ds := [d] + rest;
      assert DigitsText(ds) == [s[i]] + DigitsText(rest);
      assert DigitsText(ds)[1..] == DigitsText(rest);
      forall k | 0 <= k < |ds|
        ensures s[i + k] == DigitByte(ds[k])
      {
        if k > 0 {
          assert s[i + 1 + (k - 1)] == DigitByte(rest[k - 1]);
        }
      }
    }
  }

  lemma {:induction false} LeadOf(s: seq<Byte>, i: nat)
    requires i <= |s| && (At(s, i) == MINUS || IsDigit(At(s, i)))
    ensures var n := Numeral(At(s, i) == MINUS, At(s, SignEnd(s, i)) == ZERO, [], [], NoExponent);
            && Has(s, i, SignText(n)) && Has(s, i + |SignText(n)|, ZeroText(n))
            && ZeroEnd(s, SignEnd(s, i)) == i + |SignText(n)| + |ZeroText(n)| <= |s|
  {
    if At(s, i) == MINUS {
      OneByte(s, i, MINUS);
    }
    if At(s, SignEnd(s, i)) == ZERO {
      OneByte(s, SignEnd(s, i), ZERO);
    }
  }

  lemma {:induction false} WholeOf(s: seq<Byte>, b: nat) returns (ds: seq<Digit>)
    requires b <= |s|
    ensures WholeCut(s, ds, b, b + |ds|) && Has(s, b, DigitsText(ds)) && WholeEnd(s, b) == b + |ds|
    ensures (ds != [] ==> ds[0] != 0) && (ds != [] <==> 0x31 <= At(s, b) <= 0x39)
  {
    ds := DigitsOf(s, b, WholeEnd(s, b));
    assert ds != [] ==> s[b + 0] == DigitByte(ds[0]);
  }

  lemma {:induction false} FractionOf(s: seq<Byte>, c: nat) returns (ds: seq<Digit>)
    requires c <= |s|
    ensures FractionCut(s, ds, c, c + |FractionText(ds)|) && Has(s, c, FractionText(ds))
  {
    ds := [];
    if FractionAt(s, c) {
      ds := DigitsOf(s, c + 1, DigitsEnd(s, c + 1));
      OneByte(s, c, 0x2E);
      HasJoin(s, c, [0x2E], DigitsText(ds));
    }
  }

  lemma {:induction false} ExponentOf(s: seq<Byte>, d: nat) returns (x: Exponent)
    requires d <= |s|
    ensures FormedExponent(x) && ExponentCut(s, x, d, d + |ExponentText(x)|) && Has(s, d, ExponentText(x))
  {
    x := NoExponent;
    if ExponentAt(s, d) {
      var letter := At(s, d);
      var from := ExponentSignEnd(s, d + 1);
      var sign := if from == d + 1 then [] else [At(s, d + 1)];
      OneByte(s, d, letter);
      if from != d + 1 {
        OneByte(s, d + 1, At(s, d + 1));
      }
      var ds := DigitsOf(s, from, DigitsEnd(s, from));
      x := Exponent.Exponent(letter, sign, ds);
      HasJoin(s, d, [letter], sign);
      HasJoin(s, d, [letter] + sign, DigitsText(ds));
    }
  }

  /** What parse_number has read. */
  lemma {:induction false} NumeralOf(s: seq<Byte>, i: nat) returns (n: Numeral)
    requires i <= |s| && (At(s, i) == MINUS || IsDigit(At(s, i)))
    ensures FormedNumeral(n) && Has(s, i, NumeralText(n))
    ensures ParseNumber(s, i) == Done(Number(NumeralValue(n)), i + |NumeralText(n)|)
  {
    hide *;
    LeadOf(s, i);
    var b := ZeroEnd(s, SignEnd(s, i));
    var whole := WholeOf(s, b);
    var c := b + |whole|;
    SomeDigit(s, i);
    var negative, zero := At(s, i) == MINUS, At(s, SignEnd(s, i)) == ZERO;
    HasAt(s, b, DigitsText(whole));
    var fraction := FractionOf(s, c);
    var d := c + |FractionText(fraction)|;
    HasAt(s, c, FractionText(fraction));
    var x := ExponentOf(s, d);
    var e := d + |ExponentText(x)|;
    HasAt(s, d, ExponentText(x));
    n := Numeral(negative, zero, whole, fraction, x);
    SameLead(n, Numeral(negative, zero, [], [], NoExponent));
    var g, z, w, f := SignText(n), ZeroText(n), DigitsText(whole), FractionText(fraction);
    HasJoin(s, i, g, z);
    HasJoin(s, i, g + z, w);
    HasJoin(s, i, g + z + w, f);
    HasJoin(s, i, g + z + w + f, ExponentText(x));
    NumeralTextIs(n);
    NumeralFormed(n);
    CutMade(s, i, n, b, c, d, e);
    CutValue(s, i, n, b, c, d, e);
  }

  lemma SomeDigit(s: seq<Byte>, i: nat)
    requires i <= |s| && (At(s, i) == MINUS || IsDigit(At(s, i)))
    ensures At(s, i) == MINUS || At(s, SignEnd(s, i)) == ZERO || 0x31 <= At(s, ZeroEnd(s, SignEnd(s, i))) <= 0x39
  {
  }

  lemma SameLead(n: Numeral, n': Numeral)
    requires n.negative == n'.negative && n.zero == n'.zero
    ensures SignText(n) == SignText(n') && ZeroText(n) == ZeroText(n')
  {
  }

  lemma NumeralFormed(n: Numeral)
    requires (n.negative || n.zero || n.whole != []) && (n.whole != [] ==> n.whole[0] != 0) && FormedExponent(n.exponent)
    ensures FormedNumeral(n)
  {
  }

  /** The blanks skip passes over. */
  lemma {:induction false} BlanksOf(s: seq<Byte>, i: nat) returns (w: seq<Byte>)
    requires i <= |s|
    ensures Blanks(w) && Has(s, i, w) && i + |w| == Skip(s, i) <= |s|
  {
    w := s[i..Skip(s, i)];
    HasSlice(s, i, w);
  }

  /** A derivation for whatever parse_value reads. */
  lemma {:induction false} DocOf(s: seq<Byte>, i: nat) returns (d: Doc)
    requires i <= |s| && ParseValue(s, i).Done?
    ensures Formed(d) && Has(s, i, TextOf(d)) && (!Closed(d) ==> At(s, i + |TextOf(d)|) == 0)
    ensures ParseValue(s, i) == Done(TreeOf(d, false), i + |TextOf(d)|)
    decreases |s| - i, 2
  {
    var w, es, ms;
    hide *;
    if i < |s| && At(s, i) == 0x5B {
      ArrayValue(s, i);
      w, es := EntriesInside(s, i);
      d := ArrayDoc(w, es);
      DocRead(s, i, d);
    } else if i < |s| && At(s, i) == 0x7B {
      ObjectValue(s, i);
      w, ms := MembersInside(s, i);
      d := ObjectDoc(w, ms);
      DocRead(s, i, d);
    } else {
      d := PlainOf(s, i);
    }
  }

  lemma {:induction false} PlainOf(s: seq<Byte>, i: nat) returns (d: Doc)
    requires i <= |s| && ParseValue(s, i).Done? && At(s, i) != 0x5B && At(s, i) != 0x7B
    ensures Formed(d) && Has(s, i, TextOf(d)) && (!Closed(d) ==> At(s, i + |TextOf(d)|) == 0)
    ensures ParseValue(s, i) == Done(TreeOf(d, false), i + |TextOf(d)|)
  {
    hide ParseNumber, ParseString, Has, CharsText, NumeralText, CharsBytes, NumeralValue, FormedChars, FormedNumeral;
    if StartsWith(s, i, NULL_WORD) {
      d := NullDoc;
      HasSlice(s, i, NULL_WORD);
    } else if StartsWith(s, i, FALSE_WORD) {
      d := FalseDoc;
      HasSlice(s, i, FALSE_WORD);
    } else if StartsWith(s, i, TRUE_WORD) {
      d := TrueDoc;
      HasSlice(s, i, TRUE_WORD);
    } else if At(s, i) == QUOTE {
      var chars, closed := QuotedOf(s, i);
      QuotedRead(s, i, chars, closed);
      d := StringDoc(chars, closed);
    } else {
      var n := NumeralOf(s, i);
      d := NumberDoc(n);
    }
  }

  lemma {:induction false} EntriesInside(s: seq<Byte>, i: nat) returns (w: seq<Byte>, es: seq<Entry>)
    requires i < |s| && At(s, i) == 0x5B && ParseArray(s, i).Done?
    ensures Formed(ArrayDoc(w, es)) && Closed(ArrayDoc(w, es)) && Has(s, i, TextOf(ArrayDoc(w, es)))
    ensures Followed(s, i + |TextOf(ArrayDoc(w, es))|, ArrayDoc(w, es))
    decreases |s| - i, 1
  {
    hide *;
    var first := Skip(s, i + 1);
    ArrayBegins(s, i);
    NothingInside();
    w := BlanksOf(s, i + 1);
    es := [];
    if At(s, first) != 0x5D {
      es := EntriesOf(s, i + 1);
      MakeArray(s, i, w, es);
    } else {
      MakeArray(s, i, w, es);
    }
  }

  lemma NothingInside()
    ensures FormedEntries([]) && FormedMembers([])
  {
  }

  lemma ArrayBegins(s: seq<Byte>, i: nat)
    requires i < |s| && ParseArray(s, i).Done?
    ensures At(s, Skip(s, i + 1)) == 0x5D || ParseItems(s, i + 1).Done?
  {
    SkipTwice(s, i + 1);
    hide ParseItems, Skip;
  }

  lemma {:induction false} MakeArray(s: seq<Byte>, i: nat, w: seq<Byte>, es: seq<Entry>)
    requires At(s, i) == 0x5B && Blanks(w) && FormedEntries(es)
    requires var t := if es == [] then w else EntriesText(es);
             Has(s, i + 1, t) && At(s, i + 1 + |t|) == 0x5D
    ensures var d := ArrayDoc(w, es);
            Formed(d) && Closed(d) && Has(s, i, TextOf(d)) && Followed(s, i + |TextOf(d)|, d)
  {
    hide Has, FormedEntries, EntriesText;
    var t := if es == [] then w else EntriesText(es);
    OneByte(s, i, 0x5B);
    OneByte(s, i + 1 + |t|, 0x5D);
    HasJoin(s, i, [0x5B], t);
    HasJoin(s, i, [0x5B] + t, [0x5D]);
  }

  /** What must stand behind an entry: parse_value has not come to the end of the text. */
  lemma {:induction false} EntryBegins(s: seq<Byte>, i: nat) returns (p: nat, q: nat, r: nat)
    requires i <= |s| && ParseItems(s, i).Done?
    ensures i <= p == Skip(s, i) <= |s| && ParseValue(s, p).Done? && p < q == ParseValue(s, p).at <= |s|
    ensures q <= r == Skip(s, q) <= |s| && At(s, q) != 0
    ensures At(s, r) == 0x5D || (At(s, r) == 0x2C && r < |s| && ParseItems(s, r + 1).Done?)
  {
    p := Skip(s, i);
    q := ParseValue(s, p).at;
    r := Skip(s, q);
    hide ParseValue;
    assert ParseItems(s, i) == ItemsAfter(s, r, Item(NoText, ParseValue(s, p).value), RBRACKET);
    hide ParseItems;
  }

  lemma {:induction false} EntriesOf(s: seq<Byte>, i: nat) returns (es: seq<Entry>)
    requires i <= |s| && ParseItems(s, i).Done?
    ensures es != [] && FormedEntries(es) && Has(s, i, EntriesText(es)) && At(s, i + |EntriesText(es)|) == 0x5D
    decreases |s| - i, 3
  {
    hide *;
    var p, q, r := EntryBegins(s, i);
    var before := BlanksOf(s, i);
    var after := BlanksOf(s, q);
    var v := DocOf(s, p);
    var e := Entry(before, v, after);
    es := [e];
    if At(s, r) == 0x2C {
      var rest := EntriesOf(s, r + 1);
      JoinEntries(s, i, e, rest);
      es := [e] + rest;
    } else {
      LastEntry(s, i, e);
    }
  }

  lemma {:induction false} EntryJoined(s: seq<Byte>, i: nat, e: Entry)
    requires Has(s, i, e.before) && Has(s, i + |e.before|, TextOf(e.value))
    requires Has(s, i + |e.before| + |TextOf(e.value)|, e.after)
    ensures Has(s, i, e.before + TextOf(e.value) + e.after)
  {
    hide Has;
    HasJoin(s, i, e.before, TextOf(e.value));
    HasJoin(s, i, e.before + TextOf(e.value), e.after);
  }

  lemma {:induction false} LastEntry(s: seq<Byte>, i: nat, e: Entry)
    requires Blanks(e.before) && Blanks(e.after) && Formed(e.value) && Closed(e.value)
    requires Has(s, i, e.before) && Has(s, i + |e.before|, TextOf(e.value))
    requires Has(s, i + |e.before| + |TextOf(e.value)|, e.after)
    ensures FormedEntries([e]) && Has(s, i, EntriesText([e]))
    ensures |EntriesText([e])| == |e.before| + |TextOf(e.value)| + |e.after|
  {
    hide Has, TextOf, Formed, Closed;
    EntryJoined(s, i, e);
    var one := e.before + TextOf(e.value) + e.after;
    assert EntriesText([e]) == one + [] == one;
    assert FormedEntries([e][1..]);
  }

  lemma {:induction false} JoinEntries(s: seq<Byte>, i: nat, e: Entry, rest: seq<Entry>)
    requires Blanks(e.before) && Blanks(e.after) && Formed(e.value) && Closed(e.value) && rest != [] && FormedEntries(rest)
    requires Has(s, i, e.before) && Has(s, i + |e.before|, TextOf(e.value))
    requires Has(s, i + |e.before| + |TextOf(e.value)|, e.after)
    requires var r := i + |e.before| + |TextOf(e.value)| + |e.after|;
             At(s, r) == 0x2C && Has(s, r + 1, EntriesText(rest))
    ensures var es := [e] + rest;
            && FormedEntries(es) && Has(s, i, EntriesText(es))
            && |EntriesText(es)| == |e.before| + |TextOf(e.value)| + |e.after| + 1 + |EntriesText(rest)|
  {
    hide Has, TextOf, Formed, Closed;
    var es, one := [e] + rest, e.before + TextOf(e.value) + e.after;
    EntryJoined(s, i, e);
    OneByte(s, i + |one|, 0x2C);
    HasJoin(s, i + |one|, [0x2C], EntriesText(rest));
    HasJoin(s, i, one, [0x2C] + EntriesText(rest));
    assert es[0] == e && es[1..] == rest;
    assert EntriesText(es) == one + ([0x2C] + EntriesText(rest));
  }

  // the same for objects

  lemma {:induction false} MembersInside(s: seq<Byte>, i: nat) returns (w: seq<Byte>, ms: seq<Member>)
    requires i < |s| && At(s, i) == 0x7B && ParseObject(s, i).Done?
    ensures Formed(ObjectDoc(w, ms)) && Closed(ObjectDoc(w, ms)) && Has(s, i, TextOf(ObjectDoc(w, ms)))
    ensures Followed(s, i + |TextOf(ObjectDoc(w, ms))|, ObjectDoc(w, ms))
    decreases |s| - i, 1
  {
    hide *;
    var first := Skip(s, i + 1);
    ObjectBegins(s, i);
    NothingInside();
    w := BlanksOf(s, i + 1);
    ms := [];
    if At(s, first) != 0x7D {
      ms := MembersOf(s, i + 1);
      MakeObject(s, i, w, ms);
    } else {
      MakeObject(s, i, w, ms);
    }
  }

  lemma ObjectBegins(s: seq<Byte>, i: nat)
    requires i < |s| && ParseObject(s, i).Done?
    ensures At(s, Skip(s, i + 1)) == 0x7D || ParseMembers(s, i + 1).Done?
  {
    SkipTwice(s, i + 1);
    hide ParseMembers, Skip;
  }

  lemma {:induction false} MakeObject(s: seq<Byte>, i: nat, w: seq<Byte>, ms: seq<Member>)
    requires At(s, i) == 0x7B && Blanks(w) && FormedMembers(ms)
    requires var t := if ms == [] then w else MembersText(ms);
             Has(s, i + 1, t) && At(s, i + 1 + |t|) == 0x7D
    ensures var d := ObjectDoc(w, ms);
            Formed(d) && Closed(d) && Has(s, i, TextOf(d)) && Followed(s, i + |TextOf(d)|, d)
  {
    hide Has, FormedMembers, MembersText;
    var t := if ms == [] then w else MembersText(ms);
    OneByte(s, i, 0x7B);
    OneByte(s, i + 1 + |t|, 0x7D);
    HasJoin(s, i, [0x7B], t);
    HasJoin(s, i, [0x7B] + t, [0x7D]);
  }

  lemma {:induction false} MemberBegins(s: seq<Byte>, i: nat) returns (p: MemberPlaces)
    requires i <= |s| && ParseMembers(s, i).Done?
    ensures i <= p.name == Skip(s, i) <= |s| && ParseString(s, p.name).Done? && p.end == ParseString(s, p.name).at <= |s|
    ensures p.name < p.end <= p.colon == Skip(s, p.end) < |s| && At(s, p.colon) == 0x3A && At(s, p.end) != 0
    ensures p.colon < p.value == Skip(s, p.colon + 1) <= |s| && ParseValue(s, p.value).Done?
    ensures p.value < p.behind == ParseValue(s, p.value).at <= |s| && At(s, p.behind) != 0
    ensures p.behind <= p.next == Skip(s, p.behind) <= |s|
    ensures At(s, p.next) == 0x7D || (At(s, p.next) == 0x2C && p.next < |s| && ParseMembers(s, p.next + 1).Done?)
  {
    hide *;
    var item;
    p, item := MemberNamed(s, i);
    MemberValued(s, p.end);
    Onwards(s, p, item);
  }

  lemma {:induction false} MemberNamed(s: seq<Byte>, i: nat) returns (p: MemberPlaces, item: Item)
    requires i <= |s| && ParseMembers(s, i).Done?
    ensures i <= p.name == Skip(s, i) <= |s| && ParseString(s, p.name).Done? && p.end == ParseString(s, p.name).at <= |s|
    ensures p.name < p.end <= p.colon == Skip(s, p.end) < |s| && At(s, p.colon) == 0x3A
    ensures p.colon < p.value == Skip(s, p.colon + 1) <= |s| && ParseValue(s, p.value).Done?
    ensures p.value < p.behind == ParseValue(s, p.value).at <= |s| && p.next == Skip(s, p.behind)
    ensures p.next <= |s| && ItemsAfter(s, p.next, item, RBRACE).Done?
  {
    hide ParseValue, ParseString, ItemsAfter, Skip;
    var name := Skip(s, i);
    var Done(t, end) := ParseString(s, name);
    var colon := Skip(s, end);
    var value := Skip(s, colon + 1);
    var Done(v, behind) := ParseValue(s, value);
    p, item := MemberPlaces(name, end, colon, value, behind, Skip(s, behind)), Item(Text(t), v);
  }

  lemma {:induction false} MemberValued(s: seq<Byte>, end: nat)
    requires end <= |s| && At(s, Skip(s, end)) == 0x3A
    ensures At(s, end) != 0
  {
    hide ParseValue;
  }

  lemma {:induction false} Onwards(s: seq<Byte>, p: MemberPlaces, item: Item)
    requires p.behind <= |s| && Skip(s, p.behind) == p.next && ItemsAfter(s, p.next, item, RBRACE).Done?
    ensures p.behind <= p.next <= |s| && At(s, p.behind) != 0
    ensures At(s, p.next) == 0x7D || (At(s, p.next) == 0x2C && p.next < |s| && ParseMembers(s, p.next + 1).Done?)
  {
    hide ParseMembers, ParseItems;
  }

  lemma {:induction false} NameOf(s: seq<Byte>, i: nat) returns (cs: seq<Char>)
    requires i <= |s| && ParseString(s, i).Done? && At(s, ParseString(s, i).at) != 0
    ensures FormedChars(cs) && Has(s, i, [0x22] + CharsText(cs) + [0x22])
    ensures ParseString(s, i).at == i + 2 + |CharsText(cs)|
  {
    hide *;
    var closed;
    cs, closed := QuotedOf(s, i);
    QuotedRead(s, i, cs, closed);
  }

  lemma {:induction false} MembersOf(s: seq<Byte>, i: nat) returns (ms: seq<Member>)
    requires i <= |s| && ParseMembers(s, i).Done?
    ensures ms != [] && FormedMembers(ms) && Has(s, i, MembersText(ms)) && At(s, i + |MembersText(ms)|) == 0x7D
    decreases |s| - i, 3
  {
    hide *;
    var p := MemberBegins(s, i);
    var before := BlanksOf(s, i);
    var beforeColon := BlanksOf(s, p.end);
    var afterColon := BlanksOf(s, p.colon + 1);
    var after := BlanksOf(s, p.behind);
    var name := NameOf(s, p.name);
    var v := DocOf(s, p.value);
    var m := Member(before, name, beforeColon, afterColon, v, after);
    MemberJoined(s, i, m);
    ms := [m];
    if At(s, p.next) == 0x2C {
      var rest := MembersOf(s, p.next + 1);
      JoinMembers(s, i, m, rest);
      ms := [m] + rest;
    } else {
      LastMember(s, i, m);
    }
  }

  function MemberText(m: Member): seq<Byte> {
    m.before + NameText(m) + (m.beforeColon + [0x3A] + m.afterColon) + TextOf(m.value) + m.after
  }

  predicate FormedMember(m: Member) {
    && Blanks(m.before) && FormedChars(m.name) && Blanks(m.beforeColon) && Blanks(m.afterColon)
    && Blanks(m.after) && Formed(m.value) && Closed(m.value)
  }

  lemma {:induction false} MemberJoined(s: seq<Byte>, i: nat, m: Member)
    requires Blanks(m.before) && FormedChars(m.name) && Blanks(m.beforeColon) && Blanks(m.afterColon)
    requires Blanks(m.after) && Formed(m.value) && Closed(m.value)
    requires Has(s, i, m.before) && Has(s, i + |m.before|, [0x22] + CharsText(m.name) + [0x22])
    requires var end := i + |m.before| + 2 + |CharsText(m.name)|;
             var colon := end + |m.beforeColon|;
             var value := colon + 1 + |m.afterColon|;
             && Has(s, end, m.beforeColon) && At(s, colon) == 0x3A && Has(s, colon + 1, m.afterColon)
             && Has(s, value, TextOf(m.value)) && Has(s, value + |TextOf(m.value)|, m.after)
    ensures FormedMember(m) && Has(s, i, MemberText(m))
    ensures |MemberText(m)| == |m.before| + 2 + |CharsText(m.name)| + |m.beforeColon| + 1 + |m.afterColon|
                               + |TextOf(m.value)| + |m.after|
  {
    hide Has, TextOf, CharsText, Formed, FormedChars, Closed;
    var name, end := NameText(m), i + |m.before| + 2 + |CharsText(m.name)|;
    OneByte(s, end + |m.beforeColon|, 0x3A);
    HasJoin(s, end, m.beforeColon, [0x3A]);
    HasJoin(s, end, m.beforeColon + [0x3A], m.afterColon);
    var colon := m.beforeColon + [0x3A] + m.afterColon;
    HasJoin(s, i, m.before, name);
    HasJoin(s, i, m.before + name, colon);
    HasJoin(s, i, m.before + name + colon, TextOf(m.value));
    HasJoin(s, i, m.before + name + colon + TextOf(m.value), m.after);
  }

  lemma {:induction false} LastMember(s: seq<Byte>, i: nat, m: Member)
    requires FormedMember(m) && Has(s, i, MemberText(m))
    ensures FormedMembers([m]) && MembersText([m]) == MemberText(m)
  {
    hide Has, TextOf, Formed, Closed, NameText, FormedChars;
    assert MembersText([m]) == MemberText(m) + [] == MemberText(m);
    assert FormedMembers([m][1..]);
  }

  lemma {:induction false} JoinMembers(s: seq<Byte>, i: nat, m: Member, rest: seq<Member>)
    requires FormedMember(m) && Has(s, i, MemberText(m)) && rest != [] && FormedMembers(rest)
    requires At(s, i + |MemberText(m)|) == 0x2C && Has(s, i + |MemberText(m)| + 1, MembersText(rest))
    ensures var ms := [m] + rest;
            && FormedMembers(ms) && Has(s, i, MembersText(ms))
            && |MembersText(ms)| == |MemberText(m)| + 1 + |MembersText(rest)|
  {
    hide Has, TextOf, Formed, Closed, NameText, FormedChars;
    var ms, one := [m] + rest, MemberText(m);
    OneByte(s, i + |one|, 0x2C);
    HasJoin(s, i + |one|, [0x2C], MembersText(rest));
    HasJoin(s, i, one, [0x2C] + MembersText(rest));
    assert ms[0] == m && ms[1..] == rest;
    assert MembersText(ms) == one + ([0x2C] + MembersText(rest));
  }

  // ----- Acceptance -----

  /** A text begins with blanks and a text of the grammar. */
  ghost predicate BeginsWithDoc(s: seq<Byte>) {
    exists w, d ::
      Blanks(w) && Formed(d) && Has(s, 0, w + TextOf(d)) && (!Closed(d) ==> At(s, |w + TextOf(d)|) == 0)
  }

  /** Whatever parses is, up to where the parser stops, blanks and a text of the grammar, and gives the tree of that. */
  lemma {:induction false} ParsedIsDerived(s: seq<Byte>) returns (w: seq<Byte>, d: Doc)
    requires Parse(s).Done?
    ensures Blanks(w) && Formed(d) && Has(s, 0, w + TextOf(d)) && (!Closed(d) ==> At(s, |w + TextOf(d)|) == 0)
    ensures Parse(s) == Done(TreeOf(d, false), |w + TextOf(d)|)
  {
    hide Has, TextOf, TreeOf, Formed, Closed, ParseValue, Skip;
    w := BlanksOf(s, 0);
    d := DocOf(s, |w|);
    HasJoin(s, 0, w, TextOf(d));
  }

  /** cJSON_Parse accepts exactly the texts that begin with one of the grammar. */
  lemma {:induction false} AcceptsExactly(s: seq<Byte>)
    ensures Parse(s).Done? <==> BeginsWithDoc(s)
  {
    hide *;
    if Parse(s).Done? {
      var w, d := ParsedIsDerived(s);
      DocBegins(s, w, d);
    } else if BeginsWithDoc(s) {
      var w, d := BeginningOf(s);
      HasSplit(s, 0, w, TextOf(d));
      DocFirst(s, |w|, d);
      BlanksSkipped(s, 0, w);
      ParseIs(s);
      if d.NumberDoc? {
        NumberAccepted(s, |w|, d);
      } else {
        NotGoingOn(s, |w| + |TextOf(d)|, d);
        DocRead(s, |w|, d);
      }
    }
  }

  lemma DocBegins(s: seq<Byte>, w: seq<Byte>, d: Doc)
    requires Blanks(w) && Formed(d) && Has(s, 0, w + TextOf(d)) && (!Closed(d) ==> At(s, |w + TextOf(d)|) == 0)
    ensures BeginsWithDoc(s)
  {
    hide Has, TextOf, Formed, Closed, Blanks;
  }

  lemma BeginningOf(s: seq<Byte>) returns (w: seq<Byte>, d: Doc)
    requires BeginsWithDoc(s)
    ensures Blanks(w) && Formed(d) && Has(s, 0, w + TextOf(d)) && (!Closed(d) ==> At(s, |w| + |TextOf(d)|) == 0)
  {
    hide Has, TextOf, Formed, Closed, Blanks;
    w, d :| Blanks(w) && Formed(d) && Has(s, 0, w + TextOf(d)) && (!Closed(d) ==> At(s, |w + TextOf(d)|) == 0);
  }

  lemma ParseIs(s: seq<Byte>)
    ensures Parse(s) == ParseValue(s, Skip(s, 0))
  {
  }

  lemma NotGoingOn(s: seq<Byte>, e: nat, d: Doc)
    requires !d.NumberDoc? && (!Closed(d) ==> At(s, e) == 0)
    ensures Followed(s, e, d)
  {
  }

  /** A number is never refused. */
  lemma {:induction false} NumberAccepted(s: seq<Byte>, i: nat, d: Doc)
    requires d.NumberDoc? && Formed(d) && Has(s, i, TextOf(d)) && i <= |s|
    ensures ParseValue(s, i).Done?
  {
    hide FormedNumeral, NumeralText, ParseNumber, StartsWith;
    NumeralFirst(d.n);
    HasFirst(s, i, TextOf(d));
    NotAWord(s, i);
  }

  // ----- The tree that is meant -----

  /** No surrogate pair has bit 16 of its joined bits set. */
  predicate CharsFit(cs: seq<Char>)
    decreases |cs|
  {
    cs == []
    || if StartsPair(cs) then
         (IsLowSurrogate(cs[1].u) ==> !Bit16(JoinedBits(cs[0].u, cs[1].u))) && CharsFit(cs[2..])
       else CharsFit(cs[1..])
  }

  predicate PairsFit(d: Doc)
    decreases d
  {
    match d
    case StringDoc(chars, _) => CharsFit(chars)
    case ArrayDoc(_, es) => EntriesFit(es)
    case ObjectDoc(_, ms) => MembersFit(ms)
    case _ => true
  }

  predicate EntriesFit(es: seq<Entry>)
    decreases es
  {
    es != [] ==>
      assert es[0].value < es[0];
      PairsFit(es[0].value) && EntriesFit(es[1..])
  }

  predicate MembersFit(ms: seq<Member>)
    decreases ms
  {
    ms != [] ==>
      assert ms[0].value < ms[0];
      CharsFit(ms[0].name) && PairsFit(ms[0].value) && MembersFit(ms[1..])
  }

  lemma {:induction false} PairMeant(high: Unit16, low: Unit16)
    requires IsHighSurrogate(high) && IsLowSurrogate(low)
    ensures PairBytes(high, low, true) == PairBytes(high, low, false) <==> !Bit16(JoinedBits(high, low))
  {
    PairExact(high, low);
    Utf8Decodes(Rfc2781(high, low));
    hide Utf8, Rfc3629;
  }

  lemma SameParts(a: seq<Byte>, b: seq<Byte>, a': seq<Byte>, b': seq<Byte>)
    requires |a| == |a'|
    ensures a + b == a' + b' <==> a == a' && b == b'
  {
    if a + b == a' + b' {
      assert a == (a + b)[..|a|] && b == (a + b)[|a|..];
      assert a' == (a' + b')[..|a|] && b' == (a' + b')[|a|..];
    }
  }

  lemma {:induction false} CharsMeant(cs: seq<Char>)
    ensures CharsBytes(cs, true) == CharsBytes(cs, false) <==> CharsFit(cs)
    decreases |cs|
  {
    if cs != [] {
      hide *;
      CharsUnfold(cs, true);
      CharsUnfold(cs, false);
      CharsFitUnfold(cs);
      if StartsPair(cs) {
        CharsMeant(cs[2..]);
        if IsLowSurrogate(cs[1].u) {
          PairMeant(cs[0].u, cs[1].u);
          SameParts(PairBytes(cs[0].u, cs[1].u, true), CharsBytes(cs[2..], true),
                    PairBytes(cs[0].u, cs[1].u, false), CharsBytes(cs[2..], false));
        } else {
          SameParts([], CharsBytes(cs[2..], true), [], CharsBytes(cs[2..], false));
        }
      } else {
        CharsMeant(cs[1..]);
        SameParts(CharBytes(cs[0]), CharsBytes(cs[1..], true), CharBytes(cs[0]), CharsBytes(cs[1..], false));
      }
    }
  }

  lemma CharsFitUnfold(cs: seq<Char>)
    requires cs != []
    ensures StartsPair(cs) ==>
              |cs| > 1 && cs[0].Hex? && cs[1].Hex? && IsHighSurrogate(cs[0].u)
              && (CharsFit(cs) <==>
                  (IsLowSurrogate(cs[1].u) ==> !Bit16(JoinedBits(cs[0].u, cs[1].u))) && CharsFit(cs[2..]))
    ensures !StartsPair(cs) ==> (CharsFit(cs) <==> CharsFit(cs[1..]))
  {
  }

  /** The tree is the one that is meant exactly when no pair has bit 16 set. */
  lemma {:induction false} TreeMeant(d: Doc)
    ensures TreeOf(d, true) == TreeOf(d, false) <==> PairsFit(d)
    decreases d
  {
    hide NumeralValue, CharsBytes, CharsFit;
    match d
    case StringDoc(chars, _) => CharsMeant(chars);
    case ArrayDoc(_, es) => ItemsMeant(es);
    case ObjectDoc(_, ms) => NamedItemsMeant(ms);
    case _ =>
  }

  lemma {:induction false} ItemsMeant(es: seq<Entry>)
    ensures ItemsOf(es, true) == ItemsOf(es, false) <==> EntriesFit(es)
    decreases es
  {
    hide TreeOf, PairsFit;
    if es != [] {
      assert es[0].value < es[0];
      TreeMeant(es[0].value);
      ItemsMeant(es[1..]);
      ItemsOfUnfold(es, true);
      ItemsOfUnfold(es, false);
      HeadAndTail(ItemsOf(es, true), ItemsOf(es, false));
    }
  }

  lemma HeadAndTail(a: seq<Item>, b: seq<Item>)
    requires a != [] && b != []
    ensures a == b <==> a[0] == b[0] && a[1..] == b[1..]
  {
    assert a == [a[0]] + a[1..] && b == [b[0]] + b[1..];
  }

  lemma {:induction false} NamedItemsMeant(ms: seq<Member>)
    ensures NamedItemsOf(ms, true) == NamedItemsOf(ms, false) <==> MembersFit(ms)
    decreases ms
  {
    hide TreeOf, PairsFit, CharsBytes, CharsFit;
    if ms != [] {
      assert ms[0].value < ms[0];
      CharsMeant(ms[0].name);
      TreeMeant(ms[0].value);
      NamedItemsMeant(ms[1..]);
      NamedItemsOfUnfold(ms, true);
      NamedItemsOfUnfold(ms, false);
      HeadAndTail(NamedItemsOf(ms, true), NamedItemsOf(ms, false));
    }
  }

  /** For every text of the grammar: what cJSON_Parse gives is what the text means exactly when none of its surrogate pairs
      has bit 16 of the joined bits set. */
  lemma {:induction false} ParsesAsMeant(w: seq<Byte>, d: Doc, rest: seq<Byte>)
    requires Blanks(w) && Formed(d) && Followed(rest, 0, d)
    ensures Parse(w + TextOf(d) + rest) == Done(TreeOf(d, true), |w| + |TextOf(d)|) <==> PairsFit(d)
  {
    hide *;
    GrammarParses(w, d, rest);
    TreeMeant(d);
  }
}
