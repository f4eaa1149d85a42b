/**
 What the reader of `Json` can never accept: a control character other than JSON's white space,
 a single quote that opens a literal, and a text with less ink, the characters that are not white
 space, than the value needs.
 */
module ReaderLimits {
  import opened Base
  import opened Json
  import Quotes = QuoteNormalizer

  // ---------- Characters ----------

  predicate IsLegal(c: char) {
    c as int >= 0x20 || IsWhite(c)
  }

  predicate Legal(t: string) {
    forall i :: 0 <= i < |t| ==> IsLegal(t[i])
  }

  lemma LegalBehind(t: string, n: nat)
    requires n <= |t| && Legal(t[..n]) && Legal(t[n..])
    ensures Legal(t)
  {
    assert t == t[..n] + t[n..];
  }

  lemma {:induction false} SkipLegal(t: string)
    requires Legal(Skip(t))
    ensures Legal(t)
    decreases |t|
  {
    if t != "" && IsWhite(t[0]) {
      SkipLegal(t[1..]);
      LegalBehind(t, 1);
    }
  }

  lemma HexQuadLegal(t: string)
    requires |t| >= 6 && IsLegal(t[0]) && IsLegal(t[1]) && HexQuad(t[2..6]).Some? && Legal(t[6..])
    ensures Legal(t)
  {
    var quad := t[2..6];
    assert IsLegal(quad[0]) && IsLegal(quad[1]) && IsLegal(quad[2]) && IsLegal(quad[3]);
    assert t[..6] == [t[0], t[1]] + quad;
    LegalBehind(t, 6);
  }

  lemma ReadUnitLegal(t: string)
    requires ReadUnit(t).Some? && Legal(ReadUnit(t).value.1)
    ensures Legal(t)
  {
    if t[0] != '\\' {
      LegalBehind(t, 1);
    } else if t[1] != 'u' {
      LegalBehind(t, 2);
    } else {
      if StartsLowSurrogate(t[6..]) && 0xD800 <= HexQuad(t[2..6]).value < 0xDC00 {
        HexQuadLegal(t[6..]);
      }
      HexQuadLegal(t);
    }
  }

  lemma {:induction false} ReadCharsLegal(t: string)
    requires ReadChars(t).Some? && Legal(ReadChars(t).value.1)
    ensures Legal(t)
    decreases |t|
  {
    if t[0] == '"' {
      LegalBehind(t, 1);
    } else {
      ReadCharsLegal(ReadUnit(t).value.1);
      ReadUnitLegal(t);
    }
  }

  /** Where the rest is legal, so is what was read. */
  lemma {:induction false} ReadValueLegal(t: string)
    requires ReadValue(t).Some? && Legal(ReadValue(t).value.1)
    ensures Legal(t)
    decreases |t|, 1
  {
    SkipLegal(ReadToken(Skip(t)).value.1);
    ReadTokenLegal(Skip(t));
    SkipLegal(t);
  }

  lemma {:induction false} ReadTokenLegal(t: string)
    requires ReadToken(t).Some? && Legal(ReadToken(t).value.1)
    ensures Legal(t)
    decreases |t|, 0
  {
    var body := Skip(t[1..]);
    if t[0] == '"' {
      ReadCharsLegal(t[1..]);
      LegalBehind(t, 1);
    } else if t[0] == '[' || t[0] == '{' {
      if body[0] == (if t[0] == '[' then ']' else '}') {
        LegalBehind(body, 1);
      } else if t[0] == '[' {
        ReadItemsLegal(body);
      } else {
        ReadMembersLegal(body);
      }
      SkipLegal(t[1..]);
      LegalBehind(t, 1);
    } else {
      LegalBehind(t, ScalarSpan(t));
    }
  }

  lemma {:induction false} ReadItemsLegal(t: string)
    requires ReadItems(t).Some? && Legal(ReadItems(t).value.1)
    ensures Legal(t)
    decreases |t|, 2
  {
    var after := ReadValue(t).value.1;
    if after[0] == ',' {
      ReadItemsLegal(after[1..]);
    }
    LegalBehind(after, 1);
    ReadValueLegal(t);
  }

  lemma {:induction false} ReadMembersLegal(t: string)
    requires ReadMembers(t).Some? && Legal(ReadMembers(t).value.1)
    ensures Legal(t)
    decreases |t|, 2
  {
    var k := ReadKey(Skip(t)).value;
    var after := ReadValue(k.1).value.1;
    if after[0] == ',' {
      ReadMembersLegal(after[1..]);
    }
    LegalBehind(after, 1);
    ReadValueLegal(k.1);
    ReadKeyLegal(Skip(t));
    SkipLegal(t);
  }

  lemma ReadKeyLegal(t: string)
    requires ReadKey(t).Some? && Legal(ReadKey(t).value.1)
    ensures Legal(t)
  {
    var k := ReadChars(t[1..]).value;
    LegalBehind(Skip(k.1), 1);
    SkipLegal(k.1);
    ReadCharsLegal(t[1..]);
    LegalBehind(t, 1);
  }

  // ---------- Quotes ----------

  /** Outside a string, or inside one, no single quote opens a literal up to the end of the text. */
  predicate QuotesFine(inside: bool, t: string) {
    Quotes.OnlyDouble(if inside then Quotes.InDouble else Quotes.Outside, t)
  }

  lemma {:induction false} SkipQuotes(t: string)
    requires QuotesFine(false, Skip(t))
    ensures QuotesFine(false, t)
    decreases |t|
  {
    if t != "" && IsWhite(t[0]) {
      SkipQuotes(t[1..]);
    }
  }

  lemma {:induction false} ScalarQuotes(t: string)
    requires QuotesFine(false, t[ScalarSpan(t)..])
    ensures QuotesFine(false, t)
    decreases |t|
  {
    if t != "" && IsScalarChar(t[0]) {
      assert t[1..][ScalarSpan(t[1..])..] == t[ScalarSpan(t)..];
      ScalarQuotes(t[1..]);
    } else {
      assert t[0..] == t;
    }
  }

  lemma {:induction false} PlainQuotes(t: string, n: nat)
    requires n <= |t| && forall i :: 0 <= i < n ==> t[i] != '"' && t[i] != '\\'
    requires QuotesFine(true, t[n..])
    ensures QuotesFine(true, t)
    decreases n
  {
    if n > 0 {
      RestFrom(t, 1, n - 1);
      PlainQuotes(t[1..], n - 1);
    } else {
      assert t[0..] == t;
    }
  }

  lemma HexQuadQuotes(t: string)
    requires |t| >= 6 && t[0] == '\\' && HexQuad(t[2..6]).Some? && QuotesFine(true, t[6..])
    ensures QuotesFine(true, t)
  {
    var quad := t[2..6];
    assert t[2] == quad[0] && t[3] == quad[1] && t[4] == quad[2] && t[5] == quad[3];
    RestFrom(t, 2, 4);
    PlainQuotes(t[2..], 4);
  }

  lemma ReadUnitQuotes(t: string)
    requires ReadUnit(t).Some? && QuotesFine(true, ReadUnit(t).value.1)
    ensures QuotesFine(true, t)
  {
    if t[0] == '\\' && t[1] == 'u' {
      if StartsLowSurrogate(t[6..]) && 0xD800 <= HexQuad(t[2..6]).value < 0xDC00 {
        HexQuadQuotes(t[6..]);
      }
      HexQuadQuotes(t);
    }
  }

  lemma {:induction false} ReadCharsQuotes(t: string)
    requires ReadChars(t).Some? && QuotesFine(false, ReadChars(t).value.1)
    ensures QuotesFine(true, t)
    decreases |t|
  {
    if t[0] != '"' {
      ReadCharsQuotes(ReadUnit(t).value.1);
      ReadUnitQuotes(t);
    }
  }

  /** Where no single quote opens a literal behind a value, none does in it. */
  lemma {:induction false} ReadValueQuotes(t: string)
    requires ReadValue(t).Some? && QuotesFine(false, ReadValue(t).value.1)
    ensures QuotesFine(false, t)
    decreases |t|, 1
  {
    SkipQuotes(ReadToken(Skip(t)).value.1);
    ReadTokenQuotes(Skip(t));
    SkipQuotes(t);
  }

  lemma {:induction false} ReadTokenQuotes(t: string)
    requires ReadToken(t).Some? && QuotesFine(false, ReadToken(t).value.1)
    ensures QuotesFine(false, t)
    decreases |t|, 0
  {
    var body := Skip(t[1..]);
    if t[0] == '"' {
      ReadCharsQuotes(t[1..]);
    } else if t[0] == '[' {
      if body[0] != ']' {
        ReadItemsQuotes(body);
      }
      SkipQuotes(t[1..]);
    } else if t[0] == '{' {
      if body[0] != '}' {
        ReadMembersQuotes(body);
      }
      SkipQuotes(t[1..]);
    } else {
      ScalarQuotes(t);
    }
  }

  lemma {:induction false} ReadItemsQuotes(t: string)
    requires ReadItems(t).Some? && QuotesFine(false, ReadItems(t).value.1)
    ensures QuotesFine(false, t)
    decreases |t|, 2
  {
    var after := ReadValue(t).value.1;
    if after[0] == ',' {
      ReadItemsQuotes(after[1..]);
    }
    ReadValueQuotes(t);
  }

  lemma {:induction false} ReadMembersQuotes(t: string)
    requires ReadMembers(t).Some? && QuotesFine(false, ReadMembers(t).value.1)
    ensures QuotesFine(false, t)
    decreases |t|, 2
  {
    var k := ReadKey(Skip(t)).value;
    var after := ReadValue(k.1).value.1;
    if after[0] == ',' {
      ReadMembersQuotes(after[1..]);
    }
    ReadValueQuotes(k.1);
    ReadKeyQuotes(Skip(t));
    SkipQuotes(t);
  }

  lemma ReadKeyQuotes(t: string)
    requires ReadKey(t).Some? && QuotesFine(false, ReadKey(t).value.1)
    ensures QuotesFine(false, t)
  {
    SkipQuotes(ReadChars(t[1..]).value.1);
    ReadCharsQuotes(t[1..]);
  }

  /** Text that is JSON already passes through the quote normalizer unchanged. */
  lemma DocumentIsNormal(t: string)
    requires ReadDocument(t).Some?
    ensures Quotes.Normalize(t) == t
  {
    ReadValueQuotes(t);
    Quotes.NormalizeIsIdentityIff(Quotes.Outside, t);
  }

  // ---------- Ink ----------

  /** The number of characters that are not white space. */
  function Ink(t: string): nat {
    if t == "" then 0 else (if IsWhite(t[0]) then 0 else 1) + Ink(t[1..])
  }

  lemma {:induction false} InkConcat(a: string, b: string)
    ensures Ink(a + b) == Ink(a) + Ink(b)
  {
    if a == "" {
      assert a + b == b;
    } else {
      assert (a + b)[1..] == a[1..] + b;
      InkConcat(a[1..], b);
    }
  }

  lemma {:induction false} InkOfWhite(t: string)
    requires forall i :: 0 <= i < |t| ==> IsWhite(t[i])
    ensures Ink(t) == 0
  {
    if t != "" {
      InkOfWhite(t[1..]);
    }
  }

  lemma {:induction false} InkOfInk(t: string, n: nat)
    requires n <= |t| && forall i :: 0 <= i < n ==> !IsWhite(t[i])
    ensures Ink(t) == n + Ink(t[n..])
    decreases n
  {
    if n > 0 {
      InkOfInk(t[1..], n - 1);
      RestFrom(t, 1, n - 1);
    }
  }

  lemma {:induction false} SkipInk(t: string)
    ensures Ink(Skip(t)) == Ink(t)
  {
    if t != "" && IsWhite(t[0]) {
      SkipInk(t[1..]);
    }
  }

  /** The ink of the shortest text that is read as the value. */
  function Shortest(v: Json): nat
    decreases v, 1
  {
    match v
    case Str(s) => Ink(Escape(s)) + 2
    case Scalar(s) => Ink(s)
    case Arr(items) => 1 + Commas(|items|) + ShortestItems(items) + 1
    case Obj(members) => 1 + Commas(|members|) + ShortestMembers(members) + 1
  }

  function Commas(n: nat): nat {
    if n == 0 then 0 else n - 1
  }

  function ShortestItems(vs: seq<Json>): nat
    decreases vs, 0
  {
    if vs == [] then 0 else Shortest(vs[0]) + ShortestItems(vs[1..])
  }

  function ShortestMembers(ms: seq<(string, Json)>): nat
    decreases ms, 0
  {
    if ms == [] then 0
    else
      assert ms[0].1 < ms[0];
      Ink(Escape(ms[0].0)) + 3 + Shortest(ms[0].1) + ShortestMembers(ms[1..])
  }

  lemma EscapeCharInk(c: char)
    ensures Ink(EscapeChar(c)) == if IsWhite(c) && c as int >= 0x20 then 0 else |EscapeChar(c)|
  {
    var e := EscapeChar(c);
    if !(IsWhite(c) && c as int >= 0x20) {
      InkOfInk(e, |e|);
    }
  }

  lemma HexQuadInk(t: string)
    requires |t| >= 6 && !IsWhite(t[0]) && !IsWhite(t[1]) && HexQuad(t[2..6]).Some?
    ensures Ink(t) == 6 + Ink(t[6..])
  {
    var quad := t[2..6];
    assert quad[0] == t[2] && quad[1] == t[3] && quad[2] == t[4] && quad[3] == t[5];
    InkOfInk(t, 6);
  }

  lemma ReadUnitInk(t: string)
    requires ReadUnit(t).Some?
    ensures var u := ReadUnit(t).value; Ink(EscapeChar(u.0)) + Ink(u.1) <= Ink(t)
  {
    var u := ReadUnit(t).value;
    EscapeCharInk(u.0);
    if t[0] != '\\' {
    } else if t[1] != 'u' {
      InkOfInk(t, 2);
    } else {
      HexQuadInk(t);
      if StartsLowSurrogate(t[6..]) {
        HexQuadInk(t[6..]);
      }
    }
  }

  lemma {:induction false} ReadCharsInk(t: string)
    requires ReadChars(t).Some?
    ensures var r := ReadChars(t).value; Ink(Escape(r.0)) + 1 + Ink(r.1) <= Ink(t)
    decreases |t|
  {
    if t[0] != '"' {
      var u := ReadUnit(t).value;
      ReadUnitInk(t);
      ReadCharsInk(u.1);
      var tail := ReadChars(u.1).value;
      assert ([u.0] + tail.0)[1..] == tail.0;
      InkConcat(EscapeChar(u.0), Escape(tail.0));
    }
  }

  /** Whatever the reader consumes has at least the ink of the shortest text for what it returns. */
  lemma {:induction false} ReadValueInk(t: string)
    requires ReadValue(t).Some?
    ensures var r := ReadValue(t).value; Shortest(r.0) + Ink(r.1) <= Ink(t)
    decreases |t|, 1
  {
    ReadTokenInk(Skip(t));
    SkipInk(t);
    SkipInk(ReadToken(Skip(t)).value.1);
  }

  lemma {:induction false} ReadTokenInk(t: string)
    requires ReadToken(t).Some?
    ensures var r := ReadToken(t).value; Shortest(r.0) + Ink(r.1) <= Ink(t)
    decreases |t|, 0
  {
    var body := Skip(t[1..]);
    SkipInk(t[1..]);
    if t[0] == '"' {
      ReadCharsInk(t[1..]);
    } else if t[0] == '[' {
      if body[0] != ']' {
        ReadItemsInk(body);
      }
    } else if t[0] == '{' {
      if body[0] != '}' {
        ReadMembersInk(body);
      }
    } else {
      var n := ScalarSpan(t);
      InkConcat(t[..n], t[n..]);
      assert t == t[..n] + t[n..];
    }
  }

  lemma {:induction false} ReadItemsInk(t: string)
    requires ReadItems(t).Some?
    ensures var r := ReadItems(t).value;
            r.0 != [] && Commas(|r.0|) + ShortestItems(r.0) + 1 + Ink(r.1) <= Ink(t)
    decreases |t|, 2
  {
    var v := ReadValue(t).value;
    ReadValueInk(t);
    if v.1[0] == ',' {
      ReadItemsInk(v.1[1..]);
      var tail := ReadItems(v.1[1..]).value;
      assert ([v.0] + tail.0)[1..] == tail.0;
    } else {
      assert [v.0][1..] == [];
    }
  }

  lemma ReadKeyInk(t: string)
    requires ReadKey(t).Some?
    ensures var k := ReadKey(t).value; Ink(Escape(k.0)) + 3 + Ink(k.1) <= Ink(t)
  {
    var k := ReadChars(t[1..]).value;
    ReadCharsInk(t[1..]);
    SkipInk(k.1);
  }

  lemma {:induction false} ReadMembersInk(t: string)
    requires ReadMembers(t).Some?
    ensures var r := ReadMembers(t).value;
            r.0 != [] && Commas(|r.0|) + ShortestMembers(r.0) + 1 + Ink(r.1) <= Ink(t)
    decreases |t|, 2
  {
    var k := ReadKey(Skip(t)).value;
    var v := ReadValue(k.1).value;
    var m := (k.0, v.0);
    SkipInk(t);
    ReadKeyInk(Skip(t));
    ReadValueInk(k.1);
    if v.1[0] == ',' {
      ReadMembersInk(v.1[1..]);
      var tail := ReadMembers(v.1[1..]).value;
      assert ([m] + tail.0)[1..] == tail.0;
    } else {
      assert [m][1..] == [];
    }
  }

  function TotalInk(texts: seq<string>): nat {
    if texts == [] then 0 else Ink(texts[0]) + TotalInk(texts[1..])
  }

  lemma {:induction false} JoinInk(texts: seq<string>)
    ensures Ink(Join(texts)) == Commas(|texts|) + TotalInk(texts)
  {
    if |texts| > 1 {
      JoinInk(texts[1..]);
      InkConcat(texts[0] + ",", Join(texts[1..]));
      InkConcat(texts[0], ",");
    } else if |texts| == 1 {
      assert texts[1..] == [];
    }
  }

  lemma FramedInk(left: string, body: string, right: string)
    requires |left| == 1 && |right| == 1 && !IsWhite(left[0]) && !IsWhite(right[0])
    ensures Ink(left + body + right) == Ink(body) + 2
  {
    InkConcat(left + body, right);
    InkConcat(left, body);
    InkOfInk(left, 1);
    InkOfInk(right, 1);
  }
}
