/** `json_brace_depth`: a scanner that counts open braces outside JSON strings. */
module BraceScan {
  import opened Json

  datatype Scan = Scan(depth: int, inString: bool, escaped: bool)

  const START := Scan(0, false, false)

  function ScanChar(s: Scan, c: char): Scan {
    if s.escaped then s.(escaped := false)
    else if c == '\\' && s.inString then s.(escaped := true)
    else if c == '"' then s.(inString := !s.inString)
    else if s.inString then s
    else if c == '{' then s.(depth := s.depth + 1)
    else if c == '}' then s.(depth := s.depth - 1)
    else s
  }

  function ScanFrom(s: Scan, text: string): Scan
    decreases |text|
  {
    if text == "" then s else ScanFrom(ScanChar(s, text[0]), text[1..])
  }

  function BraceDepth(text: string): int {
    ScanFrom(START, text).depth
  }

  method JsonBraceDepth(text: string) returns (depth: int)
    ensures depth == BraceDepth(text)
  {
    depth := 0;
    var inString, escaped := false, false;
    for i := 0 to |text|
      invariant ScanFrom(START, text) == ScanFrom(Scan(depth, inString, escaped), text[i..])
    {
      var c := text[i];
      assert text[i..][1..] == text[i + 1..];
      if escaped {
        escaped := false;
        continue;
      }
      if c == '\\' && inString {
        escaped := true;
        continue;
      }
      if c == '"' {
        inString := !inString;
        continue;
      }
      if !inString {
        if c == '{' {
          depth := depth + 1;
        } else if c == '}' {
          depth := depth - 1;
        }
      }
    }
  }

  lemma {:induction false} ScanConcat(s: Scan, a: string, b: string)
    ensures ScanFrom(s, a + b) == ScanFrom(ScanFrom(s, a), b)
    decreases |a|
  {
    if a == "" {
      assert a + b == b;
    } else {
      assert (a + b)[1..] == a[1..] + b;
      ScanConcat(ScanChar(s, a[0]), a[1..], b);
    }
  }

  lemma {:induction false} ScanPlain(depth: int, text: string)
    requires '"' !in text && '\\' !in text
    ensures ScanFrom(Scan(depth, true, false), text) == Scan(depth, true, false)
  {
    if text != "" {
      ScanPlain(depth, text[1..]);
    }
  }

  lemma ScanEscapedChar(depth: int, c: char)
    ensures ScanFrom(Scan(depth, true, false), EscapeChar(c)) == Scan(depth, true, false)
  {
    var e := EscapeChar(c);
    if |e| == 1 {
      ScanPlain(depth, e);
    } else {
      assert e[1..][1..] == e[2..];
      ScanPlain(depth, e[2..]);
    }
  }

  /** An escaped text never leaves a string, and never stops in the middle of an escape. */
  lemma {:induction false} ScanEscaped(depth: int, text: string)
    ensures ScanFrom(Scan(depth, true, false), Escape(text)) == Scan(depth, true, false)
  {
    if text != "" {
      ScanConcat(Scan(depth, true, false), EscapeChar(text[0]), Escape(text[1..]));
      ScanEscapedChar(depth, text[0]);
      ScanEscaped(depth, text[1..]);
    }
  }

  /** A quoted and escaped text, as a key or a value, leaves the scanner where it was. */
  lemma ScanQuoted(depth: int, text: string)
    ensures ScanFrom(Scan(depth, false, false), "\"" + Escape(text)) == Scan(depth, true, false)
    ensures ScanFrom(Scan(depth, false, false), "\"" + Escape(text) + "\"") == Scan(depth, false, false)
  {
    var s := Scan(depth, false, false);
    ScanConcat(s, "\"", Escape(text));
    ScanEscaped(depth, text);
    ScanConcat(s, "\"" + Escape(text), "\"");
  }

  // ---------- The scanner on whatever the reader accepts ----------

  /** The scanner outside strings. */
  function Plain(depth: int): Scan {
    Scan(depth, false, false)
  }

  lemma {:induction false} ScanSkip(depth: int, t: string)
    ensures ScanFrom(Plain(depth), t) == ScanFrom(Plain(depth), Skip(t))
  {
    if t != "" {
      ScanSkip(depth, t[1..]);
    }
  }

  lemma {:induction false} ScanScalar(depth: int, t: string)
    ensures ScanFrom(Plain(depth), t) == ScanFrom(Plain(depth), t[ScalarSpan(t)..])
  {
    if t != "" && IsScalarChar(t[0]) {
      ScanScalar(depth, t[1..]);
      assert t[1..][ScalarSpan(t[1..])..] == t[ScalarSpan(t)..];
    } else {
      assert t[0..] == t;
    }
  }

  lemma ScanFourPlain(depth: int, t: string)
    requires |t| >= 4 && forall i :: 0 <= i < 4 ==> t[i] != '"' && t[i] != '\\'
    ensures ScanFrom(Scan(depth, true, false), t) == ScanFrom(Scan(depth, true, false), t[4..])
  {
    ScanPlain(depth, t[..4]);
    ScanConcat(Scan(depth, true, false), t[..4], t[4..]);
    assert t[..4] + t[4..] == t;
  }

  lemma ScanQuad(depth: int, t: string)
    requires |t| >= 6 && t[0] == '\\' && t[1] == 'u' && HexQuad(t[2..6]).Some?
    ensures ScanFrom(Scan(depth, true, false), t) == ScanFrom(Scan(depth, true, false), t[6..])
  {
    var s := Scan(depth, true, false);
    assert t[2..6] == [t[2], t[3], t[4], t[5]];
    assert t[1..][1..] == t[2..];
    assert ScanFrom(s, t) == ScanFrom(s, t[2..]);
    ScanFourPlain(depth, t[2..]);
    assert t[2..][4..] == t[6..];
  }

  lemma ScanUnit(depth: int, t: string)
    requires ReadUnit(t).Some?
    ensures ScanFrom(Scan(depth, true, false), t) == ScanFrom(Scan(depth, true, false), ReadUnit(t).value.1)
  {
    if t[0] == '\\' {
      assert t[1..][1..] == t[2..];
      if t[1] == 'u' {
        ScanQuad(depth, t);
        if StartsLowSurrogate(t[6..]) {
          ScanQuad(depth, t[6..]);
        }
      }
    }
  }

  lemma {:induction false} ScanChars(depth: int, t: string)
    requires ReadChars(t).Some?
    ensures ScanFrom(Scan(depth, true, false), t) == ScanFrom(Plain(depth), ReadChars(t).value.1)
    decreases |t|
  {
    if t[0] != '"' {
      ScanUnit(depth, t);
      ScanChars(depth, ReadUnit(t).value.1);
    }
  }

  /** A value, whatever stands behind it, leaves the scanner as it was: outside strings, at the same depth. */
  lemma {:induction false} ScanValue(depth: int, t: string)
    requires ReadValue(t).Some?
    ensures ScanFrom(Plain(depth), t) == ScanFrom(Plain(depth), ReadValue(t).value.1)
    decreases |t|, 1
  {
    ScanSkip(depth, t);
    ScanToken(depth, Skip(t));
    ScanSkip(depth, ReadToken(Skip(t)).value.1);
  }

  lemma {:induction false} ScanToken(depth: int, t: string)
    requires ReadToken(t).Some?
    ensures ScanFrom(Plain(depth), t) == ScanFrom(Plain(depth), ReadToken(t).value.1)
    decreases |t|, 0
  {
    var body := Skip(t[1..]);
    if t[0] == '"' {
      ScanChars(depth, t[1..]);
    } else if t[0] == '[' {
      ScanSkip(depth, t[1..]);
      if body[0] != ']' {
        ScanItems(depth, body);
      }
    } else if t[0] == '{' {
      ScanSkip(depth + 1, t[1..]);
      if body[0] != '}' {
        ScanMembers(depth + 1, body);
      }
    } else {
      ScanScalar(depth, t);
    }
  }

  lemma {:induction false} ScanItems(depth: int, t: string)
    requires ReadItems(t).Some?
    ensures ScanFrom(Plain(depth), t) == ScanFrom(Plain(depth), ReadItems(t).value.1)
    decreases |t|, 2
  {
    var after := ReadValue(t).value.1;
    ScanValue(depth, t);
    if after[0] == ',' {
      ScanItems(depth, after[1..]);
    }
  }

  lemma ScanReadKey(depth: int, t: string)
    requires ReadKey(t).Some?
    ensures ScanFrom(Plain(depth), t) == ScanFrom(Plain(depth), ReadKey(t).value.1)
  {
    ScanChars(depth, t[1..]);
    ScanSkip(depth, ReadChars(t[1..]).value.1);
  }

  lemma {:induction false} ScanMembers(depth: int, t: string)
    requires ReadMembers(t).Some?
    ensures ScanFrom(Plain(depth), t) == ScanFrom(Plain(depth - 1), ReadMembers(t).value.1)
    decreases |t|, 2
  {
    var k := ReadKey(Skip(t)).value;
    var after := ReadValue(k.1).value.1;
    ScanSkip(depth, t);
    ScanReadKey(depth, Skip(t));
    ScanValue(depth, k.1);
    if after[0] == ',' {
      ScanMembers(depth, after[1..]);
    }
  }

  /** A complete JSON document leaves the scanner where it was. */
  lemma ScanDocument(depth: int, t: string)
    requires ReadDocument(t).Some?
    ensures ScanFrom(Plain(depth), t) == Plain(depth)
  {
    ScanValue(depth, t);
  }
}
