/**
 The JSON text the chat pipeline writes, and an independent reader for it.

 Escaping follows section 7 of RFC 8259 in the form `dump()` produces: two-character
 escapes where they exist, lower-case `\u00xx` for the other control characters, every other
 character as it is. The reader accepts white space between tokens and every escape of that
 section, with surrogate pairs as one character.
 */
module Json {
  import opened Base

  // ---------- Escaping ----------

  const HEX_DIGITS := "0123456789abcdef"

  function EscapeChar(c: char): string {
    if c == '"' then "\\\""
    else if c == '\\' then "\\\\"
    else if c as int == 8 then "\\b"
    else if c as int == 12 then "\\f"
    else if c == '\n' then "\\n"
    else if c == '\r' then "\\r"
    else if c == '\t' then "\\t"
    else if c as int < 0x20 then "\\u00" + [HEX_DIGITS[c as int / 16], HEX_DIGITS[c as int % 16]]
    else [c]
  }

  function Escape(s: string): string {
    if s == "" then "" else EscapeChar(s[0]) + Escape(s[1..])
  }

  lemma {:induction false} EscapeConcat(s: string, t: string)
    ensures Escape(s + t) == Escape(s) + Escape(t)
  {
    if s == "" {
      assert s + t == t;
    } else {
      assert (s + t)[1..] == s[1..] + t;
      EscapeConcat(s[1..], t);
    }
  }

  /** A longer string never has an escape that drops part of the shorter one's. */
  lemma {:induction false} EscapeMonotone(s: string, t: string)
    requires s <= t
    ensures Escape(s) <= Escape(t)
  {
    EscapeConcat(s, t[|s|..]);
    assert t == s + t[|s|..];
  }

  /** What stands for each character, as the serializer of the original spells it. */
  lemma EscapeSpelled(c: char)
    ensures EscapeChar('"') == "\\\"" && EscapeChar('\\') == "\\\\"
    ensures EscapeChar('\n') == "\\n" && EscapeChar('\r') == "\\r" && EscapeChar('\t') == "\\t"
    ensures EscapeChar(8 as char) == "\\b" && EscapeChar(12 as char) == "\\f"
    ensures 0x20 <= c as int && c != '"' && c != '\\' ==> EscapeChar(c) == [c]
  {
  }

  /** Every other control character is spelled with its code, in lower case. */
  lemma ControlSpelled(c: char)
    requires c as int < 0x20 && c !in "\n\r\t" && c as int != 8 && c as int != 12
    ensures |EscapeChar(c)| == 6 && EscapeChar(c)[..2] == "\\u"
    ensures HexQuad(EscapeChar(c)[2..]) == Some(c as int)
    ensures forall i :: 2 <= i < 6 ==> !('A' <= EscapeChar(c)[i] <= 'F')
  {
  }

  // ---------- Reading ----------

  function HexQuad(t: string): (r: Option<nat>)
    requires |t| == 4
    ensures r.Some? ==> r.value < 0x10000
  {
    var a, b, c, d := HexDigit(t[0]), HexDigit(t[1]), HexDigit(t[2]), HexDigit(t[3]);
    if a.None? || b.None? || c.None? || d.None? then None
    else Some(((a.value * 16 + b.value) * 16 + c.value) * 16 + d.value)
  }

  /** The second half of a surrogate pair. */
  predicate StartsLowSurrogate(t: string) {
    |t| >= 6 && t[0] == '\\' && t[1] == 'u' && HexQuad(t[2..6]).Some? && 0xDC00 <= HexQuad(t[2..6]).value < 0xE000
  }

  /** Reads `\uXXXX`, or two of them where the first one is the first half of a surrogate pair. */
  function ReadCodePoint(t: string): (r: Option<(char, string)>)
    requires |t| >= 6
    ensures r.Some? ==> |r.value.1| + 6 <= |t|
  {
    var high := HexQuad(t[2..6]);
    if high.None? then None
    else if high.value < 0xD800 || 0xE000 <= high.value then Some((high.value as char, t[6..]))
    else if high.value < 0xDC00 && StartsLowSurrogate(t[6..]) then
      var low := HexQuad(t[6..][2..6]).value;
      Some(((0x10000 + (high.value - 0xD800) * 0x400 + (low - 0xDC00)) as char, t[6..][6..]))
    else None
  }

  /** Reads one character, plain or escaped, of a string body. */
  function ReadUnit(t: string): (r: Option<(char, string)>)
    ensures r.Some? ==> |r.value.1| < |t|
  {
    if t == "" || t[0] == '"' || t[0] as int < 0x20 then None
    else if t[0] != '\\' then Some((t[0], t[1..]))
    else if |t| < 2 then None
    else
      var e := t[1];
      if e == '"' || e == '\\' || e == '/' then Some((e, t[2..]))
      else if e == 'b' then Some((8 as char, t[2..]))
      else if e == 'f' then Some((12 as char, t[2..]))
      else if e == 'n' then Some(('\n', t[2..]))
      else if e == 'r' then Some(('\r', t[2..]))
      else if e == 't' then Some(('\t', t[2..]))
      else if e == 'u' && |t| >= 6 then ReadCodePoint(t)
      else None
  }

  /** Reads a string body up to and including its closing quote. */
  function ReadChars(t: string): (r: Option<(string, string)>)
    ensures r.Some? ==> |r.value.1| < |t|
    decreases |t|
  {
    if t != "" && t[0] == '"' then Some(("", t[1..]))
    else
      var u := ReadUnit(t);
      if u.None? then None
      else
        var tail := ReadChars(u.value.1);
        if tail.None? then None else Some(([u.value.0] + tail.value.0, tail.value.1))
  }

  /** JSON values. A scalar is kept as its literal text: a number, `true`, `false` or `null`. */
  datatype Json =
    | Str(text: string)
    | Scalar(literal: string)
    | Arr(items: seq<Json>)
    | Obj(members: seq<(string, Json)>)

  predicate IsScalarChar(c: char) {
    'a' <= c <= 'z' || 'A' <= c <= 'Z' || '0' <= c <= '9' || c == '+' || c == '-' || c == '.'
  }

  predicate IsScalar(s: string) {
    s != "" && forall c :: c in s ==> IsScalarChar(c)
  }

  /** Length of the longest prefix made of scalar characters. */
  function ScalarSpan(t: string): (n: nat)
    ensures n <= |t|
    ensures forall i :: 0 <= i < n ==> IsScalarChar(t[i])
    ensures n < |t| ==> !IsScalarChar(t[n])
  {
    if t == "" || !IsScalarChar(t[0]) then 0 else 1 + ScalarSpan(t[1..])
  }

  predicate IsWhite(c: char) {
    c == ' ' || c == '\t' || c == '\n' || c == '\r'
  }

  function Skip(t: string): (r: string)
    ensures |r| <= |t|
    ensures r != "" ==> !IsWhite(r[0])
  {
    if t != "" && IsWhite(t[0]) then Skip(t[1..]) else t
  }

  /** Reads a value and the white space around it. */
  function ReadValue(t: string): (r: Option<(Json, string)>)
    ensures r.Some? ==> |r.value.1| < |t|
    decreases |t|, 1
  {
    var v := ReadToken(Skip(t));
    if v.None? then None else Some((v.value.0, Skip(v.value.1)))
  }

  function ReadToken(t: string): (r: Option<(Json, string)>)
    ensures r.Some? ==> |r.value.1| < |t|
    decreases |t|, 0
  {
    if t == "" then None
    else if t[0] == '"' then
      var s := ReadChars(t[1..]);
      if s.None? then None else Some((Str(s.value.0), s.value.1))
    else if t[0] == '[' then
      var body := Skip(t[1..]);
      if body != "" && body[0] == ']' then Some((Arr([]), body[1..]))
      else
        var items := ReadItems(body);
        if items.None? then None else Some((Arr(items.value.0), items.value.1))
    else if t[0] == '{' then
      var body := Skip(t[1..]);
      if body != "" && body[0] == '}' then Some((Obj([]), body[1..]))
      else
        var members := ReadMembers(body);
        if members.None? then None else Some((Obj(members.value.0), members.value.1))
    else
      var n := ScalarSpan(t);
      if n == 0 then None else Some((Scalar(t[..n]), t[n..]))
  }

  /** Reads `value (, value)* ]`. */
  function ReadItems(t: string): (r: Option<(seq<Json>, string)>)
    ensures r.Some? ==> |r.value.1| < |t|
    decreases |t|, 2
  {
    var v := ReadValue(t);
    if v.None? then None else AfterItem(v.value.0, v.value.1)
  }

  function AfterItem(v: Json, t: string): (r: Option<(seq<Json>, string)>)
    ensures r.Some? ==> |r.value.1| < |t|
    decreases |t|, 3
  {
    if t == "" then None
    else if t[0] == ']' then Some(([v], t[1..]))
    else if t[0] != ',' then None
    else
      var tail := ReadItems(t[1..]);
      if tail.None? then None else Some(([v] + tail.value.0, tail.value.1))
  }

  /** Reads `key :`. */
  function ReadKey(t: string): (r: Option<(string, string)>)
    ensures r.Some? ==> |r.value.1| < |t|
  {
    if t == "" || t[0] != '"' then None
    else
      var k := ReadChars(t[1..]);
      if k.None? then None
      else
        var colon := Skip(k.value.1);
        if colon == "" || colon[0] != ':' then None else Some((k.value.0, colon[1..]))
  }

  /** Reads `key : value (, key : value)* }`. */
  function ReadMembers(t: string): (r: Option<(seq<(string, Json)>, string)>)
    ensures r.Some? ==> |r.value.1| < |t|
    decreases |t|, 2
  {
    var k := ReadKey(Skip(t));
    if k.None? then None
    else
      var v := ReadValue(k.value.1);
      if v.None? then None else AfterMember((k.value.0, v.value.0), v.value.1)
  }

  function AfterMember(m: (string, Json), t: string): (r: Option<(seq<(string, Json)>, string)>)
    ensures r.Some? ==> |r.value.1| < |t|
    decreases |t|, 3
  {
    if t == "" then None
    else if t[0] == '}' then Some(([m], t[1..]))
    else if t[0] != ',' then None
    else
      var tail := ReadMembers(t[1..]);
      if tail.None? then None else Some(([m] + tail.value.0, tail.value.1))
  }

  /** A whole text is a document when it is one value with nothing after it. */
  function ReadDocument(t: string): Option<Json> {
    var v := ReadValue(t);
    if v.Some? && v.value.1 == "" then Some(v.value.0) else None
  }

  // ---------- The reader undoes the escaping ----------

  lemma ReadUnitOfEscape(c: char, rest: string)
    ensures ReadUnit(EscapeChar(c) + rest) == Some((c, rest))
  {
    var t := EscapeChar(c) + rest;
    if |EscapeChar(c)| == 6 {
      assert t[2..6] == "00" + [HEX_DIGITS[c as int / 16], HEX_DIGITS[c as int % 16]];
      assert t[6..] == rest;
    } else if |EscapeChar(c)| == 2 {
      assert t[2..] == rest;
    } else {
      assert t[1..] == rest;
    }
  }

  lemma ReadCharsStep(c: char, tail: string)
    requires ReadChars(tail).Some?
    ensures var r := ReadChars(tail).value;
            ReadChars(EscapeChar(c) + tail) == Some(([c] + r.0, r.1))
  {
    ReadUnitOfEscape(c, tail);
    assert (EscapeChar(c) + tail)[0] == EscapeChar(c)[0];
  }

  lemma {:induction false} ReadCharsOfEscape(s: string, rest: string)
    ensures ReadChars(Escape(s) + "\"" + rest) == Some((s, rest))
  {
    if s == "" {
      assert Escape(s) + "\"" + rest == "\"" + rest;
    } else {
      var tail := Escape(s[1..]) + "\"" + rest;
      assert Escape(s) + "\"" + rest == EscapeChar(s[0]) + tail;
      ReadCharsOfEscape(s[1..], rest);
      ReadCharsStep(s[0], tail);
      assert [s[0]] + s[1..] == s;
    }
  }

  lemma SameFirstEscape(c: char, x: string, d: char, y: string)
    requires EscapeChar(c) + x == EscapeChar(d) + y
    ensures c == d && x == y
  {
    ReadUnitOfEscape(c, x);
    ReadUnitOfEscape(d, y);
  }

  lemma AfterPrefix(head: string, tail: string, t: string) returns (rest: string)
    requires head + tail <= t
    ensures t == head + (tail + rest)
  {
    rest := t[|head + tail|..];
  }

  lemma {:induction false} EscapesNest(s: string, t: string)
    requires Escape(s) <= Escape(t)
    ensures s <= t
    decreases |s|
  {
    if s != "" {
      var rest := AfterPrefix(EscapeChar(s[0]), Escape(s[1..]), Escape(t));
      assert t != "";
      SameFirstEscape(s[0], Escape(s[1..]) + rest, t[0], Escape(t[1..]));
      EscapesNest(s[1..], t[1..]);
      HeadAndTail(s);
      HeadAndTail(t);
    }
  }

  /** Escaping is a prefix code: one escaped text starts another exactly when the texts do. */
  lemma EscapePrefixIff(s: string, t: string)
    ensures Escape(s) <= Escape(t) <==> s <= t
  {
    if s <= t {
      EscapeMonotone(s, t);
    }
    if Escape(s) <= Escape(t) {
      EscapesNest(s, t);
    }
  }

  // ---------- The reader on texts put together from parts ----------

  /** What may follow a value inside a document. */
  predicate Delimited(rest: string) {
    rest == "" || rest[0] == ',' || rest[0] == ']' || rest[0] == '}'
  }

  /** The text is read as the value, wherever a value may stand. */
  ghost predicate Reads(part: string, v: Json) {
    forall rest {:trigger Delimited(rest)} :: Delimited(rest) ==> ReadValue(part + rest) == Some((v, rest))
  }

  function Quoted(s: string): string {
    "\"" + Escape(s) + "\""
  }

  function Join(parts: seq<string>): string {
    if parts == [] then ""
    else if |parts| == 1 then parts[0]
    else parts[0] + "," + Join(parts[1..])
  }

  lemma {:induction false} JoinAppend(parts: seq<string>, part: string)
    ensures Join(parts + [part]) == Join(parts) + (if parts == [] then "" else ",") + part
  {
    if |parts| >= 1 {
      JoinAppend(parts[1..], part);
      assert (parts + [part])[1..] == parts[1..] + [part];
    }
  }

  lemma ReadStringStep(body: string, s: string, rest: string)
    requires ReadChars(body) == Some((s, rest)) && Delimited(rest)
    ensures ReadValue("\"" + body) == Some((Str(s), rest))
  {
    assert ("\"" + body)[1..] == body;
  }

  lemma QuoteAssociative(body: string, rest: string)
    ensures "\"" + body + "\"" + rest == "\"" + (body + "\"" + rest)
  {
  }

  lemma ReadsString(s: string)
    ensures Reads(Quoted(s), Str(s))
  {
    forall rest | Delimited(rest)
      ensures ReadValue(Quoted(s) + rest) == Some((Str(s), rest))
    {
      ReadCharsOfEscape(s, rest);
      ReadStringStep(Escape(s) + "\"" + rest, s, rest);
      QuoteAssociative(Escape(s), rest);
    }
  }

  lemma {:induction false} ScalarSpanOf(s: string, rest: string)
    requires (forall c :: c in s ==> IsScalarChar(c)) && (rest != "" ==> !IsScalarChar(rest[0]))
    ensures ScalarSpan(s + rest) == |s|
  {
    if s == "" {
      assert s + rest == rest;
    } else {
      assert (s + rest)[1..] == s[1..] + rest;
      ScalarSpanOf(s[1..], rest);
    }
  }

  lemma {:induction false} SkipsWhite(space: string, rest: string)
    requires (forall c :: c in space ==> IsWhite(c)) && Delimited(rest)
    ensures Skip(space + rest) == rest
  {
    if space == "" {
      assert space + rest == rest;
    } else {
      assert (space + rest)[1..] == space[1..] + rest;
      SkipsWhite(space[1..], rest);
    }
  }

  lemma ReadScalarStep(s: string, rest: string)
    requires IsScalar(s) && (rest != "" ==> !IsScalarChar(rest[0]))
    ensures ReadValue(s + rest) == Some((Scalar(s), Skip(rest)))
  {
    ScalarSpanOf(s, rest);
    assert IsScalarChar(s[0]) && (s + rest)[0] == s[0];
    assert (s + rest)[..|s|] == s && (s + rest)[|s|..] == rest;
  }

  /** A scalar with white space behind it. */
  lemma ReadsScalar(s: string, space: string)
    requires IsScalar(s) && forall c :: c in space ==> IsWhite(c)
    ensures Reads(s + space, Scalar(s))
  {
    forall rest | Delimited(rest)
      ensures ReadValue(s + space + rest) == Some((Scalar(s), rest))
    {
      Associative(s, space, rest);
      SkipsWhite(space, rest);
      ReadScalarStep(s, space + rest);
    }
  }

  lemma BracketAssociative(left: string, body: string, right: string, rest: string)
    ensures left + body + right + rest == left + (body + (right + rest))
  {
  }

  lemma JoinHead(parts: seq<string>, end: string)
    requires |parts| > 1
    ensures Join(parts) + end == parts[0] + ("," + (Join(parts[1..]) + end))
  {
  }

  lemma HeadAndTail<T>(s: seq<T>)
    requires s != []
    ensures s == [s[0]] + s[1..]
  {
  }

  lemma ReadItemStep(part: string, v: Json, after: string)
    requires Reads(part, v) && Delimited(after)
    ensures ReadItems(part + after) == AfterItem(v, after)
  {
    assert ReadValue(part + after) == Some((v, after));
  }

  lemma AfterItemStep(v: Json, body: string, vals: seq<Json>, rest: string)
    ensures AfterItem(v, "]" + rest) == Some(([v], rest))
    ensures ReadItems(body) == Some((vals, rest)) ==> AfterItem(v, "," + body) == Some(([v] + vals, rest))
  {
    assert ("]" + rest)[1..] == rest && ("," + body)[1..] == body;
  }

  lemma {:induction false} ReadJoinedItems(parts: seq<string>, vals: seq<Json>, rest: string)
    requires |parts| == |vals| > 0
    requires forall i :: 0 <= i < |parts| ==> Reads(parts[i], vals[i])
    ensures ReadItems(Join(parts) + ("]" + rest)) == Some((vals, rest))
    decreases |parts|
  {
    var part, v, end := parts[0], vals[0], "]" + rest;
    if |parts| == 1 {
      ReadItemStep(part, v, end);
      AfterItemStep(v, "", [], rest);
      assert vals == [v];
    } else {
      var body := Join(parts[1..]) + end;
      ReadJoinedItems(parts[1..], vals[1..], rest);
      ReadItemStep(part, v, "," + body);
      AfterItemStep(v, body, vals[1..], rest);
      JoinHead(parts, end);
      HeadAndTail(vals);
    }
  }

  lemma ReadEmptyArray(rest: string)
    requires Delimited(rest)
    ensures ReadValue("[" + ("" + ("]" + rest))) == Some((Arr([]), rest))
  {
    var t, body := "[" + ("" + ("]" + rest)), "]" + rest;
    assert t[1..] == body && body[1..] == rest;
    assert Skip(t) == t && Skip(body) == body && Skip(rest) == rest;
    assert ReadToken(t) == Some((Arr([]), rest));
  }

  /** What is read as items does not start like the end of the array. */
  lemma ItemsStart(body: string)
    requires ReadItems(body).Some?
    ensures Skip(body) != "" && Skip(body)[0] != ']'
    ensures ReadItems(Skip(body)) == ReadItems(body)
  {
    var start := Skip(body);
    assert Skip(start) == start;
    assert ReadValue(start) == ReadValue(body);
    assert ReadToken(start).Some?;
    assert start[0] == ']' ==> ScalarSpan(start) == 0;
  }

  lemma ReadArrayStep(body: string, vals: seq<Json>, rest: string)
    requires ReadItems(body) == Some((vals, rest)) && Delimited(rest)
    ensures ReadValue("[" + body) == Some((Arr(vals), rest))
  {
    ItemsStart(body);
    assert ("[" + body)[1..] == body;
  }

  lemma ReadsArray(parts: seq<string>, vals: seq<Json>)
    requires |parts| == |vals|
    requires forall i :: 0 <= i < |parts| ==> Reads(parts[i], vals[i])
    ensures Reads("[" + Join(parts) + "]", Arr(vals))
  {
    forall rest | Delimited(rest)
      ensures ReadValue("[" + Join(parts) + "]" + rest) == Some((Arr(vals), rest))
    {
      var body := Join(parts) + ("]" + rest);
      BracketAssociative("[", Join(parts), "]", rest);
      if parts == [] {
        ReadEmptyArray(rest);
      } else {
        ReadJoinedItems(parts, vals, rest);
        ReadArrayStep(body, vals, rest);
      }
    }
  }

  function KeyColon(key: string): string {
    Quoted(key) + ":"
  }

  /** No written key with its colon starts another one. */
  lemma KeysAreApart(k: string, l: string)
    requires KeyColon(k) <= KeyColon(l)
    ensures k == l
  {
    var more := KeyColon(l)[|KeyColon(k)|..];
    assert KeyColon(k) + more == KeyColon(l);
    SplitKey(Escape(k), more);
    SplitKey(Escape(l), "");
    assert KeyColon(l) + "" == KeyColon(l);
    ReadCharsOfEscape(k, ":" + more);
    ReadCharsOfEscape(l, ":" + "");
  }

  lemma SplitKey(key: string, more: string)
    ensures ("\"" + key + "\"" + ":" + more)[1..] == key + "\"" + (":" + more)
  {
  }

  function MemberText(key: string, part: string): string {
    KeyColon(key) + part
  }

  /** The text is read as the member, wherever a member may stand. */
  ghost predicate ReadsMember(text: string, m: (string, Json)) {
    && text != ""
    && text[0] == '"'
    && forall tail {:trigger Delimited(tail)} :: Delimited(tail) ==> ReadMembers(text + tail) == AfterMember(m, tail)
  }

  lemma SplitMember(key: string, part: string, tail: string)
    ensures var t := "\"" + key + "\"" + ":" + part + tail;
            t[0] == '"' && t[1..] == key + "\"" + (":" + (part + tail))
  {
  }

  lemma ReadMembersStep(t: string, k: string, afterKey: string, v: Json, tail: string)
    requires t != "" && t[0] == '"' && ReadChars(t[1..]) == Some((k, ":" + afterKey))
    requires ReadValue(afterKey) == Some((v, tail))
    ensures ReadMembers(t) == AfterMember((k, v), tail)
  {
    assert (":" + afterKey)[1..] == afterKey;
  }

  lemma MemberReads(k: string, part: string, v: Json)
    requires Reads(part, v)
    ensures ReadsMember(MemberText(k, part), (k, v))
  {
    forall tail | Delimited(tail)
      ensures ReadMembers(MemberText(k, part) + tail) == AfterMember((k, v), tail)
    {
      assert ReadValue(part + tail) == Some((v, tail));
      SplitMember(Escape(k), part, tail);
      ReadCharsOfEscape(k, ":" + (part + tail));
      ReadMembersStep(MemberText(k, part) + tail, k, part + tail, v, tail);
    }
  }

  lemma AfterMemberStep(m: (string, Json), body: string, members: seq<(string, Json)>, rest: string)
    ensures AfterMember(m, "}" + rest) == Some(([m], rest))
    ensures ReadMembers(body) == Some((members, rest)) ==> AfterMember(m, "," + body) == Some(([m] + members, rest))
  {
    assert ("}" + rest)[1..] == rest && ("," + body)[1..] == body;
  }

  lemma {:induction false} ReadJoinedMembers(texts: seq<string>, members: seq<(string, Json)>, rest: string)
    requires |texts| == |members| > 0
    requires forall i :: 0 <= i < |texts| ==> ReadsMember(texts[i], members[i])
    ensures ReadMembers(Join(texts) + ("}" + rest)) == Some((members, rest))
    decreases |texts|
  {
    var text, m, end := texts[0], members[0], "}" + rest;
    assert ReadsMember(text, m);
    if |texts| == 1 {
      assert Delimited(end);
      AfterMemberStep(m, "", [], rest);
      assert members == [m];
    } else {
      var body := Join(texts[1..]) + end;
      ReadJoinedMembers(texts[1..], members[1..], rest);
      assert Delimited("," + body);
      AfterMemberStep(m, body, members[1..], rest);
      JoinHead(texts, end);
      HeadAndTail(members);
    }
  }

  lemma ReadEmptyObject(rest: string)
    requires Delimited(rest)
    ensures ReadValue("{" + ("" + ("}" + rest))) == Some((Obj([]), rest))
  {
    var t, body := "{" + ("" + ("}" + rest)), "}" + rest;
    assert t[1..] == body && body[1..] == rest;
    assert Skip(t) == t && Skip(body) == body && Skip(rest) == rest;
    assert ReadToken(t) == Some((Obj([]), rest));
  }

  lemma ReadObjectStep(body: string, members: seq<(string, Json)>, rest: string)
    requires body != "" && body[0] == '"' && ReadMembers(body) == Some((members, rest)) && Delimited(rest)
    ensures ReadValue("{" + body) == Some((Obj(members), rest))
  {
    assert ("{" + body)[1..] == body;
  }

  lemma {:induction false} ReadsObject(texts: seq<string>, members: seq<(string, Json)>)
    requires |texts| == |members|
    requires forall i :: 0 <= i < |texts| ==> ReadsMember(texts[i], members[i])
    ensures Reads("{" + Join(texts) + "}", Obj(members))
  {
    forall rest | Delimited(rest)
      ensures ReadValue("{" + Join(texts) + "}" + rest) == Some((Obj(members), rest))
    {
      var body := Join(texts) + ("}" + rest);
      BracketAssociative("{", Join(texts), "}", rest);
      if texts == [] {
        ReadEmptyObject(rest);
      } else {
        ReadJoinedMembers(texts, members, rest);
        assert body[0] == texts[0][0] == '"';
        ReadObjectStep(body, members, rest);
      }
    }
  }

  lemma ReadsDocument(part: string, v: Json)
    requires Reads(part, v)
    ensures ReadDocument(part) == Some(v)
  {
    assert part + "" == part && Delimited("");
  }

  // ---------- Reading does not depend on what follows ----------

  lemma TailOf(t: string, rest: string)
    requires t != ""
    ensures (t + rest)[0] == t[0] && (t + rest)[1..] == t[1..] + rest
  {
  }

  lemma {:induction false} SkipContinues(t: string, rest: string)
    requires Delimited(rest)
    ensures Skip(t + rest) == Skip(t) + rest
  {
    if t == "" {
      assert t + rest == rest && Skip(t) + rest == rest;
    } else {
      TailOf(t, rest);
      SkipContinues(t[1..], rest);
    }
  }

  lemma ReadCodePointContinues(t: string, rest: string)
    requires |t| >= 6 && ReadCodePoint(t).Some?
    ensures ReadCodePoint(t + rest) == Some((ReadCodePoint(t).value.0, ReadCodePoint(t).value.1 + rest))
  {
    var more := t[6..];
    assert (t + rest)[2..6] == t[2..6] && (t + rest)[6..] == more + rest;
    if StartsLowSurrogate(more) {
      assert (more + rest)[2..6] == more[2..6] && (more + rest)[6..] == more[6..] + rest;
    }
  }

  lemma ReadUnitContinues(t: string, rest: string)
    requires ReadUnit(t).Some?
    ensures ReadUnit(t + rest) == Some((ReadUnit(t).value.0, ReadUnit(t).value.1 + rest))
  {
    TailOf(t, rest);
    if t[0] == '\\' {
      assert (t + rest)[2..] == t[2..] + rest;
      if t[1] == 'u' {
        ReadCodePointContinues(t, rest);
      }
    }
  }

  lemma {:induction false} ReadCharsContinues(t: string, rest: string)
    requires ReadChars(t).Some?
    ensures ReadChars(t + rest) == Some((ReadChars(t).value.0, ReadChars(t).value.1 + rest))
    decreases |t|
  {
    TailOf(t, rest);
    if t[0] != '"' {
      ReadUnitContinues(t, rest);
      ReadCharsContinues(ReadUnit(t).value.1, rest);
    }
  }

  lemma {:induction false} ScalarSpanContinues(t: string, rest: string)
    requires Delimited(rest)
    ensures ScalarSpan(t + rest) == ScalarSpan(t)
  {
    if t == "" {
      assert t + rest == rest;
    } else {
      TailOf(t, rest);
      ScalarSpanContinues(t[1..], rest);
    }
  }

  lemma {:induction false} ReadValueContinues(t: string, rest: string)
    requires ReadValue(t).Some? && Delimited(rest)
    ensures ReadValue(t + rest) == Some((ReadValue(t).value.0, ReadValue(t).value.1 + rest))
    decreases |t|, 1
  {
    SkipContinues(t, rest);
    ReadTokenContinues(Skip(t), rest);
    SkipContinues(ReadToken(Skip(t)).value.1, rest);
  }

  lemma ScalarContinues(t: string, rest: string)
    requires ScalarSpan(t) > 0 && Delimited(rest)
    ensures var n := ScalarSpan(t); (t + rest)[..n] == t[..n] && (t + rest)[n..] == t[n..] + rest
  {
  }

  lemma {:induction false} ReadTokenContinues(t: string, rest: string)
    requires ReadToken(t).Some? && Delimited(rest)
    ensures ReadToken(t + rest) == Some((ReadToken(t).value.0, ReadToken(t).value.1 + rest))
    decreases |t|, 0
  {
    TailOf(t, rest);
    if t[0] == '"' {
      ReadCharsContinues(t[1..], rest);
    } else if t[0] == '[' {
      SkipContinues(t[1..], rest);
      ReadArrayContinues(Skip(t[1..]), rest);
    } else if t[0] == '{' {
      SkipContinues(t[1..], rest);
      ReadObjectContinues(Skip(t[1..]), rest);
    } else {
      ScalarSpanContinues(t, rest);
      ScalarContinues(t, rest);
    }
  }

  lemma {:induction false} ReadArrayContinues(body: string, rest: string)
    requires body != "" && Delimited(rest) && (body[0] != ']' ==> ReadItems(body).Some?)
    ensures (body + rest)[0] == body[0] && (body + rest)[1..] == body[1..] + rest
    ensures body[0] != ']' ==> ReadItems(body + rest) == Some((ReadItems(body).value.0, ReadItems(body).value.1 + rest))
    decreases |body|, 3
  {
    TailOf(body, rest);
    if body[0] != ']' {
      ReadItemsContinues(body, rest);
    }
  }

  lemma {:induction false} ReadObjectContinues(body: string, rest: string)
    requires body != "" && Delimited(rest) && (body[0] != '}' ==> ReadMembers(body).Some?)
    ensures (body + rest)[0] == body[0] && (body + rest)[1..] == body[1..] + rest
    ensures body[0] != '}' ==> ReadMembers(body + rest) == Some((ReadMembers(body).value.0, ReadMembers(body).value.1 + rest))
    decreases |body|, 3
  {
    TailOf(body, rest);
    if body[0] != '}' {
      ReadMembersContinues(body, rest);
    }
  }

  lemma {:induction false} ReadItemsContinues(t: string, rest: string)
    requires ReadItems(t).Some? && Delimited(rest)
    ensures ReadItems(t + rest) == Some((ReadItems(t).value.0, ReadItems(t).value.1 + rest))
    decreases |t|, 2
  {
    var after := ReadValue(t).value.1;
    ReadValueContinues(t, rest);
    TailOf(after, rest);
    if after[0] == ',' {
      ReadItemsContinues(after[1..], rest);
    }
  }

  lemma ReadKeyContinues(t: string, rest: string)
    requires ReadKey(t).Some? && Delimited(rest)
    ensures ReadKey(t + rest) == Some((ReadKey(t).value.0, ReadKey(t).value.1 + rest))
  {
    var k := ReadChars(t[1..]).value;
    TailOf(t, rest);
    ReadCharsContinues(t[1..], rest);
    SkipContinues(k.1, rest);
    TailOf(Skip(k.1), rest);
  }

  lemma {:induction false} ReadMembersContinues(t: string, rest: string)
    requires ReadMembers(t).Some? && Delimited(rest)
    ensures ReadMembers(t + rest) == Some((ReadMembers(t).value.0, ReadMembers(t).value.1 + rest))
    decreases |t|, 2
  {
    var k := ReadKey(Skip(t)).value;
    var after := ReadValue(k.1).value.1;
    SkipContinues(t, rest);
    ReadKeyContinues(Skip(t), rest);
    ReadValueContinues(k.1, rest);
    TailOf(after, rest);
    if after[0] == ',' {
      ReadMembersContinues(after[1..], rest);
    }
  }

  /** A text that is a document by itself is read as the same value wherever a value may stand. */
  lemma DocumentReads(t: string)
    requires ReadDocument(t).Some?
    ensures Reads(t, ReadDocument(t).value)
  {
    forall rest | Delimited(rest)
      ensures ReadValue(t + rest) == Some((ReadDocument(t).value, rest))
    {
      ReadValueContinues(t, rest);
      assert "" + rest == rest;
    }
  }
}
