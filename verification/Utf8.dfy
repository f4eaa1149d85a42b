/**
 The line editor's own UTF-8 code: `append_utf8`, `decode_utf8` and the two functions that step
 over one character. Bit operations are written with division and remainder; the encoding is
 that of section 3 of RFC 3629 except that surrogate code points are encoded like any other.
 */
module Utf8 {
  import opened Base

  const MAX_CODE_POINT := 0x10FFFF

  type CodePoint = c: int | 0 <= c <= MAX_CODE_POINT

  /** `append_utf8`: nothing is appended for a value that is not a code point. */
  function Encode(ch: nat): seq<Byte> {
    if ch <= 0x7F then [ch]
    else if ch <= 0x7FF then [0xC0 + ch / 64 % 32, 0x80 + ch % 64]
    else if ch <= 0xFFFF then [0xE0 + ch / 4096 % 16, 0x80 + ch / 64 % 64, 0x80 + ch % 64]
    else if ch <= MAX_CODE_POINT then [0xF0 + ch / 262144 % 8, 0x80 + ch / 4096 % 64, 0x80 + ch / 64 % 64, 0x80 + ch % 64]
    else []
  }

  predicate IsContinuation(b: Byte) {
    0x80 <= b < 0xC0
  }

  const REPLACEMENT: CodePoint := 0xFFFD

  /** `decode_utf8`: the code point at a position, and how far to advance. */
  function Decode(input: seq<Byte>, pos: nat): (int, nat)
    requires pos < |input|
  {
    var c: int := input[pos];
    if c < 0x80 then (c, 1)
    else if 0xC0 <= c < 0xE0 && pos + 1 < |input| then
      if !IsContinuation(input[pos + 1]) then (REPLACEMENT, 1)
      else (c % 32 * 64 + Low6(input[pos + 1]), 2)
    else if 0xE0 <= c < 0xF0 && pos + 2 < |input| then
      if !IsContinuation(input[pos + 1]) || !IsContinuation(input[pos + 2]) then (REPLACEMENT, 1)
      else (c % 16 * 4096 + Low6(input[pos + 1]) * 64 + Low6(input[pos + 2]), 3)
    else if 0xF0 <= c < 0xF8 && pos + 3 < |input| then
      if !IsContinuation(input[pos + 1]) || !IsContinuation(input[pos + 2]) || !IsContinuation(input[pos + 3]) then (REPLACEMENT, 1)
      else (c % 8 * 262144 + Low6(input[pos + 1]) * 4096 + Low6(input[pos + 2]) * 64 + Low6(input[pos + 3]), 4)
    else (REPLACEMENT, 1)
  }

  function Low6(b: Byte): int {
    b % 64
  }

  function EncodeAll(text: seq<CodePoint>): seq<Byte> {
    if text == [] then [] else Encode(text[0]) + EncodeAll(text[1..])
  }

  /** The byte position of the k-th character. */
  function Offset(text: seq<CodePoint>, k: nat): nat
    requires k <= |text|
  {
    |EncodeAll(text[..k])|
  }

  lemma EncodeShape(ch: CodePoint)
    ensures 1 <= |Encode(ch)| <= 4
    ensures !IsContinuation(Encode(ch)[0])
    ensures forall i :: 1 <= i < |Encode(ch)| ==> IsContinuation(Encode(ch)[i])
  {
  }

  lemma {:induction false} EncodeAllConcat(a: seq<CodePoint>, b: seq<CodePoint>)
    ensures EncodeAll(a + b) == EncodeAll(a) + EncodeAll(b)
  {
    if a == [] {
      assert a + b == b;
    } else {
      assert (a + b)[1..] == a[1..] + b;
      EncodeAllConcat(a[1..], b);
    }
  }

  lemma Halves(a: seq<Byte>, b: seq<Byte>)
    ensures (a + b)[..|a|] == a && (a + b)[|a|..] == b
  {
  }

  lemma SplitText(text: seq<CodePoint>, k: nat)
    requires k <= |text|
    ensures EncodeAll(text) == EncodeAll(text[..k]) + EncodeAll(text[k..])
  {
    assert text == text[..k] + text[k..];
    EncodeAllConcat(text[..k], text[k..]);
  }

  lemma {:induction false} SplitAt(text: seq<CodePoint>, k: nat)
    requires k <= |text|
    ensures EncodeAll(text) == EncodeAll(text[..k]) + EncodeAll(text[k..])
    ensures Offset(text, k) <= |EncodeAll(text)|
    ensures EncodeAll(text)[..Offset(text, k)] == EncodeAll(text[..k])
    ensures EncodeAll(text)[Offset(text, k)..] == EncodeAll(text[k..])
  {
    SplitText(text, k);
    Halves(EncodeAll(text[..k]), EncodeAll(text[k..]));
  }

  lemma Slices(a: seq<Byte>, e: seq<Byte>, b: seq<Byte>)
    ensures a + (e + b) == a + e + b && (a + e + b)[|a|..|a| + |e|] == e
  {
  }

  /** The bytes around the k-th character. */
  lemma {:induction false} Around(text: seq<CodePoint>, k: nat)
    requires k < |text|
    ensures var at, e := Offset(text, k), Encode(text[k]);
            && Offset(text, k + 1) == at + |e|
            && EncodeAll(text) == EncodeAll(text[..k]) + e + EncodeAll(text[k + 1..])
            && at + |e| <= |EncodeAll(text)|
            && EncodeAll(text)[at..at + |e|] == e
  {
    SplitAt(text, k);
    SplitAt(text, k + 1);
    assert text[k..][1..] == text[k + 1..];
    Slices(EncodeAll(text[..k]), Encode(text[k]), EncodeAll(text[k + 1..]));
  }

  /** Decoding at a character's position gives that character and its length. */
  lemma DecodeAtCharacter(text: seq<CodePoint>, k: nat)
    requires k < |text|
    ensures Offset(text, k) < |EncodeAll(text)|
    ensures Decode(EncodeAll(text), Offset(text, k)) == (text[k], |Encode(text[k])|)
  {
    Around(text, k);
    EncodeShape(text[k]);
    DecodeEncoded(EncodeAll(text), Offset(text, k), text[k]);
  }

  lemma Remainders(x: nat)
    ensures x < 32 ==> (0xC0 + x) % 32 == x
    ensures x < 16 ==> (0xE0 + x) % 16 == x
    ensures x < 8 ==> (0xF0 + x) % 8 == x
    ensures x < 64 ==> (0x80 + x) % 64 == x
  {
  }

  lemma Digits(ch: CodePoint)
    ensures ch == ch / 64 * 64 + ch % 64
    ensures ch / 64 == ch / 4096 * 64 + ch / 64 % 64
    ensures ch / 4096 == ch / 262144 * 64 + ch / 4096 % 64
  {
  }

  lemma DecodeTwo(line: seq<Byte>, at: nat, ch: CodePoint)
    requires 0x80 <= ch <= 0x7FF && at + 1 < |line|
    requires line[at] == 0xC0 + ch / 64 % 32 && line[at + 1] == 0x80 + ch % 64
    ensures Decode(line, at) == (ch, 2)
  {
    Digits(ch);
    Remainders(ch / 64);
    Remainders(ch % 64);
  }

  lemma DecodeThree(line: seq<Byte>, at: nat, ch: CodePoint)
    requires 0x800 <= ch <= 0xFFFF && at + 2 < |line|
    requires line[at] == 0xE0 + ch / 4096 % 16 && line[at + 1] == 0x80 + ch / 64 % 64 && line[at + 2] == 0x80 + ch % 64
    ensures Decode(line, at) == (ch, 3)
  {
    Digits(ch);
    Remainders(ch / 4096);
    Remainders(ch / 64 % 64);
    Remainders(ch % 64);
  }

  lemma DecodeFour(line: seq<Byte>, at: nat, ch: CodePoint)
    requires 0x10000 <= ch && at + 3 < |line|
    requires line[at] == 0xF0 + ch / 262144 % 8 && line[at + 1] == 0x80 + ch / 4096 % 64
    requires line[at + 2] == 0x80 + ch / 64 % 64 && line[at + 3] == 0x80 + ch % 64
    ensures Decode(line, at) == (ch, 4)
  {
    Digits(ch);
    Remainders(ch / 262144);
    Remainders(ch / 4096 % 64);
    Remainders(ch / 64 % 64);
    Remainders(ch % 64);
  }

  lemma DecodeEncoded(line: seq<Byte>, at: nat, ch: CodePoint)
    requires at + |Encode(ch)| <= |line| && at < |line|
    requires line[at..at + |Encode(ch)|] == Encode(ch)
    ensures Decode(line, at) == (ch, |Encode(ch)|)
  {
    var cut := line[at..at + |Encode(ch)|];
    assert line[at] == cut[0];
    if |cut| == 2 {
      assert line[at + 1] == cut[1];
      DecodeTwo(line, at, ch);
    } else if |cut| == 3 {
      assert line[at + 1] == cut[1] && line[at + 2] == cut[2];
      DecodeThree(line, at, ch);
    } else if |cut| == 4 {
      assert line[at + 1] == cut[1] && line[at + 2] == cut[2] && line[at + 3] == cut[3];
      DecodeFour(line, at, ch);
    }
  }

  /** A byte text is the encoding of at most one sequence of code points. */
  lemma {:induction false} EncodeAllInjective(a: seq<CodePoint>, b: seq<CodePoint>)
    requires EncodeAll(a) == EncodeAll(b)
    ensures a == b
  {
    if a == [] || b == [] {
      if a != [] {
        EncodeShape(a[0]);
      }
      if b != [] {
        EncodeShape(b[0]);
      }
    } else {
      DecodeAtCharacter(a, 0);
      DecodeAtCharacter(b, 0);
      assert a[..0] == [] && b[..0] == [];
      var n := |Encode(a[0])|;
      assert EncodeAll(a)[n..] == EncodeAll(a[1..]) && EncodeAll(b)[n..] == EncodeAll(b[1..]);
      EncodeAllInjective(a[1..], b[1..]);
    }
  }

  lemma {:induction false} OffsetAtLeast(text: seq<CodePoint>, k: nat)
    requires k <= |text|
    ensures k <= Offset(text, k)
  {
    if k > 0 {
      Around(text, k - 1);
      EncodeShape(text[k - 1]);
      OffsetAtLeast(text, k - 1);
    }
  }

  lemma OffsetMonotone(text: seq<CodePoint>, i: nat, j: nat)
    requires i <= j <= |text|
    ensures Offset(text, i) <= Offset(text, j)
  {
    SplitAt(text[..j], i);
    assert text[..j][..i] == text[..i];
  }

  lemma OffsetEnd(text: seq<CodePoint>)
    ensures Offset(text, |text|) == |EncodeAll(text)|
  {
    assert text[..|text|] == text;
  }

  lemma CharacterEnd(text: seq<CodePoint>, k: nat)
    requires k <= |text|
    ensures Offset(text, k) == |EncodeAll(text)| <==> k == |text|
    ensures k < |text| ==> Offset(text, k + 1) == Offset(text, k) + |Encode(text[k])| <= |EncodeAll(text)|
  {
    OffsetEnd(text);
    if k < |text| {
      Around(text, k);
      EncodeShape(text[k]);
    }
  }

  /** A leading byte and then continuation bytes only. */
  predicate IsCharacter(e: seq<Byte>) {
    e != [] && !IsContinuation(e[0]) && forall i :: 1 <= i < |e| ==> IsContinuation(e[i])
  }

  lemma CharacterInside(line: seq<Byte>, at: nat, n: nat)
    requires at + n <= |line| && IsCharacter(line[at..at + n])
    ensures n > 0 && !IsContinuation(line[at])
    ensures forall i :: at < i < at + n ==> IsContinuation(line[i])
  {
    var e := line[at..at + n];
    assert line[at] == e[0];
    forall i | at < i < at + n
      ensures IsContinuation(line[i])
    {
      assert line[i] == e[i - at];
    }
  }

  lemma {:induction false} SliceIsCharacter(text: seq<CodePoint>, k: nat)
    requires k < |text|
    ensures Offset(text, k) <= Offset(text, k + 1) <= |EncodeAll(text)|
    ensures IsCharacter(EncodeAll(text)[Offset(text, k)..Offset(text, k + 1)])
  {
    Around(text, k);
    EncodeShape(text[k]);
  }

  /** One character of a line, and the start of the next one. */
  lemma FreshAfter(line: seq<Byte>, at: nat, end: nat, next: nat)
    requires at <= end <= next <= |line| && IsCharacter(line[at..end])
    requires end < |line| ==> IsCharacter(line[end..next])
    ensures at < end && !IsContinuation(line[at])
    ensures forall i :: at < i < end ==> IsContinuation(line[i])
    ensures end < |line| ==> !IsContinuation(line[end])
  {
    CharacterInside(line, at, end - at);
    if end < |line| {
      CharacterInside(line, end, next - end);
    }
  }

  /** Which bytes of a text belong to its k-th character, and that a fresh one follows. */
  lemma CharacterBytes(text: seq<CodePoint>, k: nat)
    requires k < |text|
    ensures var line, at, end := EncodeAll(text), Offset(text, k), Offset(text, k + 1);
            && at < end <= |line|
            && !IsContinuation(line[at])
            && (forall i :: at < i < end ==> IsContinuation(line[i]))
            && (end < |line| ==> !IsContinuation(line[end]))
  {
    SliceIsCharacter(text, k);
    if k + 1 < |text| {
      SliceIsCharacter(text, k + 1);
      FreshAfter(EncodeAll(text), Offset(text, k), Offset(text, k + 1), Offset(text, k + 2));
    } else {
      OffsetEnd(text);
      FreshAfter(EncodeAll(text), Offset(text, k), Offset(text, k + 1), Offset(text, k + 1));
    }
  }

  /** The first position after `pos` that does not hold a continuation byte, in any bytes. */
  predicate IsNext(line: seq<Byte>, pos: nat, next: nat) {
    if pos >= |line| then next == |line|
    else
      && pos < next <= |line|
      && (forall i :: pos < i < next ==> IsContinuation(line[i]))
      && (next < |line| ==> !IsContinuation(line[next]))
  }

  /** The last position before `pos` that does not hold a continuation byte, or the start. */
  predicate IsPrev(line: seq<Byte>, pos: nat, prev: nat)
    requires pos <= |line|
  {
    if pos == 0 then prev == 0
    else
      && prev < pos
      && (forall i :: prev < i < pos ==> IsContinuation(line[i]))
      && (prev > 0 ==> !IsContinuation(line[prev]))
  }

  /** `next_utf8_char_pos`. */
  method NextCharPos(line: seq<Byte>, pos: nat) returns (next: nat)
    ensures IsNext(line, pos, next)
  {
    if pos >= |line| {
      return |line|;
    }
    next := pos + 1;
    while next < |line| && IsContinuation(line[next])
      invariant pos < next <= |line| && forall i :: pos < i < next ==> IsContinuation(line[i])
    {
      next := next + 1;
    }
  }

  /** `prev_utf8_char_pos`. */
  method PrevCharPos(line: seq<Byte>, pos: nat) returns (prev: nat)
    requires pos <= |line|
    ensures IsPrev(line, pos, prev)
  {
    if pos == 0 {
      return 0;
    }
    prev := pos - 1;
    while prev > 0 && IsContinuation(line[prev])
      invariant prev < pos && forall i :: prev < i < pos ==> IsContinuation(line[i])
    {
      prev := prev - 1;
    }
  }

  lemma NextIsEnd(line: seq<Byte>, at: nat, end: nat, next: nat)
    requires at < end <= |line| && (forall i :: at < i < end ==> IsContinuation(line[i]))
    requires (end < |line| ==> !IsContinuation(line[end])) && IsNext(line, at, next)
    ensures next == end
  {
  }

  lemma PrevIsStart(line: seq<Byte>, at: nat, end: nat, prev: nat)
    requires at < end <= |line| && !IsContinuation(line[at]) && (forall i :: at < i < end ==> IsContinuation(line[i]))
    requires IsPrev(line, end, prev)
    ensures prev == at
  {
  }

  /** On the encoding of a text, from the start of a character, that is the start of the next one. */
  lemma NextIsCharacter(text: seq<CodePoint>, k: nat, next: nat)
    requires k <= |text| && IsNext(EncodeAll(text), Offset(text, k), next)
    ensures next == Offset(text, if k < |text| then k + 1 else k)
  {
    if k < |text| {
      CharacterBytes(text, k);
      NextIsEnd(EncodeAll(text), Offset(text, k), Offset(text, k + 1), next);
    } else {
      OffsetEnd(text);
    }
  }

  lemma PrevOfEnd(text: seq<CodePoint>, k: nat, prev: nat)
    requires k < |text| && Offset(text, k + 1) <= |EncodeAll(text)| && IsPrev(EncodeAll(text), Offset(text, k + 1), prev)
    ensures prev == Offset(text, k)
  {
    CharacterBytes(text, k);
    PrevIsStart(EncodeAll(text), Offset(text, k), Offset(text, k + 1), prev);
  }

  /** And the start of the one before. */
  lemma PrevIsCharacter(text: seq<CodePoint>, k: nat, prev: nat)
    requires k <= |text| && Offset(text, k) <= |EncodeAll(text)| && IsPrev(EncodeAll(text), Offset(text, k), prev)
    ensures prev == Offset(text, if k > 0 then k - 1 else 0)
  {
    if k > 0 {
      PrevOfEnd(text, k - 1, prev);
    } else {
      assert text[..0] == [];
    }
  }

  lemma OffsetInside(text: seq<CodePoint>, k: nat)
    requires k <= |text|
    ensures Offset(text, k) <= |EncodeAll(text)|
  {
    SplitAt(text, k);
  }

  // ---------- Any bytes as a sequence of decoded units ----------

  /** A decoded value and how far it advances. */
  type Unit = (int, nat)

  /** Decoding always advances, and stays inside the bytes. */
  lemma DecodeAdvances(line: seq<Byte>, pos: nat)
    requires pos < |line|
    ensures 1 <= Decode(line, pos).1 <= |line| - pos
  {
  }

  /** What `decode_utf8` makes of the bytes from a position on: values, and how far each one advances. */
  function Units(line: seq<Byte>, pos: nat): seq<Unit>
    decreases |line| - pos
  {
    if pos >= |line| then []
    else
      DecodeAdvances(line, pos);
      [Decode(line, pos)] + Units(line, pos + Decode(line, pos).1)
  }

  /** The position behind the first n units. */
  function UnitsEnd(units: seq<Unit>, n: nat): nat
    requires n <= |units|
  {
    if n == 0 then 0 else UnitsEnd(units, n - 1) + units[n - 1].1
  }

  lemma {:induction false} UnitsEndMonotone(units: seq<Unit>, m: nat, n: nat)
    requires m <= n <= |units|
    ensures UnitsEnd(units, m) <= UnitsEnd(units, n)
    decreases n
  {
    if m < n {
      UnitsEndMonotone(units, m, n - 1);
    }
  }

  lemma UnitsStep(line: seq<Byte>, pos: nat, value: int, end: nat)
    requires pos < end && pos < |line| && Decode(line, pos) == (value, end - pos)
    ensures Units(line, pos) == [(value, end - pos)] + Units(line, end)
  {
  }

  lemma DecodeOne(text: seq<CodePoint>, k: nat)
    requires k < |text|
    ensures var line, at, end := EncodeAll(text), Offset(text, k), Offset(text, k + 1);
            && at < |line|
            && at < end
            && end - at == |Encode(text[k])|
            && Decode(line, at) == (text[k], end - at)
  {
    CharacterEnd(text, k);
    DecodeAtCharacter(text, k);
    EncodeShape(text[k]);
  }

  /** The units are the characters from the k-th on. */
  predicate AreCharacters(units: seq<Unit>, text: seq<CodePoint>, k: nat)
    requires k <= |text|
  {
    |units| == |text| - k && forall i :: 0 <= i < |units| ==> units[i] == (text[k + i], |Encode(text[k + i])|)
  }

  lemma OneMoreUnit(units: seq<Unit>, text: seq<CodePoint>, k: nat)
    requires k < |text| && AreCharacters(units, text, k + 1)
    ensures AreCharacters([(text[k], |Encode(text[k])|)] + units, text, k)
  {
  }

  /** The units of an encoded text are its code points. */
  lemma {:induction false} UnitsFromCharacter(text: seq<CodePoint>, k: nat)
    requires k <= |text|
    ensures AreCharacters(Units(EncodeAll(text), Offset(text, k)), text, k)
    decreases |text| - k
  {
    if k < |text| {
      var line, at, end := EncodeAll(text), Offset(text, k), Offset(text, k + 1);
      DecodeOne(text, k);
      UnitsStep(line, at, text[k], end);
      UnitsFromCharacter(text, k + 1);
      OneMoreUnit(Units(line, end), text, k);
    } else {
      OffsetEnd(text);
    }
  }

  lemma {:induction false} UnitsEndOfText(text: seq<CodePoint>, units: seq<Unit>, k: nat)
    requires k <= |text| == |units| && forall i :: 0 <= i < |text| ==> units[i].1 == |Encode(text[i])|
    ensures UnitsEnd(units, k) == Offset(text, k)
  {
    if k > 0 {
      UnitsEndOfText(text, units, k - 1);
      CharacterEnd(text, k - 1);
    } else {
      assert text[..0] == [];
    }
  }

  lemma UnitsOfText(text: seq<CodePoint>)
    ensures var units := Units(EncodeAll(text), 0);
            && |units| == |text|
            && (forall i :: 0 <= i < |text| ==> units[i].0 == text[i])
            && (forall k :: 0 <= k <= |text| ==> UnitsEnd(units, k) == Offset(text, k))
  {
    assert text[..0] == [];
    UnitsFromCharacter(text, 0);
    forall k | 0 <= k <= |text|
      ensures UnitsEnd(Units(EncodeAll(text), 0), k) == Offset(text, k)
    {
      UnitsEndOfText(text, Units(EncodeAll(text), 0), k);
    }
  }

  // ---------- The encoding of the standard ----------

  /** No shorter bytes are decoded to the same code point, unless a stray byte stands for the replacement. */
  lemma EncodeIsShortest(ch: CodePoint, bytes: seq<Byte>)
    requires bytes != [] && Decode(bytes, 0) == (ch, |bytes|) && (|bytes| == 1 ==> bytes[0] < 0x80)
    ensures |Encode(ch)| <= |bytes|
  {
  }

  /** The first example of section 7 of RFC 3629, and a code point of four bytes. */
  lemma StandardExamples()
    ensures EncodeAll([0x41, 0x2262, 0x391, 0x2E]) == [0x41, 0xE2, 0x89, 0xA2, 0xCE, 0x91, 0x2E]
    ensures Encode(0x233B4) == [0xF0, 0xA3, 0x8E, 0xB4]
  {
    var text: seq<CodePoint> := [0x41, 0x2262, 0x391, 0x2E];
    assert text[1..] == [0x2262, 0x391, 0x2E] && text[1..][1..] == [0x391, 0x2E] && text[1..][1..][1..] == [0x2E];
    assert text[1..][1..][1..][1..] == [];
    assert EncodeAll([0x2E]) == [0x2E];
    assert EncodeAll([0x391, 0x2E]) == [0xCE, 0x91, 0x2E];
    assert EncodeAll([0x2262, 0x391, 0x2E]) == [0xE2, 0x89, 0xA2, 0xCE, 0x91, 0x2E];
  }

  /** Nothing is appended exactly for values beyond the last code point. */
  lemma EncodesNothingIff(ch: nat)
    ensures Encode(ch) == [] <==> ch > 0x10FFFF
  {
  }

  /** A stray continuation byte, or one that never occurs, is one replacement character. */
  lemma StrayByteIsReplaced(input: seq<Byte>, pos: nat)
    requires pos < |input| && (0x80 <= input[pos] < 0xC0 || input[pos] >= 0xF8)
    ensures Decode(input, pos) == (0xFFFD, 1)
  {
  }

  /** So is a leading byte that is not followed by as many continuation bytes as it announces. */
  lemma CutCharacterIsReplaced(input: seq<Byte>, pos: nat, i: nat)
    requires pos < |input| && 0xC0 <= input[pos] < 0xF8
    requires 1 <= i <= (if input[pos] < 0xE0 then 1 else if input[pos] < 0xF0 then 2 else 3)
    requires pos + i >= |input| || input[pos + i] < 0x80 || input[pos + i] >= 0xC0
    ensures Decode(input, pos) == (0xFFFD, 1)
  {
  }
}
