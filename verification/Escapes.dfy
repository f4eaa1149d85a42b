/**
 `string_process_escapes`: backslash escapes decoded in the buffer they stand in.
 A character stands for one byte.
 */
module Escapes {
  import opened Base

  // ---------- Left-to-right decoding ----------

  /**
   What `strtol` in base 16 makes of exactly two characters, as a byte: two digits, or white
   space or a sign in front of one digit.
   */
  function HexByte(a: char, b: char): (r: Option<nat>)
    ensures r.Some? ==> r.value < 256
  {
    var high, low := HexDigit(a), HexDigit(b);
    if low.None? then None
    else if high.Some? then Some(high.value * 16 + low.value)
    else if IsSpace(a) || a == '+' then Some(low.value)
    else if a == '-' then Some((256 - low.value) % 256)
    else None
  }

  /** One step: the characters written and the number of characters read. */
  datatype Unit = Unit(out: string, used: nat)

  function UnescapeUnit(s: string): (u: Unit)
    requires s != ""
    ensures 1 <= |u.out| <= u.used <= |s|
  {
    if s[0] == '\\' && |s| >= 2 then
      var c := s[1];
      if c == 'n' then Unit("\n", 2)
      else if c == 'r' then Unit("\r", 2)
      else if c == 't' then Unit("\t", 2)
      else if c == '\'' || c == '"' || c == '\\' then Unit([c], 2)
      else if c == 'x' && |s| >= 4 && HexByte(s[2], s[3]).Some? then Unit([HexByte(s[2], s[3]).value as char], 4)
      else Unit(s[..2], 2)
    else Unit(s[..1], 1)
  }

  function Unescape(s: string): string
    decreases |s|
  {
    if s == "" then "" else UnescapeUnit(s).out + Unescape(s[UnescapeUnit(s).used..])
  }

  // ---------- The same, in place ----------

  /**
   The first `outputIdx` characters are written; what is left to read has not been touched, because
   writing never gets past reading.
   */
  ghost predicate Written(was: string, now: string, inputIdx: nat, outputIdx: nat) {
    && |now| == |was|
    && outputIdx <= inputIdx <= |was|
    && now[inputIdx..] == was[inputIdx..]
    && Unescape(was) == now[..outputIdx] + Unescape(was[inputIdx..])
  }

  lemma WrittenStep(was: string, now: string, inputIdx: nat, outputIdx: nat, next: string, u: Unit)
    requires Written(was, now, inputIdx, outputIdx) && inputIdx < |was|
    requires u == UnescapeUnit(now[inputIdx..])
    requires |next| == |now| && next[..outputIdx + |u.out|] == now[..outputIdx] + u.out
    requires next[inputIdx + u.used..] == now[inputIdx + u.used..]
    ensures Written(was, next, inputIdx + u.used, outputIdx + |u.out|)
  {
    RestFrom(was, inputIdx, u.used);
    RestFrom(now, inputIdx, u.used);
    Associative(now[..outputIdx], u.out, Unescape(was[inputIdx + u.used..]));
  }

  /** `input[output_idx++] = c`, for each character of a piece. */
  method Put(input: array<char>, outputIdx: nat, piece: string) returns (r: nat)
    requires 1 <= |piece| <= 2 && outputIdx + |piece| <= input.Length
    modifies input
    ensures r == outputIdx + |piece|
    ensures input[..r] == old(input[..outputIdx]) + piece
    ensures input[r..] == old(input[r..])
  {
    input[outputIdx] := piece[0];
    if |piece| == 2 {
      input[outputIdx + 1] := piece[1];
    }
    r := outputIdx + |piece|;
  }

  /** Reads one unit of a buffer of which only `input[inputIdx..]` still holds input. */
  method ReadUnit(input: array<char>, inputIdx: nat) returns (piece: string, used: nat)
    requires inputIdx < input.Length
    ensures Unit(piece, used) == UnescapeUnit(input[inputIdx..])
  {
    if input[inputIdx] == '\\' && inputIdx + 1 < input.Length {
      var c := input[inputIdx + 1];
      used := 2;
      match c {
        case 'n' => piece := "\n";
        case 'r' => piece := "\r";
        case 't' => piece := "\t";
        case '\'' => piece := "'";
        case '"' => piece := "\"";
        case '\\' => piece := "\\";
        case _ =>
          piece := ['\\', c];
          if c == 'x' && inputIdx + 3 < input.Length {
            var val := HexByte(input[inputIdx + 2], input[inputIdx + 3]);
            if val.Some? {
              piece, used := [val.value as char], 4;
            }
          }
      }
    } else {
      piece, used := [input[inputIdx]], 1;
    }
  }

  /** The new length; the caller cuts the buffer there. */
  method StringProcessEscapes(input: array<char>) returns (outputIdx: nat)
    modifies input
    ensures outputIdx <= input.Length && input[..outputIdx] == Unescape(old(input[..]))
  {
    ghost var was := input[..];
    var inputIdx := 0;
    outputIdx := 0;
    assert was[0..] == was;
    while inputIdx < input.Length
      invariant Written(was, input[..], inputIdx, outputIdx)
    {
      ghost var now := input[..];
      ghost var u := UnescapeUnit(now[inputIdx..]);
      assert now[inputIdx..] == input[inputIdx..];
      var piece, used := ReadUnit(input, inputIdx);
      var next := Put(input, outputIdx, piece);
      assert input[inputIdx + used..] == input[next..][inputIdx + used - next..] == now[inputIdx + used..];
      WrittenStep(was, now, inputIdx, outputIdx, input[..], u);
      inputIdx, outputIdx := inputIdx + used, next;
    }
  }

  // ---------- Printers it undoes ----------

  /** How one character may be spelled: a backslash never alone, any byte in hexadecimal. */
  predicate Spells(piece: string, c: char) {
    || (piece == [c] && c != '\\')
    || (piece == ['\\', c] && c in ['\\', '"', '\''])
    || (piece == "\\n" && c == '\n')
    || (piece == "\\r" && c == '\r')
    || (piece == "\\t" && c == '\t')
    || (|piece| == 4 && piece[..2] == "\\x" && HexByte(piece[2], piece[3]) == Some(c as nat))
  }

  const LOWER := "0123456789abcdef"
  const UPPER := "0123456789ABCDEF"

  /** Every byte can be spelled with two hexadecimal digits, of either case. */
  lemma HexSpells(b: Byte, high: string, low: string)
    requires high in [LOWER, UPPER] && low in [LOWER, UPPER]
    ensures Spells("\\x" + [high[b / 16], low[b % 16]], b as char)
  {
    DigitOf(b / 16);
    DigitOf(b % 16);
    var piece := "\\x" + [high[b / 16], low[b % 16]];
    assert piece[..2] == "\\x" && piece[2] == high[b / 16] && piece[3] == low[b % 16];
  }

  /** One digit alone, or behind white space or a plus sign, is its value; behind a minus sign it is its complement. */
  lemma OneHexDigit(space: char, c: char)
    requires IsSpace(space) && HexDigit(c).Some?
    ensures HexByte('0', c) == HexByte('+', c) == HexByte(space, c) == HexDigit(c)
    ensures HexByte('-', c).Some? && (HexByte('-', c).value + HexDigit(c).value) % 256 == 0
  {
  }

  lemma DigitOf(n: nat)
    requires n < 16
    ensures HexDigit(LOWER[n]) == Some(n) && HexDigit(UPPER[n]) == Some(n)
  {
  }

  function Flatten(pieces: seq<string>): string {
    if pieces == [] then "" else pieces[0] + Flatten(pieces[1..])
  }

  lemma SpellingReads(piece: string, c: char, rest: string)
    requires Spells(piece, c)
    ensures piece != "" && UnescapeUnit(piece + rest) == Unit([c], |piece|)
  {
    if |piece| == 4 {
      assert piece[0] == piece[..2][0] && piece[1] == piece[..2][1];
    }
  }

  /** Text printed with any legal spelling of each character is read back. */
  lemma {:induction false} UnescapeUndoes(pieces: seq<string>, text: string)
    requires |pieces| == |text| && forall i :: 0 <= i < |text| ==> Spells(pieces[i], text[i])
    ensures Unescape(Flatten(pieces)) == text
    decreases |text|
  {
    if text != "" {
      var rest := Flatten(pieces[1..]);
      SpellingReads(pieces[0], text[0], rest);
      UnescapeUndoes(pieces[1..], text[1..]);
      assert (pieces[0] + rest)[|pieces[0]|..] == rest;
      assert [text[0]] + text[1..] == text;
    }
  }

  function DoubleBackslashes(s: string): string {
    if s == "" then "" else (if s[0] == '\\' then "\\\\" else [s[0]]) + DoubleBackslashes(s[1..])
  }

  lemma {:induction false} UnescapeUndoesDoubling(s: string)
    ensures Unescape(DoubleBackslashes(s)) == s
  {
    if s != "" {
      var rest := DoubleBackslashes(s[1..]);
      var piece := if s[0] == '\\' then "\\\\" else [s[0]];
      SpellingReads(piece, s[0], rest);
      UnescapeUndoesDoubling(s[1..]);
      assert (piece + rest)[|piece|..] == rest;
      assert [s[0]] + s[1..] == s;
    }
  }

  /** The text starts with an escape: a letter or quote, a backslash, or `x` and what `strtol` accepts. */
  predicate StartsEscape(s: string) {
    && |s| >= 2
    && s[0] == '\\'
    && (|| s[1] in "nrt'\"\\"
        || (&& s[1] == 'x' && |s| >= 4
            && HexDigit(s[3]).Some?
            && (HexDigit(s[2]).Some? || IsSpace(s[2]) || s[2] == '+' || s[2] == '-')))
  }

  /** Some escape is left, where an unknown one counts as the two characters it has. */
  predicate HasEscape(s: string)
    decreases |s|
  {
    s != "" && (StartsEscape(s) || HasEscape(s[if s[0] == '\\' && |s| >= 2 then 2 else 1..]))
  }

  lemma UnitOfEscape(s: string)
    requires s != ""
    ensures var u := UnescapeUnit(s);
            if StartsEscape(s) then |u.out| < u.used
            else u.out == s[..u.used] && u.used == if s[0] == '\\' && |s| >= 2 then 2 else 1
  {
  }

  /** Decoding is the identity exactly on the texts in which no escape is recognised, and shortens all others. */
  lemma {:induction false} IdentityIff(s: string)
    ensures |Unescape(s)| <= |s|
    ensures Unescape(s) == s <==> |Unescape(s)| == |s|
    ensures Unescape(s) == s <==> !HasEscape(s)
    decreases |s|
  {
    if s != "" {
      var u := UnescapeUnit(s);
      UnitOfEscape(s);
      IdentityIff(s[u.used..]);
      assert s == s[..u.used] + s[u.used..];
      if Unescape(s) == s && |u.out| == u.used {
        assert Unescape(s)[u.used..] == Unescape(s[u.used..]);
      }
    }
  }
}
