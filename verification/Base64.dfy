/**
 Base64 as in sections 4 and 5 of RFC 4648: the encoder, the decoder, and the decoder that
 writes into the buffer it reads. Text is held as bytes; shifts and masks are written with
 multiplication, division and remainder.
 */
module Base64 {
  import opened Base

  datatype Alphabet = Auto | Standard | UrlSafe

  datatype Behavior = Moderate | Loose

  type Sextet = v: int | 0 <= v < 64

  const PAD: Byte := '=' as int

  // ---------- Encoding ----------

  /** `alpha[v]`: auto-detection encodes like the standard alphabet. */
  function Digit(alphabet: Alphabet, v: Sextet): Byte {
    if v < 26 then 'A' as int + v
    else if v < 52 then 'a' as int + (v - 26)
    else if v < 62 then '0' as int + (v - 52)
    else if v == 62 then (if alphabet == UrlSafe then '-' else '+') as int
    else (if alphabet == UrlSafe then '_' else '/') as int
  }

  /** Three bytes as one number of 24 bits. */
  function Group(a: Byte, b: Byte, c: Byte): (n: int)
    ensures 0 <= n < 0x100_0000
  {
    a * 65536 + b * 256 + c
  }

  /** A group as four digits of six bits, the most significant one first. */
  function Digits(n: int): (Sextet, Sextet, Sextet, Sextet)
    requires 0 <= n < 0x100_0000
  {
    (n / 64 / 64 / 64, n / 64 / 64 % 64, n / 64 % 64, n % 64)
  }

  /** The first `count` digits of a group, padded to four characters. */
  function Quantum(alphabet: Alphabet, digits: (Sextet, Sextet, Sextet, Sextet), count: nat): (r: seq<Byte>)
    requires 2 <= count <= 4
    ensures |r| == 4
  {
    [Digit(alphabet, digits.0), Digit(alphabet, digits.1),
     if count > 2 then Digit(alphabet, digits.2) else PAD,
     if count > 3 then Digit(alphabet, digits.3) else PAD]
  }

  function Encode(alphabet: Alphabet, bytes: seq<Byte>): seq<Byte>
    decreases |bytes|
  {
    if bytes == [] then []
    else if |bytes| == 1 then Quantum(alphabet, Digits(Group(bytes[0], 0, 0)), 2)
    else if |bytes| == 2 then Quantum(alphabet, Digits(Group(bytes[0], bytes[1], 0)), 3)
    else Quantum(alphabet, Digits(Group(bytes[0], bytes[1], bytes[2])), 4) + Encode(alphabet, bytes[3..])
  }

  lemma Shift6(high: nat, low: Sextet)
    ensures (high * 64 + low) / 64 == high && (high * 64 + low) % 64 == low
  {
  }

  lemma DigitsOfBytes(a: Byte, b: Byte, c: Byte)
    ensures Digits(Group(a, b, c)) == (a / 4, a % 4 * 16 + b / 16, b % 16 * 4 + c / 64, c % 64)
  {
    var d0, d1, d2, d3 := a / 4, a % 4 * 16 + b / 16, b % 16 * 4 + c / 64, c % 64;
    assert Group(a, b, c) == ((d0 * 64 + d1) * 64 + d2) * 64 + d3;
    Shift6((d0 * 64 + d1) * 64 + d2, d3);
    Shift6(d0 * 64 + d1, d2);
    Shift6(d0, d1);
  }

  lemma MasksKeep(a: Byte, b: Byte, c: Byte)
    ensures a / 4 % 64 == a / 4 && b / 16 % 16 == b / 16 && c / 64 % 4 == c / 64
  {
  }

  /** One group of the encoding. */
  lemma EncodeStep(alphabet: Alphabet, bytes: seq<Byte>, out: seq<Byte>, i: nat)
    requires i < |bytes| && Encode(alphabet, bytes) == out + Encode(alphabet, bytes[i..])
    ensures |bytes| - i == 1 ==>
              Encode(alphabet, bytes) == out + Quantum(alphabet, Digits(Group(bytes[i], 0, 0)), 2)
    ensures |bytes| - i == 2 ==>
              Encode(alphabet, bytes) == out + Quantum(alphabet, Digits(Group(bytes[i], bytes[i + 1], 0)), 3)
    ensures |bytes| - i >= 3 ==>
              Encode(alphabet, bytes)
              == out + Quantum(alphabet, Digits(Group(bytes[i], bytes[i + 1], bytes[i + 2])), 4) + Encode(alphabet, bytes[i + 3..])
  {
    if |bytes| - i >= 3 {
      assert bytes[i..][3..] == bytes[i + 3..];
    }
  }

  method EncodeBytes(input: seq<Byte>, alphabet: Alphabet) returns (out: seq<Byte>)
    ensures out == Encode(alphabet, input)
  {
    out := [];
    var i := 0;
    assert input[0..] == input;
    while i < |input|
      invariant 0 <= i <= |input|
      invariant Encode(alphabet, input) == out + Encode(alphabet, input[i..])
    {
      EncodeStep(alphabet, input, out, i);
      var quantum, read := EncodeQuantum(input, i, alphabet);
      out := out + quantum;
      i := i + read;
    }
  }

  /** One turn of the loop: four characters from at most three bytes. */
  method EncodeQuantum(input: seq<Byte>, i: nat, alphabet: Alphabet) returns (out: seq<Byte>, read: nat)
    requires i < |input|
    ensures read == if |input| - i < 3 then |input| - i else 3
    ensures read == 1 ==> out == Quantum(alphabet, Digits(Group(input[i], 0, 0)), 2)
    ensures read == 2 ==> out == Quantum(alphabet, Digits(Group(input[i], input[i + 1], 0)), 3)
    ensures read == 3 ==> out == Quantum(alphabet, Digits(Group(input[i], input[i + 1], input[i + 2])), 4)
  {
    var i0 := input[i];
    out := [Digit(alphabet, i0 / 4 % 64)];
    if i + 1 == |input| {
      DigitsOfBytes(i0, 0, 0);
      MasksKeep(i0, 0, 0);
      return out + [Digit(alphabet, i0 % 4 * 16), PAD, PAD], 1;
    }
    var i1 := input[i + 1];
    out := out + [Digit(alphabet, i0 % 4 * 16 + i1 / 16 % 16)];
    if i + 2 == |input| {
      DigitsOfBytes(i0, i1, 0);
      MasksKeep(i0, i1, 0);
      return out + [Digit(alphabet, i1 % 16 * 4), PAD], 2;
    }
    var i2 := input[i + 2];
    DigitsOfBytes(i0, i1, i2);
    MasksKeep(i0, i1, i2);
    return out + [Digit(alphabet, i1 % 16 * 4 + i2 / 64 % 4), Digit(alphabet, i2 % 64)], 3;
  }

  // ---------- Decoding ----------

  /** A character's value and the alphabet from then on. */
  datatype Reading = Invalid | Valid(alphabet: Alphabet, value: Sextet)

  /** `_base64_value`: the first of four characters to appear settles an alphabet that is being detected. */
  function Value(alphabet: Alphabet, c: Byte): Reading {
    if 'A' as int <= c <= 'Z' as int then Valid(alphabet, c - 'A' as int)
    else if 'a' as int <= c <= 'z' as int then Valid(alphabet, c - 'a' as int + 26)
    else if '0' as int <= c <= '9' as int then Valid(alphabet, c - '0' as int + 52)
    else if c == '+' as int && alphabet != UrlSafe then Valid(Standard, 62)
    else if c == '/' as int && alphabet != UrlSafe then Valid(Standard, 63)
    else if c == '-' as int && alphabet != Standard then Valid(UrlSafe, 62)
    else if c == '_' as int && alphabet != Standard then Valid(UrlSafe, 63)
    else Invalid
  }

  /** How many bits of the last character are still to be written. */
  type Bits = b: int | b == 0 || b == 2 || b == 4 || b == 6

  /** The byte made of the `bits` low bits of the last character and the high bits of this one. */
  function Combine(bits: Bits, last: Sextet, part: Sextet): Byte {
    if bits == 6 then (last * 4 + part / 16) % 256
    else if bits == 4 then (last * 16 + part / 4) % 256
    else (last * 64 + part) % 256
  }

  function NextBits(bits: Bits): Bits {
    if bits == 0 then 6 else bits - 2
  }

  function Emit(bits: Bits, last: Sextet, part: Sextet): (r: seq<Byte>)
    ensures 8 * |r| + NextBits(bits) == bits + 6
  {
    if bits == 0 then [] else [Combine(bits, last, part)]
  }

  /** What has been written when decoding ends, and whether it ended without an exception. */
  datatype Outcome = Outcome(out: seq<Byte>, ok: bool)

  predicate AllPads(s: seq<Byte>) {
    forall i :: 0 <= i < |s| ==> s[i] == PAD
  }

  function DecodeFrom(alphabet: Alphabet, behavior: Behavior, bits: Bits, last: Sextet, s: seq<Byte>): (r: Outcome)
    ensures 8 * |r.out| <= bits + 6 * |s|
    decreases |s|
  {
    if s == [] then Outcome([], true)
    else if s[0] == PAD then Outcome([], behavior == Loose || AllPads(s[1..]))
    else
      var value := Value(alphabet, s[0]);
      if value.Invalid? then Outcome([], false)
      else
        var tail := DecodeFrom(value.alphabet, behavior, NextBits(bits), value.value, s[1..]);
        Outcome(Emit(bits, last, value.value) + tail.out, tail.ok)
  }

  function Decode(alphabet: Alphabet, behavior: Behavior, s: seq<Byte>): Outcome {
    DecodeFrom(alphabet, behavior, 0, 0, s)
  }

  /** The variables of the loop after `i` characters, of which none was padding. */
  datatype Loop = Loop(alphabet: Alphabet, bits: Bits, last: Sextet)

  ghost predicate Decoded(was: Outcome, behavior: Behavior, loop: Loop, out: seq<Byte>, rest: seq<Byte>) {
    var tail := DecodeFrom(loop.alphabet, behavior, loop.bits, loop.last, rest);
    was == Outcome(out + tail.out, tail.ok)
  }

  /** The loop after it has read a character of the alphabet. */
  function Next(loop: Loop, value: Reading): Loop
    requires value.Valid?
  {
    Loop(value.alphabet, NextBits(loop.bits), value.value)
  }

  lemma DecodeStep(was: Outcome, behavior: Behavior, loop: Loop, out: seq<Byte>, rest: seq<Byte>, value: Reading)
    requires Decoded(was, behavior, loop, out, rest) && rest != [] && rest[0] != PAD
    requires value == Value(loop.alphabet, rest[0])
    ensures value.Invalid? ==> was == Outcome(out, false)
    ensures value.Valid? ==>
              Decoded(was, behavior, Next(loop, value), out + Emit(loop.bits, loop.last, value.value), rest[1..])
  {
    if value.Invalid? {
      assert out + [] == out;
    } else {
      var emitted := Emit(loop.bits, loop.last, value.value);
      var tail := DecodeFrom(value.alphabet, behavior, NextBits(loop.bits), value.value, rest[1..]).out;
      assert out + (emitted + tail) == out + emitted + tail;
    }
  }

  lemma DecodeEnds(was: Outcome, behavior: Behavior, loop: Loop, out: seq<Byte>, rest: seq<Byte>)
    requires Decoded(was, behavior, loop, out, rest) && (rest != [] ==> rest[0] == PAD)
    ensures was == Outcome(out, rest == [] || behavior == Loose || AllPads(rest[1..]))
  {
    assert out + [] == out;
  }

  lemma CharacterAt(s: seq<Byte>, i: nat)
    requires i < |s|
    ensures s[i..] != [] && s[i..][0] == s[i] && s[i..][1..] == s[i + 1..]
  {
  }

  /** `decode` with an output that grows. */
  method DecodeBytes(input: seq<Byte>, alphabet: Alphabet, behavior: Behavior) returns (out: seq<Byte>, ok: bool)
    ensures Outcome(out, ok) == Decode(alphabet, behavior, input)
  {
    ghost var was := Decode(alphabet, behavior, input);
    var loop := Loop(alphabet, 0, 0);
    out := [];
    var i := 0;
    assert input[0..] == input;
    while i < |input| && input[i] != PAD
      invariant 0 <= i <= |input|
      invariant Decoded(was, behavior, loop, out, input[i..])
    {
      var value := Value(loop.alphabet, input[i]);
      CharacterAt(input, i);
      DecodeStep(was, behavior, loop, out, input[i..], value);
      if value.Invalid? {
        return out, false;
      }
      ghost var next, written := Next(loop, value), out + Emit(loop.bits, loop.last, value.value);
      if loop.bits + 6 >= 8 {
        out := out + [Combine(loop.bits, loop.last, value.value)];
        loop := loop.(bits := loop.bits - 2);
      } else {
        loop := loop.(bits := loop.bits + 6);
      }
      loop := loop.(alphabet := value.alphabet, last := value.value);
      assert loop == next && out == written;
      i := i + 1;
    }
    DecodeEnds(was, behavior, loop, out, input[i..]);
    ok := CheckPadding(input, i, behavior);
  }

  /** What follows the first padding character, unless decoding is loose. */
  method CheckPadding(input: seq<Byte>, start: nat, behavior: Behavior) returns (ok: bool)
    requires start <= |input| && (start < |input| ==> input[start] == PAD)
    ensures ok <==> start == |input| || behavior == Loose || AllPads(input[start..][1..])
  {
    if behavior != Loose && start < |input| {
      var i := start + 1;
      while i < |input|
        invariant start < i <= |input| && forall j :: start < j < i ==> input[j] == PAD
      {
        if input[i] != PAD {
          assert input[start..][1..][i - start - 1] != PAD;
          return false;
        }
        i := i + 1;
      }
    }
    return true;
  }

  /**
   The first `length` bytes of the buffer are output, and what has not been read has not been
   overwritten, because writing never gets past reading.
   */
  ghost predicate DecodedInPlace(was: Outcome, behavior: Behavior, loop: Loop, buffer: seq<Byte>, input: seq<Byte>,
                                 length: nat, i: nat) {
    && |buffer| == |input| && i <= |input|
    && 8 * length + loop.bits == 6 * i
    && buffer[length..] == input[length..]
    && Decoded(was, behavior, loop, buffer[..length], input[i..])
  }

  lemma Unread(buffer: seq<Byte>, input: seq<Byte>, length: nat, i: nat)
    requires |buffer| == |input| && length <= i < |input| && buffer[length..] == input[length..]
    ensures buffer[i] == input[i] && buffer[i + 1..] == input[i + 1..]
  {
    assert forall k :: length <= k < |input| ==> buffer[k] == buffer[length..][k - length] == input[length..][k - length];
  }

  lemma InPlaceStep(was: Outcome, behavior: Behavior, loop: Loop, buffer: seq<Byte>, input: seq<Byte>, length: nat,
                    i: nat,
                    value: Reading)
    requires DecodedInPlace(was, behavior, loop, buffer, input, length, i) && i < |input| && buffer[i] != PAD
    requires value == Value(loop.alphabet, buffer[i])
    ensures value.Invalid? ==> was == Outcome(buffer[..length], false)
    ensures value.Valid? ==>
              Decoded(was, behavior, Next(loop, value), buffer[..length] + Emit(loop.bits, loop.last, value.value), input[i + 1..])
  {
    Unread(buffer, input, length, i);
    CharacterAt(input, i);
    DecodeStep(was, behavior, loop, buffer[..length], input[i..], value);
  }

  lemma InPlaceEnds(was: Outcome, behavior: Behavior, loop: Loop, buffer: seq<Byte>, input: seq<Byte>, length: nat,
                    i: nat)
    requires DecodedInPlace(was, behavior, loop, buffer, input, length, i) && (i < |input| ==> buffer[i] == PAD)
    ensures was == Outcome(buffer[..length], i == |input| || behavior == Loose || AllPads(buffer[i + 1..]))
  {
    if i < |input| {
      Unread(buffer, input, length, i);
      CharacterAt(input, i);
    }
    DecodeEnds(was, behavior, loop, buffer[..length], input[i..]);
  }

  /**
   `decode_inplace`: input and output share the buffer. The result, its length and the error are
   those of decoding into a separate output; nothing behind the output is overwritten.
   */
  method DecodeInPlace(buffer: array<Byte>, alphabet: Alphabet, behavior: Behavior) returns (length: nat, ok: bool)
    modifies buffer
    ensures length <= buffer.Length
    ensures Outcome(buffer[..length], ok) == Decode(alphabet, behavior, old(buffer[..]))
    ensures buffer[length..] == old(buffer[length..])
  {
    ghost var input := buffer[..];
    ghost var was := Decode(alphabet, behavior, input);
    var loop := Loop(alphabet, 0, 0);
    length, ok := 0, true;
    var i := 0;
    assert input[0..] == input && buffer[..0] == [];
    while i < buffer.Length && buffer[i] != PAD
      invariant 0 <= i && DecodedInPlace(was, behavior, loop, buffer[..], input, length, i)
    {
      var value := Value(loop.alphabet, buffer[i]);
      InPlaceStep(was, behavior, loop, buffer[..], input, length, i, value);
      if value.Invalid? {
        return length, false;
      }
      ghost var next, written := Next(loop, value), buffer[..length] + Emit(loop.bits, loop.last, value.value);
      if loop.bits + 6 >= 8 {
        length := WriteByte(buffer, length, Combine(loop.bits, loop.last, value.value), input);
        loop := loop.(bits := loop.bits - 2);
      } else {
        loop := loop.(bits := loop.bits + 6);
      }
      loop := loop.(alphabet := value.alphabet, last := value.value);
      assert loop == next && buffer[..][..length] == written;
      i := i + 1;
    }
    InPlaceEnds(was, behavior, loop, buffer[..], input, length, i);
    if behavior != Loose && i < buffer.Length {
      ok := CheckPaddingInPlace(buffer, i);
      assert buffer[..][i + 1..] == buffer[i + 1..];
    }
  }

  /** `*out = byte; ++out` */
  method WriteByte(buffer: array<Byte>, at: nat, byte: Byte, ghost input: seq<Byte>) returns (next: nat)
    requires at < buffer.Length == |input| && buffer[..][at..] == input[at..]
    modifies buffer
    ensures next == at + 1 && buffer[..][..next] == old(buffer[..][..at]) + [byte]
    ensures buffer[..][next..] == input[next..]
  {
    assert forall k :: at < k < |input| ==> buffer[k] == buffer[..][at..][k - at] == input[at..][k - at];
    buffer[at] := byte;
    next := at + 1;
  }

  method CheckPaddingInPlace(buffer: array<Byte>, start: nat) returns (ok: bool)
    requires start < buffer.Length
    ensures ok <==> AllPads(buffer[start + 1..])
  {
    var i := start + 1;
    while i < buffer.Length
      invariant start < i <= buffer.Length && forall j :: start < j < i ==> buffer[j] == PAD
    {
      if buffer[i] != PAD {
        assert buffer[start + 1..][i - start - 1] != PAD;
        return false;
      }
      i := i + 1;
    }
    return true;
  }

  // ---------- Sizes ----------

  function MaxDecodeSize(size: nat): nat {
    (size / 4 + if size % 4 != 0 then 1 else 0) * 3
  }

  function RequiredEncodeSize(size: nat): nat {
    (size / 3 + if size % 3 != 0 then 1 else 0) * 4
  }

  lemma SizeStep(size: nat)
    ensures RequiredEncodeSize(size + 3) == RequiredEncodeSize(size) + 4
  {
  }

  lemma {:induction false} EncodedSize(alphabet: Alphabet, bytes: seq<Byte>)
    ensures |Encode(alphabet, bytes)| == RequiredEncodeSize(|bytes|)
    decreases |bytes|
  {
    if |bytes| >= 3 {
      EncodedSize(alphabet, bytes[3..]);
      SizeStep(|bytes[3..]|);
    }
  }

  /** The output always fits, also when the input is not valid. */
  lemma DecodedSize(alphabet: Alphabet, behavior: Behavior, s: seq<Byte>)
    ensures |Decode(alphabet, behavior, s).out| <= MaxDecodeSize(|s|)
  {
    assert 8 * |Decode(alphabet, behavior, s).out| <= 6 * |s|;
  }

  // ---------- Round trip ----------

  /** A decoder set to this alphabet, or still detecting it, understands what this encoder writes. */
  predicate Understands(decoder: Alphabet, encoder: Alphabet) {
    decoder == Auto || (decoder == UrlSafe <==> encoder == UrlSafe)
  }

  lemma ValueOfDigit(decoder: Alphabet, encoder: Alphabet, v: Sextet)
    requires Understands(decoder, encoder)
    ensures Digit(encoder, v) != PAD
    ensures var r := Value(decoder, Digit(encoder, v));
            r.Valid? && r.value == v && Understands(r.alphabet, encoder)
  {
  }

  /** One digit at the front of a text. */
  lemma {:induction false} DecodeDigit(decoder: Alphabet, encoder: Alphabet, behavior: Behavior, bits: Bits,
                                       last: Sextet, v: Sextet, rest: seq<Byte>)
    returns (next: Alphabet)
    requires Understands(decoder, encoder)
    ensures Understands(next, encoder)
    ensures var tail := DecodeFrom(next, behavior, NextBits(bits), v, rest);
            DecodeFrom(decoder, behavior, bits, last, [Digit(encoder, v)] + rest)
            == Outcome(Emit(bits, last, v) + tail.out, tail.ok)
  {
    ValueOfDigit(decoder, encoder, v);
    next := Value(decoder, Digit(encoder, v)).alphabet;
    assert ([Digit(encoder, v)] + rest)[1..] == rest;
  }

  lemma FirstByte(a: Byte, b: Byte)
    ensures Combine(6, a / 4, a % 4 * 16 + b / 16) == a
  {
    assert (a % 4 * 16 + b / 16) / 16 == a % 4;
  }

  lemma SecondByte(a: Byte, b: Byte, c: Byte)
    ensures Combine(4, a % 4 * 16 + b / 16, b % 16 * 4 + c / 64) == b
  {
    assert (b % 16 * 4 + c / 64) / 4 == b % 16;
    assert (a % 4 * 16 + b / 16) * 16 + b % 16 == a % 4 * 256 + b;
  }

  lemma ThirdByte(b: Byte, c: Byte)
    ensures Combine(2, b % 16 * 4 + c / 64, c % 64) == c
  {
    assert (b % 16 * 4 + c / 64) * 64 + c % 64 == b % 16 * 256 + c;
  }

  /** The bytes of a group come back from its digits. */
  lemma BytesOfDigits(a: Byte, b: Byte, c: Byte)
    ensures var d := Digits(Group(a, b, c));
            Combine(6, d.0, d.1) == a && Combine(4, d.1, d.2) == b && Combine(2, d.2, d.3) == c
  {
    DigitsOfBytes(a, b, c);
    FirstByte(a, b);
    SecondByte(a, b, c);
    ThirdByte(b, c);
  }

  lemma DecodeTwo(decoder: Alphabet, encoder: Alphabet, behavior: Behavior, last: Sextet, d0: Sextet, d1: Sextet,
                  rest: seq<Byte>)
    returns (next: Alphabet)
    requires Understands(decoder, encoder)
    ensures Understands(next, encoder)
    ensures var tail := DecodeFrom(next, behavior, 4, d1, rest);
            DecodeFrom(decoder, behavior, 0, last, [Digit(encoder, d0), Digit(encoder, d1)] + rest)
            == Outcome([Combine(6, d0, d1)] + tail.out, tail.ok)
  {
    var second := [Digit(encoder, d1)] + rest;
    next := DecodeDigit(decoder, encoder, behavior, 0, last, d0, second);
    next := DecodeDigit(next, encoder, behavior, 6, d0, d1, rest);
    assert [Digit(encoder, d0), Digit(encoder, d1)] + rest == [Digit(encoder, d0)] + second;
  }

  lemma PadsEnd(alphabet: Alphabet, behavior: Behavior, bits: Bits, last: Sextet, s: seq<Byte>)
    requires s != [] && AllPads(s)
    ensures DecodeFrom(alphabet, behavior, bits, last, s) == Outcome([], true)
  {
    assert forall i :: 0 <= i < |s[1..]| ==> s[1..][i] == s[i + 1];
  }

  lemma DecodeThree(decoder: Alphabet, encoder: Alphabet, behavior: Behavior, last: Sextet,
                    d0: Sextet, d1: Sextet, d2: Sextet, rest: seq<Byte>)
    returns (next: Alphabet)
    requires Understands(decoder, encoder)
    ensures Understands(next, encoder)
    ensures var tail := DecodeFrom(next, behavior, 2, d2, rest);
            DecodeFrom(decoder, behavior, 0, last, [Digit(encoder, d0), Digit(encoder, d1), Digit(encoder, d2)] + rest)
            == Outcome([Combine(6, d0, d1), Combine(4, d1, d2)] + tail.out, tail.ok)
  {
    var third := [Digit(encoder, d2)] + rest;
    next := DecodeTwo(decoder, encoder, behavior, last, d0, d1, third);
    next := DecodeDigit(next, encoder, behavior, 4, d1, d2, rest);
    assert [Digit(encoder, d0), Digit(encoder, d1), Digit(encoder, d2)] + rest
        == [Digit(encoder, d0), Digit(encoder, d1)] + third;
    var tail := DecodeFrom(next, behavior, 2, d2, rest).out;
    PairThenRest(Combine(6, d0, d1), Combine(4, d1, d2), tail);
  }

  lemma PairThenRest(x: Byte, y: Byte, tail: seq<Byte>)
    ensures [x] + ([y] + tail) == [x, y] + tail
  {
  }

  lemma TripleThenRest(x: Byte, y: Byte, z: Byte, tail: seq<Byte>)
    ensures [x, y] + ([z] + tail) == [x, y, z] + tail
  {
  }

  lemma DecodeFour(decoder: Alphabet, encoder: Alphabet, behavior: Behavior, last: Sextet,
                   d: (Sextet, Sextet, Sextet, Sextet), rest: seq<Byte>)
    returns (next: Alphabet)
    requires Understands(decoder, encoder)
    ensures Understands(next, encoder)
    ensures var tail := DecodeFrom(next, behavior, 0, d.3, rest);
            DecodeFrom(decoder, behavior, 0, last, Quantum(encoder, d, 4) + rest)
            == Outcome([Combine(6, d.0, d.1), Combine(4, d.1, d.2), Combine(2, d.2, d.3)] + tail.out, tail.ok)
  {
    var fourth := [Digit(encoder, d.3)] + rest;
    next := DecodeThree(decoder, encoder, behavior, last, d.0, d.1, d.2, fourth);
    next := DecodeDigit(next, encoder, behavior, 2, d.2, d.3, rest);
    assert Quantum(encoder, d, 4) + rest
        == [Digit(encoder, d.0), Digit(encoder, d.1), Digit(encoder, d.2)] + fourth;
    var tail := DecodeFrom(next, behavior, 0, d.3, rest).out;
    TripleThenRest(Combine(6, d.0, d.1), Combine(4, d.1, d.2), Combine(2, d.2, d.3), tail);
  }

  lemma DecodeOneByte(decoder: Alphabet, encoder: Alphabet, behavior: Behavior, last: Sextet, a: Byte)
    requires Understands(decoder, encoder)
    ensures DecodeFrom(decoder, behavior, 0, last, Quantum(encoder, Digits(Group(a, 0, 0)), 2)) == Outcome([a], true)
  {
    var d := Digits(Group(a, 0, 0));
    BytesOfDigits(a, 0, 0);
    var next := DecodeTwo(decoder, encoder, behavior, last, d.0, d.1, [PAD, PAD]);
    PadsEnd(next, behavior, 4, d.1, [PAD, PAD]);
    assert Quantum(encoder, d, 2) == [Digit(encoder, d.0), Digit(encoder, d.1)] + [PAD, PAD];
  }

  lemma DecodeTwoBytes(decoder: Alphabet, encoder: Alphabet, behavior: Behavior, last: Sextet, a: Byte, b: Byte)
    requires Understands(decoder, encoder)
    ensures DecodeFrom(decoder, behavior, 0, last, Quantum(encoder, Digits(Group(a, b, 0)), 3)) == Outcome([a, b], true)
  {
    var d := Digits(Group(a, b, 0));
    BytesOfDigits(a, b, 0);
    var next := DecodeThree(decoder, encoder, behavior, last, d.0, d.1, d.2, [PAD]);
    PadsEnd(next, behavior, 2, d.2, [PAD]);
    assert Quantum(encoder, d, 3) == [Digit(encoder, d.0), Digit(encoder, d.1), Digit(encoder, d.2)] + [PAD];
  }

  lemma DecodeThreeBytes(decoder: Alphabet, encoder: Alphabet, behavior: Behavior, last: Sextet,
                         a: Byte, b: Byte, c: Byte, rest: seq<Byte>)
    returns (next: Alphabet, digit: Sextet)
    requires Understands(decoder, encoder)
    ensures Understands(next, encoder)
    ensures var tail := DecodeFrom(next, behavior, 0, digit, rest);
            DecodeFrom(decoder, behavior, 0, last, Quantum(encoder, Digits(Group(a, b, c)), 4) + rest)
            == Outcome([a, b, c] + tail.out, tail.ok)
  {
    var d := Digits(Group(a, b, c));
    BytesOfDigits(a, b, c);
    next := DecodeFour(decoder, encoder, behavior, last, d, rest);
    digit := d.3;
  }

  lemma DecodeLastBytes(decoder: Alphabet, encoder: Alphabet, behavior: Behavior, last: Sextet, bytes: seq<Byte>)
    requires Understands(decoder, encoder) && |bytes| < 3
    ensures DecodeFrom(decoder, behavior, 0, last, Encode(encoder, bytes)) == Outcome(bytes, true)
  {
    if |bytes| == 1 {
      DecodeOneByte(decoder, encoder, behavior, last, bytes[0]);
      assert [bytes[0]] == bytes;
    } else if |bytes| == 2 {
      DecodeTwoBytes(decoder, encoder, behavior, last, bytes[0], bytes[1]);
      assert [bytes[0], bytes[1]] == bytes;
    }
  }

  lemma FirstThree(bytes: seq<Byte>)
    requires |bytes| >= 3
    ensures bytes == [bytes[0], bytes[1], bytes[2]] + bytes[3..]
  {
  }

  lemma {:induction false} DecodeEncode(decoder: Alphabet, encoder: Alphabet, behavior: Behavior, last: Sextet,
                                        bytes: seq<Byte>)
    requires Understands(decoder, encoder)
    ensures DecodeFrom(decoder, behavior, 0, last, Encode(encoder, bytes)) == Outcome(bytes, true)
    decreases |bytes|
  {
    if |bytes| < 3 {
      DecodeLastBytes(decoder, encoder, behavior, last, bytes);
    } else {
      var rest := Encode(encoder, bytes[3..]);
      var next, digit := DecodeThreeBytes(decoder, encoder, behavior, last, bytes[0], bytes[1], bytes[2], rest);
      DecodeEncode(next, encoder, behavior, digit, bytes[3..]);
      FirstThree(bytes);
    }
  }

  /** Decoding undoes encoding, for either alphabet, detected or given, strict or loose. */
  lemma RoundTrip(decoder: Alphabet, encoder: Alphabet, behavior: Behavior, bytes: seq<Byte>)
    requires Understands(decoder, encoder)
    ensures Decode(decoder, behavior, Encode(encoder, bytes)) == Outcome(bytes, true)
  {
    DecodeEncode(decoder, encoder, behavior, 0, bytes);
  }

  // ---------- What is accepted ----------

  predicate InAlphabet(alphabet: Alphabet, c: Byte) {
    Value(alphabet, c).Valid?
  }

  /** Characters of the alphabet, then padding; loose decoding does not look behind the first padding character. */
  predicate WellFormed(alphabet: Alphabet, behavior: Behavior, s: seq<Byte>, k: nat) {
    && k <= |s|
    && (forall i :: 0 <= i < k ==> InAlphabet(alphabet, s[i]))
    && (k < |s| ==> s[k] == PAD && (behavior == Loose || AllPads(s[k + 1..])))
  }

  lemma WellFormedStep(alphabet: Alphabet, behavior: Behavior, s: seq<Byte>, k: nat)
    requires s != [] && InAlphabet(alphabet, s[0])
    ensures WellFormed(alphabet, behavior, s, k + 1) <==> WellFormed(alphabet, behavior, s[1..], k)
  {
    if k < |s[1..]| {
      assert s[1..][k + 1..] == s[k + 2..];
    }
    assert forall i :: 0 <= i < |s[1..]| ==> s[1..][i] == s[i + 1];
    if WellFormed(alphabet, behavior, s[1..], k) {
      forall i | 0 <= i < k + 1
        ensures InAlphabet(alphabet, s[i])
      {
        assert i > 0 ==> InAlphabet(alphabet, s[1..][i - 1]);
      }
    }
  }

  /** Decoding succeeds exactly on well-formed text. */
  lemma {:induction false} AcceptedIff(alphabet: Alphabet, behavior: Behavior, bits: Bits, last: Sextet, s: seq<Byte>)
    requires alphabet != Auto
    ensures DecodeFrom(alphabet, behavior, bits, last, s).ok <==> exists k :: WellFormed(alphabet, behavior, s, k)
    decreases |s|
  {
    if s == [] || s[0] == PAD {
      assert !InAlphabet(alphabet, PAD);
      if DecodeFrom(alphabet, behavior, bits, last, s).ok {
        assert WellFormed(alphabet, behavior, s, 0);
      }
    } else if InAlphabet(alphabet, s[0]) {
      AcceptedIff(alphabet, behavior, NextBits(bits), Value(alphabet, s[0]).value, s[1..]);
      if k: nat :| WellFormed(alphabet, behavior, s[1..], k) {
        WellFormedStep(alphabet, behavior, s, k);
      }
      if k: nat :| WellFormed(alphabet, behavior, s, k) {
        assert k > 0;
        WellFormedStep(alphabet, behavior, s, k - 1);
      }
    }
  }

  lemma ValueOfEither(c: Byte)
    ensures Value(Auto, c).Invalid? <==> Value(Standard, c).Invalid? && Value(UrlSafe, c).Invalid?
    ensures Value(Standard, c).Valid? ==> Value(Standard, c).alphabet == Standard && Value(Standard, c).value == Value(Auto, c).value
    ensures Value(UrlSafe, c).Valid? ==> Value(UrlSafe, c).alphabet == UrlSafe && Value(UrlSafe, c).value == Value(Auto, c).value
    ensures Value(Auto, c).Valid? ==>
              match Value(Auto, c).alphabet
              case Auto => Value(Standard, c).Valid? && Value(UrlSafe, c).Valid?
              case Standard => Value(Standard, c).Valid? && Value(UrlSafe, c).Invalid?
              case UrlSafe => Value(UrlSafe, c).Valid? && Value(Standard, c).Invalid?
  {
  }

  /**
   Detecting the alphabet accepts what one of the two alphabets accepts, with the same result;
   it never mixes them.
   */
  lemma {:induction false} AutoIsEither(behavior: Behavior, bits: Bits, last: Sextet, s: seq<Byte>)
    ensures DecodeFrom(Auto, behavior, bits, last, s).ok
       <==> DecodeFrom(Standard, behavior, bits, last, s).ok || DecodeFrom(UrlSafe, behavior, bits, last, s).ok
    ensures DecodeFrom(Standard, behavior, bits, last, s).ok ==>
              DecodeFrom(Standard, behavior, bits, last, s) == DecodeFrom(Auto, behavior, bits, last, s)
    ensures DecodeFrom(UrlSafe, behavior, bits, last, s).ok ==>
              DecodeFrom(UrlSafe, behavior, bits, last, s) == DecodeFrom(Auto, behavior, bits, last, s)
    decreases |s|
  {
    if s != [] && s[0] != PAD {
      ValueOfEither(s[0]);
      var value := Value(Auto, s[0]);
      if value.Valid? && value.alphabet == Auto {
        AutoIsEither(behavior, NextBits(bits), value.value, s[1..]);
      }
    }
  }

  // ---------- The alphabets of the standard ----------

  /** The ends of the stretches of tables 1 and 2 of RFC 4648, with consecutive characters in between. */
  lemma AlphabetSpelled(alphabet: Alphabet, v: nat)
    requires v < 63
    ensures Digit(alphabet, 0) == 'A' as int && Digit(alphabet, 25) == 'Z' as int
    ensures Digit(alphabet, 26) == 'a' as int && Digit(alphabet, 51) == 'z' as int
    ensures Digit(alphabet, 52) == '0' as int && Digit(alphabet, 61) == '9' as int
    ensures v != 25 && v != 51 && v < 61 ==> Digit(alphabet, v + 1) == Digit(alphabet, v) + 1
    ensures Digit(Standard, 62) == Digit(Auto, 62) == '+' as int && Digit(Standard, 63) == Digit(Auto, 63) == '/' as int
    ensures Digit(UrlSafe, 62) == '-' as int && Digit(UrlSafe, 63) == '_' as int
  {
  }

  /** Bytes in groups of three are encoded group by group. */
  lemma {:induction false} EncodeConcat(alphabet: Alphabet, a: seq<Byte>, b: seq<Byte>)
    requires |a| % 3 == 0
    ensures Encode(alphabet, a + b) == Encode(alphabet, a) + Encode(alphabet, b)
    decreases |a|
  {
    if a == [] {
      assert a + b == b;
    } else {
      assert (a + b)[3..] == a[3..] + b;
      EncodeConcat(alphabet, a[3..], b);
      Associative(Quantum(alphabet, Digits(Group(a[0], a[1], a[2])), 4), Encode(alphabet, a[3..]), Encode(alphabet, b));
    }
  }

  function Code(c: char): Byte {
    c as int % 256
  }

  lemma EncodedGroup(alphabet: Alphabet, a: Byte, b: Byte, c: Byte)
    ensures Encode(alphabet, [a, b, c])
         == [Digit(alphabet, a / 4), Digit(alphabet, a % 4 * 16 + b / 16), Digit(alphabet, b % 16 * 4 + c / 64),
             Digit(alphabet, c % 64)]
    ensures Encode(alphabet, [a, b]) == Encode(alphabet, [a, b, 0])[..3] + [PAD]
    ensures Encode(alphabet, [a]) == Encode(alphabet, [a, 0, 0])[..2] + [PAD, PAD]
  {
    DigitsOfBytes(a, b, c);
    DigitsOfBytes(a, b, 0);
    DigitsOfBytes(a, 0, 0);
    assert [a, b, c][3..] == [] && [a, b, 0][3..] == [] && [a, 0, 0][3..] == [];
  }

  lemma FirstVectorDigits()
    ensures Code('f') == 102 && Code('o') == 111
    ensures Digit(Standard, 25) == Code('Z') && Digit(Standard, 32) == Code('g') && Digit(Standard, 38) == Code('m')
    ensures Digit(Standard, 60) == Code('8') && Digit(Standard, 61) == Code('9') && Digit(Standard, 47) == Code('v')
  {
  }

  /** Three test vectors of section 10 of RFC 4648: for `f`, `fo` and `foo`. */
  lemma StandardVectors()
    ensures Encode(Standard, [Code('f')]) == [Code('Z'), Code('g'), Code('='), Code('=')]
    ensures Encode(Standard, [Code('f'), Code('o')]) == [Code('Z'), Code('m'), Code('8'), Code('=')]
    ensures Encode(Standard, [Code('f'), Code('o'), Code('o')]) == [Code('Z'), Code('m'), Code('9'), Code('v')]
  {
    FirstVectorDigits();
    EncodedGroup(Standard, 102, 111, 111);
    EncodedGroup(Standard, 102, 111, 0);
    EncodedGroup(Standard, 102, 0, 0);
  }

  /** The bound is the least multiple of three that is no less than three quarters of the size. */
  lemma MaxDecodeSizeIsTight(size: nat)
    ensures MaxDecodeSize(size) % 3 == 0
    ensures 3 * size <= 4 * MaxDecodeSize(size) < 3 * size + 12
    ensures size % 4 == 0 ==> 4 * MaxDecodeSize(size) == 3 * size
  {
    var m := size / 4 + if size % 4 != 0 then 1 else 0;
    assert MaxDecodeSize(size) == m * 3;
  }
}
