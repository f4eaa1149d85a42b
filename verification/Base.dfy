/** Small shared vocabulary: optional values, bytes, white space, facts about sequences. */
module Base {

  datatype Option<+T> = None | Some(value: T)

  type Byte = b: int | 0 <= b < 256

  /** `std::isspace` in the "C" locale. */
  predicate IsSpace(c: char) {
    c == ' ' || c == '\t' || c == '\n' || c == '\r' || c as int == 11 || c as int == 12
  }

  /** The codes 9 to 13, and the space. */
  lemma SpacesSpelled(c: char)
    ensures IsSpace(c) <==> 9 <= c as int <= 13 || c as int == 32
  {
  }

  /** Removes every trailing white-space character. */
  function TrimEnd(s: string): (r: string)
    ensures r <= s
    ensures r != "" ==> !IsSpace(r[|r| - 1])
    ensures forall i :: |r| <= i < |s| ==> IsSpace(s[i])
  {
    if s != "" && IsSpace(s[|s| - 1]) then TrimEnd(s[..|s| - 1]) else s
  }

  /** Removes at most one trailing white-space character. */
  function TrimEndOnce(s: string): string {
    if s != "" && IsSpace(s[|s| - 1]) then s[..|s| - 1] else s
  }

  /** Removes at most one leading white-space character. */
  function TrimStartOnce(s: string): string {
    if s != "" && IsSpace(s[0]) then s[1..] else s
  }

  /** Trimming the end of a longer text never loses what trimming the shorter text kept. */
  lemma TrimEndMonotone(s: string, t: string)
    requires s <= t
    ensures TrimEnd(s) <= TrimEnd(t)
  {
    var kept := |TrimEnd(s)|;
    if kept > 0 {
      assert !IsSpace(t[kept - 1]);
    }
  }

  function HexDigit(c: char): (r: Option<nat>)
    ensures r.Some? ==> r.value < 16
  {
    if '0' <= c <= '9' then Some(c as int - '0' as int)
    else if 'a' <= c <= 'f' then Some(c as int - 'a' as int + 10)
    else if 'A' <= c <= 'F' then Some(c as int - 'A' as int + 10)
    else None
  }

  lemma RestFrom<T>(s: seq<T>, i: nat, n: nat)
    requires i + n <= |s|
    ensures s[i..][n..] == s[i + n..]
  {
  }

  lemma Associative<T>(a: seq<T>, b: seq<T>, c: seq<T>)
    ensures a + (b + c) == a + b + c
  {
  }

  lemma AroundElement<T>(s: seq<T>, n: nat)
    requires n < |s|
    ensures s == s[..n] + ([s[n]] + s[n + 1..])
    ensures n == |s| - 1 ==> s == s[..n] + [s[n]]
  {
  }
}
