/** Patterns and classes written out, and what they mean: the meaning of `Glob` is the usual one. */
module GlobSpelling {
  import opened Glob

  // ---------- Classes spelled out ----------

  /** The characters that mean something in a class. */
  predicate IsPlainBody(body: string) {
    forall c :: c in body ==> c != '!' && c != '-' && c != ']'
  }

  lemma {:induction false} PlainItems(body: string, c: char)
    requires IsPlainBody(body)
    ensures Listed(Items(body), c) <==> c in body
    decreases |body|
  {
    if body != "" {
      ListedStep(Items(body), c);
      assert forall x :: x in body[1..] ==> x in body;
      PlainItems(body[1..], c);
      assert forall x :: x in body <==> x == body[0] || x in body[1..];
      assert |body| >= 3 ==> body[1] in body;
    }
  }

  /** A class of plain characters holds these, and with a `!` in front it holds all others. */
  lemma PlainClass(body: string, c: char)
    requires IsPlainBody(body)
    ensures InClass(body, c) <==> c in body
    ensures InClass("!" + body, c) <==> c !in body
  {
    PlainItems(body, c);
    assert ("!" + body)[1..] == body;
    assert body != "" ==> body[0] in body;
  }

  /** Where a byte stands in the order of `char` where it is signed. */
  function Rank(c: char): int {
    (c as int + 128) % 256
  }

  /** A range of bytes holds what lies between its ends, and with a `!` in front all others. */
  lemma RangeClass(lo: char, hi: char, c: char)
    requires lo as int < 256 && hi as int < 256 && c as int < 256
    requires lo != '!' && lo != '-' && lo != ']' && hi != ']'
    ensures InClass([lo, '-', hi], c) <==> Rank(lo) <= Rank(c) <= Rank(hi)
    ensures InClass(['!', lo, '-', hi], c) <==> !(Rank(lo) <= Rank(c) <= Rank(hi))
  {
    var body := [lo, '-', hi];
    assert body[3..] == "" && ['!', lo, '-', hi][1..] == body;
    assert Items(body) == [Range(lo, hi)] + Items("") == [Range(lo, hi)];
    ListedStep(Items(body), c);
  }

  /** A `]` or `-` at the start, or behind the `!`, is an ordinary character of the class. */
  lemma LeadingLiteral(first: char, body: string, c: char)
    requires IsPlainBody(body) && (first == ']' || first == '-')
    ensures InClass([first] + body, c) <==> c == first || c in body
    ensures InClass("!" + ([first] + body), c) <==> !(c == first || c in body)
  {
    var whole := [first] + body;
    assert whole[1..] == body && ("!" + whole)[1..] == whole;
    PlainItems(body, c);
    ListedStep(ClassItems(whole), c);
  }

  // ---------- Patterns spelled out ----------

  function SpellToken(t: Token): string {
    match t
    case DoubleStar => "**"
    case Star => "*"
    case AnyChar => "?"
    case Class(body) => "[" + body + "]"
    case Lit(c) => [c]
  }

  function SpellTokens(ts: seq<Token>): string {
    if ts == [] then "" else SpellToken(ts[0]) + SpellTokens(ts[1..])
  }

  /** A class body in which a `]` stands at most in front. */
  predicate IsBody(body: string) {
    body != "" && ']' !in body[1..]
  }

  /** Tokens that can be told apart: no star behind a single star, no special character as a literal. */
  predicate AreSpellable(ts: seq<Token>) {
    ts != [] ==>
      && (ts[0].Star? ==> |ts| > 1 ==> !ts[1].Star? && !ts[1].DoubleStar?)
      && (ts[0].Lit? ==> ts[0].c != '*' && ts[0].c != '?' && ts[0].c != '[')
      && (ts[0].Class? ==> IsBody(ts[0].body))
      && AreSpellable(ts[1..])
  }

  lemma StarSpelled(rest: string)
    ensures Tokens("**" + rest) == [DoubleStar] + Tokens(rest)
    ensures (rest != "" ==> rest[0] != '*') ==> Tokens("*" + rest) == [Star] + Tokens(rest)
  {
    assert ("**" + rest)[2..] == rest && ("*" + rest)[1..] == rest;
    assert rest != "" ==> ("*" + rest)[1] == rest[0];
  }

  lemma LiteralSpelled(c: char, rest: string)
    ensures Tokens("?" + rest) == [AnyChar] + Tokens(rest)
    ensures c != '*' && c != '?' && c != '[' ==> Tokens([c] + rest) == [Lit(c)] + Tokens(rest)
  {
    assert ("?" + rest)[1..] == rest && ([c] + rest)[1..] == rest;
  }

  lemma {:induction false} CloseAt(p: string, i: nat, j: nat)
    requires i <= j < |p| && p[j] == ']' && ']' !in p[i..j]
    ensures FindClose(p, i) == j
    decreases j - i
  {
    if i < j {
      assert p[i..j][0] == p[i] && p[i..j][1..] == p[i + 1..j];
      CloseAt(p, i + 1, j);
    }
  }

  lemma ClassSpelled(body: string, rest: string)
    requires IsBody(body)
    ensures Tokens("[" + body + "]" + rest) == [Class(body)] + Tokens(rest)
  {
    var p, n := "[" + body + "]" + rest, |body| + 1;
    assert p[0] == '[' && p[1] == body[0] && p[n] == ']' && p[1..n] == body && p[n + 1..] == rest;
    assert p[2..n] == body[1..];
    if body[0] == ']' || body[0] == '-' {
      CloseAt(p, 2, n);
    } else {
      assert body == [body[0]] + body[1..];
      CloseAt(p, 1, n);
    }
  }

  lemma SpelledStart(ts: seq<Token>)
    requires ts != [] && AreSpellable(ts) && SpellTokens(ts) != "" && SpellTokens(ts)[0] == '*'
    ensures ts[0].Star? || ts[0].DoubleStar?
  {
    assert SpellTokens(ts)[0] == SpellToken(ts[0])[0];
  }

  /** A pattern written for given tokens is read as these tokens. */
  lemma {:induction false} TokensSpelled(ts: seq<Token>)
    requires AreSpellable(ts)
    ensures Tokens(SpellTokens(ts)) == ts
  {
    if ts != [] {
      var rest := SpellTokens(ts[1..]);
      TokensSpelled(ts[1..]);
      assert ts == [ts[0]] + ts[1..];
      match ts[0]
      case DoubleStar => StarSpelled(rest);
      case Star =>
        if |ts| > 1 && rest != "" && rest[0] == '*' {
          SpelledStart(ts[1..]);
        }
        StarSpelled(rest);
      case AnyChar => LiteralSpelled('?', rest);
      case Class(body) => ClassSpelled(body, rest);
      case Lit(c) => LiteralSpelled(c, rest);
    }
  }

  /** A bracket without a closing one behind the first character of its class is an ordinary character. */
  lemma UnclosedBracket(rest: string)
    requires rest == "" || ']' !in rest[1..]
    ensures Tokens("[" + rest) == [Lit('[')] + Tokens(rest)
  {
    var p := "[" + rest;
    assert p[1..] == rest;
    assert forall i :: 2 <= i < |p| ==> p[i] == rest[1..][i - 2];
  }

  /** Two stars describe everything. */
  lemma AnythingMatches(s: string)
    ensures Matches([DoubleStar], s)
  {
    assert s[|s|..] == "" && [DoubleStar][1..] == [];
  }

  /** One star describes what has no slash. */
  lemma StarMatchesIff(s: string)
    ensures Matches([Star], s) <==> '/' !in s
  {
    assert [Star][1..] == [] && s[|s|..] == "" && s[..|s|] == s;
    if Matches([Star], s) {
      var k :| 0 <= k <= |s| && '/' !in s[..k] && Matches([Star][1..], s[k..]);
      assert k == |s|;
    }
  }

  /** A question mark describes one character other than a slash. */
  lemma AnyCharMatchesIff(s: string)
    ensures Matches([AnyChar], s) <==> |s| == 1 && s[0] != '/'
  {
    assert [AnyChar][1..] == [];
  }
}
