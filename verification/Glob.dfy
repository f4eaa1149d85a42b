/**
 `glob_match`: a backtracking matcher, proved sound and complete for a declarative meaning of
 patterns.
 */
module Glob {
  // ---------- What a pattern means ----------

  datatype Token = DoubleStar | Star | AnyChar | Class(body: string) | Lit(c: char)

  /** Index of the first `]` from i on, or the length. */
  function FindClose(p: string, i: nat): (r: nat)
    requires i <= |p|
    ensures i <= r <= |p|
    ensures r < |p| ==> p[r] == ']'
    ensures ']' !in p[i..r]
    decreases |p| - i
  {
    if i < |p| && p[i] != ']' then
      var r := FindClose(p, i + 1);
      assert p[i..r] == [p[i]] + p[i + 1..r];
      r
    else i
  }

  /** Where the class that starts the pattern ends; a first `]` or `-` is part of it. */
  function ClassEnd(p: string): (r: nat)
    requires p != ""
    ensures 1 <= r <= |p|
  {
    FindClose(p, if |p| > 1 && (p[1] == ']' || p[1] == '-') then 2 else 1)
  }

  /** An unterminated `[` is an ordinary character. */
  function Tokens(p: string): seq<Token>
    decreases |p|
  {
    if p == "" then []
    else if p[0] == '*' then
      if |p| > 1 && p[1] == '*' then [DoubleStar] + Tokens(p[2..]) else [Star] + Tokens(p[1..])
    else if p[0] == '?' then [AnyChar] + Tokens(p[1..])
    else if p[0] == '[' && ClassEnd(p) < |p| then [Class(p[1..ClassEnd(p)])] + Tokens(p[ClassEnd(p) + 1..])
    else [Lit(p[0])] + Tokens(p[1..])
  }

  datatype Item = One(c: char) | Range(lo: char, hi: char)

  /** A byte as `char` compares it, where `char` is signed. */
  function SignedByte(c: char): int {
    if c as int < 128 then c as int else c as int - 256
  }

  predicate Covers(item: Item, c: char) {
    match item
    case One(d) => c == d
    case Range(lo, hi) => SignedByte(lo) <= SignedByte(c) <= SignedByte(hi)
  }

  function Items(body: string): seq<Item>
    decreases |body|
  {
    if body == "" then []
    else if |body| >= 3 && body[1] == '-' && body[2] != ']' then [Range(body[0], body[2])] + Items(body[3..])
    else [One(body[0])] + Items(body[1..])
  }

  /** Leading `]` or `-` is literal and does not start a range. */
  function ClassItems(body: string): seq<Item> {
    if body != "" && (body[0] == ']' || body[0] == '-') then [One(body[0])] + Items(body[1..]) else Items(body)
  }

  predicate Listed(items: seq<Item>, c: char) {
    exists i :: 0 <= i < |items| && Covers(items[i], c)
  }

  predicate InClass(body: string, c: char) {
    if body != "" && body[0] == '!' then !Listed(ClassItems(body[1..]), c) else Listed(ClassItems(body), c)
  }

  /** Whether a list of tokens describes a whole text. */
  predicate Matches(ts: seq<Token>, s: string)
    decreases |ts|
  {
    if ts == [] then s == ""
    else match ts[0]
      case DoubleStar => exists k :: 0 <= k <= |s| && Matches(ts[1..], s[k..])
      case Star => exists k :: 0 <= k <= |s| && '/' !in s[..k] && Matches(ts[1..], s[k..])
      case AnyChar => s != "" && s[0] != '/' && Matches(ts[1..], s[1..])
      case Class(body) => s != "" && InClass(body, s[0]) && Matches(ts[1..], s[1..])
      case Lit(c) => s != "" && s[0] == c && Matches(ts[1..], s[1..])
  }

  // ---------- The matcher ----------

  lemma ListedStep(items: seq<Item>, c: char)
    requires items != []
    ensures Listed(items, c) <==> Covers(items[0], c) || Listed(items[1..], c)
  {
    if Listed(items[1..], c) {
      var i :| 0 <= i < |items[1..]| && Covers(items[1..][i], c);
      assert Covers(items[i + 1], c);
    }
    if Listed(items, c) && !Covers(items[0], c) {
      var i :| 0 <= i < |items| && Covers(items[i], c);
      assert Covers(items[1..][i - 1], c);
    }
  }

  /** One turn of the loop over a class body. */
  predicate StartsRange(pattern: string, at: nat, end: nat)
    requires at < end <= |pattern|
  {
    at + 2 < end && pattern[at + 1] == '-' && pattern[at + 2] != ']'
  }

  lemma ItemsStep(c: char, pattern: string, at: nat, end: nat)
    requires at < end <= |pattern|
    ensures Listed(Items(pattern[at..end]), c) <==>
            if StartsRange(pattern, at, end)
            then Covers(Range(pattern[at], pattern[at + 2]), c) || Listed(Items(pattern[at + 3..end]), c)
            else c == pattern[at] || Listed(Items(pattern[at + 1..end]), c)
  {
    var rest := pattern[at..end];
    ListedStep(Items(rest), c);
    assert rest[1..] == pattern[at + 1..end];
    if StartsRange(pattern, at, end) {
      assert rest[3..] == pattern[at + 3..end];
    }
  }

  /** The loop of `glob_class_match`. */
  method ScanItems(c: char, pattern: string, start: nat, end: nat) returns (matched: bool)
    requires start <= end <= |pattern|
    ensures matched <==> Listed(Items(pattern[start..end]), c)
  {
    var at := start;
    while at < end
      invariant at <= end
      invariant Listed(Items(pattern[start..end]), c) <==> Listed(Items(pattern[at..end]), c)
    {
      ItemsStep(c, pattern, at, end);
      if at + 2 < end && pattern[at + 1] == '-' && pattern[at + 2] != ']' {
        if SignedByte(pattern[at]) <= SignedByte(c) <= SignedByte(pattern[at + 2]) {
          return true;
        }
        at := at + 3;
      } else {
        if pattern[at] == c {
          return true;
        }
        at := at + 1;
      }
    }
    return false;
  }

  /** `glob_class_match`, on the class body `pattern[start..end]`. */
  method GlobClassMatch(c: char, pattern: string, start: nat, end: nat) returns (r: bool)
    requires start <= end < |pattern| && pattern[end] == ']'
    ensures r <==> InClass(pattern[start..end], c)
  {
    var at := start;
    var negated := false;
    if pattern[at] == '!' {
      negated := true;
      at := at + 1;
    }
    ghost var body := pattern[at..end];
    assert negated ==> pattern[start..end][1..] == body;
    if pattern[at] == ']' || pattern[at] == '-' {
      if at == end {
        return negated;
      }
      ListedStep(ClassItems(body), c);
      if pattern[at] == c {
        return !negated;
      }
      assert body[1..] == pattern[at + 1..end];
      at := at + 1;
    }
    var matched := ScanItems(c, pattern, at, end);
    return if negated then !matched else matched;
  }

  lemma DoubleStarStep(ts: seq<Token>, s: string)
    ensures Matches([DoubleStar] + ts, s) <==> Matches(ts, s) || (s != "" && Matches([DoubleStar] + ts, s[1..]))
  {
    var both := [DoubleStar] + ts;
    assert both[1..] == ts && s[0..] == s;
    if s != "" {
      if Matches(both, s) && !Matches(ts, s) {
        var k :| 0 <= k <= |s| && Matches(ts, s[k..]);
        assert s[1..][k - 1..] == s[k..];
      }
      if Matches(both, s[1..]) {
        var k :| 0 <= k <= |s[1..]| && Matches(ts, s[1..][k..]);
        assert s[1..][k..] == s[k + 1..];
      }
    }
  }

  lemma StarStep(ts: seq<Token>, s: string, k: nat)
    requires k <= |s| && '/' !in s[..k] && (k < |s| ==> s[k] == '/')
    ensures Matches([Star] + ts, s) <==> exists j :: 0 <= j <= k && Matches(ts, s[j..])
  {
    assert ([Star] + ts)[1..] == ts;
    if Matches([Star] + ts, s) {
      var j :| 0 <= j <= |s| && '/' !in s[..j] && Matches(ts, s[j..]);
      assert forall i :: 0 <= i < j ==> s[i] == s[..j][i] && s[i] != '/';
    }
    if j :| 0 <= j <= k && Matches(ts, s[j..]) {
      assert s[..j] == s[..k][..j];
    }
  }

  lemma UnitStep(t: Token, ts: seq<Token>, s: string)
    requires t.AnyChar? || t.Class? || t.Lit?
    ensures Matches([t] + ts, s) <==> s != "" && Matches([t], s[..1]) && Matches(ts, s[1..])
  {
    assert ([t] + ts)[1..] == ts && [t][1..] == [];
    if s != "" {
      assert s[..1][1..] == "";
    }
  }

  /** `glob_match` on two C strings: true exactly when the pattern, as tokens, describes the text. */
  method GlobMatch(pattern: string, str: string) returns (r: bool)
    ensures r <==> Matches(Tokens(pattern), str)
    decreases |pattern|, |str|
  {
    if pattern == "" {
      return str == "";
    }
    if |pattern| > 1 && pattern[0] == '*' && pattern[1] == '*' {
      DoubleStarStep(Tokens(pattern[2..]), str);
      r := GlobMatch(pattern[2..], str);
      if r || str == "" {
        return;
      }
      r := GlobMatch(pattern, str[1..]);
      return;
    }
    if pattern[0] == '*' {
      r := MatchStar(pattern, str);
      return;
    }
    r := MatchOne(pattern, str);
  }

  method MatchStar(pattern: string, str: string) returns (r: bool)
    requires pattern != "" && pattern[0] == '*' && !(|pattern| > 1 && pattern[1] == '*')
    ensures r <==> Matches(Tokens(pattern), str)
    decreases |pattern|, |str|, 0
  {
    ghost var ts := Tokens(pattern[1..]);
    var k := 0;
    while k < |str| && str[k] != '/'
      invariant k <= |str| && '/' !in str[..k]
      invariant forall j :: 0 <= j < k ==> !Matches(ts, str[j..])
    {
      r := GlobMatch(pattern[1..], str[k..]);
      if r {
        assert Matches([Star] + ts, str) by {
          assert ([Star] + ts)[1..] == ts;
        }
        return;
      }
      assert str[..k + 1] == str[..k] + [str[k]];
      k := k + 1;
    }
    StarStep(ts, str, k);
    r := GlobMatch(pattern[1..], str[k..]);
  }

  method MatchOne(pattern: string, str: string) returns (r: bool)
    requires pattern != "" && pattern[0] != '*'
    ensures r <==> Matches(Tokens(pattern), str)
    decreases |pattern|, |str|, 0
  {
    if pattern[0] == '?' && str != "" && str[0] != '/' {
      r := GlobMatch(pattern[1..], str[1..]);
      UnitStep(AnyChar, Tokens(pattern[1..]), str);
      return;
    }
    if pattern[0] == '[' {
      var classEnd := 1;
      if |pattern| > 1 && (pattern[1] == ']' || pattern[1] == '-') {
        classEnd := 2;
      }
      ghost var first := classEnd;
      while classEnd < |pattern| && pattern[classEnd] != ']'
        invariant first <= classEnd <= |pattern| && FindClose(pattern, first) == FindClose(pattern, classEnd)
      {
        classEnd := classEnd + 1;
      }
      if classEnd < |pattern| {
        UnitStep(Class(pattern[1..classEnd]), Tokens(pattern[classEnd + 1..]), str);
        if str == "" {
          return false;
        }
        var matched := GlobClassMatch(str[0], pattern, 1, classEnd);
        if !matched {
          return false;
        }
        r := GlobMatch(pattern[classEnd + 1..], str[1..]);
        return;
      }
    }
    if str != "" && pattern[0] == str[0] {
      UnitStep(Lit(pattern[0]), Tokens(pattern[1..]), str);
      r := GlobMatch(pattern[1..], str[1..]);
      return;
    }
    return false;
  }

  /** What `c_str()` shows of a string: the part before the first NUL. */
  function CString(s: string): (r: string)
    ensures r <= s && '\0' !in r
    ensures r == s || s[|r|] == '\0'
  {
    if s == "" || s[0] == '\0' then "" else [s[0]] + CString(s[1..])
  }

  method GlobMatchStrings(pattern: string, str: string) returns (r: bool)
    ensures r <==> Matches(Tokens(CString(pattern)), CString(str))
  {
    r := GlobMatch(CString(pattern), CString(str));
  }

  // ---------- What a match says about the text ----------

  /** The texts a single token describes. */
  predicate Takes(t: Token, s: string) {
    match t
    case DoubleStar => true
    case Star => '/' !in s
    case AnyChar => |s| == 1 && s[0] != '/'
    case Class(body) => |s| == 1 && InClass(body, s[0])
    case Lit(c) => s == [c]
  }

  lemma FirstPart(ts: seq<Token>, s: string) returns (j: nat)
    requires ts != [] && Matches(ts, s)
    ensures j <= |s| && Takes(ts[0], s[..j]) && Matches(ts[1..], s[j..])
  {
    match ts[0]
    case DoubleStar => j :| 0 <= j <= |s| && Matches(ts[1..], s[j..]);
    case Star => j :| 0 <= j <= |s| && '/' !in s[..j] && Matches(ts[1..], s[j..]);
    case AnyChar => j := 1;
    case Class(_) => j := 1;
    case Lit(_) => j := 1;
  }

  lemma FirstPartSuffices(ts: seq<Token>, s: string, j: nat)
    requires ts != [] && j <= |s| && Takes(ts[0], s[..j]) && Matches(ts[1..], s[j..])
    ensures Matches(ts, s)
  {
    if !ts[0].DoubleStar? && !ts[0].Star? {
      assert j == 1 && s[0] == s[..j][0];
    }
  }

  lemma CutTwice(s: string, j: nat, k: nat)
    requires j <= k <= |s|
    ensures s[..k][..j] == s[..j] && s[..k][j..] == s[j..][..k - j] && s[j..][k - j..] == s[k..]
  {
  }

  lemma {:induction false} MatchesJoin(a: seq<Token>, b: seq<Token>, s: string, k: nat)
    requires k <= |s| && Matches(a, s[..k]) && Matches(b, s[k..])
    ensures Matches(a + b, s)
    decreases |a|
  {
    if a == [] {
      assert a + b == b && s[k..] == s;
    } else {
      var j := FirstPart(a, s[..k]);
      CutTwice(s, j, k);
      MatchesJoin(a[1..], b, s[j..], k - j);
      assert (a + b)[1..] == a[1..] + b;
      FirstPartSuffices(a + b, s, j);
    }
  }

  lemma {:induction false} MatchesSplit(a: seq<Token>, b: seq<Token>, s: string) returns (k: nat)
    requires Matches(a + b, s)
    ensures k <= |s| && Matches(a, s[..k]) && Matches(b, s[k..])
    decreases |a|
  {
    if a == [] {
      assert a + b == b && s[0..] == s;
      k := 0;
    } else {
      var j := FirstPart(a + b, s);
      assert (a + b)[1..] == a[1..] + b;
      var rest := MatchesSplit(a[1..], b, s[j..]);
      k := j + rest;
      CutTwice(s, j, k);
      FirstPartSuffices(a, s[..k], j);
    }
  }

  /** Patterns compose: a text matches two patterns in a row exactly when it splits into two matches. */
  lemma MatchesConcat(a: seq<Token>, b: seq<Token>, s: string)
    ensures Matches(a + b, s) <==> exists k :: 0 <= k <= |s| && Matches(a, s[..k]) && Matches(b, s[k..])
  {
    if Matches(a + b, s) {
      var k := MatchesSplit(a, b, s);
    }
    if k :| 0 <= k <= |s| && Matches(a, s[..k]) && Matches(b, s[k..]) {
      MatchesJoin(a, b, s, k);
    }
  }

  function Count(c: char, s: string): nat {
    if s == "" then 0 else (if s[0] == c then 1 else 0) + Count(c, s[1..])
  }

  lemma {:induction false} CountConcat(c: char, a: string, b: string)
    ensures Count(c, a + b) == Count(c, a) + Count(c, b)
  {
    if a == "" {
      assert a + b == b;
    } else {
      assert (a + b)[1..] == a[1..] + b;
      CountConcat(c, a[1..], b);
    }
  }

  lemma {:induction false} CountAbsent(c: char, s: string)
    requires c !in s
    ensures Count(c, s) == 0
  {
    if s != "" {
      CountAbsent(c, s[1..]);
    }
  }

  /** A pattern with neither `**` nor a class matches only texts with as many slashes as it has. */
  lemma {:induction false} MatchPreservesSlashes(pattern: string, s: string)
    requires Matches(Tokens(pattern), s)
    requires forall t :: t in Tokens(pattern) ==> !t.DoubleStar? && !t.Class?
    ensures Count('/', s) == Count('/', pattern)
    decreases |pattern|
  {
    if pattern != "" {
      var ts := Tokens(pattern);
      assert ts[0] in ts;
      assert ts[1..] == Tokens(pattern[1..]);
      var j := FirstPart(ts, s);
      MatchPreservesSlashes(pattern[1..], s[j..]);
      assert s == s[..j] + s[j..];
      CountConcat('/', s[..j], s[j..]);
      if ts[0].Lit? {
        assert s[..j] == [pattern[0]];
      } else {
        CountAbsent('/', s[..j]);
      }
    }
  }

  /** A pattern without `*`, `?` and `[` matches itself and nothing else. */
  lemma {:induction false} PlainPatternMatchesItself(pattern: string, s: string)
    requires '*' !in pattern && '?' !in pattern && '[' !in pattern
    ensures Matches(Tokens(pattern), s) <==> s == pattern
    decreases |pattern|
  {
    if pattern != "" {
      assert Tokens(pattern)[1..] == Tokens(pattern[1..]);
      if s != "" {
        PlainPatternMatchesItself(pattern[1..], s[1..]);
        assert s == [s[0]] + s[1..] && pattern == [pattern[0]] + pattern[1..];
      }
    }
  }
}
