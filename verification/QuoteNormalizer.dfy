/**
 `normalize_quotes_to_json`: the transducer that turns Python-style single-quoted literals
 into JSON double-quoted ones, and what it preserves.
 */
module QuoteNormalizer {
  import opened Base

  datatype Quote = Outside | InSingle | InDouble

  // ---------- The transducer, one unit (a character or an escape pair) at a time ----------

  datatype Unit = Unit(out: string, used: nat, next: Quote)

  function NormalizeUnit(q: Quote, s: string): (u: Unit)
    requires s != ""
    ensures 1 <= u.used <= |s| && u.out != ""
  {
    var c := s[0];
    if c == '\\' && |s| >= 2 then
      match q
      case InSingle =>
        if s[1] == '\'' then Unit("'", 2, q)
        else if s[1] == '"' then Unit("\\\"", 2, q)
        else Unit(s[..2], 2, q)
      case InDouble => Unit(s[..2], 2, q)
      case Outside => Unit("\\", 1, q)
    else if c == '"' then
      match q
      case InSingle => Unit("\\\"", 1, q)
      case InDouble => Unit("\"", 1, Outside)
      case Outside => Unit("\"", 1, InDouble)
    else if c == '\'' then
      match q
      case InDouble => Unit("'", 1, q)
      case InSingle => Unit("\"", 1, Outside)
      case Outside => Unit("\"", 1, InSingle)
    else Unit([c], 1, q)
  }

  function NormalizeFrom(q: Quote, s: string): (string, Quote)
    decreases |s|
  {
    if s == "" then ("", q)
    else
      var u := NormalizeUnit(q, s);
      var tail := NormalizeFrom(u.next, s[u.used..]);
      (u.out + tail.0, tail.1)
  }

  function Normalize(s: string): string {
    NormalizeFrom(Outside, s).0
  }

  function Mode(inSingle: bool, inDouble: bool): Quote {
    if inSingle then InSingle else if inDouble then InDouble else Outside
  }

  /** `result` is the output for the first `i` characters, which leave the reader in mode `q`. */
  ghost predicate Written(input: string, result: string, q: Quote, i: nat) {
    i <= |input| && Normalize(input) == result + NormalizeFrom(q, input[i..]).0
  }

  lemma WriteUnit(input: string, result: string, q: Quote, i: nat)
    requires Written(input, result, q, i) && i < |input|
    ensures var u := NormalizeUnit(q, input[i..]);
            Written(input, result + u.out, u.next, i + u.used)
  {
    var u := NormalizeUnit(q, input[i..]);
    assert input[i..][u.used..] == input[i + u.used..];
    Associative(result, u.out, NormalizeFrom(u.next, input[i + u.used..]).0);
  }

  /** The loop over two flags and an index; an escape pair inside a literal moves the index by two. */
  method NormalizeQuotesToJson(input: string) returns (result: string)
    ensures result == Normalize(input)
  {
    result := "";
    var inSingle, inDouble := false, false;
    var i := 0;
    while i < |input|
      invariant !(inSingle && inDouble)
      invariant 0 <= i && Written(input, result, Mode(inSingle, inDouble), i)
    {
      var c := input[i];
      var piece, used := [c], 1;
      ghost var u := NormalizeUnit(Mode(inSingle, inDouble), input[i..]);
      WriteUnit(input, result, Mode(inSingle, inDouble), i);
      if c == '\\' && i + 1 < |input| {
        var next := input[i + 1];
        assert input[i..][..2] == [c] + [next];
        if inSingle {
          piece := if next == '\'' then "'" else if next == '"' then "\\\"" else [c] + [next];
          used := 2;
        } else if inDouble {
          piece := [c] + [next];
          used := 2;
        }
      } else if c == '"' {
        if inSingle {
          piece := "\\\"";
        } else {
          inDouble := !inDouble;
        }
      } else if c == '\'' {
        if !inDouble {
          inSingle := !inSingle;
          piece := "\"";
        }
      }
      assert Unit(piece, used, Mode(inSingle, inDouble)) == u;
      result := result + piece;
      i := i + used;
    }
  }

  // ---------- A reader of quoted text, for either kind of quote ----------

  /** What a reader of the text sees; the kind of quote around a literal is not part of it. */
  datatype Mark = Raw(c: char) | Open | Close | Plain(c: char) | Escaped(c: char) | LoneBackslash

  /** `\"` is a quote in either literal, `\'` only where the delimiter makes it necessary. */
  function Decoded(q: Quote, c: char): Mark {
    if c == '"' || (c == '\'' && q == InSingle) then Plain(c) else Escaped(c)
  }

  function Read(q: Quote, s: string): seq<Mark>
    decreases |s|
  {
    if s == "" then []
    else if q == Outside then
      if s[0] == '"' then [Open] + Read(InDouble, s[1..])
      else if s[0] == '\'' then [Open] + Read(InSingle, s[1..])
      else [Raw(s[0])] + Read(Outside, s[1..])
    else if s[0] == '\\' then
      if |s| == 1 then [LoneBackslash] else [Decoded(q, s[1])] + Read(q, s[2..])
    else if s[0] == (if q == InSingle then '\'' else '"') then [Close] + Read(Outside, s[1..])
    else [Plain(s[0])] + Read(q, s[1..])
  }

  function Doubled(q: Quote): Quote {
    if q == InSingle then InDouble else q
  }

  /** The same for one unit in front of a tail that already has the right meaning. */
  lemma UnitKeepsMeaning(q: Quote, s: string, tail: string)
    requires s != ""
    requires var u := NormalizeUnit(q, s);
             Read(Doubled(u.next), tail) == Read(u.next, s[u.used..]) && (u.used == |s| ==> tail == "")
    ensures Read(Doubled(q), NormalizeUnit(q, s).out + tail) == Read(q, s)
  {
    var u := NormalizeUnit(q, s);
    var out := u.out + tail;
    assert out[|u.out|..] == tail;
    if q == Outside {
    } else if s[0] == '\\' && |s| >= 2 {
      if |u.out| == 2 {
        assert out[0] == '\\' && out[1] == s[1];
      }
    } else if |u.out| == 2 {
      assert out[0] == '\\' && out[1] == '"';
    } else {
      assert out[0] == u.out[0];
    }
  }

  /** Every literal keeps its decoded content, and what stands between literals is unchanged. */
  lemma {:induction false} NormalizeKeepsMeaning(q: Quote, s: string)
    ensures Read(Doubled(q), NormalizeFrom(q, s).0) == Read(q, s)
    decreases |s|
  {
    if s != "" {
      var u := NormalizeUnit(q, s);
      NormalizeKeepsMeaning(u.next, s[u.used..]);
      UnitKeepsMeaning(q, s, NormalizeFrom(u.next, s[u.used..]).0);
    }
  }

  // ---------- Only double quotes are left; identity and idempotence ----------

  /** No single quote opens a literal. */
  predicate OnlyDouble(q: Quote, s: string)
    decreases |s|
  {
    if s == "" then q != InSingle
    else if q == InSingle then false
    else if q == Outside then s[0] != '\'' && OnlyDouble(if s[0] == '"' then InDouble else Outside, s[1..])
    else if s[0] == '\\' && |s| >= 2 then OnlyDouble(q, s[2..])
    else OnlyDouble(if s[0] == '"' then Outside else q, s[1..])
  }

  lemma UnitLeavesOnlyDouble(q: Quote, s: string, tail: string)
    requires s != "" && OnlyDouble(Doubled(NormalizeUnit(q, s).next), tail)
    requires NormalizeUnit(q, s).used == |s| ==> tail == ""
    ensures OnlyDouble(Doubled(q), NormalizeUnit(q, s).out + tail)
  {
    var u := NormalizeUnit(q, s);
    var out := u.out + tail;
    assert out[|u.out|..] == tail;
    if |u.out| == 2 {
      assert out[0] == '\\';
    } else {
      assert out[0] == u.out[0];
    }
  }

  /** Every literal of the output is double-quoted. */
  lemma {:induction false} NormalizeLeavesOnlyDouble(q: Quote, s: string)
    ensures OnlyDouble(Doubled(q), NormalizeFrom(q, s).0)
    decreases |s|
  {
    if s != "" {
      var u := NormalizeUnit(q, s);
      NormalizeLeavesOnlyDouble(u.next, s[u.used..]);
      UnitLeavesOnlyDouble(q, s, NormalizeFrom(u.next, s[u.used..]).0);
    }
  }

  /** The transducer is the identity exactly on the texts in which no single quote opens a literal. */
  lemma {:induction false} NormalizeIsIdentityIff(q: Quote, s: string)
    requires q != InSingle
    ensures NormalizeFrom(q, s).0 == s <==> (s == "" || OnlyDouble(q, s))
    decreases |s|
  {
    if s != "" {
      var u := NormalizeUnit(q, s);
      var tail := NormalizeFrom(u.next, s[u.used..]).0;
      var out := u.out + tail;
      if u.next == InSingle {
        assert out[0] == '"';
      } else {
        NormalizeIsIdentityIff(u.next, s[u.used..]);
        assert u.out == s[..u.used];
        assert s == s[..u.used] + s[u.used..];
        assert out[u.used..] == tail;
      }
    }
  }

  lemma {:induction false} WithoutSingleQuotesOnlyDouble(q: Quote, s: string)
    requires q != InSingle && '\'' !in s
    ensures OnlyDouble(q, s)
    decreases |s|
  {
    if s != "" {
      WithoutSingleQuotesOnlyDouble(if s[0] == '"' then (if q == InDouble then Outside else InDouble) else q, s[1..]);
      if |s| >= 2 {
        WithoutSingleQuotesOnlyDouble(q, s[2..]);
      }
    }
  }

  /** Idempotent, and the identity on text without single quotes. */
  lemma NormalizeIdempotent(s: string)
    ensures Normalize(Normalize(s)) == Normalize(s)
    ensures '\'' !in s ==> Normalize(s) == s
  {
    NormalizeLeavesOnlyDouble(Outside, s);
    NormalizeIsIdentityIff(Outside, Normalize(s));
    if '\'' !in s {
      WithoutSingleQuotesOnlyDouble(Outside, s);
      NormalizeIsIdentityIff(Outside, s);
    }
  }

  // ---------- Split input: streaming ----------

  /** The text stops inside a literal, right after a backslash whose partner is still missing. */
  predicate CutsEscape(q: Quote, s: string)
    decreases |s|
  {
    if s == "" then false
    else if s == "\\" then q != Outside
    else
      var u := NormalizeUnit(q, s);
      CutsEscape(u.next, s[u.used..])
  }

  lemma NormalizeUnitOfExtension(q: Quote, a: string, b: string)
    requires a != "" && (a == "\\" ==> q == Outside)
    ensures var u := NormalizeUnit(q, a);
            NormalizeUnit(q, a + b) == u && (a + b)[u.used..] == a[u.used..] + b
  {
    if |a| >= 2 {
      assert (a + b)[..2] == a[..2];
    }
  }

  lemma {:induction false} NormalizeSplit(q: Quote, a: string, b: string)
    requires !CutsEscape(q, a)
    ensures var first := NormalizeFrom(q, a);
            var second := NormalizeFrom(first.1, b);
            NormalizeFrom(q, a + b) == (first.0 + second.0, second.1)
    decreases |a|
  {
    if a == "" {
      assert a + b == b;
      assert "" + NormalizeFrom(q, b).0 == NormalizeFrom(q, b).0;
    } else {
      var u := NormalizeUnit(q, a);
      NormalizeUnitOfExtension(q, a, b);
      NormalizeSplit(u.next, a[u.used..], b);
      var first := NormalizeFrom(u.next, a[u.used..]);
      var second := NormalizeFrom(first.1, b);
      Associative(u.out, first.0, second.0);
    }
  }

  /**
   What has been written for a partial text stays a prefix of what is written for its
   continuation, except in one case: the text was cut between a backslash and a single quote
   inside a single-quoted literal, where the backslash already written should not have been.
   */
  lemma {:induction false} NormalizePrefixIff(q: Quote, a: string, b: string)
    ensures NormalizeFrom(q, a).0 <= NormalizeFrom(q, a + b).0
       <==> !(CutsEscape(q, a) && NormalizeFrom(q, a).1 == InSingle && b != "" && b[0] == '\'')
    decreases |a|
  {
    if a == "" {
    } else if a == "\\" {
      if b == "" {
        assert a + b == a;
      } else {
        assert NormalizeFrom(q, a).0 == "\\";
        assert (a + b)[1] == b[0];
        assert (a + b)[0] == '\\';
      }
    } else {
      var u := NormalizeUnit(q, a);
      NormalizeUnitOfExtension(q, a, b);
      NormalizePrefixIff(u.next, a[u.used..], b);
      PrefixAfterCommonHead(u.out, NormalizeFrom(u.next, a[u.used..]).0, NormalizeFrom(u.next, a[u.used..] + b).0);
    }
  }

  /** In that case the longer output does not start the shorter one either. */
  lemma {:induction false} UncleanCutForks(q: Quote, a: string, b: string)
    requires CutsEscape(q, a) && NormalizeFrom(q, a).1 == InSingle && b != "" && b[0] == '\''
    ensures !(NormalizeFrom(q, a + b).0 <= NormalizeFrom(q, a).0)
    decreases |a|
  {
    if a == "\\" {
      assert (a + b)[0] == '\\' && (a + b)[1] == b[0];
      assert NormalizeFrom(q, a).0 == "\\";
      assert NormalizeUnit(q, a + b).out == "'";
    } else {
      var u := NormalizeUnit(q, a);
      NormalizeUnitOfExtension(q, a, b);
      UncleanCutForks(u.next, a[u.used..], b);
      PrefixAfterCommonHead(u.out, NormalizeFrom(u.next, a[u.used..] + b).0, NormalizeFrom(u.next, a[u.used..]).0);
    }
  }

  lemma PrefixAfterCommonHead(h: string, x: string, y: string)
    ensures h + x <= h + y <==> x <= y
  {
    if h + x <= h + y {
      assert x == (h + x)[|h|..] && y == (h + y)[|h|..];
    }
  }
}
