/** Repository ids and cache folder names: `is_valid_repo_id` and the two name mappings. */
module RepoId {

  // ---------- string_replace_all ----------

  predicate FoundAt(s: string, search: string, p: nat) {
    p + |search| <= |s| && s[p..p + |search|] == search
  }

  /** Leftmost, non-overlapping replacement. */
  function ReplaceAll(s: string, search: string, replace: string): string
    decreases |s|
  {
    if search == "" || s == "" then s
    else if FoundAt(s, search, 0) then replace + ReplaceAll(s[|search|..], search, replace)
    else [s[0]] + ReplaceAll(s[1..], search, replace)
  }

  /** `find`: the first occurrence from a position on, or the length of the text. */
  method Find(s: string, search: string, from: nat) returns (p: nat)
    requires search != "" && from <= |s|
    ensures from <= p <= |s|
    ensures p < |s| ==> FoundAt(s, search, p)
    ensures forall q :: from <= q < p ==> !FoundAt(s, search, q)
  {
    p := from;
    while p < |s|
      invariant from <= p <= |s|
      invariant forall q :: from <= q < p ==> !FoundAt(s, search, q)
    {
      if FoundAt(s, search, p) {
        return;
      }
      p := p + 1;
    }
  }

  /** Text without an occurrence is kept. */
  lemma {:induction false} ReplaceSkips(s: string, search: string, replace: string, from: nat, p: nat)
    requires search != "" && from <= p <= |s|
    requires forall q :: from <= q < p ==> !FoundAt(s, search, q)
    ensures ReplaceAll(s[from..], search, replace) == s[from..p] + ReplaceAll(s[p..], search, replace)
    decreases p - from
  {
    if from < p {
      assert !FoundAt(s, search, from);
      assert |search| <= |s[from..]| ==> s[from..][..|search|] == s[from..from + |search|];
      assert s[from..][1..] == s[from + 1..];
      ReplaceSkips(s, search, replace, from + 1, p);
      assert s[from..p] == [s[from]] + s[from + 1..p];
    } else {
      assert s[from..p] == "";
    }
  }

  lemma ReplaceFound(s: string, search: string, replace: string, p: nat)
    requires search != "" && FoundAt(s, search, p)
    ensures ReplaceAll(s[p..], search, replace) == replace + ReplaceAll(s[p + |search|..], search, replace)
  {
    assert s[p..][..|search|] == s[p..p + |search|];
    assert s[p..][|search|..] == s[p + |search|..];
  }

  /** `builder` is the result for `s[..lastPos]`, and no occurrence starts between there and `pos`. */
  ghost predicate Replaced(s: string, search: string, replace: string, builder: string, lastPos: nat, pos: nat) {
    && lastPos <= pos <= |s|
    && (pos < |s| ==> FoundAt(s, search, pos))
    && (forall q :: lastPos <= q < pos ==> !FoundAt(s, search, q))
    && ReplaceAll(s, search, replace) == builder + ReplaceAll(s[lastPos..], search, replace)
  }

  lemma Assemble(a: string, b: string, c: string, d: string)
    ensures a + (b + (c + d)) == (a + b + c) + d
  {
  }

  lemma {:induction false} ReplaceOne(s: string, search: string, replace: string, builder: string, lastPos: nat,
                                      pos: nat)
    requires search != "" && Replaced(s, search, replace, builder, lastPos, pos) && pos < |s|
    ensures pos + |search| <= |s|
    ensures ReplaceAll(s, search, replace)
         == builder + s[lastPos..pos] + replace + ReplaceAll(s[pos + |search|..], search, replace)
  {
    ReplaceSkips(s, search, replace, lastPos, pos);
    ReplaceFound(s, search, replace, pos);
    Assemble(builder, s[lastPos..pos], replace, ReplaceAll(s[pos + |search|..], search, replace));
  }

  lemma ReplacedNext(s: string, search: string, replace: string, builder: string, lastPos: nat, pos: nat, next: nat)
    requires search != "" && Replaced(s, search, replace, builder, lastPos, pos) && pos < |s|
    requires pos + |search| <= next <= |s| && (next < |s| ==> FoundAt(s, search, next))
    requires forall q :: pos + |search| <= q < next ==> !FoundAt(s, search, q)
    ensures Replaced(s, search, replace, builder + s[lastPos..pos] + replace, pos + |search|, next)
  {
    ReplaceOne(s, search, replace, builder, lastPos, pos);
  }

  lemma ReplacedAll(s: string, search: string, replace: string, builder: string, lastPos: nat)
    requires search != "" && Replaced(s, search, replace, builder, lastPos, |s|)
    ensures ReplaceAll(s, search, replace) == builder + s[lastPos..]
  {
    ReplaceSkips(s, search, replace, lastPos, |s|);
    assert s[lastPos..|s|] + "" == s[lastPos..];
  }

  method StringReplaceAll(s: string, search: string, replace: string) returns (r: string)
    ensures r == ReplaceAll(s, search, replace)
  {
    if search == "" {
      return s;
    }
    var builder := "";
    var lastPos: nat := 0;
    var pos: nat := Find(s, search, lastPos);
    assert s[0..] == s;
    while pos < |s|
      invariant Replaced(s, search, replace, builder, lastPos, pos)
      decreases |s| - lastPos
    {
      ghost var before, from, at := builder, lastPos, pos;
      builder := builder + s[lastPos..pos] + replace;
      lastPos := pos + |search|;
      pos := Find(s, search, lastPos);
      ReplacedNext(s, search, replace, before, from, at, pos);
    }
    ReplacedAll(s, search, replace, builder, lastPos);
    r := builder + s[lastPos..];
  }

  // ---------- The two mappings ----------

  const PREFIX := "models--"

  /** What the mappings do behind the prefix. */
  function Fold(id: string): string {
    ReplaceAll(id, "/", "--")
  }

  function Unfold(folder: string): string {
    ReplaceAll(folder, "--", "/")
  }

  lemma FoldStep(id: string)
    requires id != ""
    ensures Fold(id) == (if id[0] == '/' then "--" else [id[0]]) + Fold(id[1..])
  {
    assert id[0..1] == [id[0]];
  }

  lemma UnfoldStep(f: string)
    requires f != ""
    ensures |f| >= 2 && f[0] == '-' && f[1] == '-' ==> Unfold(f) == "/" + Unfold(f[2..])
    ensures !(|f| >= 2 && f[0] == '-' && f[1] == '-') ==> Unfold(f) == [f[0]] + Unfold(f[1..])
  {
    if |f| >= 2 {
      assert f[0..2] == [f[0], f[1]];
    }
  }

  function FolderOf(id: string): string {
    PREFIX + Fold(id)
  }

  /** The empty string stands for a folder that is not a repository. */
  function RepoOf(folder: string): string {
    if PREFIX <= folder then Unfold(folder[|PREFIX|..]) else ""
  }

  /** The replacement runs over the prefix too, which has no slash. */
  method RepoToFolderName(repoId: string) returns (r: string)
    ensures r == FolderOf(repoId)
  {
    var result := PREFIX + repoId;
    FoldPrefix(PREFIX, repoId);
    r := StringReplaceAll(result, "/", "--");
  }

  lemma {:induction false} FoldPrefix(a: string, b: string)
    requires '/' !in a
    ensures Fold(a + b) == a + Fold(b)
    decreases |a|
  {
    if a == "" {
      assert a + b == b;
    } else {
      assert (a + b)[1..] == a[1..] + b;
      FoldStep(a + b);
      FoldPrefix(a[1..], b);
      assert a == [a[0]] + a[1..];
    }
  }

  method FolderNameToRepo(folder: string) returns (r: string)
    ensures r == RepoOf(folder)
  {
    if !(PREFIX <= folder) {
      return "";
    }
    r := StringReplaceAll(folder[|PREFIX|..], "--", "/");
  }

  // ---------- Valid ids ----------

  predicate IsBase(c: char) {
    'A' <= c <= 'Z' || 'a' <= c <= 'z' || '0' <= c <= '9' || c == '_'
  }

  predicate IsSpecial(c: char) {
    c == '/' || c == '.' || c == '-'
  }

  /** A character between two base characters, or a base character. */
  predicate LegalAt(id: string, i: nat)
    requires i < |id|
  {
    || IsBase(id[i])
    || (IsSpecial(id[i]) && 0 < i < |id| - 1 && IsBase(id[i - 1]) && IsBase(id[i + 1]))
  }

  function Slashes(id: string): nat {
    if id == "" then 0 else Slashes(id[..|id| - 1]) + if id[|id| - 1] == '/' then 1 else 0
  }

  predicate ValidRepoId(id: string) {
    0 < |id| <= 256 && Slashes(id) == 1 && forall i :: 0 <= i < |id| ==> LegalAt(id, i)
  }

  /** The automaton has read `id[..i]`; every character but the last one read is settled. */
  ghost predicate ReadUpTo(id: string, i: nat, slash: nat, special: bool) {
    && i <= |id|
    && slash == Slashes(id[..i])
    && (special <==> i == 0 || !IsBase(id[i - 1]))
    && (forall j :: 0 <= j < i - 1 ==> LegalAt(id, j))
    && (i > 0 && special ==> IsSpecial(id[i - 1]) && i > 1 && IsBase(id[i - 2]))
  }

  lemma ReadNext(id: string, i: nat, slash: nat, special: bool)
    requires ReadUpTo(id, i, slash, special) && i < |id|
    requires IsBase(id[i]) || (IsSpecial(id[i]) && !special)
    ensures ReadUpTo(id, i + 1, slash + if id[i] == '/' then 1 else 0, !IsBase(id[i]))
  {
    assert id[..i + 1][..i] == id[..i];
  }

  method IsValidRepoId(id: string) returns (r: bool)
    ensures r <==> ValidRepoId(id)
  {
    if id == "" || |id| > 256 {
      return false;
    }
    var slash := 0;
    var special := true;
    for i := 0 to |id|
      invariant ReadUpTo(id, i, slash, special)
    {
      var c := id[i];
      if IsBase(c) {
        ReadNext(id, i, slash, special);
        special := false;
      } else if IsSpecial(c) {
        if special {
          assert !LegalAt(id, i);
          return false;
        }
        ReadNext(id, i, slash, special);
        slash := slash + if c == '/' then 1 else 0;
        special := true;
      } else {
        assert !LegalAt(id, i);
        return false;
      }
    }
    assert id[..|id|] == id;
    assert special ==> !LegalAt(id, |id| - 1);
    return !special && slash == 1;
  }

  // ---------- Round trips ----------

  /** No `-` is followed by `-` or `/`. */
  predicate Unambiguous(id: string) {
    forall i :: 0 <= i < |id| - 1 && id[i] == '-' ==> id[i + 1] != '-' && id[i + 1] != '/'
  }

  lemma UnambiguousStep(id: string)
    requires id != ""
    ensures Unambiguous(id) <==>
            Unambiguous(id[1..]) && !(id[0] == '-' && |id| > 1 && (id[1] == '-' || id[1] == '/'))
  {
    if Unambiguous(id[1..]) {
      assert forall i :: 0 < i < |id| - 1 ==> id[i] == id[1..][i - 1] && id[i + 1] == id[1..][i];
    }
    if Unambiguous(id) {
      assert forall i :: 0 <= i < |id[1..]| ==> id[1..][i] == id[i + 1];
    }
  }

  /** An id is recovered from its folder name exactly when no `-` is followed by `-` or `/`. */
  lemma {:induction false} FoldUnfoldIff(id: string)
    ensures Unfold(Fold(id)) == id <==> Unambiguous(id)
    decreases |id|
  {
    if id != "" {
      var f := Fold(id);
      FoldStep(id);
      UnambiguousStep(id);
      FoldUnfoldIff(id[1..]);
      assert id == [id[0]] + id[1..];
      UnfoldStep(f);
      if id[0] == '/' {
        assert f[2..] == Fold(id[1..]);
        assert Unfold(f)[1..] == Unfold(f[2..]);
      } else {
        assert f[1..] == Fold(id[1..]);
        if |id| > 1 {
          FoldStep(id[1..]);
        }
        assert Unfold(f)[1..] == Unfold(f[1..]) || Unfold(f)[0] == '/';
      }
    }
  }

  lemma ValidIsUnambiguous(id: string)
    requires ValidRepoId(id)
    ensures Unambiguous(id)
  {
    forall i | 0 <= i < |id| - 1 && id[i] == '-'
      ensures id[i + 1] != '-' && id[i + 1] != '/'
    {
      assert LegalAt(id, i);
    }
  }

  lemma RoundTripIff(id: string)
    ensures RepoOf(FolderOf(id)) == id <==> Unambiguous(id)
  {
    assert FolderOf(id)[|PREFIX|..] == Fold(id);
    FoldUnfoldIff(id);
  }

  /** The folder of a valid id gives the id back. */
  lemma ValidIdRoundTrip(id: string)
    requires ValidRepoId(id)
    ensures RepoOf(FolderOf(id)) == id
  {
    ValidIsUnambiguous(id);
    RoundTripIff(id);
  }

  /** Two valid ids never share a folder. */
  lemma FolderNamesInjective(a: string, b: string)
    requires ValidRepoId(a) && ValidRepoId(b) && FolderOf(a) == FolderOf(b)
    ensures a == b
  {
    ValidIdRoundTrip(a);
    ValidIdRoundTrip(b);
  }

  lemma {:induction false} FoldHasNoSlash(id: string)
    ensures '/' !in Fold(id)
  {
    if id != "" {
      FoldStep(id);
      FoldHasNoSlash(id[1..]);
    }
  }

  lemma {:induction false} UnfoldFoldIff(f: string)
    ensures Fold(Unfold(f)) == f <==> '/' !in f
    decreases |f|
  {
    if '/' in f {
      FoldHasNoSlash(Unfold(f));
    } else if f != "" {
      UnfoldStep(f);
      FoldStep(Unfold(f));
      if |f| >= 2 && f[0] == '-' && f[1] == '-' {
        UnfoldFoldIff(f[2..]);
        assert Unfold(f)[1..] == Unfold(f[2..]);
        assert f == "--" + f[2..];
      } else {
        UnfoldFoldIff(f[1..]);
        assert Unfold(f)[1..] == Unfold(f[1..]);
        assert f == [f[0]] + f[1..];
      }
    }
  }

  /** A folder name is rebuilt from its id exactly if it starts like one and has no slash. */
  lemma FolderRoundTripIff(folder: string)
    ensures FolderOf(RepoOf(folder)) == folder <==> "models--" <= folder && '/' !in folder
    ensures !("models--" <= folder) ==> RepoOf(folder) == ""
  {
    if PREFIX <= folder {
      var f := folder[|PREFIX|..];
      assert folder == PREFIX + f;
      UnfoldFoldIff(f);
      assert FolderOf(RepoOf(folder))[|PREFIX|..] == Fold(Unfold(f));
    }
  }

  // ---------- Ids and folders spelled out ----------

  lemma {:induction false} FoldKeeps(part: string)
    requires '/' !in part
    ensures Fold(part) == part
  {
    if part != "" {
      FoldStep(part);
      FoldKeeps(part[1..]);
    }
  }

  /** The folder of the repository of an owner. */
  lemma FolderSpelled(owner: string, name: string)
    requires '/' !in owner && '/' !in name
    ensures FolderOf(owner + "/" + name) == "models--" + owner + "--" + name
  {
    assert owner + "/" + name == owner + ("/" + name);
    FoldPrefix(owner, "/" + name);
    FoldStep("/" + name);
    assert ("/" + name)[1..] == name;
    FoldKeeps(name);
    assert PREFIX + (owner + ("--" + name)) == "models--" + owner + "--" + name;
  }

  predicate IsWordChar(c: char) {
    ('A' <= c && c <= 'Z') || ('a' <= c && c <= 'z') || ('0' <= c && c <= '9') || c == '_'
  }

  /** One side of a valid id: words with single dots and dashes between them. */
  predicate IsPart(part: string) {
    && part != "" && IsWordChar(part[0]) && IsWordChar(part[|part| - 1])
    && (forall i :: 0 <= i < |part| ==> IsWordChar(part[i]) || part[i] == '.' || part[i] == '-')
    && (forall i :: 0 <= i < |part| - 1 ==> IsWordChar(part[i]) || IsWordChar(part[i + 1]))
  }

  lemma {:induction false} SlashesConcat(a: string, b: string)
    ensures Slashes(a + b) == Slashes(a) + Slashes(b)
    decreases |b|
  {
    if b == "" {
      assert a + b == a;
    } else {
      assert (a + b)[..|a + b| - 1] == a + b[..|b| - 1];
      SlashesConcat(a, b[..|b| - 1]);
    }
  }

  lemma {:induction false} SlashesIn(a: string)
    ensures Slashes(a) == 0 <==> '/' !in a
  {
    if a != "" {
      SlashesIn(a[..|a| - 1]);
      assert a == a[..|a| - 1] + [a[|a| - 1]];
    }
  }

  lemma OneSlash(owner: string, name: string)
    ensures Slashes(owner + "/" + name) == Slashes(owner) + 1 + Slashes(name)
  {
    SlashesConcat(owner + "/", name);
    SlashesConcat(owner, "/");
    assert "/"[..0] == "";
  }

  lemma PartsMakeId(owner: string, name: string)
    requires IsPart(owner) && IsPart(name) && |owner| + |name| < 256
    ensures ValidRepoId(owner + "/" + name)
  {
    var id := owner + "/" + name;
    OneSlash(owner, name);
    SlashesIn(owner);
    SlashesIn(name);
    forall i | 0 <= i < |id|
      ensures LegalAt(id, i)
    {
      PartCharacter(owner, name, i);
    }
  }

  lemma PartCharacter(owner: string, name: string, i: nat)
    requires IsPart(owner) && IsPart(name) && i < |owner| + 1 + |name|
    ensures LegalAt(owner + "/" + name, i)
  {
    var id, n := owner + "/" + name, |owner|;
    assert id[n - 1] == owner[n - 1] && id[n] == '/' && id[n + 1] == name[0];
    if i < n {
      assert id[i] == owner[i] && (i > 0 ==> id[i - 1] == owner[i - 1]) && (i < n - 1 ==> id[i + 1] == owner[i + 1]);
    } else if i > n {
      var j := i - n - 1;
      assert id[i] == name[j] && (j > 0 ==> id[i - 1] == name[j - 1]) && (j < |name| - 1 ==> id[i + 1] == name[j + 1]);
    }
  }

  lemma {:induction false} SlashIn(id: string) returns (k: nat)
    requires Slashes(id) > 0
    ensures k < |id| && id[k] == '/'
  {
    if id[|id| - 1] == '/' {
      k := |id| - 1;
    } else {
      k := SlashIn(id[..|id| - 1]);
    }
  }

  lemma IdHasParts(id: string) returns (owner: string, name: string)
    requires ValidRepoId(id)
    ensures id == owner + "/" + name && IsPart(owner) && IsPart(name)
  {
    var k := SlashIn(id);
    assert LegalAt(id, k);
    owner, name := id[..k], id[k + 1..];
    assert id == owner + "/" + name;
    OneSlash(owner, name);
    SlashesIn(owner);
    SlashesIn(name);
    LegalStretch(id, 0, k);
    LegalStretch(id, k + 1, |id|);
  }

  lemma LegalStretch(id: string, i: nat, j: nat)
    requires i < j <= |id| && (forall k :: 0 <= k < |id| ==> LegalAt(id, k)) && '/' !in id[i..j]
    requires i == 0 || !IsBase(id[i - 1])
    requires j == |id| || !IsBase(id[j])
    ensures IsPart(id[i..j])
  {
    var part := id[i..j];
    assert LegalAt(id, i) && LegalAt(id, j - 1);
    assert forall k :: 0 <= k < |part| ==> part[k] == id[i + k] && LegalAt(id, i + k) && part[k] in part;
  }

  /** An id is valid exactly if it is an owner, a slash and a name, of 256 characters at most. */
  lemma ValidIff(id: string)
    ensures ValidRepoId(id) <==>
            && |id| <= 256
            && exists owner: string, name: string :: id == owner + "/" + name && IsPart(owner) && IsPart(name)
  {
    if ValidRepoId(id) {
      var owner, name := IdHasParts(id);
      assert id == owner + "/" + name && IsPart(owner) && IsPart(name);
    }
    if |id| <= 256 {
      forall owner: string, name: string | id == owner + "/" + name && IsPart(owner) && IsPart(name)
        ensures ValidRepoId(id)
      {
        PartsMakeId(owner, name);
      }
    }
  }
}
