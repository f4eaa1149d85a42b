/**
 `segmentize_markers` and `calculate_diff_split`: two texts are cut into marker and text
 segments, equal segments are taken off both ends, and what is left over is the difference.

 The law is conservation: prefix + left + suffix is the left input and prefix + right + suffix
 the right one. It does not always hold; `ConservesIff` says exactly when it does.
 */
module DiffSplit {
  import opened Base
  import opened Segmentation

  // ---------- Taking equal segments off both ends ----------

  /**
   The four iterators (the ends are inclusive) and the two flags. A flag says that the one
   segment left on its side has already been taken as part of the suffix.
   */
  datatype Ends = Ends(ls: nat, le: nat, rs: nat, re: nat, leftTaken: bool, rightTaken: bool)

  predicate Running(e: Ends) {
    e.ls != e.le && e.rs != e.re
  }

  predicate InRange(l: seq<Segment>, r: seq<Segment>, e: Ends) {
    && e.ls <= e.le < |l|
    && e.rs <= e.re < |r|
    && (e.leftTaken ==> e.ls == e.le)
    && (e.rightTaken ==> e.rs == e.re)
  }

  function StepStart(l: seq<Segment>, r: seq<Segment>, e: Ends): (e': Ends)
    requires InRange(l, r, e) && Running(e)
    ensures InRange(l, r, e')
  {
    if l[e.ls] == r[e.rs] then e.(ls := e.ls + 1, rs := e.rs + 1) else e
  }

  function StepEnd(l: seq<Segment>, r: seq<Segment>, e: Ends): (e': Ends)
    requires InRange(l, r, e)
    ensures InRange(l, r, e')
  {
    if l[e.le] != r[e.re] then e
    else
      e.(le := if e.ls != e.le then e.le - 1 else e.le, leftTaken := e.ls == e.le,
         re := if e.rs != e.re then e.re - 1 else e.re, rightTaken := e.rs == e.re)
  }

  /** Where the main loop stops. */
  function LoopExit(l: seq<Segment>, r: seq<Segment>, e: Ends): (e': Ends)
    requires InRange(l, r, e)
    ensures InRange(l, r, e')
    decreases e.le - e.ls + e.re - e.rs
  {
    if !Running(e) || StepEnd(l, r, StepStart(l, r, e)) == e then e
    else LoopExit(l, r, StepEnd(l, r, StepStart(l, r, e)))
  }

  /** The first segment of the left text that is part of the suffix. */
  function LeftTail(e: Ends): nat {
    if e.leftTaken then e.le else e.le + 1
  }

  function RightTail(e: Ends): nat {
    if e.rightTaken then e.re else e.re + 1
  }

  /** What has been taken off the front is the same on both sides, and so is what is off the back. */
  predicate TakenAlike(l: seq<Segment>, r: seq<Segment>, e: Ends) {
    && InRange(l, r, e)
    && l[..e.ls] == r[..e.rs]
    && l[LeftTail(e)..] == r[RightTail(e)..]
  }

  lemma StartAlikeStep(l: seq<Segment>, r: seq<Segment>, e: Ends)
    requires TakenAlike(l, r, e) && Running(e)
    ensures TakenAlike(l, r, StepStart(l, r, e))
  {
    if l[e.ls] == r[e.rs] {
      assert l[..e.ls + 1] == l[..e.ls] + [l[e.ls]] && r[..e.rs + 1] == r[..e.rs] + [r[e.rs]];
    }
  }

  lemma EndAlikeStep(l: seq<Segment>, r: seq<Segment>, e: Ends)
    requires TakenAlike(l, r, e) && !e.leftTaken && !e.rightTaken
    ensures TakenAlike(l, r, StepEnd(l, r, e))
  {
    if l[e.le] == r[e.re] {
      assert l[e.le..] == [l[e.le]] + l[e.le + 1..] && r[e.re..] == [r[e.re]] + r[e.re + 1..];
    }
  }

  lemma StepAlike(l: seq<Segment>, r: seq<Segment>, e: Ends)
    requires TakenAlike(l, r, e) && Running(e)
    ensures TakenAlike(l, r, StepEnd(l, r, StepStart(l, r, e)))
  {
    StartAlikeStep(l, r, e);
    EndAlikeStep(l, r, StepStart(l, r, e));
  }

  lemma {:induction false} ExitAlike(l: seq<Segment>, r: seq<Segment>, e: Ends)
    requires TakenAlike(l, r, e)
    ensures TakenAlike(l, r, LoopExit(l, r, e))
    decreases e.le - e.ls + e.re - e.rs
  {
    if Running(e) && StepEnd(l, r, StepStart(l, r, e)) != e {
      StepAlike(l, r, e);
      ExitAlike(l, r, StepEnd(l, r, StepStart(l, r, e)));
    }
  }

  /** The loop takes as much as it can: where both sides still have several segments, neither end agrees. */
  lemma {:induction false} ExitIsMaximal(l: seq<Segment>, r: seq<Segment>, e: Ends)
    requires InRange(l, r, e)
    ensures var e' := LoopExit(l, r, e); Running(e') ==> l[e'.ls] != r[e'.rs] && l[e'.le] != r[e'.re]
    decreases e.le - e.ls + e.re - e.rs
  {
    if Running(e) && StepEnd(l, r, StepStart(l, r, e)) != e {
      ExitIsMaximal(l, r, StepEnd(l, r, StepStart(l, r, e)));
    }
  }

  // ---------- After the loop ----------

  datatype Rest = Rest(ends: Ends, prefix: string, suffix: string)

  /** The repair cases for a side on which one segment is left. */
  function AfterLoop(l: seq<Segment>, r: seq<Segment>, e: Ends, prefix: string, suffix: string): (rest: Rest)
    requires InRange(l, r, e)
    ensures InRange(l, r, rest.ends)
  {
    if e.ls == e.le && e.rs != e.re then
      if l[e.ls] == r[e.re] then Rest(e.(re := e.re - 1, leftTaken := true), prefix, r[e.re].value + suffix)
      else if l[e.ls] == r[e.rs] then Rest(e.(rs := e.rs + 1, leftTaken := true), prefix + r[e.rs].value, suffix)
      else Rest(e, prefix, suffix)
    else if e.rs == e.re && e.ls != e.le then
      if l[e.le] == r[e.rs] then Rest(e.(le := e.le - 1, rightTaken := true), prefix, l[e.le].value + suffix)
      else if l[e.ls] == r[e.rs] then Rest(e.(ls := e.ls + 1, rightTaken := true), prefix + l[e.ls].value, suffix)
      else Rest(e, prefix, suffix)
    else if e.ls == e.le && e.rs == e.re && l[e.ls] == r[e.rs] && l[e.ls].kind == Marker then
      Rest(e.(leftTaken := true, rightTaken := true), prefix + r[e.rs].value, suffix)
    else Rest(e, prefix, suffix)
  }

  function PrefixLenFrom(a: string, b: string, n: nat): (m: nat)
    requires n <= |a| && n <= |b|
    ensures n <= m <= |a| && m <= |b|
    ensures m < |a| && m < |b| ==> a[m] != b[m]
    decreases |a| - n
  {
    if n < |a| && n < |b| && a[n] == b[n] then PrefixLenFrom(a, b, n + 1) else n
  }

  function CommonPrefixLen(a: string, b: string): nat {
    PrefixLenFrom(a, b, 0)
  }

  function SuffixLenFrom(a: string, b: string, n: nat): (m: nat)
    requires n <= |a| && n <= |b|
    ensures n <= m <= |a| && m <= |b|
    ensures m < |a| && m < |b| ==> a[|a| - 1 - m] != b[|b| - 1 - m]
    decreases |a| - n
  {
    if n < |a| && n < |b| && a[|a| - 1 - n] == b[|b| - 1 - n] then SuffixLenFrom(a, b, n + 1) else n
  }

  function CommonSuffixLen(a: string, b: string): nat {
    SuffixLenFrom(a, b, 0)
  }

  /** The counted prefix is common, and the longest one. */
  lemma {:induction false} PrefixLenSound(a: string, b: string, n: nat)
    requires n <= |a| && n <= |b| && a[..n] == b[..n]
    ensures var m := PrefixLenFrom(a, b, n);
            a[..m] == b[..m] && (m < |a| && m < |b| ==> a[m] != b[m])
    decreases |a| - n
  {
    if n < |a| && n < |b| && a[n] == b[n] {
      assert a[..n + 1] == a[..n] + [a[n]] && b[..n + 1] == b[..n] + [b[n]];
      PrefixLenSound(a, b, n + 1);
    }
  }

  predicate SameEnd(a: string, b: string, n: nat) {
    n <= |a| && n <= |b| && a[|a| - n..] == b[|b| - n..]
  }

  lemma SameEndStep(a: string, b: string, n: nat)
    requires SameEnd(a, b, n) && n < |a| && n < |b| && a[|a| - 1 - n] == b[|b| - 1 - n]
    ensures SameEnd(a, b, n + 1)
  {
    var i, j := |a| - n, |b| - n;
    assert a[i - 1..] == [a[i - 1]] + a[i..] && b[j - 1..] == [b[j - 1]] + b[j..];
  }

  /** The counted suffix is common, and the longest one. */
  lemma {:induction false} SuffixLenSound(a: string, b: string, n: nat)
    requires SameEnd(a, b, n)
    ensures var m := SuffixLenFrom(a, b, n);
            SameEnd(a, b, m) && (m < |a| && m < |b| ==> a[|a| - 1 - m] != b[|b| - 1 - m])
    decreases |a| - n
  {
    if n < |a| && n < |b| && a[|a| - 1 - n] == b[|b| - 1 - n] {
      SameEndStep(a, b, n);
      SuffixLenSound(a, b, n + 1);
    }
  }

  method PrefixLen(a: string, b: string) returns (n: nat)
    ensures n == CommonPrefixLen(a, b)
  {
    n := 0;
    while n < |a| && n < |b| && a[n] == b[n]
      invariant n <= |a| && n <= |b| && CommonPrefixLen(a, b) == PrefixLenFrom(a, b, n)
    {
      n := n + 1;
    }
  }

  method SuffixLen(a: string, b: string) returns (n: nat)
    ensures n == CommonSuffixLen(a, b)
  {
    n := 0;
    while n < |a| && n < |b| && a[|a| - 1 - n] == b[|b| - 1 - n]
      invariant n <= |a| && n <= |b| && CommonSuffixLen(a, b) == SuffixLenFrom(a, b, n)
    {
      n := n + 1;
    }
  }

  datatype Split = Split(prefix: string, suffix: string, left: string, right: string)

  /** p characters of the remainders go to the prefix, and s to the suffix. */
  function TrimBy(prefix: string, suffix: string, left: string, right: string, p: nat, s: nat): Split
    requires p + s <= |left| && p + s <= |right|
  {
    Split(prefix + left[..p], left[|left| - s..] + suffix, left[p..|left| - s], right[p..|right| - s])
  }

  /** Common text at the ends of the remainders, without letting prefix and suffix overlap. */
  function TrimText(prefix: string, suffix: string, left: string, right: string, textPrefix: bool,
                    textSuffix: bool): Split {
    var s := if textSuffix then CommonSuffixLen(left, right) else 0;
    var p := if textPrefix then CommonPrefixLen(left[..|left| - s], right[..|right| - s]) else 0;
    TrimBy(prefix, suffix, left, right, p, s)
  }

  /** The two final corrections. */
  function Repair(d: Split, left: string, right: string): Split {
    var d1 := if d.left == "" && d.right == "" then d.(prefix := left, suffix := "") else d;
    if d1.left == "" && d1.right != "" && left <= right then Split(left, "", "", right[|left|..]) else d1
  }

  function Start(l: seq<Segment>, r: seq<Segment>): Ends
    requires l != [] && r != []
  {
    Ends(0, |l| - 1, 0, |r| - 1, false, false)
  }

  function SplitFrom(l: seq<Segment>, r: seq<Segment>, rest: Rest): Split
    requires InRange(l, r, rest.ends)
  {
    var e := rest.ends;
    TrimText(rest.prefix, rest.suffix, Cat(l[e.ls..LeftTail(e)]), Cat(r[e.rs..RightTail(e)]),
      r[e.rs].kind == Text && l[e.ls].kind == Text,
      l[e.le].kind == Text && r[e.re].kind == Text)
  }

  function DiffOf(left: string, right: string): Split {
    var l, r := Segments(left), Segments(right);
    if l == [] then Split("", "", "", right)
    else if r == [] then Split("", "", left, "")
    else
      var e := LoopExit(l, r, Start(l, r));
      var rest := AfterLoop(l, r, e, Cat(l[..e.ls]), Cat(l[LeftTail(e)..]));
      Repair(SplitFrom(l, r, rest), left, right)
  }

  // ---------- Conservation ----------

  predicate Conserves(d: Split, left: string, right: string) {
    d.prefix + d.left + d.suffix == left && d.prefix + d.right + d.suffix == right
  }

  /** A repair case finds its segment again although the loop has already taken it on one side only. */
  predicate RepairsTwice(l: seq<Segment>, r: seq<Segment>, e: Ends)
    requires InRange(l, r, e)
  {
    && e.leftTaken != e.rightTaken
    && (|| (e.ls == e.le && e.rs != e.re && (l[e.ls] == r[e.re] || l[e.ls] == r[e.rs]))
        || (e.rs == e.re && e.ls != e.le && (l[e.le] == r[e.rs] || l[e.ls] == r[e.rs]))
        || (e.ls == e.le && e.rs == e.re && l[e.ls] == r[e.rs] && l[e.ls].kind == Marker))
  }

  /** The left side is used up, segments remain on the right, and the left text is a prefix of the right one. */
  predicate OnlyPrefix(e: Ends, left: string, right: string) {
    e.leftTaken && e.rs != e.re && left <= right
  }

  /** The second list is the first one with something put in exactly in the middle. */
  predicate Inserted(l: seq<Segment>, r: seq<Segment>) {
    var k := |l| / 2;
    0 < |l| == 2 * k < |r| && r[..k] == l[..k] && r[|r| - k..] == l[k..]
  }

  function Middle(l: seq<Segment>, r: seq<Segment>): (mid: seq<Segment>)
    requires Inserted(l, r)
    ensures |mid| == |r| - |l| > 0
  {
    r[|l| / 2..|r| - |l| / 2]
  }

  /** The segment stands at an end of what was put in; text alone there does not count. */
  predicate Repeats(x: Segment, mid: seq<Segment>)
    requires mid != []
  {
    if |mid| == 1 then mid[0] == x && x.kind == Marker else mid[0] == x || mid[|mid| - 1] == x
  }

  /** What was put in starts or ends with the segment that follows it. */
  predicate TakesTwice(l: seq<Segment>, r: seq<Segment>) {
    || (Inserted(l, r) && Repeats(l[|l| / 2], Middle(l, r)))
    || (Inserted(r, l) && Repeats(r[|r| / 2], Middle(r, l)))
  }

  /** What a caller can tell from the segments: the inputs on which nothing is lost. */
  predicate KeepsBoth(left: string, right: string) {
    var l, r := Segments(left), Segments(right);
    !TakesTwice(l, r) || (Inserted(l, r) && |r| > |l| + 1 && left <= right)
  }

  /** What is moved to the prefix and the suffix is the same text on both sides. */
  lemma TrimmedAlike(left: string, right: string, textPrefix: bool, textSuffix: bool)
    ensures var s := if textSuffix then CommonSuffixLen(left, right) else 0;
            var p := if textPrefix then CommonPrefixLen(left[..|left| - s], right[..|right| - s]) else 0;
            left[..p] == right[..p] && left[|left| - s..] == right[|right| - s..]
  {
    var s := if textSuffix then CommonSuffixLen(left, right) else 0;
    var a, b := left[..|left| - s], right[..|right| - s];
    var p := if textPrefix then CommonPrefixLen(a, b) else 0;
    if textSuffix {
      SuffixLenSound(left, right, 0);
    }
    if textPrefix {
      PrefixLenSound(a, b, 0);
    }
    assert left[..p] == a[..p] && right[..p] == b[..p];
  }

  lemma TrimConserves(prefix: string, suffix: string, left: string, right: string, textPrefix: bool, textSuffix: bool)
    ensures var d := TrimText(prefix, suffix, left, right, textPrefix, textSuffix);
            Conserves(d, prefix + left + suffix, prefix + right + suffix)
  {
    var s := if textSuffix then CommonSuffixLen(left, right) else 0;
    var p := if textPrefix then CommonPrefixLen(left[..|left| - s], right[..|right| - s]) else 0;
    TrimmedAlike(left, right, textPrefix, textSuffix);
    Reassemble(prefix, suffix, left, p, s);
    Reassemble(prefix, suffix, right, p, s);
  }

  lemma TrimNothing(prefix: string, suffix: string, left: string, right: string, textPrefix: bool, textSuffix: bool)
    requires left == "" || right == ""
    ensures TrimText(prefix, suffix, left, right, textPrefix, textSuffix) == Split(prefix, suffix, left, right)
  {
    assert prefix + left[..0] == prefix && left[|left|..] + suffix == suffix;
    assert left[..|left|] == left && right[..|right|] == right;
  }

  lemma Reassemble(prefix: string, suffix: string, mid: string, p: nat, s: nat)
    requires p + s <= |mid|
    ensures prefix + mid[..p] + mid[p..|mid| - s] + (mid[|mid| - s..] + suffix) == prefix + mid + suffix
  {
    assert mid == mid[..p] + mid[p..|mid| - s] + mid[|mid| - s..];
    FiveParts(prefix, mid[..p], mid[p..|mid| - s], mid[|mid| - s..], suffix);
  }

  lemma FiveParts(a: string, b: string, c: string, d: string, e: string)
    ensures a + b + c + (d + e) == a + (b + c + d) + e
  {
  }

  lemma CatSplit(l: seq<Segment>, i: nat)
    requires i <= |l|
    ensures Cat(l) == Cat(l[..i]) + Cat(l[i..])
  {
    assert l[..i] + l[i..] == l;
    CatConcat(l[..i], l[i..]);
  }

  lemma {:induction false} CatPieces(l: seq<Segment>, i: nat, j: nat)
    requires i <= j <= |l|
    ensures Cat(l) == Cat(l[..i]) + Cat(l[i..j]) + Cat(l[j..])
  {
    CatSplit(l, j);
    CatSplit(l[..j], i);
    assert l[..j][..i] == l[..i] && l[..j][i..] == l[i..j];
  }

  lemma CatMore(a: seq<Segment>, s: Segment)
    ensures Cat(a + [s]) == Cat(a) + s.value && Cat([s] + a) == s.value + Cat(a)
  {
    CatConcat(a, [s]);
    assert ([s] + a)[1..] == a;
    assert Cat([s]) == s.value + "" == s.value;
  }

  /** The remainders of a state, put between its prefix and suffix. */
  predicate Accounts(l: seq<Segment>, r: seq<Segment>, rest: Rest)
    requires InRange(l, r, rest.ends)
  {
    var e := rest.ends;
    && rest.prefix + Cat(l[e.ls..LeftTail(e)]) + rest.suffix == Cat(l)
    && rest.prefix + Cat(r[e.rs..RightTail(e)]) + rest.suffix == Cat(r)
  }

  /** At the exit of the loop both inputs are accounted for. */
  lemma ExitAccounts(l: seq<Segment>, r: seq<Segment>, e: Ends)
    requires TakenAlike(l, r, e)
    ensures Accounts(l, r, Rest(e, Cat(l[..e.ls]), Cat(l[LeftTail(e)..])))
  {
    CatPieces(l, e.ls, LeftTail(e));
    CatPieces(r, e.rs, RightTail(e));
  }

  predicate MovesFront(p: string, s: string, mid: seq<Segment>, mid': seq<Segment>, p': string, s': string) {
    mid != [] && mid' == mid[1..] && p' == p + mid[0].value && s' == s
  }

  predicate MovesBack(p: string, s: string, mid: seq<Segment>, mid': seq<Segment>, p': string, s': string) {
    mid != [] && mid' == mid[..|mid| - 1] && p' == p && s' == mid[|mid| - 1].value + s
  }

  /** In a repair case one segment moves, on both sides, to the same place. */
  lemma RepairMoves(l: seq<Segment>, r: seq<Segment>, e: Ends, p: string, s: string)
    requires InRange(l, r, e) && !e.leftTaken && !e.rightTaken
    ensures var rest := AfterLoop(l, r, e, p, s);
            var e' := rest.ends;
            var a, b := l[e.ls..e.le + 1], r[e.rs..e.re + 1];
            var a', b' := l[e'.ls..LeftTail(e')], r[e'.rs..RightTail(e')];
            || rest == Rest(e, p, s)
            || (MovesFront(p, s, a, a', rest.prefix, rest.suffix) && MovesFront(p, s, b, b', rest.prefix, rest.suffix))
            || (MovesBack(p, s, a, a', rest.prefix, rest.suffix) && MovesBack(p, s, b, b', rest.prefix, rest.suffix))
  {
    var a, b := l[e.ls..e.le + 1], r[e.rs..e.re + 1];
    assert r[e.rs..e.re] == b[..|b| - 1] && r[e.rs + 1..e.re + 1] == b[1..];
    assert l[e.ls..e.le] == a[..|a| - 1] && l[e.ls + 1..e.le + 1] == a[1..];
  }

  /** The repair cases keep the account when nothing has been taken yet. */
  lemma RepairAccounts(l: seq<Segment>, r: seq<Segment>, e: Ends, prefix: string, suffix: string)
    requires InRange(l, r, e) && !e.leftTaken && !e.rightTaken && Accounts(l, r, Rest(e, prefix, suffix))
    ensures Accounts(l, r, AfterLoop(l, r, e, prefix, suffix))
  {
    var rest := AfterLoop(l, r, e, prefix, suffix);
    var e' := rest.ends;
    RepairMoves(l, r, e, prefix, suffix);
    if rest != Rest(e, prefix, suffix) {
      MoveKeeps(prefix, suffix, l[e.ls..e.le + 1], l[e'.ls..LeftTail(e')], rest.prefix, rest.suffix);
      MoveKeeps(prefix, suffix, r[e.rs..e.re + 1], r[e'.rs..RightTail(e')], rest.prefix, rest.suffix);
    }
  }

  lemma MoveKeeps(p: string, s: string, mid: seq<Segment>, mid': seq<Segment>, p': string, s': string)
    requires MovesFront(p, s, mid, mid', p', s') || MovesBack(p, s, mid, mid', p', s')
    ensures p' + Cat(mid') + s' == p + Cat(mid) + s
  {
    RepairFront(p, s, mid);
    RepairBack(p, s, mid);
  }

  /** One segment moves from the front of the remainder to the prefix. */
  lemma RepairFront(prefix: string, suffix: string, mid: seq<Segment>)
    requires mid != []
    ensures prefix + mid[0].value + Cat(mid[1..]) + suffix == prefix + Cat(mid) + suffix
  {
    MovedParts(prefix, mid[0].value, Cat(mid[1..]), suffix);
  }

  /** One segment moves from the back of the remainder to the suffix. */
  lemma {:induction false} RepairBack(prefix: string, suffix: string, mid: seq<Segment>)
    requires mid != []
    ensures prefix + Cat(mid[..|mid| - 1]) + (mid[|mid| - 1].value + suffix) == prefix + Cat(mid) + suffix
  {
    var init, last := mid[..|mid| - 1], mid[|mid| - 1];
    CatMore(init, last);
    assert mid == init + [last];
    MovedParts(prefix, last.value, Cat(init), suffix);
  }

  lemma MovedParts(prefix: string, v: string, mid: string, suffix: string)
    ensures prefix + v + mid + suffix == prefix + (v + mid) + suffix
    ensures prefix + mid + (v + suffix) == prefix + (mid + v) + suffix
  {
  }

  // ---------- Exactly when ----------

  lemma AccountsSplit(l: seq<Segment>, r: seq<Segment>, rest: Rest, left: string, right: string)
    requires InRange(l, r, rest.ends) && Accounts(l, r, rest) && Cat(l) == left && Cat(r) == right
    ensures Conserves(Repair(SplitFrom(l, r, rest), left, right), left, right)
  {
    var e := rest.ends;
    TrimConserves(rest.prefix, rest.suffix, Cat(l[e.ls..LeftTail(e)]), Cat(r[e.rs..RightTail(e)]),
      r[e.rs].kind == Text && l[e.ls].kind == Text,
      l[e.le].kind == Text && r[e.re].kind == Text);
    RepairConserves(SplitFrom(l, r, rest), left, right);
  }

  lemma RepairConserves(d: Split, left: string, right: string)
    requires Conserves(d, left, right)
    ensures Conserves(Repair(d, left, right), left, right)
  {
  }

  /** Both sides used up: the texts are equal. */
  lemma BothTaken(l: seq<Segment>, r: seq<Segment>, e: Ends)
    requires TakenAlike(l, r, e) && e.leftTaken && e.rightTaken
    ensures l == r
  {
    assert l == l[..e.ls] + l[e.le..] && r == r[..e.rs] + r[e.re..];
  }

  /** What the other side still has when one side is used up. */
  lemma OneTaken(l: seq<Segment>, r: seq<Segment>, e: Ends)
    requires TakenAlike(l, r, e) && e.leftTaken != e.rightTaken
    ensures e.leftTaken ==> Cat(l[e.ls..LeftTail(e)]) == "" && Cat(l) == Cat(l[..e.ls]) + Cat(l[LeftTail(e)..])
    ensures e.rightTaken ==> Cat(r[e.rs..RightTail(e)]) == "" && Cat(r) == Cat(l[..e.ls]) + Cat(l[LeftTail(e)..])
  {
    if e.leftTaken {
      CatSplit(l, e.ls);
    } else {
      CatSplit(r, e.rs);
    }
  }

  /** A repair case after one side is used up puts its segment there a second time. */
  lemma {:induction false} TwiceIsLonger(l: seq<Segment>, r: seq<Segment>, e: Ends)
    requires TakenAlike(l, r, e) && RepairsTwice(l, r, e)
    requires (forall s :: s in l ==> IsSegment(s)) && (forall s :: s in r ==> IsSegment(s))
    ensures var rest := AfterLoop(l, r, e, Cat(l[..e.ls]), Cat(l[LeftTail(e)..]));
            && (e.leftTaken ==> Cat(l[rest.ends.ls..LeftTail(rest.ends)]) == "" && |rest.prefix| + |rest.suffix| > |Cat(l)|)
            && (e.rightTaken ==> Cat(r[rest.ends.rs..RightTail(rest.ends)]) == "" && |rest.prefix| + |rest.suffix| > |Cat(r)|)
  {
    OneTaken(l, r, e);
    assert IsSegment(l[e.ls]) && IsSegment(l[e.le]) && IsSegment(r[e.rs]) && IsSegment(r[e.re]);
  }

  /** On the other side some segments are left, unless each side is down to the same marker. */
  lemma TwiceLeavesOther(l: seq<Segment>, r: seq<Segment>, e: Ends)
    requires TakenAlike(l, r, e) && RepairsTwice(l, r, e)
    requires (forall s :: s in l ==> IsSegment(s)) && (forall s :: s in r ==> IsSegment(s))
    ensures var rest := AfterLoop(l, r, e, Cat(l[..e.ls]), Cat(l[LeftTail(e)..]));
            && (e.leftTaken ==> (Cat(r[rest.ends.rs..RightTail(rest.ends)]) == "" <==> e.rs == e.re))
            && (e.rightTaken ==> (Cat(l[rest.ends.ls..LeftTail(rest.ends)]) == "" <==> e.ls == e.le))
  {
    var rest := AfterLoop(l, r, e, Cat(l[..e.ls]), Cat(l[LeftTail(e)..]));
    var e' := rest.ends;
    if e.leftTaken && e.rs != e.re {
      NonEmptyCat(r, e'.rs, RightTail(e'));
    }
    if e.rightTaken && e.ls != e.le {
      NonEmptyCat(l, e'.ls, LeftTail(e'));
    }
  }

  lemma NonEmptyCat(l: seq<Segment>, i: nat, j: nat)
    requires i < j <= |l| && forall s :: s in l ==> IsSegment(s)
    ensures Cat(l[i..j]) != ""
  {
    assert l[i..j][0] == l[i] && IsSegment(l[i]);
  }

  lemma EmptySplit(l: seq<Segment>, r: seq<Segment>, rest: Rest)
    requires InRange(l, r, rest.ends)
    requires Cat(l[rest.ends.ls..LeftTail(rest.ends)]) == "" || Cat(r[rest.ends.rs..RightTail(rest.ends)]) == ""
    ensures SplitFrom(l, r, rest)
         == Split(rest.prefix, rest.suffix, Cat(l[rest.ends.ls..LeftTail(rest.ends)]), Cat(r[rest.ends.rs..RightTail(rest.ends)]))
  {
    var e := rest.ends;
    TrimNothing(rest.prefix, rest.suffix, Cat(l[e.ls..LeftTail(e)]), Cat(r[e.rs..RightTail(e)]),
      r[e.rs].kind == Text && l[e.ls].kind == Text,
      l[e.le].kind == Text && r[e.re].kind == Text);
  }

  /** The two inputs differ when only one of them is used up. */
  lemma OneTakenDiffer(l: seq<Segment>, r: seq<Segment>, e: Ends)
    requires TakenAlike(l, r, e) && e.leftTaken != e.rightTaken
    requires (forall s :: s in l ==> IsSegment(s)) && (forall s :: s in r ==> IsSegment(s))
    ensures |Cat(l)| != |Cat(r)|
  {
    OneTaken(l, r, e);
    CatPieces(l, e.ls, LeftTail(e));
    CatPieces(r, e.rs, RightTail(e));
    if e.leftTaken {
      NonEmptyCat(r, e.rs, RightTail(e));
    } else {
      NonEmptyCat(l, e.ls, LeftTail(e));
    }
  }

  lemma TwiceConservesIff(l: seq<Segment>, r: seq<Segment>, e: Ends, left: string, right: string)
    requires TakenAlike(l, r, e) && RepairsTwice(l, r, e) && Cat(l) == left && Cat(r) == right
    requires (forall s :: s in l ==> IsSegment(s)) && (forall s :: s in r ==> IsSegment(s))
    ensures var rest := AfterLoop(l, r, e, Cat(l[..e.ls]), Cat(l[LeftTail(e)..]));
            Conserves(Repair(SplitFrom(l, r, rest), left, right), left, right) <==> OnlyPrefix(e, left, right)
  {
    var rest := AfterLoop(l, r, e, Cat(l[..e.ls]), Cat(l[LeftTail(e)..]));
    TwiceIsLonger(l, r, e);
    TwiceLeavesOther(l, r, e);
    EmptySplit(l, r, rest);
    OneTakenDiffer(l, r, e);
    TooLong(SplitFrom(l, r, rest), left, right);
  }

  lemma TooLong(d: Split, left: string, right: string)
    requires |left| != |right|
    requires (d.left == "" && |d.prefix| + |d.suffix| > |left|) || (d.right == "" && |d.prefix| + |d.suffix| > |right|)
    ensures Conserves(Repair(d, left, right), left, right) <==> d.left == "" && d.right != "" && left <= right
  {
  }

  lemma StartAlike(l: seq<Segment>, r: seq<Segment>)
    requires l != [] && r != []
    ensures TakenAlike(l, r, Start(l, r))
  {
    assert l[|l|..] == r[|r|..];
  }

  // ---------- The exit of the loop, from the segments alone ----------

  function Mirror(e: Ends): Ends {
    Ends(e.rs, e.re, e.ls, e.le, e.rightTaken, e.leftTaken)
  }

  lemma {:induction false} ExitMirror(l: seq<Segment>, r: seq<Segment>, e: Ends)
    requires InRange(l, r, e)
    ensures LoopExit(r, l, Mirror(e)) == Mirror(LoopExit(l, r, e))
    decreases e.le - e.ls + e.re - e.rs
  {
    if Running(e) {
      var next := StepEnd(l, r, StepStart(l, r, e));
      assert StepEnd(r, l, StepStart(r, l, Mirror(e))) == Mirror(next);
      if next != e {
        ExitMirror(l, r, next);
      }
    }
  }

  /** Where the loop leaves off when both halves of the left side agree with the ends of the right one. */
  function LeftUsedUpAt(r: seq<Segment>, k: nat): Ends
    requires k < |r|
  {
    Ends(k, k, k, |r| - k - 1, true, false)
  }

  /** The loop has gone through both halves in step. */
  predicate OnTrack(l: seq<Segment>, r: seq<Segment>, e: Ends)
    requires Inserted(l, r)
  {
    var k := |l| / 2;
    || e == LeftUsedUpAt(r, k)
    || (e.ls == e.rs < k && e.le == |l| - 1 - e.ls && e.re == |r| - 1 - e.ls && !e.leftTaken && !e.rightTaken)
  }

  lemma HalvesAgree(l: seq<Segment>, r: seq<Segment>, i: nat)
    requires Inserted(l, r) && i < |l| / 2
    ensures l[i] == r[i] && l[|l| - 1 - i] == r[|r| - 1 - i]
  {
    var k := |l| / 2;
    assert l[..k][i] == r[..k][i] && l[k..][k - 1 - i] == r[|r| - k..][k - 1 - i];
  }

  lemma StepOnTrack(l: seq<Segment>, r: seq<Segment>, e: Ends)
    requires InRange(l, r, e) && Inserted(l, r) && OnTrack(l, r, e) && Running(e)
    ensures var next := StepEnd(l, r, StepStart(l, r, e)); next != e && OnTrack(l, r, next)
  {
    HalvesAgree(l, r, e.ls);
  }

  /** So it uses up the left side. */
  lemma {:induction false} ExitOnTrack(l: seq<Segment>, r: seq<Segment>, e: Ends)
    requires InRange(l, r, e) && Inserted(l, r) && OnTrack(l, r, e)
    ensures LoopExit(l, r, e) == LeftUsedUpAt(r, |l| / 2)
    decreases e.le - e.ls + e.re - e.rs
  {
    if Running(e) {
      StepOnTrack(l, r, e);
      ExitOnTrack(l, r, StepEnd(l, r, StepStart(l, r, e)));
    }
  }

  /** As many segments have been taken off the front as off the back, or the side that lags behind is stuck. */
  predicate InStepOrStuck(l: seq<Segment>, r: seq<Segment>, e: Ends)
    requires InRange(l, r, e)
  {
    var backs := |l| - 1 - e.le;
    || e.ls == backs
    || (e.ls > backs && l[e.le] != r[e.re])
    || (e.ls < backs && l[e.ls] != r[e.rs])
  }

  lemma StepInStep(l: seq<Segment>, r: seq<Segment>, e: Ends)
    requires InRange(l, r, e) && Running(e) && !e.leftTaken && !e.rightTaken && InStepOrStuck(l, r, e)
    ensures var next := StepEnd(l, r, StepStart(l, r, e));
            if next.leftTaken || next.rightTaken then next.ls == |l| - LeftTail(next) else InStepOrStuck(l, r, next)
  {
  }

  /** A side is used up only by taking equally many segments off both ends. */
  lemma {:induction false} ExitInStep(l: seq<Segment>, r: seq<Segment>, e: Ends)
    requires InRange(l, r, e) && !e.leftTaken && !e.rightTaken && InStepOrStuck(l, r, e)
    ensures var e' := LoopExit(l, r, e); e'.leftTaken || e'.rightTaken ==> e'.ls == |l| - LeftTail(e')
    decreases e.le - e.ls + e.re - e.rs
  {
    if Running(e) {
      var next := StepEnd(l, r, StepStart(l, r, e));
      StepInStep(l, r, e);
      if next != e && !next.leftTaken && !next.rightTaken {
        ExitInStep(l, r, next);
      }
    }
  }

  lemma SameCounts(l: seq<Segment>, r: seq<Segment>, e: Ends)
    requires TakenAlike(l, r, e)
    ensures e.ls == e.rs && |l| - LeftTail(e) == |r| - RightTail(e)
  {
    assert |l[..e.ls]| == |r[..e.rs]| && |l[LeftTail(e)..]| == |r[RightTail(e)..]|;
  }

  lemma UsedUpIsInserted(l: seq<Segment>, r: seq<Segment>, e: Ends)
    requires TakenAlike(l, r, e) && e.leftTaken && !e.rightTaken && e.ls == |l| - LeftTail(e)
    ensures Inserted(l, r)
  {
    SameCounts(l, r, e);
  }

  lemma StartInStep(l: seq<Segment>, r: seq<Segment>)
    requires l != [] && r != []
    ensures InRange(l, r, Start(l, r)) && InStepOrStuck(l, r, Start(l, r))
    ensures Mirror(Start(l, r)) == Start(r, l)
  {
  }

  lemma LeftUsedUp(l: seq<Segment>, r: seq<Segment>)
    requires l != [] && r != []
    requires var e := LoopExit(l, r, Start(l, r)); e.leftTaken && !e.rightTaken
    ensures Inserted(l, r)
  {
    StartInStep(l, r);
    StartAlike(l, r);
    ExitAlike(l, r, Start(l, r));
    ExitInStep(l, r, Start(l, r));
    UsedUpIsInserted(l, r, LoopExit(l, r, Start(l, r)));
  }

  lemma ExitWhenInserted(l: seq<Segment>, r: seq<Segment>)
    requires Inserted(l, r)
    ensures l != [] && r != []
    ensures LoopExit(l, r, Start(l, r)) == LeftUsedUpAt(r, |l| / 2)
  {
    var start := Start(l, r);
    assert OnTrack(l, r, start);
    ExitOnTrack(l, r, start);
  }

  /** Only the left side is used up exactly when the right one has something more in the middle. */
  lemma LeftUsedUpIff(l: seq<Segment>, r: seq<Segment>)
    requires l != [] && r != []
    ensures var e := LoopExit(l, r, Start(l, r)); e.leftTaken && !e.rightTaken <==> Inserted(l, r)
  {
    var e := LoopExit(l, r, Start(l, r));
    if e.leftTaken && !e.rightTaken {
      LeftUsedUp(l, r);
    }
    if Inserted(l, r) {
      ExitWhenInserted(l, r);
    }
  }

  lemma RightExitWhenInserted(l: seq<Segment>, r: seq<Segment>)
    requires Inserted(r, l)
    ensures l != [] && r != []
    ensures LoopExit(l, r, Start(l, r)) == Mirror(LeftUsedUpAt(l, |r| / 2))
  {
    StartInStep(l, r);
    ExitMirror(l, r, Start(l, r));
    ExitWhenInserted(r, l);
  }

  lemma RightUsedUpIff(l: seq<Segment>, r: seq<Segment>)
    requires l != [] && r != []
    ensures var e := LoopExit(l, r, Start(l, r)); e.rightTaken && !e.leftTaken <==> Inserted(r, l)
  {
    StartInStep(l, r);
    ExitMirror(l, r, Start(l, r));
    LeftUsedUpIff(r, l);
  }

  lemma RepeatsOfEnds(l: seq<Segment>, r: seq<Segment>)
    requires Inserted(l, r)
    ensures var k := |l| / 2;
            Repeats(l[k], Middle(l, r)) <==>
              if |r| == |l| + 1 then r[k] == l[k] && l[k].kind == Marker else r[k] == l[k] || r[|r| - k - 1] == l[k]
  {
  }

  lemma RepairsTwiceOfInserted(l: seq<Segment>, r: seq<Segment>, e: Ends)
    requires Inserted(l, r) && e == LeftUsedUpAt(r, |l| / 2)
    ensures InRange(l, r, e)
    ensures RepairsTwice(l, r, e) <==> TakesTwice(l, r)
    ensures e.rs != e.re <==> |r| > |l| + 1
  {
    RepeatsOfEnds(l, r);
  }

  lemma RepairsTwiceOfMirrored(l: seq<Segment>, r: seq<Segment>, e: Ends)
    requires Inserted(r, l) && e == Mirror(LeftUsedUpAt(l, |r| / 2))
    ensures InRange(l, r, e)
    ensures RepairsTwice(l, r, e) <==> TakesTwice(l, r)
  {
    RepeatsOfEnds(r, l);
  }

  /** The guards of the repair cases, at the exit of the loop, say the same as the condition on the segments. */
  lemma RepairsTwiceIff(l: seq<Segment>, r: seq<Segment>)
    requires l != [] && r != []
    ensures RepairsTwice(l, r, LoopExit(l, r, Start(l, r))) <==> TakesTwice(l, r)
    ensures var e := LoopExit(l, r, Start(l, r));
            TakesTwice(l, r) ==> (e.leftTaken && e.rs != e.re <==> Inserted(l, r) && |r| > |l| + 1)
  {
    LeftUsedUpIff(l, r);
    RightUsedUpIff(l, r);
    if Inserted(l, r) {
      ExitWhenInserted(l, r);
      RepairsTwiceOfInserted(l, r, LoopExit(l, r, Start(l, r)));
    } else if Inserted(r, l) {
      RightExitWhenInserted(l, r);
      RepairsTwiceOfMirrored(l, r, LoopExit(l, r, Start(l, r)));
    }
  }

  /**
   Nothing is lost or duplicated exactly when no segment is taken a second time, or, where one is
   on the left side, the left text is a prefix of the right one, with at least two segments put in,
   and the last correction puts things right.
   */
  lemma {:induction false} ConservesIff(left: string, right: string)
    ensures Conserves(DiffOf(left, right), left, right) <==> KeepsBoth(left, right)
  {
    var l, r := Segments(left), Segments(right);
    SegmentsConserve("", None, left);
    SegmentsConserve("", None, right);
    SegmentsFormed("", None, left);
    SegmentsFormed("", None, right);
    assert "" + left == left && "" + right == right;
    if l != [] && r != [] {
      var e := LoopExit(l, r, Start(l, r));
      StartAlike(l, r);
      ExitAlike(l, r, Start(l, r));
      ExitConservesIff(l, r, e, left, right);
      RepairsTwiceIff(l, r);
    }
  }

  /** In particular nothing is lost when the loop ends with both flags alike. */
  lemma EqualFlagsConserve(left: string, right: string)
    requires Segments(left) != [] && Segments(right) != []
    requires var e := LoopExit(Segments(left), Segments(right), Start(Segments(left), Segments(right)));
             e.leftTaken == e.rightTaken
    ensures Conserves(DiffOf(left, right), left, right)
  {
    var l, r := Segments(left), Segments(right);
    ConservesIff(left, right);
    RepairsTwiceIff(l, r);
  }

  lemma ExitConservesIff(l: seq<Segment>, r: seq<Segment>, e: Ends, left: string, right: string)
    requires TakenAlike(l, r, e) && Cat(l) == left && Cat(r) == right
    requires (forall s :: s in l ==> IsSegment(s)) && (forall s :: s in r ==> IsSegment(s))
    ensures var rest := AfterLoop(l, r, e, Cat(l[..e.ls]), Cat(l[LeftTail(e)..]));
            Conserves(Repair(SplitFrom(l, r, rest), left, right), left, right) <==> !RepairsTwice(l, r, e) || OnlyPrefix(e, left, right)
  {
    var rest := AfterLoop(l, r, e, Cat(l[..e.ls]), Cat(l[LeftTail(e)..]));
    if RepairsTwice(l, r, e) {
      TwiceConservesIff(l, r, e, left, right);
    } else if e.leftTaken && e.rightTaken {
      BothTaken(l, r, e);
      BothTakenConserves(l, r, rest, left);
    } else {
      NotTwiceConserves(l, r, e, left, right);
    }
  }

  /** No segment is taken twice, and not both sides are used up. */
  lemma NotTwiceConserves(l: seq<Segment>, r: seq<Segment>, e: Ends, left: string, right: string)
    requires TakenAlike(l, r, e) && Cat(l) == left && Cat(r) == right
    requires !RepairsTwice(l, r, e) && !(e.leftTaken && e.rightTaken)
    ensures var rest := AfterLoop(l, r, e, Cat(l[..e.ls]), Cat(l[LeftTail(e)..]));
            Conserves(Repair(SplitFrom(l, r, rest), left, right), left, right)
  {
    ExitAccounts(l, r, e);
    if !e.leftTaken && !e.rightTaken {
      RepairAccounts(l, r, e, Cat(l[..e.ls]), Cat(l[LeftTail(e)..]));
    }
    AccountsSplit(l, r, AfterLoop(l, r, e, Cat(l[..e.ls]), Cat(l[LeftTail(e)..])), left, right);
  }

  lemma BothTakenConserves(l: seq<Segment>, r: seq<Segment>, rest: Rest, text: string)
    requires InRange(l, r, rest.ends) && rest.ends.leftTaken && rest.ends.rightTaken
    ensures Conserves(Repair(SplitFrom(l, r, rest), text, text), text, text)
  {
    assert Cat(l[rest.ends.ls..LeftTail(rest.ends)]) == "" && Cat(r[rest.ends.rs..RightTail(rest.ends)]) == "";
    EmptySplit(l, r, rest);
  }

  // ---------- Nothing in common is left over ----------

  predicate StartsDiffer(d: Split) {
    d.left != "" && d.right != "" ==> d.left[0] != d.right[0]
  }

  predicate EndsDiffer(d: Split) {
    d.left != "" && d.right != "" ==> d.left[|d.left| - 1] != d.right[|d.right| - 1]
  }

  lemma SliceEnds(text: string, i: nat, j: nat)
    requires i < j <= |text|
    ensures text[i..j][0] == text[i] && text[i..j][j - i - 1] == text[j - 1]
  {
  }

  /** Where text may be moved to the prefix or the suffix, none that is common stays. */
  lemma TrimIsMaximal(prefix: string, suffix: string, left: string, right: string, textPrefix: bool, textSuffix: bool)
    ensures var d := TrimText(prefix, suffix, left, right, textPrefix, textSuffix);
            (textPrefix ==> StartsDiffer(d)) && (textSuffix ==> EndsDiffer(d))
  {
    var s := if textSuffix then CommonSuffixLen(left, right) else 0;
    var i, j := |left| - s, |right| - s;
    var p := if textPrefix then CommonPrefixLen(left[..i], right[..j]) else 0;
    if p < i && p < j {
      SliceEnds(left, p, i);
      SliceEnds(right, p, j);
    }
  }

  /** What has been taken off the ends, and which segments are left there. */
  predicate TextInFront(l: seq<Segment>, r: seq<Segment>, e: Ends)
    requires InRange(l, r, e)
  {
    l[e.ls].kind == Text && r[e.rs].kind == Text
  }

  predicate TextBehind(l: seq<Segment>, r: seq<Segment>, e: Ends)
    requires InRange(l, r, e)
  {
    l[e.le].kind == Text && r[e.re].kind == Text
  }

  /**
   At an end where both sides have text left, what is left over differs in its outermost character;
   at any other end nothing but whole segments has been taken off.
   */
  predicate CutWell(l: seq<Segment>, r: seq<Segment>, rest: Rest, d: Split)
    requires InRange(l, r, rest.ends)
  {
    && (if TextInFront(l, r, rest.ends) then StartsDiffer(d) else d.prefix == rest.prefix)
    && (if TextBehind(l, r, rest.ends) then EndsDiffer(d) else d.suffix == rest.suffix)
  }

  lemma SplitIsCutWell(l: seq<Segment>, r: seq<Segment>, rest: Rest)
    requires InRange(l, r, rest.ends)
    ensures CutWell(l, r, rest, SplitFrom(l, r, rest))
  {
    var e := rest.ends;
    var left, right := Cat(l[e.ls..LeftTail(e)]), Cat(r[e.rs..RightTail(e)]);
    TrimIsMaximal(rest.prefix, rest.suffix, left, right,
      r[e.rs].kind == Text && l[e.ls].kind == Text,
      l[e.le].kind == Text && r[e.re].kind == Text);
    assert rest.prefix + left[..0] == rest.prefix && left[|left|..] + rest.suffix == rest.suffix;
  }

  /** Where something is left over on both sides, it is cut off like that. */
  lemma RemaindersDiffer(left: string, right: string)
    requires Segments(left) != [] && Segments(right) != []
    requires DiffOf(left, right).left != "" && DiffOf(left, right).right != ""
    ensures var l, r := Segments(left), Segments(right);
            var e := LoopExit(l, r, Start(l, r));
            CutWell(l, r, AfterLoop(l, r, e, Cat(l[..e.ls]), Cat(l[LeftTail(e)..])), DiffOf(left, right))
  {
    var l, r := Segments(left), Segments(right);
    var e := LoopExit(l, r, Start(l, r));
    SplitIsCutWell(l, r, AfterLoop(l, r, e, Cat(l[..e.ls]), Cat(l[LeftTail(e)..])));
  }

  /** Text without anything that could open a marker. */
  predicate IsPlain(text: string) {
    text != "" && '<' !in text && '[' !in text
  }

  lemma {:induction false} PlainSegments(current: string, rest: string)
    requires forall c :: c in rest ==> !IsOpener(c)
    ensures SegmentsFrom(current, None, rest) == TextSegment(current + rest)
    decreases |rest|
  {
    if rest == "" {
      assert current + rest == current;
    } else {
      HeadAndRest(current, rest[0], rest[1..]);
      assert [rest[0]] + rest[1..] == rest;
      PlainSegments(current + [rest[0]], rest[1..]);
    }
  }

  /** No common end of the texts is longer than the counted one. */
  lemma {:induction false} SuffixLenIsMax(a: string, b: string, i: nat, n: nat)
    requires i <= n && SameEnd(a, b, n)
    ensures n <= SuffixLenFrom(a, b, i)
    decreases n - i
  {
    if i < n {
      assert a[|a| - n..][n - 1 - i] == b[|b| - n..][n - 1 - i];
      SuffixLenIsMax(a, b, i + 1, n);
    }
  }

  /**
   The difference of two texts without markers. If the right one continues the left one, that is
   all; otherwise the suffix is their longest common end, the prefix the longest common start of
   what is in front of it, and nothing is lost.
   */
  ghost predicate PlainlySplit(d: Split, left: string, right: string) {
    if left <= right then d == Split(left, "", "", right[|left|..])
    else
      && Conserves(d, left, right)
      && (forall n: nat :: SameEnd(left, right, n) ==> n <= |d.suffix|)
      && StartsDiffer(d) && EndsDiffer(d)
  }

  lemma OneSegmentEach(left: string, right: string)
    ensures var l, r := [Segment(Text, left)], [Segment(Text, right)];
            && LoopExit(l, r, Start(l, r)) == Start(l, r)
            && AfterLoop(l, r, Start(l, r), "", "") == Rest(Start(l, r), "", "")
            && Cat(l[..0]) == "" && Cat(l[1..]) == ""
            && SplitFrom(l, r, Rest(Start(l, r), "", "")) == TrimText("", "", left, right, true, true)
  {
    var l, r := [Segment(Text, left)], [Segment(Text, right)];
    assert l[0..1] == l && r[0..1] == r;
    CatText(left, []);
    CatText(right, []);
    assert Cat(l) == left + "" == left && Cat(r) == right + "" == right;
  }

  lemma PlainDiff(left: string, right: string)
    requires IsPlain(left) && IsPlain(right)
    ensures DiffOf(left, right) == Repair(TrimText("", "", left, right, true, true), left, right)
  {
    PlainSegments("", left);
    PlainSegments("", right);
    assert "" + left == left && "" + right == right;
    OneSegmentEach(left, right);
  }

  lemma PrefixIsUsedUp(left: string, right: string)
    requires left <= right
    ensures TrimText("", "", left, right, true, true).left == ""
  {
    var s := CommonSuffixLen(left, right);
    var a, b := left[..|left| - s], right[..|right| - s];
    PrefixLenSound(a, b, 0);
    assert forall i :: 0 <= i < |a| ==> a[i] == b[i];
  }

  lemma PlainPrefixSplit(left: string, right: string)
    requires left <= right
    ensures Repair(TrimText("", "", left, right, true, true), left, right) == Split(left, "", "", right[|left|..])
  {
    PrefixIsUsedUp(left, right);
    TrimConserves("", "", left, right, true, true);
    assert |left| == |right| ==> right[|left|..] == "" && left == right;
  }

  lemma NothingToRepair(d: Split, left: string, right: string)
    requires Conserves(d, left, right) && !(left <= right)
    ensures Repair(d, left, right) == d
  {
  }

  lemma NothingAround(text: string)
    ensures "" + text + "" == text
  {
  }

  lemma PlainTrimConserves(left: string, right: string)
    ensures Conserves(TrimText("", "", left, right, true, true), left, right)
  {
    NothingAround(left);
    NothingAround(right);
    TrimConserves("", "", left, right, true, true);
  }

  lemma PlainSuffixIsLongest(left: string, right: string, n: nat)
    requires SameEnd(left, right, n)
    ensures n <= |TrimText("", "", left, right, true, true).suffix|
  {
    SuffixLenIsMax(left, right, 0, n);
  }

  lemma PlainOtherSplit(left: string, right: string)
    requires !(left <= right)
    ensures PlainlySplit(Repair(TrimText("", "", left, right, true, true), left, right), left, right)
  {
    var d := TrimText("", "", left, right, true, true);
    PlainTrimConserves(left, right);
    NothingToRepair(d, left, right);
    TrimIsMaximal("", "", left, right, true, true);
    forall n: nat | SameEnd(left, right, n)
      ensures n <= |d.suffix|
    {
      PlainSuffixIsLongest(left, right, n);
    }
  }

  lemma PlainTextsSplit(left: string, right: string)
    requires IsPlain(left) && IsPlain(right)
    ensures PlainlySplit(DiffOf(left, right), left, right)
  {
    PlainDiff(left, right);
    if left <= right {
      PlainPrefixSplit(left, right);
    } else {
      PlainOtherSplit(left, right);
    }
  }

  // ---------- The method ----------

  /** `std::accumulate` over segments, from one iterator up to another. */
  method EatSegments(l: seq<Segment>, i: nat, j: nat) returns (text: string)
    requires i <= j <= |l|
    ensures text == Cat(l[i..j])
  {
    text := "";
    for k := i to j
      invariant text == Cat(l[i..k])
    {
      CatMore(l[i..k], l[k]);
      assert l[i..k + 1] == l[i..k] + [l[k]];
      text := text + l[k].value;
    }
  }

  /** Prefix and suffix are what lies outside the iterators. */
  ghost predicate Texts(l: seq<Segment>, e: Ends, prefix: string, suffix: string) {
    e.ls <= |l| && LeftTail(e) <= |l| && prefix == Cat(l[..e.ls]) && suffix == Cat(l[LeftTail(e)..])
  }

  lemma PrefixStep(l: seq<Segment>, i: nat)
    requires i < |l|
    ensures Cat(l[..i]) + l[i].value == Cat(l[..i + 1])
  {
    CatMore(l[..i], l[i]);
    assert l[..i + 1] == l[..i] + [l[i]];
  }

  lemma SuffixStep(l: seq<Segment>, i: nat)
    requires i < |l|
    ensures l[i].value + Cat(l[i + 1..]) == Cat(l[i..])
  {
    CatMore(l[i + 1..], l[i]);
    assert l[i..] == [l[i]] + l[i + 1..];
  }

  lemma TextsStart(l: seq<Segment>, r: seq<Segment>, e: Ends, prefix: string, suffix: string)
    requires InRange(l, r, e) && Running(e) && Texts(l, e, prefix, suffix)
    ensures Texts(l, StepStart(l, r, e), if l[e.ls] == r[e.rs] then prefix + l[e.ls].value else prefix, suffix)
  {
    PrefixStep(l, e.ls);
  }

  lemma TextsEnd(l: seq<Segment>, r: seq<Segment>, e: Ends, prefix: string, suffix: string)
    requires InRange(l, r, e) && !e.leftTaken && Texts(l, e, prefix, suffix)
    ensures Texts(l, StepEnd(l, r, e), prefix, if l[e.le] == r[e.re] then l[e.le].value + suffix else suffix)
  {
    SuffixStep(l, e.le);
  }

  /** Taking one segment off the front, if the two first ones agree. */
  method TakeStart(l: seq<Segment>, r: seq<Segment>, e0: Ends, prefix0: string, ghost suffix: string)
    returns (e: Ends, prefix: string, advanced: bool)
    requires InRange(l, r, e0) && Running(e0) && Texts(l, e0, prefix0, suffix)
    ensures e == StepStart(l, r, e0) && Texts(l, e, prefix, suffix)
    ensures advanced <==> e != e0
  {
    e, prefix, advanced := e0, prefix0, false;
    TextsStart(l, r, e, prefix, suffix);
    if l[e.ls] == r[e.rs] {
      prefix := prefix + l[e.ls].value;
      e := e.(ls := e.ls + 1, rs := e.rs + 1);
      advanced := true;
    }
  }

  /** Taking one segment off the back, if the two last ones agree. */
  method TakeEnd(l: seq<Segment>, r: seq<Segment>, e0: Ends, ghost prefix: string, suffix0: string)
    returns (e: Ends, suffix: string, advanced: bool)
    requires InRange(l, r, e0) && !e0.leftTaken && !e0.rightTaken && Texts(l, e0, prefix, suffix0)
    ensures e == StepEnd(l, r, e0) && Texts(l, e, prefix, suffix)
    ensures advanced <==> e != e0
  {
    e, suffix, advanced := e0, suffix0, false;
    TextsEnd(l, r, e, prefix, suffix);
    if l[e.le] == r[e.re] {
      suffix := l[e.le].value + suffix;
      if e.ls != e.le {
        e := e.(le := e.le - 1);
      } else {
        e := e.(leftTaken := true);
      }
      if e.rs != e.re {
        e := e.(re := e.re - 1);
      } else {
        e := e.(rightTaken := true);
      }
      advanced := true;
    }
  }

  /** The main loop of `calculate_diff_split`. */
  method TakeEnds(l: seq<Segment>, r: seq<Segment>) returns (e: Ends, prefix: string, suffix: string)
    requires l != [] && r != []
    ensures InRange(l, r, e) && e == LoopExit(l, r, Start(l, r)) && Texts(l, e, prefix, suffix)
  {
    e, prefix, suffix := Start(l, r), "", "";
    while Running(e)
      invariant InRange(l, r, e) && Texts(l, e, prefix, suffix)
      invariant LoopExit(l, r, e) == LoopExit(l, r, Start(l, r))
      decreases e.le - e.ls + e.re - e.rs
    {
      var front, back;
      e, prefix, front := TakeStart(l, r, e, prefix, suffix);
      e, suffix, back := TakeEnd(l, r, e, prefix, suffix);
      if !front && !back {
        break;
      }
    }
  }

  /** The repair cases after the loop. */
  method RepairEnds(l: seq<Segment>, r: seq<Segment>, e0: Ends, prefix0: string, suffix0: string)
    returns (e: Ends, prefix: string, suffix: string)
    requires InRange(l, r, e0)
    ensures Rest(e, prefix, suffix) == AfterLoop(l, r, e0, prefix0, suffix0)
  {
    e, prefix, suffix := e0, prefix0, suffix0;
    if e.ls == e.le && e.rs != e.re {
      if l[e.ls] == r[e.re] {
        suffix := r[e.re].value + suffix;
        e := e.(re := e.re - 1, leftTaken := true);
      } else if l[e.ls] == r[e.rs] {
        prefix := prefix + r[e.rs].value;
        e := e.(rs := e.rs + 1, leftTaken := true);
      }
    } else if e.rs == e.re && e.ls != e.le {
      if l[e.le] == r[e.rs] {
        suffix := l[e.le].value + suffix;
        e := e.(le := e.le - 1, rightTaken := true);
      } else if l[e.ls] == r[e.rs] {
        prefix := prefix + l[e.ls].value;
        e := e.(ls := e.ls + 1, rightTaken := true);
      }
    } else if e.ls == e.le && e.rs == e.re && l[e.ls] == r[e.rs] && l[e.ls].kind == Marker {
      prefix := prefix + r[e.rs].value;
      e := e.(leftTaken := true, rightTaken := true);
    }
  }

  method TrimRest(prefix: string, suffix: string, left: string, right: string, textPrefix: bool, textSuffix: bool)
    returns (d: Split)
    ensures d == TrimText(prefix, suffix, left, right, textPrefix, textSuffix)
  {
    var suffixLen, prefixLen := 0, 0;
    if textSuffix {
      suffixLen := SuffixLen(left, right);
    }
    if textPrefix {
      prefixLen := PrefixLen(left[..|left| - suffixLen], right[..|right| - suffixLen]);
    }
    d := TrimBy(prefix, suffix, left, right, prefixLen, suffixLen);
  }

  /** The text left between the iterators, and the common text at its ends. */
  method SplitRest(l: seq<Segment>, r: seq<Segment>, e: Ends, prefix: string, suffix: string) returns (d: Split)
    requires InRange(l, r, e)
    ensures d == SplitFrom(l, r, Rest(e, prefix, suffix))
  {
    var textSuffix := l[e.le].kind == Text && r[e.re].kind == Text;
    var textPrefix := r[e.rs].kind == Text && l[e.ls].kind == Text;
    var left := EatSegments(l, e.ls, LeftTail(e));
    var right := EatSegments(r, e.rs, RightTail(e));
    d := TrimRest(prefix, suffix, left, right, textPrefix, textSuffix);
  }

  /** `calculate_diff_split`. */
  method CalculateDiffSplit(left: string, right: string) returns (d: Split)
    ensures d == DiffOf(left, right)
    ensures Conserves(d, left, right) <==> KeepsBoth(left, right)
    ensures IsPlain(left) && IsPlain(right) ==> PlainlySplit(d, left, right)
  {
    ConservesIff(left, right);
    if IsPlain(left) && IsPlain(right) {
      PlainTextsSplit(left, right);
    }
    var l := SegmentizeMarkers(left);
    var r := SegmentizeMarkers(right);
    if l == [] {
      return Split("", "", "", right);
    }
    if r == [] {
      return Split("", "", left, "");
    }
    var e, prefix, suffix := TakeEnds(l, r);
    e, prefix, suffix := RepairEnds(l, r, e, prefix, suffix);
    d := SplitRest(l, r, e, prefix, suffix);
    if d.left == "" && d.right == "" {
      d := d.(prefix := left, suffix := "");
    }
    if d.left == "" && d.right != "" && left <= right {
      d := d.(prefix := left, suffix := "", right := right[|left|..]);
    }
  }

  // ---------- Inputs on which it fails ----------

  function M(c: char): Segment {
    Segment(Marker, ['<', c, '>'])
  }

  lemma SegmentMarker(c: char, rest: string)
    requires c != '>' && c != '<'
    ensures Segments(['<', c, '>'] + rest) == [M(c)] + Segments(rest)
  {
    var t := ['<', c, '>'] + rest;
    assert t[1..] == [c, '>'] + rest && t[1..][1..] == ['>'] + rest && t[1..][1..][1..] == rest;
    assert ['<'] + [c] == ['<', c] && ['<', c] + ['>'] == ['<', c, '>'];
    assert TextSegment("") + SegmentsFrom("<", Some('<'), t[1..]) == SegmentsFrom("<", Some('<'), t[1..]);
  }

  /** `Tags("ab")` is the text `<a><b>`. */
  function Tags(names: string): string {
    if names == "" then "" else ['<', names[0], '>'] + Tags(names[1..])
  }

  function TagSegments(names: string): seq<Segment> {
    if names == "" then [] else [M(names[0])] + TagSegments(names[1..])
  }

  lemma {:induction false} SegmentsOfTags(names: string)
    requires '<' !in names && '>' !in names
    ensures Segments(Tags(names)) == TagSegments(names)
  {
    if names != "" {
      SegmentMarker(names[0], Tags(names[1..]));
      SegmentsOfTags(names[1..]);
    }
  }

  const LEFT := [M('a'), M('b')]
  const EXTRA := [M('a'), M('x'), M('b'), M('b')]
  const DOUBLED := [M('a'), M('b'), M('b')]

  lemma FailingSegments()
    ensures TagSegments("ab") == LEFT && TagSegments("axbb") == EXTRA && TagSegments("abb") == DOUBLED
  {
  }

  lemma FailingConditions()
    ensures TakesTwice(LEFT, EXTRA) && TakesTwice(LEFT, DOUBLED) && |DOUBLED| == |LEFT| + 1
  {
    assert EXTRA[..1] == LEFT[..1] && EXTRA[3..] == LEFT[1..] && Middle(LEFT, EXTRA) == [M('x'), M('b')];
    assert DOUBLED[..1] == LEFT[..1] && DOUBLED[2..] == LEFT[1..] && Middle(LEFT, DOUBLED) == [M('b')];
  }

  lemma FailingTexts()
    ensures !(Tags("ab") <= Tags("axbb"))
  {
    assert Tags("ab")[4] == Tags("b")[1] == 'b';
    assert Tags("axbb")[4] == Tags("xbb")[1] == 'x';
  }

  /**
   Left `<a><b>`, right `<a><x><b><b>`: the last `<b>` of the left text is used up as suffix,
   and then matched once more. Left `<a><b>`, right `<a><b><b>`: the second `<b>` is lost.
   */
  lemma FailingInputs()
    ensures !Conserves(DiffOf(Tags("ab"), Tags("axbb")), Tags("ab"), Tags("axbb"))
    ensures !Conserves(DiffOf(Tags("ab"), Tags("abb")), Tags("ab"), Tags("abb"))
  {
    SegmentsOfTags("ab");
    SegmentsOfTags("axbb");
    SegmentsOfTags("abb");
    FailingSegments();
    FailingConditions();
    FailingTexts();
    ConservesIff(Tags("ab"), Tags("axbb"));
    ConservesIff(Tags("ab"), Tags("abb"));
  }
}
