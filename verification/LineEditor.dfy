/**
 The line editor of `readline_advanced`: a byte buffer, a width per character, a character
 cursor and a byte cursor, and the history. Each editing step is proved to do to these what a
 plain editor does to a sequence of code points with one cursor.

 Output is modelled by the terminal column relative to the start of the line. How wide a code
 point is shown and whether it is a space are parameters.
 */
module LineEditor {
  import opened Base
  import opened Utf8

  // ---------- The plain editor ----------

  type Text = seq<CodePoint>

  /** Entries, the index being viewed, and the line as it was before viewing began. */
  datatype History = History(entries: seq<Text>, viewing: Option<nat>, backup: Text)

  datatype Editor = Editor(text: Text, cursor: nat, history: History)

  predicate IsEditor(e: Editor) {
    e.cursor <= |e.text| && (e.history.viewing.Some? ==> e.history.viewing.value <= |e.history.entries|)
  }

  /** How far left the cursor gets over characters that are, or are not, spaces. */
  function SkipLeft(isSpace: int -> bool, spaces: bool, text: Text, k: nat): (r: nat)
    requires k <= |text|
    ensures r <= k
    ensures forall i :: r <= i < k ==> isSpace(text[i]) == spaces
    ensures r > 0 ==> isSpace(text[r - 1]) != spaces
  {
    if k > 0 && isSpace(text[k - 1]) == spaces then SkipLeft(isSpace, spaces, text, k - 1) else k
  }

  function SkipRight(isSpace: int -> bool, spaces: bool, text: Text, k: nat): (r: nat)
    requires k <= |text|
    ensures k <= r <= |text|
    ensures forall i :: k <= i < r ==> isSpace(text[i]) == spaces
    ensures r < |text| ==> isSpace(text[r]) != spaces
    decreases |text| - k
  {
    if k < |text| && isSpace(text[k]) == spaces then SkipRight(isSpace, spaces, text, k + 1) else k
  }

  function WordLeft(isSpace: int -> bool, text: Text, k: nat): (r: nat)
    requires k <= |text|
    ensures r <= k
  {
    SkipLeft(isSpace, false, text, SkipLeft(isSpace, true, text, k))
  }

  function WordRight(isSpace: int -> bool, text: Text, k: nat): (r: nat)
    requires k <= |text|
    ensures k <= r <= |text|
  {
    SkipRight(isSpace, true, text, SkipRight(isSpace, false, text, SkipRight(isSpace, true, text, k)))
  }

  /** From k back over spaces to m, and on over one word to its start r. */
  predicate BackToWord(isSpace: int -> bool, text: Text, k: nat, m: nat, r: nat)
    requires k <= |text|
  {
    && r <= m <= k
    && (forall i :: m <= i < k ==> isSpace(text[i]))
    && (m > 0 ==> !isSpace(text[m - 1]))
    && (forall i :: r <= i < m ==> !isSpace(text[i]))
    && (r > 0 ==> isSpace(text[r - 1]))
  }

  /** From k over spaces to m, on over one word to its end n, and over the spaces behind it to r. */
  predicate PastWord(isSpace: int -> bool, text: Text, k: nat, m: nat, n: nat, r: nat)
    requires k <= |text|
  {
    && k <= m <= n <= r <= |text|
    && (forall i :: k <= i < m ==> isSpace(text[i]))
    && (m < |text| ==> !isSpace(text[m]))
    && (forall i :: m <= i < n ==> !isSpace(text[i]))
    && (n < |text| ==> isSpace(text[n]))
    && (forall i :: n <= i < r ==> isSpace(text[i]))
    && (r < |text| ==> !isSpace(text[r]))
  }

  lemma {:induction false} SkipLeftIs(isSpace: int -> bool, spaces: bool, text: Text, k: nat, r: nat)
    requires r <= k <= |text| && (forall i :: r <= i < k ==> isSpace(text[i]) == spaces)
    requires r > 0 ==> isSpace(text[r - 1]) != spaces
    ensures SkipLeft(isSpace, spaces, text, k) == r
    decreases k
  {
    if r < k {
      SkipLeftIs(isSpace, spaces, text, k - 1, r);
    }
  }

  lemma {:induction false} SkipRightIs(isSpace: int -> bool, spaces: bool, text: Text, k: nat, r: nat)
    requires k <= r <= |text| && (forall i :: k <= i < r ==> isSpace(text[i]) == spaces)
    requires r < |text| ==> isSpace(text[r]) != spaces
    ensures SkipRight(isSpace, spaces, text, k) == r
    decreases r - k
  {
    if k < r {
      SkipRightIs(isSpace, spaces, text, k + 1, r);
    }
  }

  /** The word move to the left ends at the start of a word, and nowhere else. */
  lemma WordLeftIff(isSpace: int -> bool, text: Text, k: nat, r: nat)
    requires k <= |text|
    ensures r == WordLeft(isSpace, text, k) <==> exists m: nat :: BackToWord(isSpace, text, k, m, r)
  {
    assert BackToWord(isSpace, text, k, SkipLeft(isSpace, true, text, k), WordLeft(isSpace, text, k));
    forall m: nat | BackToWord(isSpace, text, k, m, r)
      ensures r == WordLeft(isSpace, text, k)
    {
      SkipLeftIs(isSpace, true, text, k, m);
      SkipLeftIs(isSpace, false, text, m, r);
    }
  }

  /** The word move to the right ends at the start of the next word, or at the end of the line. */
  lemma WordRightIff(isSpace: int -> bool, text: Text, k: nat, r: nat)
    requires k <= |text|
    ensures r == WordRight(isSpace, text, k) <==> exists m: nat, n: nat :: PastWord(isSpace, text, k, m, n, r)
  {
    var m0 := SkipRight(isSpace, true, text, k);
    assert PastWord(isSpace, text, k, m0, SkipRight(isSpace, false, text, m0), WordRight(isSpace, text, k));
    forall m: nat, n: nat | PastWord(isSpace, text, k, m, n, r)
      ensures r == WordRight(isSpace, text, k)
    {
      SkipRightIs(isSpace, true, text, k, m);
      SkipRightIs(isSpace, false, text, m, n);
      SkipRightIs(isSpace, true, text, n, r);
    }
  }

  function Erase(text: Text, k: nat): Text
    requires k < |text|
  {
    text[..k] + text[k + 1..]
  }

  function Insert(text: Text, k: nat, c: CodePoint): Text
    requires k <= |text|
  {
    text[..k] + [c] + text[k..]
  }

  /** The character at which a byte position falls, starting the search at the k-th. */
  function CharacterAt(text: Text, bytePos: int, k: nat): (r: nat)
    requires k <= |text|
    ensures k <= r <= |text|
    decreases |text| - k
  {
    if k < |text| && (bytePos < 0 || Offset(text, k + 1) <= bytePos) then CharacterAt(text, bytePos, k + 1) else k
  }

  /** The i-th character ends at the byte position or earlier; every character does if it is negative. */
  predicate CharacterEndsBefore(text: Text, bytePos: int, i: nat)
    requires i < |text|
  {
    bytePos < 0 || Offset(text, i + 1) <= bytePos
  }

  datatype Key =
    | Left | Right | CtrlLeft | CtrlRight | Home | End | Delete | Backspace | Up | Down
    | Char(c: CodePoint)
    | Complete(several: bool, line: Text, bytePos: int)

  function HistoryUp(e: Editor): (r: Editor)
    requires IsEditor(e)
    ensures IsEditor(r)
  {
    var h := if e.history.viewing.Some? then e.history else e.history.(backup := e.text, viewing := Some(|e.history.entries|));
    if h.entries == [] then e.(history := h)
    else
      var i := if h.viewing.value > 0 then h.viewing.value - 1 else 0;
      Editor(h.entries[i], |h.entries[i]|, h.(viewing := Some(i)))
  }

  function HistoryDown(e: Editor): (r: Editor)
    requires IsEditor(e)
    ensures IsEditor(r)
  {
    var h := e.history;
    if h.viewing.None? || h.entries == [] then e
    else if h.viewing.value + 1 >= |h.entries| then Editor(h.backup, |h.backup|, h.(viewing := None, backup := []))
    else
      var t := h.entries[h.viewing.value + 1];
      Editor(t, |t|, h.(viewing := Some(h.viewing.value + 1)))
  }

  function Press(isSpace: int -> bool, e: Editor, key: Key): (r: Editor)
    requires IsEditor(e)
    ensures IsEditor(r)
  {
    match key
    case Left => if e.cursor > 0 then e.(cursor := e.cursor - 1) else e
    case Right => if e.cursor < |e.text| then e.(cursor := e.cursor + 1) else e
    case CtrlLeft => e.(cursor := WordLeft(isSpace, e.text, e.cursor))
    case CtrlRight => e.(cursor := WordRight(isSpace, e.text, e.cursor))
    case Home => e.(cursor := 0)
    case End => e.(cursor := |e.text|)
    case Delete => if e.cursor < |e.text| then e.(text := Erase(e.text, e.cursor)) else e
    case Backspace => if e.cursor > 0 then e.(text := Erase(e.text, e.cursor - 1), cursor := e.cursor - 1) else e
    case Up => HistoryUp(e)
    case Down => HistoryDown(e)
    case Char(c) => e.(text := Insert(e.text, e.cursor, c), cursor := e.cursor + 1)
    case Complete(several, line, bytePos) =>
      if several || line != e.text then e.(text := line, cursor := CharacterAt(line, bytePos, 0)) else e
  }

  function PressAll(isSpace: int -> bool, e: Editor, keys: seq<Key>): (r: Editor)
    requires IsEditor(e)
    ensures IsEditor(r)
    decreases |keys|
  {
    if keys == [] then e else PressAll(isSpace, Press(isSpace, e, keys[0]), keys[1..])
  }

  // ---------- Laws of the plain editor, which the real one inherits ----------

  lemma BackspaceUndoesChar(isSpace: int -> bool, e: Editor, c: CodePoint)
    requires IsEditor(e)
    ensures Press(isSpace, Press(isSpace, e, Char(c)), Backspace) == e
    ensures Press(isSpace, e, Char(c)).cursor == e.cursor + 1 && Press(isSpace, e, Char(c)).text[e.cursor] == c
  {
    var t := e.text[..e.cursor] + [c] + e.text[e.cursor..];
    assert t[..e.cursor] == e.text[..e.cursor] && t[e.cursor + 1..] == e.text[e.cursor..];
    assert e.text[..e.cursor] + e.text[e.cursor..] == e.text;
  }

  lemma LeftDeleteIsBackspace(isSpace: int -> bool, e: Editor)
    requires IsEditor(e) && e.cursor > 0
    ensures Press(isSpace, Press(isSpace, e, Left), Delete) == Press(isSpace, e, Backspace)
  {
  }

  /** One to the left and one to the right is where the cursor was, and beyond the ends it does not go. */
  lemma LeftAndRight(isSpace: int -> bool, e: Editor)
    requires IsEditor(e)
    ensures e.cursor > 0 ==> Press(isSpace, Press(isSpace, e, Left), Right) == e != Press(isSpace, e, Left)
    ensures e.cursor == 0 ==> Press(isSpace, e, Left) == e
    ensures e.cursor < |e.text| ==> Press(isSpace, Press(isSpace, e, Right), Left) == e
    ensures e.cursor == |e.text| ==> Press(isSpace, e, Right) == e
    ensures e.cursor == |e.text| ==> Press(isSpace, e, Delete) == e
    ensures e.cursor == 0 ==> Press(isSpace, e, Backspace) == e
  {
  }

  /** Home is as many steps to the left as there are characters before the cursor. */
  lemma {:induction false} HomeIsLeft(isSpace: int -> bool, e: Editor)
    requires IsEditor(e)
    ensures PressAll(isSpace, e, Repeated(Left, e.cursor)) == Press(isSpace, e, Home)
    decreases e.cursor
  {
    if e.cursor > 0 {
      assert Repeated(Left, e.cursor)[1..] == Repeated(Left, e.cursor - 1);
      HomeIsLeft(isSpace, Press(isSpace, e, Left));
    }
  }

  /** End is as many steps to the right as there are characters behind it. */
  lemma {:induction false} EndIsRight(isSpace: int -> bool, e: Editor)
    requires IsEditor(e)
    ensures PressAll(isSpace, e, Repeated(Right, |e.text| - e.cursor)) == Press(isSpace, e, End)
    decreases |e.text| - e.cursor
  {
    if e.cursor < |e.text| {
      assert Repeated(Right, |e.text| - e.cursor)[1..] == Repeated(Right, |e.text| - e.cursor - 1);
      EndIsRight(isSpace, Press(isSpace, e, Right));
    }
  }

  function Typed(text: Text): seq<Key> {
    if text == [] then [] else [Char(text[0])] + Typed(text[1..])
  }

  lemma TypeAtEnd(isSpace: int -> bool, e: Editor, c: CodePoint)
    requires IsEditor(e) && e.cursor == |e.text|
    ensures Press(isSpace, e, Char(c)) == e.(text := e.text + [c], cursor := |e.text| + 1)
  {
    assert e.text[..e.cursor] == e.text && e.text[e.cursor..] == [];
    assert e.text + [c] + [] == e.text + [c];
  }

  /** Typing at the end of a line appends what is typed. */
  lemma {:induction false} TypingAppends(isSpace: int -> bool, e: Editor, text: Text)
    requires IsEditor(e) && e.cursor == |e.text|
    ensures PressAll(isSpace, e, Typed(text)) == e.(text := e.text + text, cursor := |e.text| + |text|)
    decreases |text|
  {
    if text == [] {
      assert e.text + [] == e.text;
    } else {
      TypeAtEnd(isSpace, e, text[0]);
      assert Typed(text)[1..] == Typed(text[1..]);
      TypingAppends(isSpace, Press(isSpace, e, Char(text[0])), text[1..]);
      Associative(e.text, [text[0]], text[1..]);
      assert [text[0]] + text[1..] == text;
    }
  }

  lemma {:induction false} CharacterAtSplits(text: Text, bytePos: int, k: nat)
    requires k <= |text|
    ensures forall i :: k <= i < |text| ==>
              (i < CharacterAt(text, bytePos, k) <==> CharacterEndsBefore(text, bytePos, i))
    decreases |text| - k
  {
    if k < |text| {
      if CharacterEndsBefore(text, bytePos, k) {
        CharacterAtSplits(text, bytePos, k + 1);
      } else {
        forall i | k <= i < |text|
          ensures !CharacterEndsBefore(text, bytePos, i)
        {
          OffsetMonotone(text, k + 1, i + 1);
        }
      }
    }
  }

  /** A completion shows its line, with the cursor behind what ends before the given byte, or leaves all as it is. */
  lemma CompletionShows(isSpace: int -> bool, e: Editor, several: bool, line: Text, bytePos: int)
    requires IsEditor(e)
    ensures var r := Press(isSpace, e, Complete(several, line, bytePos));
            && r.text == line && r.history == e.history
            && (!several && line == e.text ==> r == e)
            && (several || line != e.text ==>
                 forall i :: 0 <= i < |line| ==> (i < r.cursor <==> CharacterEndsBefore(line, bytePos, i)))
  {
    CharacterAtSplits(line, bytePos, 0);
  }

  function Repeated(key: Key, n: nat): seq<Key> {
    if n == 0 then [] else [key] + Repeated(key, n - 1)
  }

  /** Going down from a viewed entry, through the later ones, to the line that was backed up. */
  lemma {:induction false} DownRestores(isSpace: int -> bool, e: Editor, n: nat)
    requires IsEditor(e) && e.history.viewing == Some(|e.history.entries| - n) && 0 < n <= |e.history.entries|
    ensures PressAll(isSpace, e, Repeated(Down, n))
         == Editor(e.history.backup, |e.history.backup|, History(e.history.entries, None, []))
    decreases n
  {
    var e1 := Press(isSpace, e, Down);
    assert Repeated(Down, n)[1..] == Repeated(Down, n - 1);
    if n > 1 {
      DownRestores(isSpace, e1, n - 1);
    }
  }

  lemma {:induction false} UpFrom(isSpace: int -> bool, e: Editor, n: nat, i: nat)
    requires IsEditor(e) && e.history.viewing == Some(i) && n <= i && i < |e.history.entries|
    ensures var r := PressAll(isSpace, e, Repeated(Up, n));
            && r.history == e.history.(viewing := Some(i - n))
            && (n > 0 ==> r.text == e.history.entries[i - n])
    decreases n
  {
    if n > 0 {
      assert Repeated(Up, n)[1..] == Repeated(Up, n - 1);
      UpFrom(isSpace, Press(isSpace, e, Up), n - 1, i - 1);
    }
  }

  lemma {:induction false} PressAllConcat(isSpace: int -> bool, e: Editor, a: seq<Key>, b: seq<Key>)
    requires IsEditor(e)
    ensures PressAll(isSpace, e, a + b) == PressAll(isSpace, PressAll(isSpace, e, a), b)
    decreases |a|
  {
    if a == [] {
      assert a + b == b;
    } else {
      assert (a + b)[1..] == a[1..] + b;
      PressAllConcat(isSpace, Press(isSpace, e, a[0]), a[1..], b);
    }
  }

  /** At the oldest entry there is no going back, and without viewing no going forward. */
  lemma HistoryEnds(isSpace: int -> bool, e: Editor)
    requires IsEditor(e)
    ensures e.history.entries != [] && e.history.viewing == Some(0) ==>
              Press(isSpace, e, Up) == Editor(e.history.entries[0], |e.history.entries[0]|, e.history)
    ensures e.history.viewing == None ==> Press(isSpace, e, Down) == e
    ensures e.history.entries == [] ==>
              Press(isSpace, e, Up).text == Press(isSpace, e, Down).text == e.text
              && Press(isSpace, e, Up).cursor == Press(isSpace, e, Down).cursor == e.cursor
  {
  }

  /** Going n entries back and n forward again restores the line that was being typed. */
  lemma {:induction false} HistoryRoundTrip(isSpace: int -> bool, e: Editor, n: nat)
    requires IsEditor(e) && e.history.viewing.None? && 0 < n <= |e.history.entries|
    ensures PressAll(isSpace, e, Repeated(Up, n)).text == e.history.entries[|e.history.entries| - n]
    ensures PressAll(isSpace, e, Repeated(Up, n) + Repeated(Down, n))
         == Editor(e.text, |e.text|, History(e.history.entries, None, []))
  {
    var e1 := Press(isSpace, e, Up);
    assert Repeated(Up, n)[1..] == Repeated(Up, n - 1);
    UpFrom(isSpace, e1, n - 1, |e.history.entries| - 1);
    var e2 := PressAll(isSpace, e, Repeated(Up, n));
    assert e2 == PressAll(isSpace, e1, Repeated(Up, n - 1));
    DownRestores(isSpace, e2, n);
    PressAllConcat(isSpace, e, Repeated(Up, n), Repeated(Down, n));
  }

  // ---------- Bytes of an edited text ----------

  function Sum(ws: seq<nat>): nat {
    if ws == [] then 0 else Sum(ws[..|ws| - 1]) + ws[|ws| - 1]
  }

  lemma SumStep(ws: seq<nat>, k: nat)
    requires k < |ws|
    ensures Sum(ws[..k + 1]) == Sum(ws[..k]) + ws[k]
  {
    assert ws[..k + 1][..k] == ws[..k];
  }

  lemma {:induction false} EraseBytes(text: Text, k: nat)
    requires k < |text|
    ensures var line, at, next := EncodeAll(text), Offset(text, k), Offset(text, k + 1);
            && at <= next <= |line|
            && EncodeAll(Erase(text, k)) == line[..at] + line[next..]
  {
    SplitAt(text, k);
    SplitAt(text, k + 1);
    Around(text, k);
    EncodeAllConcat(text[..k], text[k + 1..]);
  }

  lemma InsertBytes(text: Text, k: nat, c: CodePoint)
    requires k <= |text|
    ensures var line, at := EncodeAll(text), Offset(text, k);
            && at <= |line|
            && EncodeAll(Insert(text, k, c)) == line[..at] + Encode(c) + line[at..]
  {
    SplitAt(text, k);
    EncodeAllConcat(text[..k] + [c], text[k..]);
    EncodeAllConcat(text[..k], [c]);
    assert EncodeAll([c]) == Encode(c) + [] == Encode(c);
  }

  /** Bytes, widths and characters of a line belong together. */
  ghost predicate Matches(glyphWidth: int -> nat, line: seq<Byte>, widths: seq<nat>, text: Text) {
    line == EncodeAll(text) && |widths| == |text| && forall i :: 0 <= i < |text| ==> widths[i] == glyphWidth(text[i])
  }

  lemma AppendAtEnd<T>(s: seq<T>, more: seq<T>)
    ensures s[..|s|] + more + s[|s|..] == s + more
  {
  }

  lemma InsertNothing(line: seq<Byte>, at: nat)
    requires at <= |line|
    ensures line + [] == line && line[..at] + [] + line[at..] == line
  {
  }

  lemma EraseMatches(glyphWidth: int -> nat, line: seq<Byte>, widths: seq<nat>, text: Text, k: nat)
    requires Matches(glyphWidth, line, widths, text) && k < |text|
    ensures var at, next, widths', text' := Offset(text, k), Offset(text, k + 1), widths[..k] + widths[k + 1..], Erase(text, k);
            && at <= next <= |line|
            && Matches(glyphWidth, line[..at] + line[next..], widths', text')
            && Offset(text', k) == at
            && widths'[..k] == widths[..k]
  {
    EraseBytes(text, k);
    assert Erase(text, k)[..k] == text[..k];
  }

  lemma InsertMatches(glyphWidth: int -> nat, line: seq<Byte>, widths: seq<nat>, text: Text, k: nat, c: CodePoint)
    requires Matches(glyphWidth, line, widths, text) && k <= |text|
    ensures var at, widths', text' := Offset(text, k), widths[..k] + [glyphWidth(c)] + widths[k..], Insert(text, k, c);
            && at <= |line|
            && Matches(glyphWidth, line[..at] + Encode(c) + line[at..], widths', text')
            && Offset(text', k + 1) == at + |Encode(c)|
            && Sum(widths'[..k + 1]) == Sum(widths[..k]) + glyphWidth(c)
  {
    InsertBytes(text, k, c);
    InsertedOffset(text, k, c);
    InsertedSum(widths, k, glyphWidth(c));
  }

  lemma InsertedOffset(text: Text, k: nat, c: CodePoint)
    requires k <= |text|
    ensures Offset(Insert(text, k, c), k + 1) == Offset(text, k) + |Encode(c)|
  {
    assert Insert(text, k, c)[..k] == text[..k];
    Around(Insert(text, k, c), k);
  }

  lemma InsertedSum(widths: seq<nat>, k: nat, w: nat)
    requires k <= |widths|
    ensures Sum((widths[..k] + [w] + widths[k..])[..k + 1]) == Sum(widths[..k]) + w
  {
    var widths' := widths[..k] + [w] + widths[k..];
    assert widths'[..k] == widths[..k];
    SumStep(widths', k);
  }

  /** No sequence of as many code points as there are widths has this encoding. */
  ghost predicate OutOfStep(line: seq<Byte>, widths: seq<nat>) {
    forall t: Text :: EncodeAll(t) == line ==> |t| != |widths|
  }

  // ---------- The editor itself ----------

  class Console {
    const glyphWidth: int -> nat
    const isSpace: int -> bool

    var line: seq<Byte>
    var widths: seq<nat>
    var charPos: nat
    var bytePos: nat
    var column: int

    var entries: seq<seq<Byte>>
    var viewing: Option<nat>
    var backup: seq<Byte>

    ghost var text: Text
    ghost var entryTexts: seq<Text>
    ghost var backupText: Text

    /** Bytes, widths and characters belong together. */
    ghost predicate InStep()
      reads this
    {
      Matches(glyphWidth, line, widths, text)
    }

    ghost predicate CursorInStep()
      reads this
    {
      && charPos <= |text|
      && charPos <= |widths|
      && bytePos == Offset(text, charPos)
      && column == Sum(widths[..charPos])
    }

    ghost predicate HistoryInStep()
      reads this
    {
      && |entries| == |entryTexts|
      && (forall i :: 0 <= i < |entries| ==> entries[i] == EncodeAll(entryTexts[i]))
      && backup == EncodeAll(backupText)
      && (viewing.Some? ==> viewing.value <= |entries|)
    }

    ghost predicate Valid()
      reads this
    {
      InStep() && CursorInStep() && HistoryInStep()
    }

    ghost function View(): Editor
      reads this
    {
      Editor(text, charPos, History(entryTexts, viewing, backupText))
    }

    constructor (glyphWidth: int -> nat, isSpace: int -> bool)
      ensures Valid() && View() == Editor([], 0, History([], None, []))
      ensures this.glyphWidth == glyphWidth && this.isSpace == isSpace
    {
      this.glyphWidth, this.isSpace := glyphWidth, isSpace;
      line, widths, charPos, bytePos, column := [], [], 0, 0, 0;
      entries, viewing, backup := [], None, [];
      text, entryTexts, backupText := [], [], [];
    }

    /** Writes again the characters from the given one on; the column moves along. */
    method RedrawTail(from: nat, at: nat) returns (tailWidth: int)
      requires InStep() && from <= |text| && at == Offset(text, from)
      modifies this`column
      ensures column == old(column) + tailWidth
    {
      tailWidth := 0;
      var p := at;
      for i := from to |widths|
        invariant p == Offset(text, i)
        invariant column == old(column) + tailWidth
      {
        var next := NextCharPos(line, p);
        NextIsCharacter(text, i, next);
        column := column + widths[i];
        tailWidth := tailWidth + widths[i];
        p := next;
      }
    }

    /** Blanks the cells of an erased character and goes back over them and the tail. */
    method ClearAndReturn(w: nat, tailWidth: int)
      modifies this`column
      ensures column == old(column) - tailWidth
    {
      for i := 0 to w
        invariant column == old(column) + i
      {
        column := column + 1;
      }
      column := column - (tailWidth + w);
    }

    method MoveLeft()
      requires Valid()
      modifies this`charPos, this`bytePos, this`column
      ensures Valid() && charPos == if old(charPos) > 0 then old(charPos) - 1 else 0
    {
      if charPos > 0 {
        var w := widths[charPos - 1];
        SumStep(widths, charPos - 1);
        OffsetInside(text, charPos);
        var prev := PrevCharPos(line, bytePos);
        PrevIsCharacter(text, charPos, prev);
        bytePos := prev;
        column := column - w;
        charPos := charPos - 1;
      }
    }

    method MoveRight()
      requires Valid()
      modifies this`charPos, this`bytePos, this`column
      ensures Valid() && charPos == if old(charPos) < |text| then old(charPos) + 1 else old(charPos)
    {
      if charPos < |widths| {
        var w := widths[charPos];
        SumStep(widths, charPos);
        var next := NextCharPos(line, bytePos);
        NextIsCharacter(text, charPos, next);
        bytePos := next;
        column := column + w;
        charPos := charPos + 1;
      }
    }

    /** `move_to_line_start`. */
    method MoveToLineStart()
      requires Valid()
      modifies this`charPos, this`bytePos, this`column
      ensures Valid() && charPos == 0 && column == 0
    {
      var backWidth, n := 0, charPos;
      for i := 0 to n
        invariant column == old(column) && backWidth == Sum(widths[..i])
      {
        SumStep(widths, i);
        backWidth := backWidth + widths[i];
      }
      column := column - backWidth;
      charPos := 0;
      bytePos := 0;
    }

    /** `move_to_line_end`. */
    method MoveToLineEnd()
      requires Valid()
      modifies this`charPos, this`bytePos, this`column
      ensures Valid() && charPos == |text|
    {
      var forwardWidth := 0;
      for i := charPos to |widths|
        invariant column == old(column) && charPos == old(charPos)
        invariant column + forwardWidth == Sum(widths[..i])
      {
        SumStep(widths, i);
        forwardWidth := forwardWidth + widths[i];
      }
      column := column + forwardWidth;
      charPos := |widths|;
      bytePos := |line|;
      OffsetEnd(text);
    }

    /** The cursor goes to another character, and the column with it. */
    method SetCursor(c: nat, b: nat, delta: int)
      requires InStep() && HistoryInStep()
      requires c <= |text| && b == Offset(text, c) && column + delta == Sum(widths[..c])
      modifies this`charPos, this`bytePos, this`column
      ensures Valid() && charPos == c
    {
      column := column + delta;
      charPos := c;
      bytePos := b;
    }

    /** One loop of `move_word_left`: back over characters that are, or are not, spaces. */
    method SkipBack(spaces: bool, char0: nat, byte0: nat, width0: int) returns (char': nat, byte': nat, width: int)
      requires InStep() && char0 <= |text| && byte0 == Offset(text, char0)
      ensures char' == SkipLeft(isSpace, spaces, text, char0) && byte' == Offset(text, char')
      ensures Sum(widths[..char']) + width == Sum(widths[..char0]) + width0
    {
      char', byte', width := char0, byte0, width0;
      while char' > 0
        invariant char' <= char0 && byte' == Offset(text, char')
        invariant SkipLeft(isSpace, spaces, text, char') == SkipLeft(isSpace, spaces, text, char0)
        invariant Sum(widths[..char']) + width == Sum(widths[..char0]) + width0
      {
        OffsetInside(text, char');
        var prev := PrevCharPos(line, byte');
        PrevIsCharacter(text, char', prev);
        DecodeAtCharacter(text, char' - 1);
        var cp := Decode(line, prev).0;
        if isSpace(cp) != spaces {
          break;
        }
        SumStep(widths, char' - 1);
        width := width + widths[char' - 1];
        char' := char' - 1;
        byte' := prev;
      }
    }

    /** `move_word_left`. */
    method MoveWordLeft()
      requires Valid()
      modifies this`charPos, this`bytePos, this`column
      ensures Valid() && charPos == WordLeft(isSpace, text, old(charPos))
      ensures old(charPos) <= |text| && exists m: nat :: BackToWord(isSpace, text, old(charPos), m, charPos)
    {
      WordLeftIff(isSpace, text, charPos, WordLeft(isSpace, text, charPos));
      if charPos == 0 {
        return;
      }
      var c, b, w := SkipBack(true, charPos, bytePos, 0);
      c, b, w := SkipBack(false, c, b, w);
      SetCursor(c, b, -w);
    }

    /** One loop of `move_word_right`. */
    method SkipOn(spaces: bool, char0: nat, byte0: nat, width0: int) returns (char': nat, byte': nat, width: int)
      requires InStep() && char0 <= |text| && byte0 == Offset(text, char0)
      ensures char' == SkipRight(isSpace, spaces, text, char0) && byte' == Offset(text, char')
      ensures Sum(widths[..char']) - width == Sum(widths[..char0]) - width0
    {
      char', byte', width := char0, byte0, width0;
      while char' < |widths|
        invariant char0 <= char' <= |text| && byte' == Offset(text, char')
        invariant SkipRight(isSpace, spaces, text, char') == SkipRight(isSpace, spaces, text, char0)
        invariant Sum(widths[..char']) - width == Sum(widths[..char0]) - width0
      {
        DecodeAtCharacter(text, char');
        Around(text, char');
        var (cp, advance) := Decode(line, byte');
        if isSpace(cp) != spaces {
          break;
        }
        SumStep(widths, char');
        width := width + widths[char'];
        char' := char' + 1;
        byte' := byte' + advance;
      }
    }

    /** `move_word_right`. */
    method MoveWordRight()
      requires Valid()
      modifies this`charPos, this`bytePos, this`column
      ensures Valid() && charPos == WordRight(isSpace, text, old(charPos))
      ensures old(charPos) <= |text| && exists m: nat, n: nat :: PastWord(isSpace, text, old(charPos), m, n, charPos)
    {
      WordRightIff(isSpace, text, charPos, WordRight(isSpace, text, charPos));
      if charPos >= |widths| {
        return;
      }
      var c, b, w := SkipOn(true, charPos, bytePos, 0);
      c, b, w := SkipOn(false, c, b, w);
      c, b, w := SkipOn(true, c, b, w);
      SetCursor(c, b, w);
    }

    /** The bytes, the width and the character at the cursor go. */
    method EraseAtCursor()
      requires Valid() && charPos < |text|
      modifies this`line, this`widths, this`text
      ensures Valid() && text == Erase(old(text), charPos)
    {
      var next := NextCharPos(line, bytePos);
      NextIsCharacter(text, charPos, next);
      EraseMatches(glyphWidth, line, widths, text, charPos);
      var line', widths' := line[..bytePos] + line[next..], widths[..charPos] + widths[charPos + 1..];
      ghost var text' := Erase(text, charPos);
      assert Matches(glyphWidth, line', widths', text');
      line, widths, text := line', widths', text';
    }

    /** After an erasure: the tail again, blanks over the erased cells, and back. */
    method RedrawAfterErase(w: nat)
      requires Valid()
      modifies this`column
      ensures Valid() && column == old(column)
    {
      var tailWidth := RedrawTail(charPos, bytePos);
      ClearAndReturn(w, tailWidth);
    }

    /** `delete_at_cursor`. */
    method DeleteAtCursor()
      requires Valid()
      modifies this`line, this`widths, this`text, this`column
      ensures Valid() && text == if charPos < |old(text)| then Erase(old(text), charPos) else old(text)
    {
      if charPos >= |widths| {
        return;
      }
      var w := widths[charPos];
      EraseAtCursor();
      RedrawAfterErase(w);
    }

    /** Backspace: one character to the left, and that character goes. */
    method EraseBefore()
      requires Valid()
      modifies this`line, this`widths, this`text, this`column, this`charPos, this`bytePos
      ensures Valid() && charPos == if old(charPos) > 0 then old(charPos) - 1 else 0
      ensures text == if old(charPos) > 0 then Erase(old(text), old(charPos) - 1) else old(text)
    {
      if charPos > 0 {
        var w := widths[charPos - 1];
        MoveLeft();
        EraseAtCursor();
        RedrawAfterErase(w);
      }
    }

    /** The bytes, the width and the character go in: at the end, or within the line. */
    method PutChar(ch: CodePoint)
      requires Valid()
      modifies this`line, this`widths, this`text
      ensures InStep() && HistoryInStep() && text == Insert(old(text), charPos, ch)
      ensures Offset(text, charPos + 1) == bytePos + |Encode(ch)| && Sum(widths[..charPos + 1]) == column + glyphWidth(ch)
    {
      var bytes, w := Encode(ch), glyphWidth(ch);
      InsertMatches(glyphWidth, line, widths, text, charPos, ch);
      text := Insert(text, charPos, ch);
      if charPos == |widths| {
        OffsetEnd(old(text));
        AppendAtEnd(line, bytes);
        AppendAtEnd(widths, [w]);
        line := line + bytes;
        widths := widths + [w];
      } else {
        line := line[..bytePos] + bytes + line[bytePos..];
        widths := widths[..charPos] + [w] + widths[charPos..];
      }
    }

    /** The cursor passes the inserted character; within a line the tail is written again. */
    method PassInserted(ch: CodePoint, atEnd: bool)
      requires InStep() && HistoryInStep() && charPos < |text|
      requires Offset(text, charPos + 1) == bytePos + |Encode(ch)|
      requires Sum(widths[..charPos + 1]) == column + glyphWidth(ch)
      modifies this`column, this`charPos, this`bytePos
      ensures Valid() && charPos == old(charPos) + 1
    {
      var n := |Encode(ch)|;
      column := column + glyphWidth(ch);
      var tailWidth: int := 0;
      if !atEnd {
        tailWidth := RedrawTail(charPos + 1, bytePos + n);
      }
      SetCursor(charPos + 1, bytePos + n, -tailWidth);
    }

    /** An input character is inserted at the cursor. */
    method InsertChar(ch: CodePoint)
      requires Valid()
      modifies this`line, this`widths, this`text, this`column, this`charPos, this`bytePos
      ensures Valid() && charPos == old(charPos) + 1 && text == Insert(old(text), old(charPos), ch)
    {
      var atEnd := charPos == |widths|;
      PutChar(ch);
      PassInserted(ch, atEnd);
    }

    /**
     What the same step does with a value beyond the last code point: no byte is added but a
     width is, after which the bytes and the widths are out of step. (The redrawing that
     follows is not modelled.)
     */
    method InsertBeyond(ch: nat)
      requires Valid() && ch > MAX_CODE_POINT
      modifies this`line, this`widths, this`charPos
      ensures line == old(line) && |widths| == old(|widths|) + 1 && OutOfStep(line, widths)
    {
      var bytes, w := Encode(ch), glyphWidth(ch);
      OneWidthTooMany(line, text);
      OffsetInside(text, charPos);
      InsertNothing(line, bytePos);
      if charPos == |widths| {
        line := line + bytes;
        widths := widths + [w];
      } else {
        line := line[..bytePos] + bytes + line[bytePos..];
        widths := widths[..charPos] + [w] + widths[charPos..];
      }
      charPos := charPos + 1;
    }

    /** `clear_current_line`: the column ends where it was. */
    method ClearCurrentLine()
      modifies this`column
      ensures column == old(column)
    {
      var total := 0;
      for i := 0 to |widths| {
        total := total + if widths[i] > 0 then widths[i] else 1;
      }
      if total > 0 {
        column := column + total;
        column := column - total;
      }
    }

    /** A unit that has been written is behind the cursor, or the cursor passes it. */
    method PlaceUnit(ghost units: seq<Unit>, cursorBytePos: int, ghost j: nat, end: nat, width: nat,
                     ghost ws: seq<nat>, c0: nat, b0: nat, ghost written: int, back0: int)
      returns (c: nat, b: nat, back: int)
      requires LaidOut(glyphWidth, units, cursorBytePos, j, ws, c0, b0, written, back0)
      requires j < |units| && end == UnitsEnd(units, j + 1) && width == glyphWidth(units[j].0)
      ensures LaidOut(glyphWidth, units, cursorBytePos, j + 1, ws + [width], c, b, written + width, back)
    {
      c, b, back := c0, b0, back0;
      if cursorBytePos >= 0 && cursorBytePos < end {
        LaidOutBehind(glyphWidth, units, cursorBytePos, j, ws, c, b, written, back);
        back := back + width;
      } else {
        LaidOutBefore(glyphWidth, units, cursorBytePos, j, ws, c, b, written, back);
        c := c + 1;
        b := end;
      }
    }

    /** The loop of `set_line_contents`: decodes and writes any bytes, and finds the cursor. */
    method LayOut(newLine: seq<Byte>, cursorBytePos: int)
      returns (ws: seq<nat>, c: nat, b: nat, written: int, back: int)
      ensures WidthsOf(glyphWidth, Units(newLine, 0), ws) && PutsCursor(Units(newLine, 0), cursorBytePos, c, b)
      ensures written - back == Sum(ws[..c]) && (cursorBytePos < 0 ==> back == 0)
    {
      ghost var units := Units(newLine, 0);
      ws, c, b, written, back := [], 0, 0, 0, 0;
      var idx: nat := 0;
      ghost var j: nat := 0;
      while idx < |newLine|
        invariant AtUnit(newLine, units, idx, j)
        invariant LaidOut(glyphWidth, units, cursorBytePos, j, ws, c, b, written, back)
        decreases |newLine| - idx
      {
        var (cp, advance) := Decode(newLine, idx);
        NextUnit(newLine, units, idx, j);
        var realWidth := glyphWidth(cp);
        idx := idx + advance;
        c, b, back := PlaceUnit(units, cursorBytePos, j, idx, realWidth, ws, c, b, written, back);
        written := written + realWidth;
        ws := ws + [realWidth];
        j := j + 1;
      }
      AllLaidOut(glyphWidth, newLine, units, cursorBytePos, idx, j, ws, c, b, written, back);
    }

    /** The cursors and the column fit the decoded units of the line, whatever bytes it has. */
    ghost predicate ShowsUnits()
      reads this
    {
      && WidthsOf(glyphWidth, Units(line, 0), widths)
      && charPos <= |widths|
      && bytePos == UnitsEnd(Units(line, 0), charPos)
      && column == Sum(widths[..charPos])
    }

    /** `set_line_contents`; the editor is in step with a text if the new line is its encoding. */
    method SetLineContents(newLine: seq<Byte>, cursorBytePos: int, ghost newText: Text)
      requires Valid()
      modifies this`line, this`widths, this`text, this`column, this`charPos, this`bytePos
      ensures line == newLine && text == newText && ShowsUnits()
      ensures PutsCursor(Units(newLine, 0), cursorBytePos, charPos, bytePos)
      ensures newLine == EncodeAll(newText) ==> Valid() && charPos == CharacterAt(newText, cursorBytePos, 0)
    {
      MoveToLineStart();
      ClearCurrentLine();
      ReplaceLine(newLine, cursorBytePos, newText);
      if newLine == EncodeAll(newText) {
        LaidOutText(glyphWidth, newText, cursorBytePos, widths, charPos, bytePos);
      }
    }

    method ReplaceLine(newLine: seq<Byte>, cursorBytePos: int, ghost newText: Text)
      requires column == 0
      modifies this`line, this`widths, this`text, this`column, this`charPos, this`bytePos
      ensures line == newLine && text == newText && ShowsUnits()
      ensures PutsCursor(Units(newLine, 0), cursorBytePos, charPos, bytePos)
    {
      var ws, c, b, written, back := LayOut(newLine, cursorBytePos);
      line, widths, text := newLine, ws, newText;
      column := column + written;
      charPos := c;
      bytePos := b;
      if cursorBytePos >= 0 {
        column := column - back;
      }
    }

    /** The line is replaced, with the cursor at its end. */
    method Show(newLine: seq<Byte>, ghost newText: Text)
      requires Valid() && newLine == EncodeAll(newText)
      modifies this`line, this`widths, this`text, this`column, this`charPos, this`bytePos
      ensures Valid() && text == newText && charPos == |newText|
    {
      CharacterAtEnd(newText, 0);
      SetLineContents(newLine, -1, newText);
    }

    /** `history_t::begin_viewing` and `prev`, and the line they lead to. */
    method HistoryPrev()
      requires Valid()
      modifies this
      ensures Valid() && View() == HistoryUp(old(View()))
    {
      if viewing.None? {
        backup, backupText := line, text;
        viewing := Some(|entries|);
      }
      StepBack();
    }

    method StepBack()
      requires Valid() && viewing.Some?
      modifies this`viewing, this`line, this`widths, this`text, this`column, this`charPos, this`bytePos
      ensures Valid() && View() == HistoryUp(old(View()))
    {
      if entries != [] {
        if viewing.value > 0 {
          viewing := Some(viewing.value - 1);
        }
        Show(entries[viewing.value], entryTexts[viewing.value]);
      }
    }

    /** `history_t::next`, and the line it leads to. */
    method HistoryNext()
      requires Valid()
      modifies this
      ensures Valid() && View() == HistoryDown(old(View()))
    {
      if viewing.Some? && entries != [] {
        var i := viewing.value + 1;
        if i >= |entries| {
          var b := backup;
          ghost var t := backupText;
          viewing, backup, backupText := None, [], [];
          Show(b, t);
        } else {
          viewing := Some(i);
          Show(entries[i], entryTexts[i]);
        }
      }
    }

    /** `history_t::end_viewing`. */
    method EndViewing()
      requires Valid()
      modifies this`viewing, this`backup, this`backupText
      ensures Valid() && viewing == None && backupText == []
    {
      viewing, backup, backupText := None, [], [];
    }

    /** `history_t::add` for the line that has been typed: no empty line, no repetition of the last one. */
    method AddToHistory()
      requires Valid()
      modifies this`entries, this`entryTexts, this`viewing, this`backup, this`backupText
      ensures Valid() && View() == old(View()).(history := Remembered(old(View()).history, text))
    {
      if line == [] {
        EmptyLine(text);
        return;
      }
      EndViewing();
      if entries == [] || entries[|entries| - 1] != line {
        entries, entryTexts := entries + [line], entryTexts + [text];
      } else {
        EncodeAllInjective(entryTexts[|entries| - 1], text);
      }
    }

    predicate IsMotion(key: Key) {
      key == Left || key == Right || key == CtrlLeft || key == CtrlRight || key == Home || key == End
    }

    method HandleMotion(key: Key)
      requires Valid() && IsMotion(key)
      modifies this`charPos, this`bytePos, this`column
      ensures Valid() && View() == Press(isSpace, old(View()), key)
    {
      if key == Left {
        MoveLeft();
      } else if key == Right {
        MoveRight();
      } else if key == CtrlLeft {
        MoveWordLeft();
      } else if key == CtrlRight {
        MoveWordRight();
      } else if key == Home {
        MoveToLineStart();
      } else {
        MoveToLineEnd();
      }
    }

    method HandleEdit(key: Key)
      requires Valid() && (key == Delete || key == Backspace || key.Char? || key.Complete?)
      modifies this`line, this`widths, this`text, this`column, this`charPos, this`bytePos
      ensures Valid() && View() == Press(isSpace, old(View()), key)
    {
      if key == Delete {
        DeleteAtCursor();
      } else if key == Backspace {
        EraseBefore();
      } else if key.Char? {
        InsertChar(key.c);
      } else {
        var bytes := EncodeAll(key.line);
        if key.several || bytes != line {
          SetLineContents(bytes, key.bytePos, key.line);
        } else {
          EncodeAllInjective(key.line, text);
        }
      }
    }

    /** One round of the loop of `readline_advanced`. */
    method Handle(key: Key)
      requires Valid()
      modifies this
      ensures Valid() && View() == Press(isSpace, old(View()), key)
    {
      if IsMotion(key) {
        HandleMotion(key);
      } else if key == Up {
        HistoryPrev();
      } else if key == Down {
        HistoryNext();
      } else {
        HandleEdit(key);
      }
    }

    /**
     A whole line: after every key the bytes are the encoding of as many code points as there
     are widths, the byte cursor is where the character cursor says, and the column is the
     width of what stands before the cursor.
     */
    method ReadKeys(keys: seq<Key>)
      requires Valid()
      modifies this
      ensures Valid() && View() == PressAll(isSpace, old(View()), keys)
      ensures charPos <= bytePos && charPos <= |widths|
    {
      for i := 0 to |keys|
        invariant Valid() && IsEditor(View())
        invariant PressAll(isSpace, View(), keys[i..]) == PressAll(isSpace, old(View()), keys)
      {
        assert keys[i..][1..] == keys[i + 1..];
        Handle(keys[i]);
      }
      OffsetAtLeast(text, charPos);
    }
  }

  lemma {:induction false} CharacterAtEnd(text: Text, k: nat)
    requires k <= |text|
    ensures CharacterAt(text, -1, k) == |text|
    decreases |text| - k
  {
    if k < |text| {
      CharacterAtEnd(text, k + 1);
    }
  }

  lemma EmptyLine(text: Text)
    requires EncodeAll(text) == []
    ensures text == []
  {
    if text != [] {
      EncodeShape(text[0]);
    }
  }

  lemma {:induction false} OneWidthTooMany(line: seq<Byte>, text: Text)
    requires line == EncodeAll(text)
    ensures forall ws: seq<nat> :: |ws| == |text| + 1 ==> OutOfStep(line, ws)
  {
    forall t: Text | EncodeAll(t) == line
      ensures t == text
    {
      EncodeAllInjective(t, text);
    }
  }

  /** The history after a line has been entered. */
  function Remembered(h: History, line: Text): History {
    if line == [] then h
    else
      var known := h.entries != [] && h.entries[|h.entries| - 1] == line;
      History(if known then h.entries else h.entries + [line], None, [])
  }

  ghost predicate WidthsOf(glyphWidth: int -> nat, units: seq<Unit>, ws: seq<nat>) {
    |ws| == |units| && forall i :: 0 <= i < |ws| ==> ws[i] == glyphWidth(units[i].0)
  }

  /** The i-th unit ends at the requested byte or earlier; every unit does if it is negative. */
  predicate EndsBefore(units: seq<Unit>, bytePos: int, i: nat)
    requires i < |units|
  {
    bytePos < 0 || UnitsEnd(units, i + 1) <= bytePos
  }

  /** Before the cursor is exactly what ends before the requested byte. */
  ghost predicate PutsCursor(units: seq<Unit>, bytePos: int, c: nat, b: nat) {
    && c <= |units|
    && b == UnitsEnd(units, c)
    && forall i :: 0 <= i < |units| ==> (i < c <==> EndsBefore(units, bytePos, i))
  }

  /** After j units the cursor is behind those that end before the requested byte. */
  ghost predicate CursorFound(units: seq<Unit>, bytePos: int, j: nat, c: nat, b: nat) {
    && c <= j <= |units|
    && b == UnitsEnd(units, c)
    && forall i :: 0 <= i < j ==> (i < c <==> EndsBefore(units, bytePos, i))
  }

  /** What has been written, and how much of it is behind the cursor. */
  ghost predicate Columns(ws: seq<nat>, bytePos: int, c: nat, written: int, back: int) {
    c <= |ws| && written == Sum(ws) && written - back == Sum(ws[..c]) && (bytePos < 0 ==> back == 0)
  }

  /** The first j units are laid out. */
  ghost predicate LaidOut(glyphWidth: int -> nat, units: seq<Unit>, bytePos: int, j: nat, ws: seq<nat>,
                          c: nat, b: nat, written: int, back: int) {
    && CursorFound(units, bytePos, j, c, b)
    && WidthsOf(glyphWidth, units[..j], ws)
    && Columns(ws, bytePos, c, written, back)
  }

  /** The byte position is that of the j-th unit. */
  ghost predicate AtUnit(line: seq<Byte>, units: seq<Unit>, idx: nat, j: nat) {
    j <= |units| && idx == UnitsEnd(units, j) && Units(line, idx) == units[j..]
  }

  lemma NextUnit(line: seq<Byte>, units: seq<Unit>, idx: nat, j: nat)
    requires AtUnit(line, units, idx, j) && idx < |line|
    ensures j < |units| && units[j] == Decode(line, idx) && Decode(line, idx).1 > 0
    ensures AtUnit(line, units, idx + Decode(line, idx).1, j + 1)
  {
    DecodeAdvances(line, idx);
    UnitsStep(line, idx, Decode(line, idx).0, idx + Decode(line, idx).1);
    assert units[j..][0] == units[j] && units[j..][1..] == units[j + 1..];
  }

  lemma AllLaidOut(glyphWidth: int -> nat, line: seq<Byte>, units: seq<Unit>, bytePos: int, idx: nat, j: nat,
                   ws: seq<nat>,
                   c: nat, b: nat, written: int, back: int)
    requires AtUnit(line, units, idx, j) && idx >= |line|
    requires LaidOut(glyphWidth, units, bytePos, j, ws, c, b, written, back)
    ensures WidthsOf(glyphWidth, units, ws) && PutsCursor(units, bytePos, c, b)
  {
    assert units[..j] == units;
  }

  lemma CursorStep(units: seq<Unit>, bytePos: int, j: nat, c: nat, b: nat)
    requires CursorFound(units, bytePos, j, c, b) && j < |units|
    ensures if EndsBefore(units, bytePos, j) then c == j && CursorFound(units, bytePos, j + 1, j + 1, UnitsEnd(units, j + 1))
            else CursorFound(units, bytePos, j + 1, c, b)
  {
    if EndsBefore(units, bytePos, j) && c < j {
      assert !EndsBefore(units, bytePos, c);
      UnitsEndMonotone(units, c + 1, j + 1);
    }
  }

  lemma ColumnsStep(ws: seq<nat>, bytePos: int, c: nat, written: int, back: int, w: nat)
    requires Columns(ws, bytePos, c, written, back)
    ensures bytePos >= 0 ==> Columns(ws + [w], bytePos, c, written + w, back + w)
    ensures c == |ws| ==> Columns(ws + [w], bytePos, c + 1, written + w, back)
  {
    SumPush(ws, w, c);
  }

  lemma WidthsStep(glyphWidth: int -> nat, units: seq<Unit>, j: nat, ws: seq<nat>)
    requires j < |units| && WidthsOf(glyphWidth, units[..j], ws)
    ensures WidthsOf(glyphWidth, units[..j + 1], ws + [glyphWidth(units[j].0)])
  {
    assert units[..j + 1] == units[..j] + [units[j]];
  }

  lemma LaidOutBehind(glyphWidth: int -> nat, units: seq<Unit>, bytePos: int, j: nat, ws: seq<nat>,
                      c: nat, b: nat, written: int, back: int)
    requires LaidOut(glyphWidth, units, bytePos, j, ws, c, b, written, back) && j < |units| && !EndsBefore(units, bytePos, j)
    ensures var w := glyphWidth(units[j].0);
            LaidOut(glyphWidth, units, bytePos, j + 1, ws + [w], c, b, written + w, back + w)
  {
    WidthsStep(glyphWidth, units, j, ws);
    CursorStep(units, bytePos, j, c, b);
    ColumnsStep(ws, bytePos, c, written, back, glyphWidth(units[j].0));
  }

  lemma LaidOutBefore(glyphWidth: int -> nat, units: seq<Unit>, bytePos: int, j: nat, ws: seq<nat>,
                      c: nat, b: nat, written: int, back: int)
    requires LaidOut(glyphWidth, units, bytePos, j, ws, c, b, written, back) && j < |units| && EndsBefore(units, bytePos, j)
    ensures var w := glyphWidth(units[j].0);
            LaidOut(glyphWidth, units, bytePos, j + 1, ws + [w], c + 1, UnitsEnd(units, j + 1), written + w, back)
  {
    WidthsStep(glyphWidth, units, j, ws);
    CursorStep(units, bytePos, j, c, b);
    assert |ws| == j;
    ColumnsStep(ws, bytePos, c, written, back, glyphWidth(units[j].0));
  }

  lemma SumPush(ws: seq<nat>, w: nat, c: nat)
    requires c <= |ws|
    ensures Sum(ws + [w]) == Sum(ws) + w
    ensures (ws + [w])[..c] == ws[..c]
    ensures c == |ws| ==> (ws + [w])[..c + 1] == ws + [w]
  {
    var all := ws + [w];
    assert all[..|all| - 1] == ws;
  }

  lemma {:induction false} CharacterAtIs(text: Text, bytePos: int, k: nat, c: nat)
    requires k <= c <= |text|
    requires forall i :: k <= i < |text| ==> (i < c <==> CharacterEndsBefore(text, bytePos, i))
    ensures CharacterAt(text, bytePos, k) == c
    decreases |text| - k
  {
    if k < |text| {
      assert k < c <==> CharacterEndsBefore(text, bytePos, k);
      if k < c {
        CharacterAtIs(text, bytePos, k + 1, c);
      }
    }
  }

  /** Laying out the encoding of a text gives its widths and puts the cursor on a character. */
  lemma LaidOutText(glyphWidth: int -> nat, text: Text, bytePos: int, ws: seq<nat>, c: nat, b: nat)
    requires var units := Units(EncodeAll(text), 0); WidthsOf(glyphWidth, units, ws) && PutsCursor(units, bytePos, c, b)
    ensures Matches(glyphWidth, EncodeAll(text), ws, text)
    ensures c == CharacterAt(text, bytePos, 0) && b == Offset(text, c)
  {
    var units := Units(EncodeAll(text), 0);
    UnitsOfText(text);
    forall i | 0 <= i < |text|
      ensures i < c <==> CharacterEndsBefore(text, bytePos, i)
    {
      assert i < c <==> EndsBefore(units, bytePos, i);
      assert UnitsEnd(units, i + 1) == Offset(text, i + 1);
    }
    CharacterAtIs(text, bytePos, 0, c);
  }

  /** A line that has been entered is the first one that going back shows; nothing else is added or lost. */
  lemma EnteredLineIsRecalled(isSpace: int -> bool, h: History, line: Text, typed: Text)
    requires line != []
    ensures var after := Remembered(h, line);
            && after.viewing.None? && after.backup == []
            && after.entries != [] && after.entries[|after.entries| - 1] == line
            && (if h.entries != [] && h.entries[|h.entries| - 1] == line then after.entries == h.entries
                else after.entries == h.entries + [line])
            && Press(isSpace, Editor(typed, |typed|, after), Up).text == line
  {
  }

  lemma EmptyLineIsNotRemembered(h: History)
    ensures Remembered(h, []) == h
  {
  }
}
