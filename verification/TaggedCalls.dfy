/**
 Whole runs of the mapper: which calls it reports, and what the argument text looks like at
 every moment of a run of tagged calls with string arguments.
 */
module TaggedCalls {
  import opened Base
  import opened Chat
  import opened Json
  import opened Mapper
  import opened BraceScan
  import Quotes = QuoteNormalizer
  import ReaderLimits

  lemma {:induction false} RunConcat(st: State, a: seq<Node>, b: seq<Node>)
    requires Coherent(st)
    ensures Run(st, a + b) == Run(Run(st, a), b)
    ensures RunDefined(st, a + b) <==> RunDefined(st, a) && RunDefined(Run(st, a), b)
    decreases |a|
  {
    if a == [] {
      assert a + b == b;
    } else {
      assert (a + b)[1..] == a[1..] + b;
      RunConcat(Step(st, a[0]), a[1..], b);
    }
  }

  // ---------- Which calls are reported ----------

  /** A pending call has neither a name nor arguments: the latter wait in the buffer. */
  predicate PendingIsBlank(st: State) {
    st.pending.Some? ==> st.pending.value.name == "" && st.pending.value.arguments == ""
  }

  function CallNames(calls: seq<ToolCall>): seq<string> {
    seq(|calls|, i requires 0 <= i < |calls| => calls[i].name)
  }

  /** The first name after each opening that comes before its close and before the next opening. */
  function FirstNames(nodes: seq<Node>, waiting: bool): seq<string>
    decreases |nodes|
  {
    if nodes == [] then []
    else match nodes[0]
      case ToolOpen => FirstNames(nodes[1..], true)
      case ToolClose => FirstNames(nodes[1..], false)
      case ToolName(t) =>
        (if waiting then [TrimEnd(t)] else []) + FirstNames(nodes[1..], false)
      case _ => FirstNames(nodes[1..], waiting)
  }

  /** No call is named a second time. */
  predicate NamedOnce(nodes: seq<Node>, waiting: bool)
    decreases |nodes|
  {
    if nodes == [] then true
    else match nodes[0]
      case ToolOpen => NamedOnce(nodes[1..], true)
      case ToolClose => NamedOnce(nodes[1..], false)
      case ToolName(_) => waiting && NamedOnce(nodes[1..], false)
      case _ => NamedOnce(nodes[1..], waiting)
  }

  /** A node that is not a name leaves the reported names alone. */
  lemma StepKeepsNames(st: State, node: Node)
    requires Coherent(st) && PendingIsBlank(st) && !node.ToolName?
    ensures CallNames(Step(st, node).message.calls) == CallNames(st.message.calls)
    ensures PendingIsBlank(Step(st, node))
    ensures Step(st, node).pending.Some? <==> node.ToolOpen? || (st.pending.Some? && !node.ToolClose?)
  {
  }

  lemma StepAddsName(st: State, text: string)
    requires Coherent(st) && PendingIsBlank(st)
    ensures var calls, calls' := st.message.calls, Step(st, ToolName(text)).message.calls;
            && |calls'| == |calls| + (if st.pending.Some? then 1 else 0)
            && (st.pending.Some? ==> CallNames(calls') == CallNames(calls) + [TrimEnd(text)])
    ensures Step(st, ToolName(text)).pending.None?
  {
  }

  /**
   Every run: a pending call never has a name, and there is exactly one reported call for each
   opening that is followed by a name before its close and before the next opening, in order.
   */
  lemma {:induction false} CallsOfRun(st: State, nodes: seq<Node>)
    requires Coherent(st) && PendingIsBlank(st)
    ensures PendingIsBlank(Run(st, nodes))
    ensures var names := FirstNames(nodes, st.pending.Some?);
            && |Run(st, nodes).message.calls| == |st.message.calls| + |names|
            && (NamedOnce(nodes, st.pending.Some?) ==>
                 CallNames(Run(st, nodes).message.calls) == CallNames(st.message.calls) + names)
    decreases |nodes|
  {
    if nodes != [] {
      if nodes[0].ToolName? {
        StepAddsName(st, nodes[0].text);
      } else {
        StepKeepsNames(st, nodes[0]);
        assert |CallNames(Step(st, nodes[0]).message.calls)| == |CallNames(st.message.calls)|;
      }
      CallsOfRun(Step(st, nodes[0]), nodes[1..]);
    }
  }

  /** So the two pushes for a named pending call, at a close and at the end, never happen. */
  lemma LatePushesNeverFire(nodes: seq<Node>)
    ensures var st := Run(INITIAL, nodes);
            && Finish(st).calls == st.message.calls
            && (HasTool(st) ==> |StepClose(st).message.calls| == |st.message.calls|)
            && |MessageOf(nodes).calls| == |FirstNames(nodes, false)|
            && (NamedOnce(nodes, false) ==> CallNames(MessageOf(nodes).calls) == FirstNames(nodes, false))
  {
    CallsOfRun(INITIAL, nodes);
    var st := Run(INITIAL, nodes);
    StepKeepsNames(st, ToolClose);
    assert HasTool(st) ==> |CallNames(StepClose(st).message.calls)| == |CallNames(st.message.calls)|;
  }

  // ---------- Runs of tagged calls ----------

  /** How an argument is written: as a quoted string, or as JSON text that is passed through. */
  datatype Written = Quote(s: string) | Raw(text: string)

  predicate IsReadable(w: Written) {
    w.Raw? ==> ReadDocument(w.text).Some?
  }

  type Arg = w: Written | IsReadable(w) witness Quote("")

  /** The text of an argument up to the closing quote, which only a string still needs. */
  function OpenText(a: Arg): string {
    if a.Quote? then "\"" + Escape(a.s) else a.text
  }

  function ArgText(a: Arg): string {
    if a.Quote? then Quoted(a.s) else a.text
  }

  /** The value the argument stands for. */
  function ArgMeaning(a: Arg): Json {
    if a.Quote? then Str(a.s) else ReadDocument(a.text).value
  }

  /** Where a call stands: between arguments, after a key, or after a key and its value. */
  datatype Slot = Ready | Keyed(key: string) | Valued(key: string, arg: Arg)

  predicate QuoteIsDue(slot: Slot) {
    slot.Valued? && slot.arg.Quote?
  }

  datatype Tagged = Outside | Inside(named: bool, pairs: seq<(string, Arg)>, slot: Slot)

  /**
   The argument a value node stands for: a string by its tag, as a JSON string, or as text that
   is no JSON; otherwise the JSON text itself. `None` for a value that is not there yet, for a
   partial container, and for text that only the JSON library accepts as JSON.
   */
  function ArgOf(node: Node): Option<Arg> {
    if node.ArgString? then Some(Quote(Value(node.text)))
    else if !node.ArgValue? || Value(node.text) == "" then None
    else if node.parse.JsonString? then Some(Quote(node.parse.value))
    else
      var v := Value(node.text);
      var text := if IsContainer(v) then Quotes.Normalize(v) else v;
      if node.parse.JsonOther? then (if ReadDocument(text).Some? then Some(Raw(text)) else None)
      else if node.partial && IsContainer(v) then None
      else Some(Quote(text))
  }

  /** The shape of such a run, and the arguments it has spelled out so far; `None` off the shape. */
  function TaggedNext(t: Tagged, node: Node): Option<Tagged> {
    match node
    case Reasoning(_) => Some(t)
    case Content(_) => Some(t)
    case Untagged => Some(t)
    case ToolOpen => Some(Inside(false, [], Ready))
    case ToolArgs(text) => if IsObjectText(text) then None else Some(t)
    case ToolId(_) => if t.Inside? then Some(t) else None
    case ToolName(text) => if t.Inside? && !t.named && TrimEnd(text) != "" then Some(t.(named := true)) else None
    case ToolClose => if t.Inside? then Some(Outside) else None
    case ArgOpen => if t.Outside? || t.slot.Ready? then Some(t) else None
    case ArgName(text) => if t.Inside? && t.slot.Ready? then Some(t.(slot := Keyed(Key(text)))) else None
    case ArgClose =>
      if t.Inside? && t.slot.Valued? then Some(t.(pairs := t.pairs + [(t.slot.key, t.slot.arg)], slot := Ready)) else None
    case _ =>
      if t.Inside? && t.slot.Keyed? && ArgOf(node).Some? then Some(t.(slot := Valued(t.slot.key, ArgOf(node).value)))
      else None
  }

  function TaggedRun(t: Tagged, nodes: seq<Node>): Option<Tagged>
    decreases |nodes|
  {
    if nodes == [] then Some(t)
    else if TaggedNext(t, nodes[0]).None? then None
    else TaggedRun(TaggedNext(t, nodes[0]).value, nodes[1..])
  }

  function PairText(p: (string, Arg)): string {
    MemberText(p.0, ArgText(p.1))
  }

  function PairTexts(pairs: seq<(string, Arg)>): (texts: seq<string>)
    ensures |texts| == |pairs|
    ensures forall i :: 0 <= i < |pairs| ==> texts[i] == PairText(pairs[i])
  {
    if pairs == [] then [] else PairTexts(pairs[..|pairs| - 1]) + [PairText(pairs[|pairs| - 1])]
  }

  function Comma(first: bool): string {
    if first then "" else ","
  }

  /** The text an unfinished argument adds. */
  function SlotText(first: bool, slot: Slot): string {
    match slot
    case Ready => ""
    case Keyed(k) => Comma(first) + KeyColon(k)
    case Valued(k, a) => Comma(first) + KeyColon(k) + OpenText(a)
  }

  /** The argument text of a call that has got this far. */
  function ArgsText(t: Tagged): string
    requires t.Inside?
  {
    if !t.named && t.pairs == [] && t.slot.Ready? then ""
    else "{" + Join(PairTexts(t.pairs)) + SlotText(t.pairs == [], t.slot)
  }

  /** The mapper's state says the same as the abstract position in the run. */
  predicate Agrees(st: State, t: Tagged) {
    && Coherent(st)
    && (t.Outside? ==> st.pending.None?)
    && (t.Inside? ==> HasTool(st) && AgreesOnName(st, t.named) && AgreesOnText(st, t))
  }

  predicate AgreesOnName(st: State, named: bool)
    requires Coherent(st) && HasTool(st)
  {
    if named then st.cursor == AtResult && Current(st).name != "" && st.buffer == ""
    else st.cursor == AtPending && Current(st).name == "" && Current(st).arguments == ""
  }

  predicate AgreesOnText(st: State, t: Tagged)
    requires Coherent(st) && t.Inside?
  {
    && Target(st) == ArgsText(t)
    && st.closing == QuoteIsDue(t.slot)
    && st.argCount == |t.pairs| + (if t.slot.Ready? then 0 else 1)
  }

  // ---------- One node keeps the agreement ----------

  lemma StepPendingName(st: State, text: string)
    requires Coherent(st) && st.cursor == AtPending && Current(st).arguments == ""
    ensures Step(st, ToolName(text))
         == var call := Current(st).(name := TrimEnd(text), arguments := if st.buffer == "" then "{" else st.buffer);
            st.(message := st.message.(calls := st.message.calls + [call]), pending := None, cursor := AtResult, buffer := "")
  {
  }

  lemma NameAgrees(st: State, t: Tagged, text: string)
    requires Agrees(st, t) && t.Inside? && !t.named && TrimEnd(text) != ""
    ensures Agrees(Step(st, ToolName(text)), t.(named := true))
  {
    StepPendingName(st, text);
    assert st.buffer == ArgsText(t);
    assert t.pairs == [] ==> Join(PairTexts(t.pairs)) == "";
  }

  /** Writing the right text, with the right flag and count, keeps the agreement. */
  lemma WriteAgrees(st: State, t: Tagged, text: string, closing: bool, argCount: nat, t': Tagged)
    requires Agrees(st, t) && t.Inside? && t'.Inside? && t'.named == t.named
    requires text == ArgsText(t') && closing == QuoteIsDue(t'.slot)
    requires argCount == |t'.pairs| + (if t'.slot.Ready? then 0 else 1)
    ensures Agrees(WithTarget(st, text).(closing := closing, argCount := argCount), t')
  {
  }

  lemma KeyAgrees(st: State, t: Tagged, text: string)
    requires Agrees(st, t) && t.Inside? && t.slot.Ready?
    ensures Agrees(Step(st, ArgName(text)), t.(slot := Keyed(Key(text))))
  {
    var start := if Target(st) == "" then "{" else Target(st);
    assert start == "{" + Join(PairTexts(t.pairs));
    assert KeyPiece(st.argCount, text) == SlotText(t.pairs == [], Keyed(Key(text)));
    WriteAgrees(st, t, start + KeyPiece(st.argCount, text), st.closing, st.argCount + 1, t.(slot := Keyed(Key(text))));
  }

  lemma AppendQuoted(a: string, comma: string, key: string, open: string, quote: string)
    ensures a + (comma + key + open) + quote == a + comma + (key + (open + quote))
  {
  }

  lemma AppendValue(a: string, key: string, value: string)
    ensures a + key + value == a + (key + value)
  {
  }

  lemma ValuePieceOf(node: Node)
    requires ArgOf(node).Some?
    ensures ValuePiece(false, node) == (OpenText(ArgOf(node).value), ArgOf(node).value.Quote?)
  {
    assert "\"" + Escape("") == "\"";
  }

  lemma StepValue(st: State, node: Node)
    requires Coherent(st) && HasTool(st) && (node.ArgString? || node.ArgValue?)
    ensures var piece := ValuePiece(st.closing, node);
            Step(st, node) == WithTarget(st, Target(st) + piece.0).(closing := piece.1, argCount := st.argCount)
  {
  }

  lemma ValueAgrees(st: State, t: Tagged, node: Node)
    requires Agrees(st, t) && t.Inside? && t.slot.Keyed? && ArgOf(node).Some?
    ensures Agrees(Step(st, node), t.(slot := Valued(t.slot.key, ArgOf(node).value)))
  {
    var a := ArgOf(node).value;
    ValuePieceOf(node);
    StepValue(st, node);
    AppendValue("{" + Join(PairTexts(t.pairs)), Comma(t.pairs == []) + KeyColon(t.slot.key), OpenText(a));
    WriteAgrees(st, t, Target(st) + OpenText(a), a.Quote?, st.argCount, t.(slot := Valued(t.slot.key, a)));
  }

  lemma JoinPairs(pairs: seq<(string, Arg)>, p: (string, Arg))
    ensures Join(PairTexts(pairs + [p])) == Join(PairTexts(pairs)) + Comma(pairs == []) + PairText(p)
  {
    assert (pairs + [p])[..|pairs|] == pairs;
    JoinAppend(PairTexts(pairs), PairText(p));
  }

  /** The quote that is due after the slot, if one is. */
  function ClosingText(slot: Slot): string {
    if QuoteIsDue(slot) then "\"" else ""
  }

  function Closed(t: Tagged): Tagged
    requires t.Inside? && t.slot.Valued?
  {
    t.(pairs := t.pairs + [(t.slot.key, t.slot.arg)], slot := Ready)
  }

  lemma ClosedText(t: Tagged)
    requires t.Inside? && t.slot.Valued?
    ensures ArgsText(t) + ClosingText(t.slot) == ArgsText(Closed(t))
  {
    var a, comma, arg := Join(PairTexts(t.pairs)), Comma(t.pairs == []), t.slot.arg;
    assert OpenText(arg) + ClosingText(t.slot) == ArgText(arg);
    JoinPairs(t.pairs, (t.slot.key, arg));
    AppendQuoted("{" + a, comma, KeyColon(t.slot.key), OpenText(arg), ClosingText(t.slot));
    AppendPair(a, comma, PairText((t.slot.key, arg)));
  }

  lemma AppendPair(a: string, comma: string, pair: string)
    ensures "{" + a + comma + pair == "{" + (a + comma + pair) + ""
  {
  }

  lemma StepArgClose(st: State)
    requires Coherent(st) && HasTool(st)
    ensures Step(st, ArgClose)
         == if st.closing then WithTarget(st, Target(st) + "\"").(closing := false, argCount := st.argCount) else st
  {
  }

  lemma ArgCloseAgrees(st: State, t: Tagged)
    requires Agrees(st, t) && t.Inside? && t.slot.Valued?
    ensures Agrees(Step(st, ArgClose), Closed(t))
  {
    ClosedText(t);
    WriteAgrees(st, t, Target(st) + ClosingText(t.slot), false, st.argCount, Closed(t));
    StepArgClose(st);
    if !st.closing {
      WriteNothing(st);
    }
  }

  lemma WriteNothing(st: State)
    requires Coherent(st) && HasTool(st) && !st.closing
    ensures WithTarget(st, Target(st) + "").(closing := false, argCount := st.argCount) == st
  {
    assert Target(st) + "" == Target(st);
    assert TargetsCall(st) ==> Current(st).(arguments := Target(st)) == Current(st);
  }

  /** Message text has no part in the agreement. */
  lemma TextAgrees(st: State, t: Tagged, reasoning: string, content: string)
    requires Agrees(st, t)
    ensures Agrees(st.(message := st.message.(reasoning := reasoning, content := content)), t)
  {
    var st' := st.(message := st.message.(reasoning := reasoning, content := content));
    assert t.Inside? ==> Current(st') == Current(st);
  }

  lemma ArgOpenAgrees(st: State, t: Tagged)
    requires Agrees(st, t) && (t.Outside? || t.slot.Ready?)
    ensures Agrees(st.(closing := false), t)
  {
    assert t.Inside? ==> st.(closing := false) == st;
  }

  lemma OtherAgrees(st: State, t: Tagged, node: Node)
    requires Agrees(st, t) && TaggedNext(t, node).Some?
    requires node.Reasoning? || node.Content? || node.Untagged? || node.ToolArgs? || node.ArgOpen?
    ensures Defined(st, node) && Agrees(Step(st, node), t)
  {
    if node.Reasoning? {
      TextAgrees(st, t, st.message.reasoning + node.text, st.message.content);
    } else if node.Content? {
      TextAgrees(st, t, st.message.reasoning, st.message.content + node.text);
    } else if node.ArgOpen? {
      ArgOpenAgrees(st, t);
    } else {
      assert Step(st, node) == st;
    }
  }

  lemma OpenAgrees(st: State)
    requires Coherent(st)
    ensures Agrees(Step(st, ToolOpen), Inside(false, [], Ready))
  {
  }

  lemma IdAgrees(st: State, t: Tagged, text: string)
    requires Agrees(st, t) && t.Inside?
    ensures Agrees(Step(st, ToolId(text)), t)
  {
  }

  lemma CloseAgrees(st: State, t: Tagged)
    requires Agrees(st, t) && t.Inside?
    ensures Agrees(Step(st, ToolClose), Outside)
  {
  }

  lemma StepAgrees(st: State, t: Tagged, node: Node)
    requires Agrees(st, t) && TaggedNext(t, node).Some?
    ensures Defined(st, node) && Agrees(Step(st, node), TaggedNext(t, node).value)
  {
    if node.ToolName? {
      NameAgrees(st, t, node.text);
    } else if node.ArgName? {
      KeyAgrees(st, t, node.text);
    } else if node.ArgString? || node.ArgValue? {
      ValueAgrees(st, t, node);
    } else if node.ArgClose? {
      ArgCloseAgrees(st, t);
    } else if node.ToolClose? {
      CloseAgrees(st, t);
    } else if node.ToolOpen? {
      OpenAgrees(st);
    } else if node.ToolId? {
      IdAgrees(st, t, node.text);
    } else {
      OtherAgrees(st, t, node);
    }
  }

  /** Along every run of this shape nothing is written through a dangling pointer. */
  lemma {:induction false} RunAgrees(st: State, t: Tagged, nodes: seq<Node>)
    requires Agrees(st, t) && TaggedRun(t, nodes).Some?
    ensures RunDefined(st, nodes) && Agrees(Run(st, nodes), TaggedRun(t, nodes).value)
    decreases |nodes|
  {
    if nodes != [] {
      StepAgrees(st, t, nodes[0]);
      RunAgrees(Step(st, nodes[0]), TaggedNext(t, nodes[0]).value, nodes[1..]);
    }
  }

  // ---------- The brace scanner on the argument text ----------

  const IN_OBJECT := Scan(1, false, false)

  lemma ScanBoth(s: Scan, a: string, b: string, s1: Scan, s2: Scan)
    requires ScanFrom(s, a) == s1 && ScanFrom(s1, b) == s2
    ensures ScanFrom(s, a + b) == s2
  {
    ScanConcat(s, a, b);
  }

  lemma ScanKey(first: bool, key: string)
    ensures ScanFrom(IN_OBJECT, Comma(first) + KeyColon(key)) == IN_OBJECT
  {
    ScanQuoted(1, key);
    ScanBoth(IN_OBJECT, Quoted(key), ":", IN_OBJECT, IN_OBJECT);
    ScanBoth(IN_OBJECT, Comma(first), KeyColon(key), IN_OBJECT, IN_OBJECT);
  }

  lemma ScanArg(a: Arg)
    ensures ScanFrom(IN_OBJECT, OpenText(a)) == Scan(1, a.Quote?, false)
    ensures ScanFrom(IN_OBJECT, ArgText(a)) == IN_OBJECT
  {
    if a.Quote? {
      ScanQuoted(1, a.s);
    } else {
      ScanDocument(1, a.text);
    }
  }

  lemma ScanPair(first: bool, p: (string, Arg))
    ensures ScanFrom(IN_OBJECT, Comma(first) + PairText(p)) == IN_OBJECT
  {
    ScanKey(first, p.0);
    ScanArg(p.1);
    ScanBoth(IN_OBJECT, Comma(first) + KeyColon(p.0), ArgText(p.1), IN_OBJECT, IN_OBJECT);
    AppendValue(Comma(first), KeyColon(p.0), ArgText(p.1));
  }

  lemma {:induction false} ScanPairs(pairs: seq<(string, Arg)>)
    ensures ScanFrom(IN_OBJECT, Join(PairTexts(pairs))) == IN_OBJECT
  {
    if pairs != [] {
      var init, p := pairs[..|pairs| - 1], pairs[|pairs| - 1];
      assert pairs == init + [p];
      JoinPairs(init, p);
      ScanPairs(init);
      ScanPair(init == [], p);
      ScanBoth(IN_OBJECT, Join(PairTexts(init)), Comma(init == []) + PairText(p), IN_OBJECT, IN_OBJECT);
      AppendValue(Join(PairTexts(init)), Comma(init == []), PairText(p));
    }
  }

  lemma ScanSlot(first: bool, slot: Slot)
    ensures ScanFrom(IN_OBJECT, SlotText(first, slot)) == Scan(1, QuoteIsDue(slot), false)
  {
    if !slot.Ready? {
      ScanKey(first, slot.key);
      if slot.Valued? {
        ScanArg(slot.arg);
        ScanBoth(IN_OBJECT, Comma(first) + KeyColon(slot.key), OpenText(slot.arg), IN_OBJECT, Scan(1, slot.arg.Quote?, false));
      }
    }
  }

  lemma ScanArgsText(t: Tagged)
    requires t.Inside?
    ensures ScanFrom(START, ArgsText(t)) == Scan(if ArgsText(t) == "" then 0 else 1, QuoteIsDue(t.slot), false)
  {
    if ArgsText(t) != "" {
      var a, b := Join(PairTexts(t.pairs)), SlotText(t.pairs == [], t.slot);
      ScanPairs(t.pairs);
      ScanSlot(t.pairs == [], t.slot);
      ScanBoth(START, "{", a, IN_OBJECT, IN_OBJECT);
      ScanBoth(START, "{" + a, b, IN_OBJECT, Scan(1, QuoteIsDue(t.slot), false));
    }
  }

  /**
   At every moment inside a call the scanner, run over the text being written, ends inside a
   string exactly when a closing quote is due, never in the middle of an escape, and at depth 1
   once there is any text.
   */
  lemma ScannerFollowsTheFlag(nodes: seq<Node>)
    requires TaggedRun(Outside, nodes).Some? && TaggedRun(Outside, nodes).value.Inside?
    ensures RunDefined(INITIAL, nodes)
    ensures var st := Run(INITIAL, nodes);
            ScanFrom(START, Target(st)) == Scan(if Target(st) == "" then 0 else 1, st.closing, false)
  {
    RunAgrees(INITIAL, Outside, nodes);
    ScanArgsText(TaggedRun(Outside, nodes).value);
  }

  function CloseText(t: Tagged): string
    requires t.Inside?
  {
    ArgsText(t) + ClosingText(t.slot)
  }

  lemma ScanCloseText(t: Tagged)
    requires t.Inside? && t.named
    ensures ScanFrom(START, CloseText(t)) == IN_OBJECT
    ensures CloseBraces(CloseText(t)) == CloseText(t) + "}"
  {
    ScanArgsText(t);
    ScanBoth(START, ArgsText(t), ClosingText(t.slot), Scan(1, QuoteIsDue(t.slot), false), IN_OBJECT);
    assert Repeat('}', 1) == "}" + Repeat('}', 0);
  }

  /** What closing a named call makes of its argument text: the due quote and one brace. */
  lemma CloseStep(st: State, t: Tagged)
    requires Agrees(st, t) && t.Inside? && t.named
    ensures var st' := Step(st, ToolClose);
            && st'.cursor == AtResult
            && st'.message.calls == ReplaceLast(st.message.calls, Current(st'))
            && Current(st').arguments == CloseText(t) + "}"
  {
    ScanCloseText(t);
    assert ArgsText(t) + "" == ArgsText(t);
  }

  /** A close at any point after the name leaves the text balanced and outside strings. */
  lemma CloseBalances(nodes: seq<Node>)
    requires TaggedRun(Outside, nodes).Some? && TaggedRun(Outside, nodes).value.Inside?
    requires TaggedRun(Outside, nodes).value.named
    ensures var calls := Run(INITIAL, nodes + [ToolClose]).message.calls;
            calls != [] && ScanFrom(START, calls[|calls| - 1].arguments) == Scan(0, false, false)
  {
    var st, t := Run(INITIAL, nodes), TaggedRun(Outside, nodes).value;
    RunAgrees(INITIAL, Outside, nodes);
    RunConcat(INITIAL, nodes, [ToolClose]);
    RunOne(st, ToolClose);
    CloseStep(st, t);
    ScanCloseText(t);
    ScanBoth(START, CloseText(t), "}", IN_OBJECT, START);
  }

  lemma RunOne(st: State, node: Node)
    requires Coherent(st)
    ensures Run(st, [node]) == Step(st, node) && (RunDefined(st, [node]) <==> Defined(st, node))
  {
  }

  // ---------- A complete call reads back as its arguments ----------

  function Keys(nodes: seq<Node>): seq<string>
    decreases |nodes|
  {
    if nodes == [] then []
    else KeyOf(nodes[0]) + Keys(nodes[1..])
  }

  function Values(nodes: seq<Node>): seq<Json>
    decreases |nodes|
  {
    if nodes == [] then []
    else ValueOf(nodes[0]) + Values(nodes[1..])
  }

  function Firsts(pairs: seq<(string, Arg)>): (r: seq<string>)
    ensures |r| == |pairs| && forall i :: 0 <= i < |r| ==> r[i] == pairs[i].0
  {
    if pairs == [] then [] else Firsts(pairs[..|pairs| - 1]) + [pairs[|pairs| - 1].0]
  }

  function Seconds(pairs: seq<(string, Arg)>): (r: seq<Json>)
    ensures |r| == |pairs| && forall i :: 0 <= i < |r| ==> r[i] == ArgMeaning(pairs[i].1)
  {
    if pairs == [] then [] else Seconds(pairs[..|pairs| - 1]) + [ArgMeaning(pairs[|pairs| - 1].1)]
  }

  function KeysSoFar(t: Tagged): seq<string>
    requires t.Inside?
  {
    Firsts(t.pairs) + (if t.slot.Ready? then [] else [t.slot.key])
  }

  function ValuesSoFar(t: Tagged): seq<Json>
    requires t.Inside?
  {
    Seconds(t.pairs) + (if t.slot.Valued? then [ArgMeaning(t.slot.arg)] else [])
  }

  predicate IsBody(nodes: seq<Node>) {
    forall n :: n in nodes ==> !n.ToolOpen? && !n.ToolClose?
  }

  lemma PairsOfNode(t: Tagged, node: Node)
    requires t.Inside? && TaggedNext(t, node).Some? && !node.ToolOpen? && !node.ToolClose?
    ensures var t' := TaggedNext(t, node).value;
            && t'.Inside?
            && KeysSoFar(t') == KeysSoFar(t) + KeyOf(node)
            && ValuesSoFar(t') == ValuesSoFar(t) + ValueOf(node)
  {
    if node.ArgClose? {
      var p := (t.slot.key, t.slot.arg);
      assert (t.pairs + [p])[..|t.pairs|] == t.pairs;
    }
  }

  function KeyOf(node: Node): seq<string> {
    if node.ArgName? then [Key(node.text)] else []
  }

  function ValueOf(node: Node): seq<Json> {
    if ArgOf(node).Some? then [ArgMeaning(ArgOf(node).value)] else []
  }

  /** The pairs the run has collected are the trimmed keys and values of its nodes, in order. */
  lemma {:induction false} PairsOfBody(t: Tagged, body: seq<Node>)
    requires t.Inside? && IsBody(body) && TaggedRun(t, body).Some?
    ensures var t' := TaggedRun(t, body).value;
            t'.Inside? && KeysSoFar(t') == KeysSoFar(t) + Keys(body) && ValuesSoFar(t') == ValuesSoFar(t) + Values(body)
    decreases |body|
  {
    if body == [] {
    } else {
      var node := body[0];
      assert node in body;
      PairsOfNode(t, node);
      PairsOfBody(TaggedNext(t, node).value, body[1..]);
      Associative(KeysSoFar(t), KeyOf(node), Keys(body[1..]));
      Associative(ValuesSoFar(t), ValueOf(node), Values(body[1..]));
    }
  }

  function Members(keys: seq<string>, values: seq<Json>): seq<(string, Json)>
    requires |keys| == |values|
  {
    seq(|keys|, i requires 0 <= i < |keys| => (keys[i], values[i]))
  }

  lemma ArgReads(a: Arg)
    ensures Reads(ArgText(a), ArgMeaning(a))
  {
    if a.Quote? {
      ReadsString(a.s);
    } else {
      DocumentReads(a.text);
    }
  }

  lemma ObjectReadsBack(pairs: seq<(string, Arg)>)
    ensures ReadDocument("{" + Join(PairTexts(pairs)) + "}") == Some(Obj(Members(Firsts(pairs), Seconds(pairs))))
  {
    var members := Members(Firsts(pairs), Seconds(pairs));
    forall i | 0 <= i < |pairs|
      ensures ReadsMember(PairTexts(pairs)[i], members[i])
    {
      ArgReads(pairs[i].1);
      MemberReads(pairs[i].0, ArgText(pairs[i].1), ArgMeaning(pairs[i].1));
    }
    ReadsObject(PairTexts(pairs), members);
    ReadsDocument("{" + Join(PairTexts(pairs)) + "}", Obj(members));
  }

  /** A position inside a call, seen from the calls reported before it. */
  predicate AfterEarlier(st: State, t: Tagged, earlier: seq<ToolCall>) {
    && Agrees(st, t)
    && t.Inside?
    && |st.message.calls| == |earlier| + (if t.named then 1 else 0)
    && st.message.calls[..|earlier|] == earlier
  }

  lemma StepKeepsEarlier(st: State, t: Tagged, node: Node, earlier: seq<ToolCall>)
    requires AfterEarlier(st, t, earlier) && TaggedNext(t, node).Some? && !node.ToolOpen? && !node.ToolClose?
    ensures AfterEarlier(Step(st, node), TaggedNext(t, node).value, earlier)
  {
    StepAgrees(st, t, node);
    KeepsPrefix(st, node, |earlier|);
  }

  lemma KeepsPrefix(st: State, node: Node, n: nat)
    requires Coherent(st) && n <= |st.message.calls| && (st.cursor == AtResult ==> n < |st.message.calls|)
    ensures n <= |Step(st, node).message.calls| && Step(st, node).message.calls[..n] == st.message.calls[..n]
    ensures node.ToolName? && st.pending.Some? ==> |Step(st, node).message.calls| == |st.message.calls| + 1
    ensures !(node.ToolName? && st.pending.Some?) && !node.ToolClose? ==> |Step(st, node).message.calls| == |st.message.calls|
  {
  }

  /** While a call is open, the calls reported before it do not change. */
  lemma {:induction false} EarlierCallsKept(st: State, t: Tagged, body: seq<Node>, earlier: seq<ToolCall>)
    requires AfterEarlier(st, t, earlier) && IsBody(body) && TaggedRun(t, body).Some?
    ensures AfterEarlier(Run(st, body), TaggedRun(t, body).value, earlier)
    decreases |body|
  {
    if body != [] {
      assert body[0] in body;
      StepKeepsEarlier(st, t, body[0], earlier);
      EarlierCallsKept(Step(st, body[0]), TaggedNext(t, body[0]).value, body[1..], earlier);
    }
  }

  lemma ClosedCallReadsBack(st: State, t: Tagged, earlier: seq<ToolCall>)
    requires AfterEarlier(st, t, earlier) && t.named && t.slot.Ready?
    ensures var calls := Step(st, ToolClose).message.calls;
            && |calls| == |earlier| + 1
            && calls[..|earlier|] == earlier
            && ReadDocument(calls[|earlier|].arguments) == Some(Obj(Members(KeysSoFar(t), ValuesSoFar(t))))
  {
    CloseStep(st, t);
    ObjectReadsBack(t.pairs);
    assert KeysSoFar(t) == Firsts(t.pairs) && ValuesSoFar(t) == Seconds(t.pairs);
    AppendNothing("{" + Join(PairTexts(t.pairs)));
  }

  lemma AppendNothing(a: string)
    ensures a + "" + "" + "}" == a + "}"
  {
  }

  /** The id and the name a call ends up with: the last ones given, unquoted and trimmed. */
  function LastId(nodes: seq<Node>, id: string): string {
    if nodes == [] then id else LastId(nodes[1..], if nodes[0].ToolId? then UnquoteId(nodes[0].text) else id)
  }

  function LastName(nodes: seq<Node>, name: string): string {
    if nodes == [] then name else LastName(nodes[1..], if nodes[0].ToolName? then TrimEnd(nodes[0].text) else name)
  }

  /** The id and the name of the current call. */
  predicate Labelled(st: State, id: string, name: string) {
    Coherent(st) && HasTool(st) && Current(st).id == id && Current(st).name == name
  }

  lemma WriteKeepsLabels(st: State, text: string)
    requires Coherent(st) && HasTool(st)
    ensures Labelled(WithTarget(st, text), Current(st).id, Current(st).name)
  {
  }

  lemma NameLabels(st: State, text: string)
    requires Coherent(st) && HasTool(st)
    ensures Labelled(StepName(st, text), Current(st).id, TrimEnd(text))
  {
  }

  lemma CloseKeepsLabels(st: State)
    requires Coherent(st) && st.cursor == AtResult
    ensures Labelled(StepClose(st), Current(st).id, Current(st).name)
  {
  }

  lemma StepLabels(st: State, node: Node)
    requires Coherent(st) && HasTool(st) && !node.ToolOpen? && !node.ToolClose?
    ensures Labelled(Step(st, node),
                     if node.ToolId? then UnquoteId(node.text) else Current(st).id,
                     if node.ToolName? then TrimEnd(node.text) else Current(st).name)
  {
    if node.ToolName? {
      NameLabels(st, node.text);
    } else if node.ArgName? {
      var start := if Target(st) == "" then "{" else Target(st);
      WriteKeepsLabels(st, start + KeyPiece(st.argCount, node.text));
    } else if node.ArgString? || node.ArgValue? {
      WriteKeepsLabels(st, Target(st) + ValuePiece(st.closing, node).0);
    } else if node.ArgClose? {
      WriteKeepsLabels(st, Target(st) + "\"");
    } else if node.ToolArgs? {
      WriteKeepsLabels(st, TrimEnd(node.text));
    }
  }

  lemma {:induction false} RunLabels(st: State, body: seq<Node>)
    requires Coherent(st) && HasTool(st) && IsBody(body)
    ensures Labelled(Run(st, body), LastId(body, Current(st).id), LastName(body, Current(st).name))
    decreases |body|
  {
    if body != [] {
      assert body[0] in body;
      StepLabels(st, body[0]);
      RunLabels(Step(st, body[0]), body[1..]);
    }
  }

  /** An id in quotes loses them, together with what is behind them. */
  lemma UnquoteIdUndoesQuotes(id: string, spaces: string)
    requires forall i :: 0 <= i < |spaces| ==> IsSpace(spaces[i])
    ensures UnquoteId("\"" + id + "\"" + spaces) == id
  {
    var text := "\"" + id + "\"" + spaces;
    assert !IsSpace(text[|id| + 1]);
    assert forall k :: |id| + 2 <= k < |text| ==> text[k] == spaces[k - |id| - 2];
    assert TrimEnd(text) == text[..|id| + 2];
  }

  /** Any other id only loses the white space behind it. */
  lemma UnquoteIdKeepsOthers(id: string, spaces: string)
    requires (id == "" || !IsSpace(id[|id| - 1])) && IsAllSpace(spaces)
    requires |id| < 2 || id[0] != '"' || id[|id| - 1] != '"'
    ensures UnquoteId(id + spaces) == id
  {
    TrimEndIs(id + spaces, id, spaces);
  }

  predicate IsCompleteBody(body: seq<Node>) {
    && IsBody(body)
    && var end := TaggedRun(Inside(false, [], Ready), body);
       end.Some? && end.value.Inside? && end.value.named && end.value.slot.Ready?
  }

  /** The call has the id and the name given in the body, and its argument text reads as the body's arguments. */
  predicate ReadsAs(call: ToolCall, body: seq<Node>)
    requires |Keys(body)| == |Values(body)|
  {
    && call.id == LastId(body, "")
    && call.name == LastName(body, "")
    && ReadDocument(call.arguments) == Some(Obj(Members(Keys(body), Values(body))))
  }

  lemma BodyPairs(body: seq<Node>)
    requires IsCompleteBody(body)
    ensures |Keys(body)| == |Values(body)|
    ensures var t := TaggedRun(Inside(false, [], Ready), body).value;
            KeysSoFar(t) == Keys(body) && ValuesSoFar(t) == Values(body)
  {
    var start := Inside(false, [], Ready);
    PairsOfBody(start, body);
    assert KeysSoFar(start) + Keys(body) == Keys(body) && ValuesSoFar(start) + Values(body) == Values(body);
  }

  lemma {:induction false} EpisodeReadsAs(st: State, body: seq<Node>, earlier: seq<ToolCall>)
    requires AfterEarlier(st, Inside(false, [], Ready), earlier) && st.cursor == AtPending && Current(st) == ToolCall("", "", "")
    requires IsCompleteBody(body)
    ensures |Keys(body)| == |Values(body)|
    ensures var calls := Step(Run(st, body), ToolClose).message.calls;
            |calls| == |earlier| + 1 && calls[..|earlier|] == earlier && ReadsAs(calls[|earlier|], body)
  {
    var start := Inside(false, [], Ready);
    var last, t := Run(st, body), TaggedRun(start, body).value;
    BodyPairs(body);
    EarlierCallsKept(st, start, body, earlier);
    ClosedCallReadsBack(last, t, earlier);
    RunLabels(st, body);
    ClosedCallLabels(last, t, earlier);
  }

  lemma ClosedCallLabels(st: State, t: Tagged, earlier: seq<ToolCall>)
    requires AfterEarlier(st, t, earlier) && t.named
    ensures var calls := Step(st, ToolClose).message.calls;
            && |calls| == |earlier| + 1
            && calls[|earlier|].id == Current(st).id && calls[|earlier|].name == Current(st).name
  {
    CloseStep(st, t);
    CloseKeepsLabels(st);
  }

  lemma EpisodeStarts(before: seq<Node>)
    requires TaggedRun(Outside, before).Some?
    ensures var s0 := Run(INITIAL, before);
            RunDefined(INITIAL, before) && AfterEarlier(Step(s0, ToolOpen), Inside(false, [], Ready), s0.message.calls)
  {
    var s0 := Run(INITIAL, before);
    RunAgrees(INITIAL, Outside, before);
    StepAgrees(s0, TaggedRun(Outside, before).value, ToolOpen);
    assert s0.message.calls[..|s0.message.calls|] == s0.message.calls;
  }

  lemma EpisodeRuns(before: seq<Node>, body: seq<Node>)
    requires TaggedRun(Outside, before).Some? && IsCompleteBody(body)
    ensures var nodes := before + ([ToolOpen] + (body + [ToolClose]));
            && RunDefined(INITIAL, nodes)
            && Run(INITIAL, nodes) == Step(Run(Step(Run(INITIAL, before), ToolOpen), body), ToolClose)
  {
    var s0, start := Run(INITIAL, before), Inside(false, [], Ready);
    var s1 := Step(s0, ToolOpen);
    EpisodeStarts(before);
    RunAgrees(s1, start, body);
    StepAgrees(Run(s1, body), TaggedRun(start, body).value, ToolClose);
    RunConcat(INITIAL, before, [ToolOpen] + (body + [ToolClose]));
    RunConcat(s0, [ToolOpen], body + [ToolClose]);
    RunConcat(s1, body, [ToolClose]);
    RunOne(s0, ToolOpen);
    RunOne(Run(s1, body), ToolClose);
  }

  /**
   A complete tagged call: whatever came before it, one more call is reported, with the name and
   id it was given, and a JSON reader turns its argument text back into exactly the trimmed keys
   and values of the call, in order. The name may arrive before, between or after the arguments.
   */
  lemma {:induction false} CompleteCallReadsBack(before: seq<Node>, body: seq<Node>)
    requires TaggedRun(Outside, before).Some? && IsCompleteBody(body)
    ensures |Keys(body)| == |Values(body)|
    ensures var earlier := Run(INITIAL, before).message.calls;
            var nodes := before + ([ToolOpen] + (body + [ToolClose]));
            var calls := Run(INITIAL, nodes).message.calls;
            && RunDefined(INITIAL, nodes)
            && |calls| == |earlier| + 1
            && calls[..|earlier|] == earlier
            && ReadsAs(calls[|earlier|], body)
  {
    var s0 := Run(INITIAL, before);
    EpisodeStarts(before);
    EpisodeReadsAs(Step(s0, ToolOpen), body, s0.message.calls);
    EpisodeRuns(before, body);
  }

  // ---------- A call written for given arguments ----------

  /**
   An argument somebody wants to pass: a string by its tag, the JSON text of a value, an array or an
   object with Python's quotes, or text that is no JSON.
   */
  datatype Chosen =
    | ChosenString(key: string, s: string)
    | ChosenJson(key: string, json: string)
    | ChosenPython(key: string, python: string)
    | ChosenText(key: string, text: string)

  predicate EndsPlain(s: string) {
    s == "" || !IsSpace(s[|s| - 1])
  }

  /**
   A key does not end in white space. JSON text is a document, and so is an array or an object with
   its quotes normalized; other text starts like neither.
   */
  predicate IsChoice(c: Chosen) {
    && EndsPlain(c.key)
    && match c
       case ChosenString(_, _) => true
       case ChosenJson(_, json) => ReadDocument(json).Some?
       case ChosenPython(_, python) =>
         && python != "" && (python[0] == '[' || python[0] == '{')
         && ReadDocument(Quotes.Normalize(python)).Some?
       case ChosenText(_, text) => text != "" && text[0] != '[' && text[0] != '{'
  }

  function ChosenMember(c: Chosen): (string, Json)
    requires IsChoice(c)
  {
    match c
    case ChosenString(key, s) => (key, Str(s))
    case ChosenJson(key, json) => (key, ReadDocument(json).value)
    case ChosenPython(key, python) => (key, ReadDocument(Quotes.Normalize(python)).value)
    case ChosenText(key, text) => (key, Str(text))
  }

  function ChosenMembers(args: seq<Chosen>): (ms: seq<(string, Json)>)
    requires forall i :: 0 <= i < |args| ==> IsChoice(args[i])
    ensures |ms| == |args| && forall i :: 0 <= i < |ms| ==> ms[i] == ChosenMember(args[i])
  {
    if args == [] then [] else [ChosenMember(args[0])] + ChosenMembers(args[1..])
  }

  /** One white-space character on each side. */
  function Spaced(l: char, text: string, r: char): string {
    [l] + text + [r]
  }

  /** What the JSON library says about JSON text. */
  function VerdictOf(json: string): Parse
    requires ReadDocument(json).Some?
  {
    var v := ReadDocument(json).value;
    if v.Str? then JsonString(v.text) else JsonOther
  }

  function ValueNode(c: Chosen, l: char, r: char): Node
    requires IsChoice(c)
  {
    match c
    case ChosenString(_, s) => ArgString(Spaced(l, s, r))
    case ChosenJson(_, json) => ArgValue(Spaced(l, json, r), false, VerdictOf(json))
    case ChosenPython(_, python) => ArgValue(Spaced(l, python, r), false, VerdictOf(Quotes.Normalize(python)))
    case ChosenText(_, text) => ArgValue(Spaced(l, text, r), false, NotJson)
  }

  function WrittenArgument(c: Chosen, l: char, r: char): seq<Node>
    requires IsChoice(c)
  {
    [ArgName(Spaced(l, c.key, r)), ValueNode(c, l, r), ArgClose]
  }

  function WrittenArguments(args: seq<Chosen>, l: char, r: char): seq<Node>
    requires forall i :: 0 <= i < |args| ==> IsChoice(args[i])
  {
    if args == [] then [] else WrittenArgument(args[0], l, r) + WrittenArguments(args[1..], l, r)
  }

  lemma SpacedValue(l: char, v: string, r: char)
    requires IsSpace(l) && IsSpace(r)
    ensures Value(Spaced(l, v, r)) == v
  {
    ValueForced(Spaced(l, v, r), [l], v, [r]);
  }

  lemma SpacedKey(l: char, k: string, r: char)
    requires IsSpace(l) && IsSpace(r) && EndsPlain(k)
    ensures Key(Spaced(l, k, r)) == k
  {
    KeyForced(Spaced(l, k, r), [l], k, [r]);
  }

  lemma ValueNodeMeans(c: Chosen, l: char, r: char)
    requires IsChoice(c) && IsSpace(l) && IsSpace(r)
    ensures ArgOf(ValueNode(c, l, r)).Some?
    ensures ArgMeaning(ArgOf(ValueNode(c, l, r)).value) == ChosenMember(c).1
  {
    match c
    case ChosenString(_, s) => SpacedValue(l, s, r);
    case ChosenJson(_, json) =>
      SpacedValue(l, json, r);
      ReaderLimits.DocumentIsNormal(json);
      assert json != "";
    case ChosenPython(_, python) => SpacedValue(l, python, r);
    case ChosenText(_, text) => SpacedValue(l, text, r);
  }

  /** The keys and values of the nodes are those of the members, in order. */
  ghost predicate Spells(nodes: seq<Node>, ms: seq<(string, Json)>) {
    && |Keys(nodes)| == |ms| == |Values(nodes)|
    && forall i :: 0 <= i < |ms| ==> Keys(nodes)[i] == ms[i].0 && Values(nodes)[i] == ms[i].1
  }

  lemma {:induction false} KeysConcat(a: seq<Node>, b: seq<Node>)
    ensures Keys(a + b) == Keys(a) + Keys(b) && Values(a + b) == Values(a) + Values(b)
    decreases |a|
  {
    if a == [] {
      assert a + b == b;
    } else {
      assert (a + b)[1..] == a[1..] + b && (a + b)[0] == a[0];
      KeysConcat(a[1..], b);
      Associative(KeyOf(a[0]), Keys(a[1..]), Keys(b));
      Associative(ValueOf(a[0]), Values(a[1..]), Values(b));
    }
  }

  lemma SpellsConcat(a: seq<Node>, ms: seq<(string, Json)>, b: seq<Node>, more: seq<(string, Json)>)
    requires Spells(a, ms) && Spells(b, more)
    ensures Spells(a + b, ms + more)
  {
    KeysConcat(a, b);
  }

  lemma {:induction false} TaggedRunConcat(t: Tagged, a: seq<Node>, b: seq<Node>)
    requires TaggedRun(t, a).Some?
    ensures TaggedRun(t, a + b) == TaggedRun(TaggedRun(t, a).value, b)
    decreases |a|
  {
    if a == [] {
      assert a + b == b;
    } else {
      assert (a + b)[1..] == a[1..] + b && (a + b)[0] == a[0];
      TaggedRunConcat(TaggedNext(t, a[0]).value, a[1..], b);
    }
  }

  lemma HeadOfRun(t: Tagged, node: Node, more: seq<Node>)
    requires TaggedNext(t, node).Some?
    ensures TaggedRun(t, [node] + more) == TaggedRun(TaggedNext(t, node).value, more)
  {
    assert ([node] + more)[1..] == more;
  }

  lemma HeadOfKeys(node: Node, more: seq<Node>)
    ensures Keys([node] + more) == KeyOf(node) + Keys(more) && Values([node] + more) == ValueOf(node) + Values(more)
  {
    assert ([node] + more)[1..] == more;
  }

  lemma HeadOfLabels(node: Node, more: seq<Node>, id: string, name: string)
    ensures LastId([node] + more, id) == LastId(more, if node.ToolId? then UnquoteId(node.text) else id)
    ensures LastName([node] + more, name) == LastName(more, if node.ToolName? then TrimEnd(node.text) else name)
  {
    assert ([node] + more)[1..] == more;
  }

  /** From between two arguments to between two arguments. */
  predicate RunsThrough(t: Tagged, nodes: seq<Node>) {
    && t.Inside? && t.slot.Ready?
    && var end := TaggedRun(t, nodes);
       end.Some? && end.value.Inside? && end.value.slot.Ready? && end.value.named == t.named
  }

  lemma ThreeNodes(a: Node, b: Node, c: Node)
    ensures [a, b, c] == [a] + ([b] + ([c] + []))
  {
  }

  lemma ArgumentRuns(t: Tagged, key: Node, value: Node)
    requires t.Inside? && t.slot.Ready? && key.ArgName? && (value.ArgString? || value.ArgValue?) && ArgOf(value).Some?
    ensures RunsThrough(t, [key, value, ArgClose])
  {
    var keyed := t.(slot := Keyed(Key(key.text)));
    ThreeNodes(key, value, ArgClose);
    HeadOfRun(t, key, [value] + ([ArgClose] + []));
    HeadOfRun(keyed, value, [ArgClose] + []);
    HeadOfRun(t.(slot := Valued(Key(key.text), ArgOf(value).value)), ArgClose, []);
  }

  lemma WrittenArgumentRuns(t: Tagged, c: Chosen, l: char, r: char)
    requires t.Inside? && t.slot.Ready? && IsChoice(c) && IsSpace(l) && IsSpace(r)
    ensures RunsThrough(t, WrittenArgument(c, l, r))
  {
    ValueNodeMeans(c, l, r);
    ArgumentRuns(t, ArgName(Spaced(l, c.key, r)), ValueNode(c, l, r));
  }

  lemma WrittenArgumentSpells(c: Chosen, l: char, r: char)
    requires IsChoice(c) && IsSpace(l) && IsSpace(r)
    ensures Spells(WrittenArgument(c, l, r), [ChosenMember(c)])
  {
    var key, value := ArgName(Spaced(l, c.key, r)), ValueNode(c, l, r);
    SpacedKey(l, c.key, r);
    ValueNodeMeans(c, l, r);
    ThreeNodes(key, value, ArgClose);
    HeadOfKeys(key, [value] + ([ArgClose] + []));
    HeadOfKeys(value, [ArgClose] + []);
    HeadOfKeys(ArgClose, []);
  }

  lemma {:induction false} WrittenArgumentsRun(t: Tagged, args: seq<Chosen>, l: char, r: char)
    requires t.Inside? && t.slot.Ready? && IsSpace(l) && IsSpace(r)
    requires forall i :: 0 <= i < |args| ==> IsChoice(args[i])
    ensures RunsThrough(t, WrittenArguments(args, l, r))
    ensures Spells(WrittenArguments(args, l, r), ChosenMembers(args))
    decreases |args|
  {
    if args != [] {
      var first, more := WrittenArgument(args[0], l, r), WrittenArguments(args[1..], l, r);
      WrittenArgumentRuns(t, args[0], l, r);
      WrittenArgumentSpells(args[0], l, r);
      WrittenArgumentsRun(TaggedRun(t, first).value, args[1..], l, r);
      TaggedRunConcat(t, first, more);
      SpellsConcat(first, [ChosenMember(args[0])], more, ChosenMembers(args[1..]));
    }
  }

  predicate NoLabels(nodes: seq<Node>) {
    forall n :: n in nodes ==> n.ArgName? || n.ArgString? || n.ArgValue? || n.ArgClose?
  }

  lemma {:induction false} WrittenHasNoLabels(args: seq<Chosen>, l: char, r: char)
    requires forall i :: 0 <= i < |args| ==> IsChoice(args[i])
    ensures NoLabels(WrittenArguments(args, l, r))
  {
    if args != [] {
      WrittenHasNoLabels(args[1..], l, r);
    }
  }

  lemma {:induction false} LabelsKept(nodes: seq<Node>, id: string, name: string)
    requires NoLabels(nodes)
    ensures LastId(nodes, id) == id && LastName(nodes, name) == name
  {
    if nodes != [] {
      assert nodes[0] in nodes;
      LabelsKept(nodes[1..], id, name);
    }
  }

  function CallHead(id: string, name: string, r: char): seq<Node> {
    [ToolId("\"" + id + "\"" + [r])] + ([ToolName(name + [r])] + [])
  }

  /** The whole call: id, name, and the arguments, everything with white space around. */
  function WrittenCall(id: string, name: string, args: seq<Chosen>, l: char, r: char): seq<Node>
    requires forall i :: 0 <= i < |args| ==> IsChoice(args[i])
  {
    CallHead(id, name, r) + WrittenArguments(args, l, r)
  }

  lemma CallHeadRuns(id: string, name: string, r: char)
    requires name != "" && EndsPlain(name) && IsSpace(r)
    ensures TaggedRun(Inside(false, [], Ready), CallHead(id, name, r)) == Some(Inside(true, [], Ready))
    ensures Spells(CallHead(id, name, r), [])
  {
    var first, second := ToolId("\"" + id + "\"" + [r]), ToolName(name + [r]);
    TrimEndIs(name + [r], name, [r]);
    HeadOfRun(Inside(false, [], Ready), first, [second] + []);
    HeadOfRun(Inside(false, [], Ready), second, []);
    HeadOfKeys(first, [second] + []);
    HeadOfKeys(second, []);
  }

  lemma CallHeadLabels(id: string, name: string, r: char, tail: seq<Node>)
    requires EndsPlain(name) && IsSpace(r) && NoLabels(tail)
    ensures LastId(CallHead(id, name, r) + tail, "") == id && LastName(CallHead(id, name, r) + tail, "") == name
  {
    var first, second := ToolId("\"" + id + "\"" + [r]), ToolName(name + [r]);
    UnquoteIdUndoesQuotes(id, [r]);
    TrimEndIs(name + [r], name, [r]);
    assert CallHead(id, name, r) + tail == [first] + ([second] + tail);
    HeadOfLabels(first, [second] + tail, "", "");
    HeadOfLabels(second, tail, id, "");
    LabelsKept(tail, id, name);
  }

  lemma LabelledBody(id: string, name: string, r: char, tail: seq<Node>)
    requires NoLabels(tail)
    ensures IsBody(CallHead(id, name, r) + tail)
  {
    forall n | n in CallHead(id, name, r) + tail
      ensures !n.ToolOpen? && !n.ToolClose?
    {
      assert n in CallHead(id, name, r) || n in tail;
    }
  }

  lemma WrittenCallIsComplete(id: string, name: string, args: seq<Chosen>, l: char, r: char)
    requires name != "" && EndsPlain(name) && IsSpace(l) && IsSpace(r)
    requires forall i :: 0 <= i < |args| ==> IsChoice(args[i])
    ensures var body := WrittenCall(id, name, args, l, r);
            && IsCompleteBody(body)
            && LastId(body, "") == id && LastName(body, "") == name
            && Spells(body, ChosenMembers(args))
  {
    var head, tail := CallHead(id, name, r), WrittenArguments(args, l, r);
    WrittenHasNoLabels(args, l, r);
    CallHeadRuns(id, name, r);
    CallHeadLabels(id, name, r, tail);
    LabelledBody(id, name, r, tail);
    TaggedRunConcat(Inside(false, [], Ready), head, tail);
    WrittenArgumentsRun(Inside(true, [], Ready), args, l, r);
    SpellsConcat(head, [], tail, ChosenMembers(args));
    assert [] + ChosenMembers(args) == ChosenMembers(args);
  }

  lemma MembersSpelled(nodes: seq<Node>, ms: seq<(string, Json)>)
    requires Spells(nodes, ms)
    ensures Members(Keys(nodes), Values(nodes)) == ms
  {
  }

  /**
   A call written for any id, name and arguments of these kinds, with a white-space character around each key and
   value, is reported with that id and name, and its argument text reads as those arguments in order.
   */
  lemma WrittenCallReadsBack(before: seq<Node>, id: string, name: string, args: seq<Chosen>, l: char, r: char)
    requires TaggedRun(Outside, before).Some?
    requires name != "" && EndsPlain(name) && IsSpace(l) && IsSpace(r)
    requires forall i :: 0 <= i < |args| ==> IsChoice(args[i])
    ensures var earlier := Run(INITIAL, before).message.calls;
            var nodes := before + ([ToolOpen] + (WrittenCall(id, name, args, l, r) + [ToolClose]));
            var calls := Run(INITIAL, nodes).message.calls;
            && RunDefined(INITIAL, nodes)
            && |calls| == |earlier| + 1
            && calls[..|earlier|] == earlier
            && calls[|earlier|].id == id && calls[|earlier|].name == name
            && ReadDocument(calls[|earlier|].arguments) == Some(Obj(ChosenMembers(args)))
  {
    var body := WrittenCall(id, name, args, l, r);
    WrittenCallIsComplete(id, name, args, l, r);
    CompleteCallReadsBack(before, body);
    MembersSpelled(body, ChosenMembers(args));
  }

  // ---------- Values in a row, a second name, and what follows a close ----------

  /** String values in a row are one string. */
  lemma StringsInARow(st: State, x: string, y: string)
    requires Coherent(st) && HasTool(st) && !st.closing && Value(x) != "" && Value(y) != ""
    ensures Target(Step(Step(st, ArgString(x)), ArgString(y))) == Target(st) + ("\"" + Escape(Value(x) + Value(y)))
  {
    var st1 := Step(st, ArgString(x));
    StepValue(st, ArgString(x));
    StepValue(st1, ArgString(y));
    EscapeConcat(Value(x), Value(y));
    assert Target(st1) == Target(st) + ("\"" + Escape(Value(x)));
    assert "" + Escape(Value(y)) == Escape(Value(y));
    ThreeTexts(Target(st), Escape(Value(x)), Escape(Value(y)));
  }

  lemma ThreeTexts(a: string, b: string, c: string)
    ensures a + ("\"" + b) + c == a + ("\"" + (b + c))
  {
  }

  /** Another name for a call that has been reported only replaces the name. */
  lemma SecondNameOnlyRenames(st: State, text: string)
    requires Coherent(st) && st.cursor == AtResult && st.buffer == "" && Current(st).arguments != ""
    ensures Step(st, ToolName(text)) == WithCurrent(st, Current(st).(name := TrimEnd(text)))
  {
  }

  /** After a close no quote is due any more: a later end of an argument does nothing. */
  lemma CloseIsFinal(st: State)
    requires Coherent(st) && HasTool(st)
    ensures Step(Step(st, ToolClose), ArgClose) == Step(st, ToolClose)
  {
  }

  // ---------- Calls whose arguments arrive as one JSON object ----------

  /** Where such a call stands: whether it has its name, and the last object of arguments. */
  datatype JsonCall = JsonCall(named: bool, args: Option<string>)

  /** One name, before, after or between objects; ids and nodes without arguments anywhere. */
  function JsonNext(c: JsonCall, node: Node): Option<JsonCall> {
    match node
    case ToolName(text) => if c.named || TrimEnd(text) == "" then None else Some(c.(named := true))
    case ToolArgs(text) => Some(if IsObjectText(text) then c.(args := Some(TrimEnd(text))) else c)
    case ToolOpen => None
    case ToolClose => None
    case ArgName(_) => None
    case ArgValue(_, _, _) => None
    case ArgString(_) => None
    case _ => Some(c)
  }

  function JsonRun(c: JsonCall, nodes: seq<Node>): Option<JsonCall>
    decreases |nodes|
  {
    if nodes == [] then Some(c)
    else if JsonNext(c, nodes[0]).None? then None
    else JsonRun(JsonNext(c, nodes[0]).value, nodes[1..])
  }

  /** The object waits in the buffer until the call has its name. */
  predicate JsonAgrees(st: State, c: JsonCall, earlier: seq<ToolCall>) {
    && Coherent(st)
    && HasTool(st)
    && !st.closing
    && (c.args.Some? ==> c.args.value != "")
    && if c.named then
         && st.cursor == AtResult
         && |st.message.calls| == |earlier| + 1
         && st.message.calls[..|earlier|] == earlier
         && Current(st).name != ""
         && Current(st).arguments == (if c.args.Some? then c.args.value else "{")
       else
         && st.cursor == AtPending
         && st.message.calls == earlier
         && Current(st).name == "" && Current(st).arguments == ""
         && st.buffer == (if c.args.Some? then c.args.value else "")
  }

  lemma StepNamedArgs(st: State, text: string)
    requires Coherent(st) && st.cursor == AtResult && Current(st).name != "" && IsObjectText(text)
    ensures Step(st, ToolArgs(text)) == WithCurrent(st, Current(st).(arguments := TrimEnd(text)))
  {
  }

  lemma JsonNameAgrees(st: State, c: JsonCall, text: string, earlier: seq<ToolCall>)
    requires JsonAgrees(st, c, earlier) && !c.named && TrimEnd(text) != ""
    ensures JsonAgrees(Step(st, ToolName(text)), c.(named := true), earlier)
  {
    StepPendingName(st, text);
  }

  lemma JsonArgsAgrees(st: State, c: JsonCall, text: string, earlier: seq<ToolCall>)
    requires JsonAgrees(st, c, earlier) && IsObjectText(text)
    ensures JsonAgrees(Step(st, ToolArgs(text)), c.(args := Some(TrimEnd(text))), earlier)
  {
    if c.named {
      StepNamedArgs(st, text);
    } else {
      assert Step(st, ToolArgs(text)) == st.(buffer := TrimEnd(text));
    }
  }

  lemma JsonStepAgrees(st: State, c: JsonCall, node: Node, earlier: seq<ToolCall>)
    requires JsonAgrees(st, c, earlier) && JsonNext(c, node).Some?
    ensures Defined(st, node) && JsonAgrees(Step(st, node), JsonNext(c, node).value, earlier)
  {
    if node.ToolName? {
      JsonNameAgrees(st, c, node.text, earlier);
    } else if node.ToolArgs? && IsObjectText(node.text) {
      JsonArgsAgrees(st, c, node.text, earlier);
    } else if node.ArgClose? || node.ArgOpen? || node.Untagged? || node.ToolArgs? {
      assert Step(st, node) == st;
    } else if node.ToolId? {
      assert Step(st, node) == WithCurrent(st, Current(st).(id := UnquoteId(node.text)));
    }
  }

  lemma {:induction false} JsonRunAgrees(st: State, c: JsonCall, nodes: seq<Node>, earlier: seq<ToolCall>)
    requires JsonAgrees(st, c, earlier) && JsonRun(c, nodes).Some?
    ensures RunDefined(st, nodes) && JsonAgrees(Run(st, nodes), JsonRun(c, nodes).value, earlier)
    ensures IsBody(nodes)
    decreases |nodes|
  {
    if nodes != [] {
      JsonStepAgrees(st, c, nodes[0], earlier);
      JsonRunAgrees(Step(st, nodes[0]), JsonNext(c, nodes[0]).value, nodes[1..], earlier);
      assert forall n :: n in nodes ==> n == nodes[0] || n in nodes[1..];
    }
  }

  lemma BalancedIsKept(text: string)
    requires ReadDocument(text).Some?
    ensures CloseBraces(text) == text
  {
    ScanDocument(0, text);
    assert text + "" == text;
  }

  lemma JsonClose(st: State, c: JsonCall, earlier: seq<ToolCall>)
    requires JsonAgrees(st, c, earlier) && c.named && c.args.Some? && ReadDocument(c.args.value).Some?
    ensures Defined(st, ToolClose)
    ensures Step(st, ToolClose).message.calls == earlier + [ToolCall(Current(st).name, c.args.value, Current(st).id)]
  {
    BalancedIsKept(c.args.value);
    assert StepClose(st).message.calls == ReplaceLast(st.message.calls, Current(st));
  }

  /**
   In any state, such a call is reported with its last name and id and with the text of its
   object unchanged: closing it adds nothing.
   */
  lemma JsonArgumentsKept(st: State, body: seq<Node>)
    requires Coherent(st) && JsonRun(JsonCall(false, None), body).Some?
    requires var c := JsonRun(JsonCall(false, None), body).value;
             c.named && c.args.Some? && ReadDocument(c.args.value).Some?
    ensures var nodes := [ToolOpen] + (body + [ToolClose]);
            && RunDefined(st, nodes)
            && Run(st, nodes).message.calls
               == st.message.calls
                  + [ToolCall(LastName(body, ""), JsonRun(JsonCall(false, None), body).value.args.value, LastId(body, ""))]
  {
    var st1 := Step(st, ToolOpen);
    var last, c := Run(st1, body), JsonRun(JsonCall(false, None), body).value;
    JsonRunAgrees(st1, JsonCall(false, None), body, st.message.calls);
    RunLabels(st1, body);
    JsonClose(last, c, st.message.calls);
    RunConcat(st, [ToolOpen], body + [ToolClose]);
    RunConcat(st1, body, [ToolClose]);
    RunOne(st, ToolOpen);
    RunOne(last, ToolClose);
  }
}
