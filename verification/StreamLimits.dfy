/**
 Where streaming stops being append-only: exactly which growth of an argument value, of a value
 that was closed already and of an argument name the message survives, when the differ throws,
 and when it accepts a message that the client then does not have.
 */
module StreamLimits {
  import opened Base
  import opened Chat
  import opened Json
  import opened Mapper
  import opened ChatDiff
  import opened TaggedCalls
  import opened Streaming
  import Quotes = QuoteNormalizer

  // ---------- What the message shows of the argument text ----------

  /** The finished message once the argument text is as given; it is shown when the call has a name. */
  function ShownAfter(st: State, p: Phase, text: string): Message
    requires Fits(st, p) && p.Building?
  {
    var m := Finish(st);
    if p.named then m.(calls := ReplaceLast(st.message.calls, Current(st).(arguments := text))) else m
  }

  lemma WriteShows(st: State, p: Phase, text: string)
    requires Fits(st, p) && p.Building?
    ensures WithTarget(st, text).message
            == if p.named then st.message.(calls := ReplaceLast(st.message.calls, Current(st).(arguments := text)))
               else st.message
  {
  }

  lemma ValueShows(st: State, p: Phase, node: Node)
    requires Fits(st, p) && PhaseNext(p, node).Some? && IsValueNode(node)
    ensures Finish(Step(st, node)) == ShownAfter(st, p, Target(st) + ShapeText(ShapeOf(node)))
  {
    PieceOfShape(node);
    StepValue(st, node);
    StepExtends(st, p, node);
    WriteShows(st, p, Target(st) + ShapeText(ShapeOf(node)));
    FinishOf(st, p);
    FinishOf(Step(st, node), PhaseNext(p, node).value);
  }

  /** What a value has written once it has been closed. */
  function ClosedText(shape: Shape): string {
    if shape.AsString? then Quoted(shape.text) else ShapeText(shape)
  }

  function CloseAfter(st: State, node: Node): State
    requires Coherent(st)
  {
    Step(Step(st, node), ArgClose)
  }

  lemma CloseWrites(st: State)
    requires Coherent(st) && HasTool(st)
    ensures Step(st, ArgClose) == if st.closing then WithTarget(st, Target(st) + "\"").(closing := false) else st
  {
  }

  lemma WriteTwice(st: State, p: Phase, a: string, b: string)
    requires Fits(st, p) && p.Building?
    ensures WithTarget(WithTarget(st, a), b) == WithTarget(st, b)
  {
  }

  lemma QuoteBehind(head: string, body: string)
    ensures head + ("\"" + body) + "\"" == head + ("\"" + body + "\"")
  {
  }

  lemma ClosedValueShows(st: State, p: Phase, node: Node)
    requires Fits(st, p) && PhaseNext(p, node).Some? && IsValueNode(node)
    ensures Finish(CloseAfter(st, node)) == ShownAfter(st, p, Target(st) + ClosedText(ShapeOf(node)))
  {
    var shape, st1, p1 := ShapeOf(node), Step(st, node), PhaseNext(p, node).value;
    var text := Target(st) + ShapeText(shape);
    StepExtends(st, p, node);
    ValueClosing(st, p, node);
    if shape.AsString? {
      PieceOfShape(node);
      StepValue(st, node);
      StepExtends(st1, p1, ArgClose);
      CloseWrites(st1);
      QuoteBehind(Target(st), Escape(shape.text));
      WriteShows(st, p, text);
      WriteShows(st1, p1, text + "\"");
      FinishOf(st, p);
      FinishOf(CloseAfter(st, node), PhaseNext(p1, ArgClose).value);
    } else {
      CloseWrites(st1);
      ValueShows(st, p, node);
    }
  }

  /** The argument text up to the next key. */
  function BeforeKey(st: State): string
    requires Coherent(st)
  {
    (if Target(st) == "" then "{" else Target(st)) + (if st.argCount > 0 then "," else "")
  }

  lemma KeyShows(st: State, p: Phase, node: Node)
    requires Fits(st, p) && PhaseNext(p, node).Some? && node.ArgName?
    ensures Finish(Step(st, node)) == ShownAfter(st, p, BeforeKey(st) + KeyColon(Key(node.text)))
  {
    var start := if Target(st) == "" then "{" else Target(st);
    Associative(start, if st.argCount > 0 then "," else "", KeyColon(Key(node.text)));
    StepExtends(st, p, node);
    WriteShows(st, p, BeforeKey(st) + KeyColon(Key(node.text)));
    FinishOf(st, p);
    FinishOf(Step(st, node), PhaseNext(p, node).value);
  }

  lemma ArgumentsExtendIff(m: Message, calls: seq<ToolCall>, x: ToolCall, y: ToolCall)
    requires calls != [] && x.name == y.name && x.id == y.id
    ensures Extends(m.(calls := ReplaceLast(calls, x)), m.(calls := ReplaceLast(calls, y)))
       <==> x.arguments <= y.arguments
  {
    var a, b := ReplaceLast(calls, x), ReplaceLast(calls, y);
    assert a[|a| - 1] == x && b[|b| - 1] == y;
  }

  lemma ArgumentsThrowIff(m: Message, calls: seq<ToolCall>, x: ToolCall, y: ToolCall)
    requires calls != [] && x.name == y.name && x.id == y.id
    ensures Diffs(m.(calls := ReplaceLast(calls, x)), m.(calls := ReplaceLast(calls, y))) == Err(InvalidText)
       <==> !Comparable(x.arguments, y.arguments)
  {
    var a, b := m.(calls := ReplaceLast(calls, x)), m.(calls := ReplaceLast(calls, y));
    assert TextDiffs(a, b).Ok?;
    assert a.calls[|calls| - 1] == x && b.calls[|calls| - 1] == y;
  }

  /** Of two argument texts that start alike, one message extends the other as the rest does. */
  lemma ShownExtendsIff(st: State, p: Phase, head: string, x: string, y: string)
    requires Fits(st, p) && p.Building?
    ensures Extends(ShownAfter(st, p, head + x), ShownAfter(st, p, head + y)) <==> (p.named ==> x <= y)
  {
    if p.named {
      var call := Current(st);
      ArgumentsExtendIff(
        Finish(st), st.message.calls, call.(arguments := head + x), call.(arguments := head + y));
      Quotes.PrefixAfterCommonHead(head, x, y);
    }
  }

  lemma ShownThrowsIff(st: State, p: Phase, head: string, x: string, y: string)
    requires Fits(st, p) && p.Building?
    ensures Diffs(ShownAfter(st, p, head + x), ShownAfter(st, p, head + y)) == Err(InvalidText)
       <==> p.named && !Comparable(x, y)
  {
    if p.named {
      var call := Current(st);
      ArgumentsThrowIff(
        Finish(st), st.message.calls, call.(arguments := head + x), call.(arguments := head + y));
      Quotes.PrefixAfterCommonHead(head, x, y);
      Quotes.PrefixAfterCommonHead(head, y, x);
    } else {
      EqualMessagesNoDiff(Finish(st));
    }
  }

  // ---------- Values ----------

  /** A text that starts with a quote is a JSON string or no JSON at all. */
  predicate IsVerdict(node: Node) {
    node.ArgValue? && node.parse.JsonOther? && Value(node.text) != "" ==> Value(node.text)[0] != '"'
  }

  /** Two nodes that the same value may give, the second one once more input has arrived. */
  predicate ValueGrows(a: Node, b: Node) {
    IsValueNode(a) && IsValueNode(b) && a.text <= b.text && IsVerdict(a) && IsVerdict(b)
  }

  lemma JsonTextStarts(node: Node)
    requires IsValueNode(node) && IsVerdict(node) && ShapeOf(node).AsJson?
    ensures ShapeText(ShapeOf(node)) != "" && ShapeText(ShapeOf(node))[0] != '"'
  {
    var v := ShapeOf(node).value;
    if IsContainer(v) {
      assert Quotes.NormalizeUnit(Quotes.Outside, v) == Quotes.Unit([v[0]], 1, Quotes.Outside);
    }
  }

  lemma JsonTextsStart(a: Node, b: Node)
    requires ValueGrows(a, b)
    ensures ShapeOf(a).AsJson? ==> ShapeText(ShapeOf(a)) != "" && ShapeText(ShapeOf(a))[0] != '"'
    ensures ShapeOf(b).AsJson? ==> ShapeText(ShapeOf(b)) != "" && ShapeText(ShapeOf(b))[0] != '"'
  {
    if ShapeOf(a).AsJson? {
      JsonTextStarts(a);
    }
    if ShapeOf(b).AsJson? {
      JsonTextStarts(b);
    }
  }

  lemma StringTextExtendsIff(s: string, t: string)
    ensures ShapeText(AsString(s)) <= ShapeText(AsString(t)) <==> s <= t
  {
    EscapePrefixIff(s, t);
    Quotes.PrefixAfterCommonHead("\"", Escape(s), Escape(t));
  }

  /** Of two texts that values write, one starts the other exactly when the shapes go together. */
  lemma ShapeTextExtendsIff(a: Node, b: Node)
    requires ValueGrows(a, b)
    ensures ShapeText(ShapeOf(a)) <= ShapeText(ShapeOf(b)) <==> KeepsWriting(ShapeOf(a), ShapeOf(b))
  {
    var x, y := ShapeOf(a), ShapeOf(b);
    ValueMonotone(a.text, b.text);
    JsonTextsStart(a, b);
    if x.AsString? && y.AsString? {
      StringTextExtendsIff(x.text, y.text);
    } else if x.AsJson? && y.AsJson? {
      JsonTextExtendsIff(x.value, y.value);
    }
  }

  /** The later text is a beginning of the earlier one: nothing is written any more, or a shorter string. */
  predicate Shrinks(a: Shape, b: Shape) {
    b.Unwritten? || (a.AsString? && b.AsString? && b.text <= a.text)
  }

  lemma CutTextForks(v: string, w: string)
    requires IsContainer(v) && v <= w && !CleanCut(v, w)
    ensures !Comparable(ShapeText(AsJson(v)), ShapeText(AsJson(w)))
  {
    JsonTextExtendsIff(v, w);
    Quotes.UncleanCutForks(Quotes.Outside, v, w[|v|..]);
    assert v + w[|v|..] == w;
  }

  lemma ShapeTextsComparableIff(a: Node, b: Node)
    requires ValueGrows(a, b)
    ensures Comparable(ShapeText(ShapeOf(a)), ShapeText(ShapeOf(b)))
       <==> KeepsWriting(ShapeOf(a), ShapeOf(b)) || Shrinks(ShapeOf(a), ShapeOf(b))
  {
    var x, y := ShapeOf(a), ShapeOf(b);
    ShapeTextExtendsIff(a, b);
    ValueMonotone(a.text, b.text);
    JsonTextsStart(a, b);
    if x.AsString? && y.AsString? {
      StringTextExtendsIff(y.text, x.text);
    } else if x.AsJson? && y.AsJson? && !KeepsWriting(x, y) {
      CutTextForks(x.value, y.value);
    }
  }

  /**
   Whether the message survives that a value has grown, with the verdicts of the JSON library on
   its shorter and its longer text: on a call that has a name exactly when the shape stays, as
   `KeepsWriting` says, and on a call without a name always.
   */
  lemma GrownValueExtendsIff(st: State, p: Phase, a: Node, b: Node)
    requires Fits(st, p) && PhaseNext(p, a).Some? && PhaseNext(p, b).Some? && ValueGrows(a, b)
    ensures Extends(Finish(Step(st, a)), Finish(Step(st, b)))
       <==> (p.named ==> KeepsWriting(ShapeOf(a), ShapeOf(b)))
  {
    ValueShows(st, p, a);
    ValueShows(st, p, b);
    ShapeTextExtendsIff(a, b);
    ShownExtendsIff(st, p, Target(st), ShapeText(ShapeOf(a)), ShapeText(ShapeOf(b)));
  }

  /** When the differ throws on a value that has grown. */
  lemma GrownValueThrowsIff(st: State, p: Phase, a: Node, b: Node)
    requires Fits(st, p) && PhaseNext(p, a).Some? && PhaseNext(p, b).Some? && ValueGrows(a, b)
    ensures Diffs(Finish(Step(st, a)), Finish(Step(st, b))) == Err(InvalidText)
       <==> p.named && !KeepsWriting(ShapeOf(a), ShapeOf(b)) && !Shrinks(ShapeOf(a), ShapeOf(b))
  {
    ValueShows(st, p, a);
    ValueShows(st, p, b);
    ShapeTextsComparableIff(a, b);
    ShownThrowsIff(st, p, Target(st), ShapeText(ShapeOf(a)), ShapeText(ShapeOf(b)));
  }

  /** The remaining case: the differ accepts what is written now, and the client keeps what was written before. */
  lemma ShrunkValueIsKept(st: State, p: Phase, a: Node, b: Node)
    requires Fits(st, p) && PhaseNext(p, a).Some? && PhaseNext(p, b).Some? && ValueGrows(a, b) && p.named
    requires Shrinks(ShapeOf(a), ShapeOf(b)) && !KeepsWriting(ShapeOf(a), ShapeOf(b))
    ensures var before, after := Finish(Step(st, a)), Finish(Step(st, b));
            Diffs(before, after).Ok? && ApplyAll(before, Diffs(before, after).value) == before != after
  {
    var before, after := Finish(Step(st, a)), Finish(Step(st, b));
    var x, y := Target(st) + ShapeText(ShapeOf(a)), Target(st) + ShapeText(ShapeOf(b));
    ValueShows(st, p, a);
    ValueShows(st, p, b);
    GrownValueExtendsIff(st, p, a, b);
    ShapeTextsComparableIff(a, b);
    ShapeTextExtendsIff(a, b);
    Quotes.PrefixAfterCommonHead(Target(st), ShapeText(ShapeOf(b)), ShapeText(ShapeOf(a)));
    ShrunkArgumentsKept(Finish(st), st.message.calls, Current(st).(arguments := x), y);
    Quotes.PrefixAfterCommonHead(Target(st), ShapeText(ShapeOf(a)), ShapeText(ShapeOf(b)));
  }

  lemma ShrunkArgumentsKept(m: Message, calls: seq<ToolCall>, x: ToolCall, shorter: string)
    requires calls != [] && shorter <= x.arguments && x.arguments != ""
    ensures var before := m.(calls := ReplaceLast(calls, x));
            Diffs(before, m.(calls := ReplaceLast(calls, x.(arguments := shorter)))) == Ok([])
  {
    var before, after := m.(calls := ReplaceLast(calls, x)), m.(calls := ReplaceLast(calls, x.(arguments := shorter)));
    var none: seq<Diff> := [];
    assert none + none == none;
    assert TextDiffs(before, after) == Ok(none);
    assert before.calls[|calls| - 1] == x && after.calls[|calls| - 1] == x.(arguments := shorter);
    assert x.arguments <= shorter ==> x.arguments[|x.arguments|..] == "";
    assert NewCallDiffs(|calls|, after.calls) == none;
  }

  // ---------- Values that have been closed ----------

  predicate ClosedKeeps(a: Shape, b: Shape) {
    if a.AsString? then a == b else KeepsWriting(a, b)
  }

  lemma QuotedApart(s: string, t: string)
    ensures Quoted(s) <= Quoted(t) <==> s == t
  {
    if Quoted(s) <= Quoted(t) {
      var more := Quoted(t)[|Quoted(s)|..];
      assert Quoted(s) + more == Quoted(t);
      SplitQuoted(Escape(s), more);
      SplitQuoted(Escape(t), "");
      assert Quoted(t) + "" == Quoted(t);
      ReadCharsOfEscape(s, more);
      ReadCharsOfEscape(t, "");
    }
  }

  lemma SplitQuoted(body: string, more: string)
    ensures ("\"" + body + "\"" + more)[1..] == body + "\"" + more
  {
  }

  lemma ClosedTextExtendsIff(a: Node, b: Node)
    requires ValueGrows(a, b)
    ensures ClosedText(ShapeOf(a)) <= ClosedText(ShapeOf(b)) <==> ClosedKeeps(ShapeOf(a), ShapeOf(b))
  {
    var x, y := ShapeOf(a), ShapeOf(b);
    JsonTextsStart(a, b);
    ShapeTextExtendsIff(a, b);
    if x.AsString? && y.AsString? {
      QuotedApart(x.text, y.text);
    }
  }

  lemma ClosedTextsComparableIff(a: Node, b: Node)
    requires ValueGrows(a, b)
    ensures Comparable(ClosedText(ShapeOf(a)), ClosedText(ShapeOf(b)))
       <==> ClosedKeeps(ShapeOf(a), ShapeOf(b)) || ShapeOf(b).Unwritten?
  {
    var x, y := ShapeOf(a), ShapeOf(b);
    ClosedTextExtendsIff(a, b);
    JsonTextsStart(a, b);
    if x.AsString? && y.AsString? {
      QuotedApart(y.text, x.text);
    } else if !x.AsString? && !y.AsString? {
      ShapeTextsComparableIff(a, b);
    }
  }

  /**
   Whether the message survives that a value has grown behind its close, as white space behind it
   may make it: one in quotes must be the same string still, any other one must keep its shape.
   */
  lemma GrownClosedValueExtendsIff(st: State, p: Phase, a: Node, b: Node)
    requires Fits(st, p) && PhaseNext(p, a).Some? && PhaseNext(p, b).Some? && ValueGrows(a, b)
    ensures Extends(Finish(CloseAfter(st, a)), Finish(CloseAfter(st, b)))
       <==> (p.named ==> ClosedKeeps(ShapeOf(a), ShapeOf(b)))
  {
    ClosedValueShows(st, p, a);
    ClosedValueShows(st, p, b);
    ClosedTextExtendsIff(a, b);
    ShownExtendsIff(st, p, Target(st), ClosedText(ShapeOf(a)), ClosedText(ShapeOf(b)));
  }

  lemma GrownClosedValueThrowsIff(st: State, p: Phase, a: Node, b: Node)
    requires Fits(st, p) && PhaseNext(p, a).Some? && PhaseNext(p, b).Some? && ValueGrows(a, b)
    ensures Diffs(Finish(CloseAfter(st, a)), Finish(CloseAfter(st, b))) == Err(InvalidText)
       <==> p.named && !ClosedKeeps(ShapeOf(a), ShapeOf(b)) && !ShapeOf(b).Unwritten?
  {
    ClosedValueShows(st, p, a);
    ClosedValueShows(st, p, b);
    ClosedTextsComparableIff(a, b);
    ShownThrowsIff(st, p, Target(st), ClosedText(ShapeOf(a)), ClosedText(ShapeOf(b)));
  }

  // ---------- Argument names ----------

  /**
   Whether the message survives that an argument name has changed, as when a parameter's name
   starts with that of another one: on a call with a name only if the key stays.
   */
  lemma GrownKeyExtendsIff(st: State, p: Phase, a: Node, b: Node)
    requires Fits(st, p) && PhaseNext(p, a).Some? && PhaseNext(p, b).Some? && a.ArgName? && b.ArgName?
    ensures Extends(Finish(Step(st, a)), Finish(Step(st, b))) <==> (p.named ==> Key(a.text) == Key(b.text))
    ensures Diffs(Finish(Step(st, a)), Finish(Step(st, b))) == Err(InvalidText)
       <==> p.named && Key(a.text) != Key(b.text)
  {
    var k, l := Key(a.text), Key(b.text);
    KeyShows(st, p, a);
    KeyShows(st, p, b);
    if KeyColon(k) <= KeyColon(l) {
      KeysAreApart(k, l);
    }
    if KeyColon(l) <= KeyColon(k) {
      KeysAreApart(l, k);
    }
    ShownExtendsIff(st, p, BeforeKey(st), KeyColon(k), KeyColon(l));
    ShownThrowsIff(st, p, BeforeKey(st), KeyColon(k), KeyColon(l));
  }

  /** An argument name is taken back: the differ accepts that, and the client keeps the key. */
  lemma WithdrawnKeyIsKept(st: State, p: Phase, a: Node)
    requires Fits(st, p) && PhaseNext(p, a).Some? && a.ArgName? && p.named
    ensures var before, after := Finish(Step(st, a)), Finish(st);
            Diffs(before, after).Ok? && ApplyAll(before, Diffs(before, after).value) == before != after
  {
    KeyShows(st, p, a);
    FinishOf(st, p);
    var call := Current(st);
    var text := BeforeKey(st) + KeyColon(Key(a.text));
    assert st.message.calls == ReplaceLast(st.message.calls, call);
    assert BeforeKey(st) <= text;
    assert call.arguments <= text && call.arguments != text;
    ShrunkArgumentsKept(Finish(st), st.message.calls, call.(arguments := text), call.arguments);
    assert ReplaceLast(st.message.calls, call.(arguments := text))[|st.message.calls| - 1].arguments == text;
  }

  // ---------- The kinds of growth that fail ----------

  lemma ValuesForkThrows(st: State, p: Phase, a: Node, b: Node)
    requires IsValueNode(a) && IsValueNode(b)
    requires Fits(st, p) && PhaseNext(p, a).Some? && PhaseNext(p, b).Some? && p.named
    requires !Comparable(ShapeText(ShapeOf(a)), ShapeText(ShapeOf(b)))
    ensures Diffs(Finish(Step(st, a)), Finish(Step(st, b))) == Err(InvalidText)
  {
    ValueShows(st, p, a);
    ValueShows(st, p, b);
    ShownThrowsIff(st, p, Target(st), ShapeText(ShapeOf(a)), ShapeText(ShapeOf(b)));
  }

  /** A value shown as a string turns out to be JSON, or one passed through turns out to be none. */
  lemma ShapeChangeThrows(st: State, p: Phase, a: Node, b: Node)
    requires IsValueNode(a) && IsValueNode(b)
    requires Fits(st, p) && PhaseNext(p, a).Some? && PhaseNext(p, b).Some? && p.named
    requires IsVerdict(a) && IsVerdict(b)
    requires (ShapeOf(a).AsString? && ShapeOf(b).AsJson?) || (ShapeOf(a).AsJson? && ShapeOf(b).AsString?)
    ensures Diffs(Finish(Step(st, a)), Finish(Step(st, b))) == Err(InvalidText)
  {
    if ShapeOf(a).AsJson? {
      JsonTextStarts(a);
    } else {
      JsonTextStarts(b);
    }
    ValuesForkThrows(st, p, a, b);
  }

  /** A string is rewritten, as when a closing quote turns a text with a quote in front into a JSON string. */
  lemma RewrittenStringThrows(st: State, p: Phase, a: Node, b: Node)
    requires IsValueNode(a) && IsValueNode(b)
    requires Fits(st, p) && PhaseNext(p, a).Some? && PhaseNext(p, b).Some? && p.named
    requires ShapeOf(a).AsString? && ShapeOf(b).AsString? && !Comparable(ShapeOf(a).text, ShapeOf(b).text)
    ensures Diffs(Finish(Step(st, a)), Finish(Step(st, b))) == Err(InvalidText)
  {
    var s, t := ShapeOf(a).text, ShapeOf(b).text;
    StringTextExtendsIff(s, t);
    StringTextExtendsIff(t, s);
    ValuesForkThrows(st, p, a, b);
  }

  /** A container is cut between a backslash and the single quote it escapes. */
  lemma UncleanCutThrows(st: State, p: Phase, a: Node, b: Node)
    requires IsValueNode(a) && IsValueNode(b)
    requires Fits(st, p) && PhaseNext(p, a).Some? && PhaseNext(p, b).Some? && p.named
    requires ShapeOf(a).AsJson? && ShapeOf(b).AsJson? && IsContainer(ShapeOf(a).value)
    requires ShapeOf(a).value <= ShapeOf(b).value && !CleanCut(ShapeOf(a).value, ShapeOf(b).value)
    ensures Diffs(Finish(Step(st, a)), Finish(Step(st, b))) == Err(InvalidText)
  {
    CutTextForks(ShapeOf(a).value, ShapeOf(b).value);
    ValuesForkThrows(st, p, a, b);
  }

  // ---------- An input of each kind ----------

  const NAME_WRITTEN := [ToolOpen, ToolName("f")]

  const NAME_NEXT := Building(true, false, false, false)

  const KEY_WRITTEN := NAME_WRITTEN + [ArgName("k")]

  const KEY_NEXT := Building(true, true, false, false)

  lemma NameWritten()
    ensures PhaseRun(Idle, NAME_WRITTEN) == Some(NAME_NEXT)
    ensures Fits(Run(INITIAL, NAME_WRITTEN), NAME_NEXT)
  {
    assert TrimEnd("f") == "f";
    assert NAME_WRITTEN[1..] == [ToolName("f")] && NAME_WRITTEN[1..][1..] == [];
    assert PhaseRun(Idle, NAME_WRITTEN) == Some(NAME_NEXT);
    RunExtends(INITIAL, Idle, NAME_WRITTEN);
  }

  lemma KeyWritten()
    ensures Fits(Run(INITIAL, KEY_WRITTEN), KEY_NEXT)
  {
    NameWritten();
    RunConcat(INITIAL, NAME_WRITTEN, [ArgName("k")]);
    RunOne(Run(INITIAL, NAME_WRITTEN), ArgName("k"));
    StepExtends(Run(INITIAL, NAME_WRITTEN), NAME_NEXT, ArgName("k"));
  }

  /** The differ throws between two parses. */
  predicate Throws(a: seq<Node>, b: seq<Node>) {
    Diffs(MessageOf(a), MessageOf(b)) == Err(InvalidText)
  }

  /** The differ does not throw, but its deltas leave the client with the message it had. */
  predicate KeepsOld(a: seq<Node>, b: seq<Node>) {
    && Diffs(MessageOf(a), MessageOf(b)).Ok?
    && ApplyAll(MessageOf(a), Diffs(MessageOf(a), MessageOf(b)).value) == MessageOf(a) != MessageOf(b)
  }

  function AfterKey(node: Node): seq<Node> {
    KEY_WRITTEN + [node]
  }

  lemma MessageAfter(front: seq<Node>, node: Node)
    ensures MessageOf(front + [node]) == Finish(Step(Run(INITIAL, front), node))
    ensures MessageOf(front + [node] + [ArgClose]) == Finish(CloseAfter(Run(INITIAL, front), node))
  {
    RunConcat(INITIAL, front, [node]);
    RunConcat(INITIAL, front + [node], [ArgClose]);
    RunOne(Run(INITIAL, front), node);
    RunOne(Run(INITIAL, front + [node]), ArgClose);
  }

  lemma AfterKeyThrowsIff(a: Node, b: Node)
    requires ValueGrows(a, b)
    ensures Throws(AfterKey(a), AfterKey(b))
       <==> !KeepsWriting(ShapeOf(a), ShapeOf(b)) && !Shrinks(ShapeOf(a), ShapeOf(b))
  {
    KeyWritten();
    MessageAfter(KEY_WRITTEN, a);
    MessageAfter(KEY_WRITTEN, b);
    GrownValueThrowsIff(Run(INITIAL, KEY_WRITTEN), KEY_NEXT, a, b);
  }

  lemma AfterKeyKeepsOld(a: Node, b: Node)
    requires ValueGrows(a, b) && Shrinks(ShapeOf(a), ShapeOf(b)) && !KeepsWriting(ShapeOf(a), ShapeOf(b))
    ensures KeepsOld(AfterKey(a), AfterKey(b))
  {
    KeyWritten();
    MessageAfter(KEY_WRITTEN, a);
    MessageAfter(KEY_WRITTEN, b);
    ShrunkValueIsKept(Run(INITIAL, KEY_WRITTEN), KEY_NEXT, a, b);
  }

  lemma AfterKeyClosedThrowsIff(a: Node, b: Node)
    requires ValueGrows(a, b)
    ensures Throws(AfterKey(a) + [ArgClose], AfterKey(b) + [ArgClose])
       <==> !ClosedKeeps(ShapeOf(a), ShapeOf(b)) && !ShapeOf(b).Unwritten?
  {
    KeyWritten();
    MessageAfter(KEY_WRITTEN, a);
    MessageAfter(KEY_WRITTEN, b);
    GrownClosedValueThrowsIff(Run(INITIAL, KEY_WRITTEN), KEY_NEXT, a, b);
  }

  /** `tru` becomes `true`. */
  lemma FailingScalar()
    ensures Throws(AfterKey(ArgValue("tru", true, NotJson)), AfterKey(ArgValue("true", false, JsonOther)))
  {
    assert Value("tru") == "tru" && Value("true") == "true";
    AfterKeyThrowsIff(ArgValue("tru", true, NotJson), ArgValue("true", false, JsonOther));
  }

  /** `1` becomes `1 a`, which is no JSON. */
  lemma FailingNumber()
    ensures Throws(AfterKey(ArgValue("1", true, JsonOther)), AfterKey(ArgValue("1 a", false, NotJson)))
  {
    AfterKeyThrowsIff(ArgValue("1", true, JsonOther), ArgValue("1 a", false, NotJson));
  }

  /** A partial `[Tru` becomes `[True]`, which is no JSON. */
  lemma FailingContainer()
    ensures Throws(AfterKey(ArgValue("[Tru", true, NotJson)), AfterKey(ArgValue("[True]", false, NotJson)))
  {
    assert Value("[Tru") == "[Tru" && Value("[True]") == "[True]";
    AfterKeyThrowsIff(ArgValue("[Tru", true, NotJson), ArgValue("[True]", false, NotJson));
  }

  /** `"ab` is shown with its quote, and `"ab"` without it. */
  lemma FailingQuote()
    ensures Throws(AfterKey(ArgValue("\"ab", true, NotJson)), AfterKey(ArgValue("\"ab\"", false, JsonString("ab"))))
  {
    assert Value("\"ab")[0] == '"';
    AfterKeyThrowsIff(ArgValue("\"ab", true, NotJson), ArgValue("\"ab\"", false, JsonString("ab")));
  }

  /** `"ab"` is shown without its quotes, and `"ab" c` with them. */
  lemma FailingText()
    ensures Throws(AfterKey(ArgValue("\"ab\"", true, JsonString("ab"))), AfterKey(ArgValue("\"ab\" c", false, NotJson)))
  {
    assert Value("\"ab\" c")[0] == '"';
    AfterKeyThrowsIff(ArgValue("\"ab\"", true, JsonString("ab")), ArgValue("\"ab\" c", false, NotJson));
  }

  const CUT := "['a\\"
  const UNCUT := "['a\\'"

  lemma CutShapes()
    ensures ShapeOf(ArgValue(CUT, true, NotJson)) == AsJson(CUT)
    ensures ShapeOf(ArgValue(UNCUT, true, NotJson)) == AsJson(UNCUT)
  {
    assert Value(CUT) == CUT && Value(UNCUT) == UNCUT;
  }

  lemma CutIsUnclean()
    ensures CUT <= UNCUT && !CleanCut(CUT, UNCUT)
  {
    CutInsideLiteral();
    assert UNCUT[|CUT|] == '\'';
  }

  lemma CutInsideLiteral()
    ensures Quotes.CutsEscape(Quotes.Outside, CUT)
    ensures Quotes.NormalizeFrom(Quotes.Outside, CUT).1 == Quotes.InSingle
  {
    var s := CUT;
    assert s[1..] == "'a\\" && s[1..][1..] == "a\\" && s[1..][1..][1..] == "\\" && s[1..][1..][1..][1..] == "";
    assert Quotes.NormalizeUnit(Quotes.Outside, s) == Quotes.Unit("[", 1, Quotes.Outside);
    assert Quotes.NormalizeUnit(Quotes.Outside, s[1..]) == Quotes.Unit("\"", 1, Quotes.InSingle);
    assert Quotes.NormalizeUnit(Quotes.InSingle, s[1..][1..]) == Quotes.Unit("a", 1, Quotes.InSingle);
    assert Quotes.NormalizeUnit(Quotes.InSingle, s[1..][1..][1..]) == Quotes.Unit("\\", 1, Quotes.InSingle);
    assert Quotes.NormalizeFrom(Quotes.InSingle, s[1..][1..]).1 == Quotes.InSingle;
    assert Quotes.CutsEscape(Quotes.InSingle, s[1..][1..]);
  }

  /** `['a\` is shown with its backslash, which `['a\'` drops. */
  lemma FailingCut()
    ensures Throws(AfterKey(ArgValue(CUT, true, NotJson)), AfterKey(ArgValue(UNCUT, true, NotJson)))
  {
    CutShapes();
    CutIsUnclean();
    AfterKeyThrowsIff(ArgValue(CUT, true, NotJson), ArgValue(UNCUT, true, NotJson));
  }

  /** A quote alone is shown as a string of one quote, and two quotes are the empty string. */
  lemma FailingShrink()
    ensures KeepsOld(AfterKey(ArgValue("\"", true, NotJson)), AfterKey(ArgValue("\"\"", false, JsonString(""))))
  {
    assert Value("\"") == "\"";
    AfterKeyKeepsOld(ArgValue("\"", true, NotJson), ArgValue("\"\"", false, JsonString("")));
  }

  /**
   `True` gets a second white-space character behind it. It is no JSON, so it has been written as a
   string and closed; of the white space one character is taken off, and the other one is not.
   */
  lemma FailingClosedValue()
    ensures Throws(
      AfterKey(ArgValue("True", false, NotJson)) + [ArgClose],
      AfterKey(ArgValue("True  ", false, NotJson)) + [ArgClose])
  {
    assert Value("True") == "True" && Value("True  ") == "True ";
    AfterKeyClosedThrowsIff(ArgValue("True", false, NotJson), ArgValue("True  ", false, NotJson));
  }

  /** Of parameters `q` and `query`, the first one is taken for complete, and turns out to be the other one. */
  lemma FailingKey()
    ensures Throws(NAME_WRITTEN + [ArgName("q")], NAME_WRITTEN + [ArgName("query")])
  {
    NameWritten();
    MessageAfter(NAME_WRITTEN, ArgName("q"));
    MessageAfter(NAME_WRITTEN, ArgName("query"));
    assert Key("q") == "q" && Key("query") == "query";
    GrownKeyExtendsIff(Run(INITIAL, NAME_WRITTEN), NAME_NEXT, ArgName("q"), ArgName("query"));
  }

  /** In between, at `qu`, no name is complete, and the first one is taken back. */
  lemma FailingWithdrawal()
    ensures KeepsOld(NAME_WRITTEN + [ArgName("q")], NAME_WRITTEN)
  {
    NameWritten();
    MessageAfter(NAME_WRITTEN, ArgName("q"));
    WithdrawnKeyIsKept(Run(INITIAL, NAME_WRITTEN), NAME_NEXT, ArgName("q"));
  }
}
