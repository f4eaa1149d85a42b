/**
 Streaming: every partial parse is mapped from scratch and compared with the previous message.
 On well-formed runs of nodes the mapper only ever extends what it reported before, so the
 differ never throws and a client that follows the deltas ends with the final message.
 */
module Streaming {
  import opened Base
  import opened Chat
  import opened Json
  import opened Mapper
  import opened ChatDiff
  import Quotes = QuoteNormalizer
  import opened TaggedCalls

  // ---------- Well-formed runs ----------

  /** What has been seen of the current call: a name, argument text, an id, a value not yet closed. */
  datatype Phase = Idle | Building(named: bool, args: bool, id: bool, valued: bool)

  /**
   One name per call; one object of arguments after the name, or argument nodes with one value
   each; an id that was given is not taken back once the call is named. `None` when the node does
   not fit.
   */
  function PhaseNext(p: Phase, node: Node): Option<Phase> {
    match node
    case Reasoning(_) => Some(p)
    case Content(_) => Some(p)
    case Untagged => Some(p)
    case ToolOpen => Some(Building(false, false, false, false))
    case ArgOpen => Some(if p.Idle? then p else p.(valued := false))
    case ToolArgs(t) =>
      if !IsObjectText(t) then Some(p)
      else if p.Idle? || (p.named && p.args) then None
      else Some(p.(args := true))
    case ToolClose => if p.Idle? then None else Some(Idle)
    case ToolId(t) => if p.Idle? || (p.named && p.id && UnquoteId(t) == "") then None else Some(p.(id := true))
    case ToolName(t) => if p.Idle? || p.named || TrimEnd(t) == "" then None else Some(p.(named := true))
    case ArgName(_) => if p.Idle? then None else Some(p.(args := true))
    case ArgClose => if p.Idle? then None else Some(p.(args := true, valued := false))
    case ArgValue(_, _, _) => if p.Idle? || p.valued then None else Some(p.(args := true, valued := true))
    case ArgString(_) => if p.Idle? || p.valued then None else Some(p.(args := true, valued := true))
  }

  function PhaseRun(p: Phase, nodes: seq<Node>): Option<Phase>
    decreases |nodes|
  {
    if nodes == [] then Some(p)
    else if PhaseNext(p, nodes[0]).None? then None
    else PhaseRun(PhaseNext(p, nodes[0]).value, nodes[1..])
  }

  predicate IsWellFormed(nodes: seq<Node>) {
    PhaseRun(Idle, nodes).Some?
  }

  /** The mapper's state fits the phase. */
  predicate Fits(st: State, p: Phase) {
    && Coherent(st)
    && (p.Idle? ==> st.pending.None?)
    && (p.Building? ==>
         && HasTool(st)
         && (st.cursor == AtResult <==> p.named)
         && (!p.valued ==> !st.closing)
         && (!p.id ==> Current(st).id == "")
         && (if p.named then Current(st).name != "" && (!p.args ==> Current(st).arguments == "{")
             else Current(st).name == "" && Current(st).arguments == "" && (!p.args ==> st.buffer == "")))
  }

  // ---------- One step only extends the message ----------

  function Shown(reasoning: string): string {
    if IsBlankReasoning(reasoning) then "" else reasoning
  }

  lemma ShownMonotone(a: string, b: string)
    requires a <= b
    ensures Shown(a) <= Shown(b)
  {
    if !IsBlankReasoning(a) {
      var c :| c in a && !(c == ' ' || c == '\n' || c == '\r' || c == '\t');
      assert c in b;
    }
  }

  /** A blank pending call is not part of the finished message. */
  lemma FinishOf(st: State, p: Phase)
    requires Fits(st, p)
    ensures Finish(st) == Message(Shown(st.message.reasoning), st.message.content, st.message.calls)
  {
  }

  /** The calls of two states differ at most in that the last call has grown. */
  predicate CallsGrow(a: seq<ToolCall>, b: seq<ToolCall>) {
    a == b || (a != [] && |a| == |b| && a[..|a| - 1] == b[..|a| - 1] && CallExtends(a[|a| - 1], b[|a| - 1]))
  }

  lemma GrowthExtends(a: Message, b: Message)
    requires a.reasoning <= b.reasoning && a.content <= b.content
    requires CallsGrow(a.calls, b.calls) || (a.calls < b.calls)
    ensures Extends(a, b)
  {
    if a.calls != b.calls && CallsGrow(a.calls, b.calls) {
      forall i | 0 <= i < |a.calls| - 1
        ensures a.calls[i] == b.calls[i]
      {
        assert a.calls[..|a.calls| - 1][i] == b.calls[..|a.calls| - 1][i];
      }
    }
  }

  /** Adding to the argument text, or to the buffer, is growth. */
  lemma WriteGrows(st: State, p: Phase, text: string)
    requires Fits(st, p) && p.Building? && (p.named ==> Target(st) <= text)
    ensures CallsGrow(st.message.calls, WithTarget(st, text).message.calls)
  {
  }

  lemma CloseGrows(st: State, p: Phase)
    requires Fits(st, p) && p.Building?
    ensures CallsGrow(st.message.calls, StepClose(st).message.calls)
    ensures StepClose(st).pending.None? && StepClose(st).message.(calls := st.message.calls) == st.message
  {
  }

  lemma StepFitsWrite(st: State, p: Phase, node: Node)
    requires Fits(st, p) && p.Building? && PhaseNext(p, node).Some?
    requires node.ArgName? || node.ArgString? || node.ArgValue? || node.ArgClose?
    ensures Fits(Step(st, node), PhaseNext(p, node).value)
    ensures CallsGrow(st.message.calls, Step(st, node).message.calls)
  {
    var text :=
      if node.ArgName? then (if Target(st) == "" then "{" else Target(st)) + KeyPiece(st.argCount, node.text)
      else if node.ArgClose? then (if st.closing then Target(st) + "\"" else Target(st))
      else Target(st) + ValuePiece(st.closing, node).0;
    WriteGrows(st, p, text);
  }

  lemma StepFitsName(st: State, p: Phase, text: string)
    requires Fits(st, p) && PhaseNext(p, ToolName(text)).Some?
    ensures Fits(Step(st, ToolName(text)), PhaseNext(p, ToolName(text)).value)
    ensures st.message.calls < Step(st, ToolName(text)).message.calls
  {
  }

  lemma StepFitsOther(st: State, p: Phase, node: Node)
    requires Fits(st, p) && PhaseNext(p, node).Some?
    requires node.ToolOpen? || node.ArgOpen? || node.ToolArgs? || node.ToolId? || !IsToolNode(node)
    ensures Fits(Step(st, node), PhaseNext(p, node).value)
    ensures CallsGrow(st.message.calls, Step(st, node).message.calls)
  {
  }

  lemma StepExtends(st: State, p: Phase, node: Node)
    requires Fits(st, p) && PhaseNext(p, node).Some?
    ensures Defined(st, node)
    ensures Fits(Step(st, node), PhaseNext(p, node).value)
    ensures Extends(Finish(st), Finish(Step(st, node)))
  {
    var st' := Step(st, node);
    if node.ToolName? {
      StepFitsName(st, p, node.text);
    } else if node.ToolClose? {
      CloseGrows(st, p);
    } else if node.ArgName? || node.ArgString? || node.ArgValue? || node.ArgClose? {
      StepFitsWrite(st, p, node);
    } else {
      StepFitsOther(st, p, node);
    }
    StepTexts(st, node);
    ShownMonotone(st.message.reasoning, st'.message.reasoning);
    FinishOf(st, p);
    FinishOf(st', PhaseNext(p, node).value);
    GrowthExtends(Finish(st), Finish(st'));
  }

  lemma StepTexts(st: State, node: Node)
    requires Coherent(st)
    ensures Step(st, node).message.reasoning == st.message.reasoning + (if node.Reasoning? then node.text else "")
    ensures Step(st, node).message.content == st.message.content + (if node.Content? then node.text else "")
  {
  }

  function ContentOf(nodes: seq<Node>): string {
    if nodes == [] then "" else (if nodes[0].Content? then nodes[0].text else "") + ContentOf(nodes[1..])
  }

  function ReasoningOf(nodes: seq<Node>): string {
    if nodes == [] then "" else (if nodes[0].Reasoning? then nodes[0].text else "") + ReasoningOf(nodes[1..])
  }

  lemma {:induction false} RunTexts(st: State, nodes: seq<Node>)
    requires Coherent(st)
    ensures Run(st, nodes).message.content == st.message.content + ContentOf(nodes)
    ensures Run(st, nodes).message.reasoning == st.message.reasoning + ReasoningOf(nodes)
    decreases |nodes|
  {
    if nodes != [] {
      StepTexts(st, nodes[0]);
      RunTexts(Step(st, nodes[0]), nodes[1..]);
      Associative(st.message.content, if nodes[0].Content? then nodes[0].text else "", ContentOf(nodes[1..]));
      Associative(st.message.reasoning, if nodes[0].Reasoning? then nodes[0].text else "", ReasoningOf(nodes[1..]));
    }
  }

  /** Every run: all content is kept in order, and so is reasoning unless it is all white space. */
  lemma TextsOfMessage(nodes: seq<Node>)
    ensures MessageOf(nodes).content == ContentOf(nodes)
    ensures (forall c :: c in ReasoningOf(nodes) ==> c in " \n\r\t") ==> MessageOf(nodes).reasoning == ""
    ensures (exists c :: c in ReasoningOf(nodes) && c !in " \n\r\t") ==>
              MessageOf(nodes).reasoning == ReasoningOf(nodes)
  {
    RunTexts(INITIAL, nodes);
    assert "" + ContentOf(nodes) == ContentOf(nodes) && "" + ReasoningOf(nodes) == ReasoningOf(nodes);
  }

  /** Any longer run extends the message of a shorter one; nothing undefined happens on the way. */
  lemma {:induction false} RunExtends(st: State, p: Phase, nodes: seq<Node>)
    requires Fits(st, p) && PhaseRun(p, nodes).Some?
    ensures RunDefined(st, nodes)
    ensures Fits(Run(st, nodes), PhaseRun(p, nodes).value)
    ensures Extends(Finish(st), Finish(Run(st, nodes)))
    decreases |nodes|
  {
    if nodes != [] {
      var st' := Step(st, nodes[0]);
      StepExtends(st, p, nodes[0]);
      RunExtends(st', PhaseNext(p, nodes[0]).value, nodes[1..]);
      ExtendsTransitive(Finish(st), Finish(st'), Finish(Run(st', nodes[1..])));
    }
  }

  // ---------- Nodes without effect ----------

  /** Untagged nodes, among them all inner nodes of a value, and argument nodes that only enclose others. */
  predicate IsEffective(node: Node) {
    !node.Untagged? && (node.ToolArgs? ==> IsObjectText(node.text))
  }

  function Effective(nodes: seq<Node>): (r: seq<Node>)
    ensures |r| <= |nodes|
  {
    if nodes == [] then []
    else (if IsEffective(nodes[0]) then [nodes[0]] else []) + Effective(nodes[1..])
  }

  lemma NoEffect(st: State, p: Phase, node: Node)
    requires Coherent(st) && !IsEffective(node)
    ensures Step(st, node) == st && Defined(st, node) && PhaseNext(p, node) == Some(p)
  {
  }

  /** The other nodes decide what a run does, and whether it is well formed and free of undefined writes. */
  lemma {:induction false} EffectiveRun(st: State, p: Phase, nodes: seq<Node>)
    requires Coherent(st)
    ensures Run(st, Effective(nodes)) == Run(st, nodes)
    ensures RunDefined(st, Effective(nodes)) <==> RunDefined(st, nodes)
    ensures PhaseRun(p, Effective(nodes)) == PhaseRun(p, nodes)
    decreases |nodes|
  {
    if nodes != [] {
      var node, more := nodes[0], nodes[1..];
      if IsEffective(node) {
        assert Effective(nodes)[1..] == Effective(more);
        EffectiveRun(Step(st, node), if PhaseNext(p, node).Some? then PhaseNext(p, node).value else p, more);
      } else {
        NoEffect(st, p, node);
        assert Effective(nodes) == Effective(more);
        EffectiveRun(st, p, more);
      }
    }
  }

  lemma EffectiveParse(nodes: seq<Node>)
    ensures MessageOf(Effective(nodes)) == MessageOf(nodes)
    ensures IsWellFormed(Effective(nodes)) <==> IsWellFormed(nodes)
  {
    EffectiveRun(INITIAL, Idle, nodes);
  }

  lemma {:induction false} EffectiveConcat(a: seq<Node>, b: seq<Node>)
    ensures Effective(a + b) == Effective(a) + Effective(b)
    decreases |a|
  {
    if a == [] {
      assert a + b == b;
    } else {
      var head := if IsEffective(a[0]) then [a[0]] else [];
      assert (a + b)[1..] == a[1..] + b && (a + b)[0] == a[0];
      EffectiveConcat(a[1..], b);
      Associative(head, Effective(a[1..]), Effective(b));
    }
  }

  // ---------- How a value is written ----------

  predicate IsValueNode(node: Node) {
    node.ArgValue? || node.ArgString?
  }

  /** A value that is not there yet, one that is quoted, or one that is passed through as JSON text. */
  datatype Shape = Unwritten | AsString(text: string) | AsJson(value: string)

  function ShapeOf(node: Node): Shape
    requires IsValueNode(node)
  {
    var v := Value(node.text);
    if node.ArgString? then AsString(v)
    else if v == "" then Unwritten
    else match node.parse
      case JsonString(s) => AsString(s)
      case JsonOther => AsJson(v)
      case NotJson =>
        if !IsContainer(v) then AsString(v) else if node.partial then AsJson(v) else AsString(Quotes.Normalize(v))
  }

  /** The shorter container text does not stop between a backslash and a quote it escapes. */
  predicate CleanCut(a: string, b: string)
    requires a <= b
  {
    !(Quotes.CutsEscape(Quotes.Outside, a) && Quotes.NormalizeFrom(Quotes.Outside, a).1 == Quotes.InSingle
      && |a| < |b| && b[|a|] == '\'')
  }

  /**
   What has been written of a value stays: nothing had been written, or it is still the same string
   up to there, or still JSON text, not cut where the normalizer would take a character back.
   */
  predicate KeepsWriting(a: Shape, b: Shape) {
    || a.Unwritten?
    || (a.AsString? && b.AsString? && a.text <= b.text)
    || (a.AsJson? && b.AsJson? && a.value <= b.value && (IsContainer(a.value) ==> CleanCut(a.value, b.value)))
  }

  function ShapeText(shape: Shape): string {
    match shape
    case Unwritten => ""
    case AsString(t) => "\"" + Escape(t)
    case AsJson(v) => if IsContainer(v) then Quotes.Normalize(v) else v
  }

  lemma PieceOfShape(node: Node)
    requires IsValueNode(node)
    ensures ValuePiece(false, node) == (ShapeText(ShapeOf(node)), ShapeOf(node).AsString?)
  {
    assert "\"" + Escape("") == "\"";
  }

  /** Dropping one leading and one trailing white-space character never loses what was shown. */
  lemma ValueMonotone(a: string, b: string)
    requires a <= b
    ensures Value(a) <= Value(b)
  {
    var u, v := TrimStartOnce(a), TrimStartOnce(b);
    if a != "" {
      assert u <= v;
      assert TrimEndOnce(u) <= u;
    }
  }

  lemma JsonTextExtendsIff(v: string, w: string)
    requires v != "" && v <= w
    ensures ShapeText(AsJson(v)) <= ShapeText(AsJson(w)) <==> (IsContainer(v) ==> CleanCut(v, w))
  {
    assert v[0] == w[0];
    if IsContainer(v) {
      Quotes.NormalizePrefixIff(Quotes.Outside, v, w[|v|..]);
      assert v + w[|v|..] == w;
    }
  }

  lemma KeepsWritingExtends(a: Shape, b: Shape)
    requires KeepsWriting(a, b) && (a.AsJson? ==> a.value != "")
    ensures ShapeText(a) <= ShapeText(b)
  {
    if a.AsString? {
      EscapeMonotone(a.text, b.text);
    } else if a.AsJson? {
      JsonTextExtendsIff(a.value, b.value);
    }
  }

  // ---------- The last node of a partial parse may still grow ----------

  /** The nodes that write argument text; it is not shown before the call has a name. */
  predicate WritesArguments(node: Node) {
    node.ArgName? || node.ArgClose? || node.ToolArgs? || IsValueNode(node)
  }

  /**
   The nodes do the same in any well-formed run, although their texts may differ in white space or
   in how a value is spelled.
   */
  predicate WritesTheSame(a: Node, b: Node) {
    || a == b
    || (a.ToolId? && b.ToolId? && UnquoteId(a.text) == UnquoteId(b.text))
    || (a.ToolName? && b.ToolName? && TrimEnd(a.text) == TrimEnd(b.text))
    || (a.ToolArgs? && b.ToolArgs? && TrimEnd(a.text) == TrimEnd(b.text))
    || (a.ArgName? && b.ArgName? && Key(a.text) == Key(b.text))
    || (IsValueNode(a) && IsValueNode(b) && ShapeOf(a) == ShapeOf(b))
  }

  /** How a node after a run in phase p may look once more input has arrived. */
  predicate Grown(p: Phase, a: Node, b: Node) {
    || WritesTheSame(a, b)
    || (a.Reasoning? && b.Reasoning? && a.text <= b.text)
    || (a.Content? && b.Content? && a.text <= b.text)
    || (a.ToolName? && b.ToolName? && a.text <= b.text)
    || (a.ToolId? && b.ToolId? && (UnquoteId(a.text) == UnquoteId(b.text) || UnquoteId(b.text) != ""))
    || (a.ToolArgs? && b.ToolArgs? && a.text <= b.text)
    || (IsValueNode(a) && IsValueNode(b) && a.text <= b.text && KeepsWriting(ShapeOf(a), ShapeOf(b)))
    || (p.Building? && !p.named && WritesArguments(a) && WritesArguments(b))
  }

  predicate SameRuns(a: seq<Node>, b: seq<Node>) {
    |a| == |b| && forall i :: 0 <= i < |a| ==> WritesTheSame(a[i], b[i])
  }

  /** The later run starts with nodes that do what the earlier ones did, and the last of these may have grown. */
  predicate LastGrows(a: seq<Node>, b: seq<Node>) {
    && 0 < |a| <= |b|
    && var n := |a| - 1;
       && SameRuns(a[..n], b[..n])
       && PhaseRun(Idle, a[..n]).Some?
       && Grown(PhaseRun(Idle, a[..n]).value, a[n], b[n])
  }

  /** The run ends with the close of a value that is not in quotes, which writes nothing. */
  predicate ClosesNothing(a: seq<Node>) {
    && |a| >= 2
    && a[|a| - 1].ArgClose?
    && IsValueNode(a[|a| - 2])
    && !ShapeOf(a[|a| - 2]).AsString?
  }

  /**
   The later run of effective nodes continues the earlier one, whose last node may have grown; a
   value that is not in quotes may also grow behind its close.
   */
  predicate ContinuesOn(a: seq<Node>, b: seq<Node>) {
    a == [] || LastGrows(a, b) || (ClosesNothing(a) && LastGrows(a[..|a| - 1], b))
  }

  /** So does the later parse, apart from nodes without effect, which may come, go and change. */
  predicate Continues(a: seq<Node>, b: seq<Node>) {
    ContinuesOn(Effective(a), Effective(b))
  }

  lemma PrefixAfter(head: string, a: string, b: string)
    requires a <= b
    ensures head + a <= head + b
  {
  }

  /** Writing a longer text in place of a shorter one is growth of the same call. */
  lemma WritesGrow(st: State, p: Phase, a: string, b: string)
    requires Fits(st, p) && p.Building? && a <= b
    ensures CallsGrow(WithTarget(st, a).message.calls, WithTarget(st, b).message.calls)
  {
  }

  lemma GrownValueGrows(st: State, p: Phase, a: Node, b: Node)
    requires Fits(st, p) && PhaseNext(p, a).Some? && PhaseNext(p, b).Some? && IsValueNode(a) && IsValueNode(b)
    requires KeepsWriting(ShapeOf(a), ShapeOf(b))
    ensures CallsGrow(Step(st, a).message.calls, Step(st, b).message.calls)
  {
    var x, y := ValuePiece(st.closing, a).0, ValuePiece(st.closing, b).0;
    PieceOfShape(a);
    PieceOfShape(b);
    KeepsWritingExtends(ShapeOf(a), ShapeOf(b));
    PrefixAfter(Target(st), x, y);
    StepValue(st, a);
    StepValue(st, b);
    WritesGrow(st, p, Target(st) + x, Target(st) + y);
  }

  lemma GrownArgsGrow(st: State, p: Phase, a: string, b: string)
    requires Fits(st, p) && PhaseNext(p, ToolArgs(a)).Some? && PhaseNext(p, ToolArgs(b)).Some? && a <= b
    ensures CallsGrow(Step(st, ToolArgs(a)).message.calls, Step(st, ToolArgs(b)).message.calls)
  {
    TrimEndMonotone(a, b);
    if IsObjectText(a) {
      WritesGrow(st, p, TrimEnd(a), TrimEnd(b));
    } else if IsObjectText(b) {
      if p.named {
        assert "{" <= TrimEnd(b);
      }
      WriteGrows(st, p, TrimEnd(b));
    }
  }

  lemma GrownNameGrows(st: State, p: Phase, a: string, b: string)
    requires Fits(st, p) && PhaseNext(p, ToolName(a)).Some? && PhaseNext(p, ToolName(b)).Some? && a <= b
    ensures CallsGrow(Step(st, ToolName(a)).message.calls, Step(st, ToolName(b)).message.calls)
  {
    TrimEndMonotone(a, b);
    var x, y := Step(st, ToolName(a)).message.calls, Step(st, ToolName(b)).message.calls;
    assert x[..|x| - 1] == st.message.calls == y[..|y| - 1];
  }

  lemma GrownIdGrows(st: State, p: Phase, a: string, b: string)
    requires Fits(st, p) && PhaseNext(p, ToolId(a)).Some? && (UnquoteId(a) == UnquoteId(b) || UnquoteId(b) != "")
    ensures CallsGrow(Step(st, ToolId(a)).message.calls, Step(st, ToolId(b)).message.calls)
  {
  }

  lemma HiddenWriting(st: State, p: Phase, node: Node)
    requires Fits(st, p) && p.Building? && !p.named && WritesArguments(node)
    ensures Step(st, node).message.calls == st.message.calls
  {
  }

  lemma SameValueStep(st: State, p: Phase, a: Node, b: Node)
    requires Fits(st, p) && PhaseNext(p, a).Some? && IsValueNode(a) && IsValueNode(b) && ShapeOf(a) == ShapeOf(b)
    ensures Step(st, a) == Step(st, b)
  {
    PieceOfShape(a);
    PieceOfShape(b);
    StepValue(st, a);
    StepValue(st, b);
  }

  lemma SameStep(st: State, p: Phase, a: Node, b: Node)
    requires Fits(st, p) && PhaseNext(p, a).Some? && WritesTheSame(a, b)
    ensures PhaseNext(p, a) == PhaseNext(p, b) && Step(st, a) == Step(st, b)
  {
    if a != b && IsValueNode(a) {
      SameValueStep(st, p, a, b);
    }
  }

  lemma {:induction false} SameRun(st: State, p: Phase, a: seq<Node>, b: seq<Node>)
    requires Fits(st, p) && PhaseRun(p, a).Some? && SameRuns(a, b)
    ensures PhaseRun(p, a) == PhaseRun(p, b) && Run(st, a) == Run(st, b)
    decreases |a|
  {
    if a != [] {
      SameStep(st, p, a[0], b[0]);
      StepExtends(st, p, a[0]);
      SameRun(Step(st, a[0]), PhaseNext(p, a[0]).value, a[1..], b[1..]);
    }
  }

  lemma GrownCallsGrow(st: State, p: Phase, a: Node, b: Node)
    requires Fits(st, p) && PhaseNext(p, a).Some? && PhaseNext(p, b).Some? && Grown(p, a, b)
    ensures CallsGrow(Step(st, a).message.calls, Step(st, b).message.calls)
  {
    if WritesTheSame(a, b) {
      SameStep(st, p, a, b);
    } else if p.Building? && !p.named && WritesArguments(a) && WritesArguments(b) {
      HiddenWriting(st, p, a);
      HiddenWriting(st, p, b);
    } else if IsValueNode(a) {
      GrownValueGrows(st, p, a, b);
    } else if a.ToolArgs? {
      GrownArgsGrow(st, p, a.text, b.text);
    } else if a.ToolName? {
      GrownNameGrows(st, p, a.text, b.text);
    } else if a.ToolId? {
      GrownIdGrows(st, p, a.text, b.text);
    }
  }

  lemma GrownTextsGrow(st: State, p: Phase, a: Node, b: Node)
    requires Coherent(st) && Grown(p, a, b)
    ensures Shown(Step(st, a).message.reasoning) <= Shown(Step(st, b).message.reasoning)
    ensures Step(st, a).message.content <= Step(st, b).message.content
  {
    StepTexts(st, a);
    StepTexts(st, b);
    ShownMonotone(Step(st, a).message.reasoning, Step(st, b).message.reasoning);
  }

  lemma {:induction false} GrownNodeExtends(st: State, p: Phase, a: Node, b: Node)
    requires Fits(st, p) && PhaseNext(p, a).Some? && PhaseNext(p, b).Some? && Grown(p, a, b)
    ensures Extends(Finish(Step(st, a)), Finish(Step(st, b)))
  {
    var x, y := Step(st, a), Step(st, b);
    StepExtends(st, p, a);
    StepExtends(st, p, b);
    GrownCallsGrow(st, p, a, b);
    GrownTextsGrow(st, p, a, b);
    FinishOf(x, PhaseNext(p, a).value);
    FinishOf(y, PhaseNext(p, b).value);
    GrowthExtends(Finish(x), Finish(y));
  }

  lemma {:induction false} PhaseRunConcat(p: Phase, a: seq<Node>, b: seq<Node>)
    ensures PhaseRun(p, a + b).Some? <==> PhaseRun(p, a).Some? && PhaseRun(PhaseRun(p, a).value, b).Some?
    ensures PhaseRun(p, a + b).Some? ==> PhaseRun(p, a + b) == PhaseRun(PhaseRun(p, a).value, b)
    decreases |a|
  {
    if a == [] {
      assert a + b == b;
    } else {
      assert (a + b)[1..] == a[1..] + b;
      if PhaseNext(p, a[0]).Some? {
        PhaseRunConcat(PhaseNext(p, a[0]).value, a[1..], b);
      }
    }
  }

  lemma LastGrownExtends(a: seq<Node>, b: seq<Node>)
    requires IsWellFormed(a) && IsWellFormed(b) && LastGrows(a, b)
    ensures Extends(MessageOf(a), MessageOf(b))
  {
    var n := |a| - 1;
    var front, front' := a[..n], b[..n];
    assert a == front + [a[n]] && b == front' + ([b[n]] + b[n + 1..]);
    SameRun(INITIAL, Idle, front, front');
    ExtendsAfterFront(front, front', a[n], b[n], b[n + 1..]);
  }

  /** The mapper's state when the value of an argument has just been written. */
  lemma ValueClosing(st: State, p: Phase, node: Node)
    requires Fits(st, p) && PhaseNext(p, node).Some? && IsValueNode(node)
    ensures Step(st, node).closing == ShapeOf(node).AsString?
  {
    PieceOfShape(node);
    StepValue(st, node);
  }

  lemma CloseOfUnquoted(st: State, p: Phase, node: Node)
    requires Fits(st, p) && PhaseNext(p, node).Some? && IsValueNode(node) && !ShapeOf(node).AsString?
    ensures Run(st, [node, ArgClose]) == Run(st, [node])
  {
    ValueClosing(st, p, node);
    RunConcat(st, [node], [ArgClose]);
    RunOne(st, node);
    RunOne(Step(st, node), ArgClose);
    assert [node] + [ArgClose] == [node, ArgClose];
  }

  lemma CloseWritesNothing(a: seq<Node>)
    requires IsWellFormed(a) && ClosesNothing(a)
    ensures IsWellFormed(a[..|a| - 1]) && MessageOf(a[..|a| - 1]) == MessageOf(a)
  {
    var front, node := a[..|a| - 2], a[|a| - 2];
    assert a[..|a| - 1] == front + [node] && a == front + [node, ArgClose] && a == front + [node] + [ArgClose];
    PhaseRunConcat(Idle, front + [node], [ArgClose]);
    PhaseRunConcat(Idle, front, [node]);
    RunConcat(INITIAL, front, [node, ArgClose]);
    RunConcat(INITIAL, front, [node]);
    RunExtends(INITIAL, Idle, front);
    CloseOfUnquoted(Run(INITIAL, front), PhaseRun(Idle, front).value, node);
  }

  lemma {:induction false} ContinuedRunExtends(a: seq<Node>, b: seq<Node>)
    requires IsWellFormed(a) && IsWellFormed(b) && ContinuesOn(a, b)
    ensures Extends(MessageOf(a), MessageOf(b))
  {
    if a == [] {
      RunExtends(INITIAL, Idle, b);
    } else if LastGrows(a, b) {
      LastGrownExtends(a, b);
    } else {
      CloseWritesNothing(a);
      LastGrownExtends(a[..|a| - 1], b);
    }
  }

  /**
   Two parses of a growing input, the later one continuing the earlier one: the later message
   extends the earlier one, so the differ does not throw and its deltas rebuild it.
   */
  lemma {:induction false} ContinuedParseExtends(a: seq<Node>, b: seq<Node>)
    requires IsWellFormed(a) && IsWellFormed(b) && Continues(a, b)
    ensures Extends(MessageOf(a), MessageOf(b))
    ensures Diffs(MessageOf(a), MessageOf(b)).Ok?
    ensures ApplyAll(MessageOf(a), Diffs(MessageOf(a), MessageOf(b)).value) == MessageOf(b)
  {
    EffectiveParse(a);
    EffectiveParse(b);
    ContinuedRunExtends(Effective(a), Effective(b));
    DeltasRebuildIff(MessageOf(a), MessageOf(b));
  }

  lemma ExtendsAfterFront(
        front: seq<Node>, front': seq<Node>, last: Node, grown: Node, more: seq<Node>)
    requires PhaseRun(Idle, front).Some? && Grown(PhaseRun(Idle, front).value, last, grown)
    requires PhaseRun(Idle, front') == PhaseRun(Idle, front) && Run(INITIAL, front') == Run(INITIAL, front)
    requires IsWellFormed(front + [last]) && IsWellFormed(front' + ([grown] + more))
    ensures Extends(MessageOf(front + [last]), MessageOf(front' + ([grown] + more)))
  {
    var st := Run(INITIAL, front);
    PhaseRunConcat(Idle, front, [last]);
    PhaseRunConcat(Idle, front', [grown] + more);
    var p := PhaseRun(Idle, front).value;
    assert ([grown] + more)[1..] == more;
    assert PhaseNext(p, last).Some? && PhaseNext(p, grown).Some?;
    RunConcat(INITIAL, front, [last]);
    RunConcat(INITIAL, front', [grown] + more);
    RunExtends(INITIAL, Idle, front);
    GrownNodeExtends(st, p, last, grown);
    StepExtends(st, p, grown);
    RunExtends(Step(st, grown), PhaseNext(p, grown).value, more);
    assert Run(st, [last]) == Step(st, last);
    ExtendsTransitive(Finish(Step(st, last)), Finish(Step(st, grown)), Finish(Run(Step(st, grown), more)));
  }

  predicate HasNoEffect(nodes: seq<Node>) {
    forall i :: 0 <= i < |nodes| ==> !IsEffective(nodes[i])
  }

  lemma {:induction false} EffectiveOfNone(nodes: seq<Node>)
    requires HasNoEffect(nodes)
    ensures Effective(nodes) == []
  {
    if nodes != [] {
      EffectiveOfNone(nodes[1..]);
    }
  }

  /**
   The usual step of a stream: the last effective node has grown. What surrounds it, such as an
   enclosing argument node before the run `front` and the inner nodes of a value behind it, may
   differ, as far as it has no effect, and so may white space in earlier nodes that is not written.
   */
  lemma UsualStepContinues(front: seq<Node>, front': seq<Node>, a: Node, b: Node, inner: seq<Node>, inner': seq<Node>)
    requires SameRuns(Effective(front), Effective(front')) && PhaseRun(Idle, front).Some?
    requires IsEffective(a) && IsEffective(b) && Grown(PhaseRun(Idle, front).value, a, b)
    requires HasNoEffect(inner) && HasNoEffect(inner')
    ensures Continues(front + [a] + inner, front' + [b] + inner')
  {
    EffectiveRun(INITIAL, Idle, front);
    EffectiveOfNone(inner);
    EffectiveOfNone(inner');
    EffectiveConcat(front + [a], inner);
    EffectiveConcat(front' + [b], inner');
    EffectiveConcat(front, [a]);
    EffectiveConcat(front', [b]);
    assert Effective([a]) == [a] && Effective([b]) == [b];
    var n := |Effective(front)|;
    var x, y := Effective(front) + [a], Effective(front') + [b];
    assert x + [] == x && y + [] == y;
    assert x[..n] == Effective(front) && y[..n] == Effective(front');
  }

  /** In particular a longer run of the same nodes extends a shorter one. */
  lemma LongerRunExtends(nodes: seq<Node>, i: nat, j: nat)
    requires IsWellFormed(nodes) && i <= j <= |nodes|
    ensures Extends(MessageOf(nodes[..i]), MessageOf(nodes[..j]))
    ensures Diffs(MessageOf(nodes[..i]), MessageOf(nodes[..j])).Ok?
  {
    var a, more := nodes[..i], nodes[i..j];
    assert nodes == a + more + nodes[j..] && nodes[..j] == a + more;
    PhaseRunConcat(Idle, a + more, nodes[j..]);
    PhaseRunConcat(Idle, a, more);
    RunConcat(INITIAL, a, more);
    RunExtends(INITIAL, Idle, a);
    RunExtends(Run(INITIAL, a), PhaseRun(Idle, a).value, more);
    DeltasRebuildIff(MessageOf(a), MessageOf(nodes[..j]));
  }

  function Messages(parses: seq<seq<Node>>): (ms: seq<Message>)
    ensures |ms| == |parses|
    ensures forall i :: 0 <= i < |parses| ==> ms[i] == MessageOf(parses[i])
  {
    if parses == [] then [] else Messages(parses[..|parses| - 1]) + [MessageOf(parses[|parses| - 1])]
  }

  /**
   The whole pipeline: for any stream of well-formed parses of a growing input, a client that
   starts from nothing and applies every delta ends with the message of the last parse.
   */
  lemma {:induction false} StreamReachesClient(parses: seq<seq<Node>>)
    requires parses != []
    requires forall i :: 0 <= i < |parses| ==> IsWellFormed(parses[i])
    requires forall i :: 0 <= i < |parses| - 1 ==> Continues(parses[i], parses[i + 1])
    ensures Follow(EMPTY_MESSAGE, [EMPTY_MESSAGE] + Messages(parses)) == Some(MessageOf(parses[|parses| - 1]))
  {
    MessagesExtend(parses);
    ChainRebuilds(Messages(parses));
  }

  lemma {:induction false} MessagesExtend(parses: seq<seq<Node>>)
    requires forall i :: 0 <= i < |parses| ==> IsWellFormed(parses[i])
    requires forall i :: 0 <= i < |parses| - 1 ==> Continues(parses[i], parses[i + 1])
    ensures forall i :: 0 <= i < |parses| - 1 ==> Extends(Messages(parses)[i], Messages(parses)[i + 1])
  {
    forall i | 0 <= i < |parses| - 1
      ensures Extends(Messages(parses)[i], Messages(parses)[i + 1])
    {
      ContinuedParseExtends(parses[i], parses[i + 1]);
    }
  }
}
