/**
 `common_chat_peg_mapper`: the state machine that is fed the tagged nodes of a parse, in
 visiting order, and builds the chat message, with tool-call arguments written piece by piece.

 `Step` and `Finish` say what one node and the end of a parse do to the state; the class has
 the original's fields and is proved to do exactly that.
 */
module Mapper {
  import opened Base
  import opened Chat
  import opened Json
  import BraceScan
  import Quotes = QuoteNormalizer

  // ---------- Input ----------

  /** What the JSON library says about the text of an untyped argument value. */
  datatype Parse = NotJson | JsonString(value: string) | JsonOther

  datatype Node =
    | Reasoning(text: string)
    | Content(text: string)
    | ToolOpen
    | ToolClose
    | ToolId(text: string)
    | ToolName(text: string)
    | ToolArgs(text: string)
    | ArgOpen
    | ArgClose
    | ArgName(text: string)
    | ArgValue(text: string, partial: bool, parse: Parse)
    | ArgString(text: string)
    | Untagged

  // ---------- State ----------

  /**
   The pointer `current_tool`: null, at the pending call, at the last call of the result, or at
   the storage of a pending call that was discarded.
   */
  datatype Cursor = NoTool | AtPending | AtResult | Dangling

  datatype State = State(
    message: Message,
    pending: Option<ToolCall>,
    cursor: Cursor,
    argCount: nat,
    closing: bool,
    buffer: string)

  const INITIAL := State(EMPTY_MESSAGE, None, NoTool, 0, false, "")

  predicate Coherent(st: State) {
    && (st.cursor == AtPending <==> st.pending.Some?)
    && (st.cursor == AtResult ==> st.message.calls != [])
  }

  predicate HasTool(st: State) {
    st.cursor == AtPending || st.cursor == AtResult
  }

  function Current(st: State): ToolCall
    requires Coherent(st) && HasTool(st)
  {
    if st.cursor == AtPending then st.pending.value else st.message.calls[|st.message.calls| - 1]
  }

  function ReplaceLast(calls: seq<ToolCall>, call: ToolCall): seq<ToolCall>
    requires calls != []
  {
    calls[|calls| - 1 := call]
  }

  function WithCurrent(st: State, call: ToolCall): (r: State)
    requires Coherent(st) && HasTool(st)
    ensures Coherent(r) && r.cursor == st.cursor && Current(r) == call
  {
    if st.cursor == AtPending then st.(pending := Some(call))
    else st.(message := st.message.(calls := ReplaceLast(st.message.calls, call)))
  }

  predicate TargetsCall(st: State)
    requires Coherent(st)
  {
    HasTool(st) && Current(st).name != ""
  }

  /** `args_target()`: the buffer until the name of the current call is known. */
  function Target(st: State): string
    requires Coherent(st)
  {
    if TargetsCall(st) then Current(st).arguments else st.buffer
  }

  function WithTarget(st: State, text: string): (r: State)
    requires Coherent(st)
    ensures Coherent(r) && Target(r) == text && r.cursor == st.cursor
  {
    if TargetsCall(st) then WithCurrent(st, Current(st).(arguments := text)) else st.(buffer := text)
  }

  // ---------- The pieces a node contributes ----------

  function UnquoteId(text: string): string {
    var t := TrimEnd(text);
    if |t| >= 2 && t[0] == '"' && t[|t| - 1] == '"' then t[1..|t| - 1] else t
  }

  predicate IsObjectText(text: string) {
    TrimEnd(text) != "" && TrimEnd(text)[0] == '{'
  }

  function Key(text: string): string {
    TrimEnd(TrimStartOnce(text))
  }

  function Value(text: string): string {
    TrimEndOnce(TrimStartOnce(text))
  }

  predicate IsAllSpace(s: string) {
    forall i :: 0 <= i < |s| ==> IsSpace(s[i])
  }

  /** `v` is the text without one white-space character at each end that has one. */
  predicate TrimsOnce(text: string, a: string, v: string, b: string) {
    && text == a + v + b
    && |a| <= 1 && IsAllSpace(a)
    && |b| <= 1 && IsAllSpace(b)
    && (a == "" ==> text == "" || !IsSpace(text[0]))
    && (b == "" ==> v == "" || !IsSpace(v[|v| - 1]))
  }

  /** `k` is the text without one white-space character in front, if it has one, and without any behind. */
  predicate TrimsKey(text: string, a: string, k: string, b: string) {
    && text == a + k + b
    && |a| <= 1 && IsAllSpace(a)
    && IsAllSpace(b)
    && (a == "" ==> text == "" || !IsSpace(text[0]))
    && (k == "" || !IsSpace(k[|k| - 1]))
  }

  lemma FrontOf(text: string, a: string, rest: string)
    requires text == a + rest && |a| <= 1 && IsAllSpace(a) && (a == "" ==> text == "" || !IsSpace(text[0]))
    ensures TrimStartOnce(text) == rest
  {
    if a != "" {
      assert text[0] == a[0] && text[1..] == rest;
    }
  }

  lemma BackOf(rest: string, v: string, b: string)
    requires rest == v + b && |b| <= 1 && IsAllSpace(b) && (b == "" ==> v == "" || !IsSpace(v[|v| - 1]))
    ensures TrimEndOnce(rest) == v
  {
    if b != "" {
      assert rest[|rest| - 1] == b[0] && rest[..|rest| - 1] == v;
    }
  }

  lemma FrontTrims(text: string) returns (a: string)
    ensures text == a + TrimStartOnce(text) && |a| <= 1 && IsAllSpace(a)
    ensures a == "" ==> text == "" || !IsSpace(text[0])
  {
    a := text[..|text| - |TrimStartOnce(text)|];
  }

  lemma ValueTrims(text: string) returns (a: string, b: string)
    ensures TrimsOnce(text, a, Value(text), b)
  {
    var rest, v := TrimStartOnce(text), Value(text);
    a := FrontTrims(text);
    b := rest[|v|..];
    assert rest == v + b;
    Associative(a, v, b);
  }

  lemma ValueForced(text: string, a: string, v: string, b: string)
    requires TrimsOnce(text, a, v, b)
    ensures v == Value(text)
  {
    Associative(a, v, b);
    FrontOf(text, a, v + b);
    BackOf(v + b, v, b);
  }

  /** Which part of a node's text is the value: each text has one, and no other. */
  lemma ValueIff(text: string, v: string)
    ensures v == Value(text) <==> exists a: string, b: string :: TrimsOnce(text, a, v, b)
  {
    var a, b := ValueTrims(text);
    forall a: string, b: string | TrimsOnce(text, a, v, b)
      ensures v == Value(text)
    {
      ValueForced(text, a, v, b);
    }
  }

  lemma TrimEndIs(rest: string, k: string, b: string)
    requires rest == k + b && IsAllSpace(b) && (k == "" || !IsSpace(k[|k| - 1]))
    ensures TrimEnd(rest) == k
  {
    assert forall i :: |k| <= i < |rest| ==> rest[i] == b[i - |k|];
    assert k != "" ==> rest[|k| - 1] == k[|k| - 1];
  }

  lemma TrimEndSplits(rest: string) returns (b: string)
    ensures rest == TrimEnd(rest) + b && IsAllSpace(b)
  {
    var k := TrimEnd(rest);
    b := rest[|k|..];
    assert forall i :: 0 <= i < |b| ==> b[i] == rest[|k| + i];
  }

  lemma KeyTrims(text: string) returns (a: string, b: string)
    ensures TrimsKey(text, a, Key(text), b)
  {
    a := FrontTrims(text);
    b := TrimEndSplits(TrimStartOnce(text));
    Associative(a, Key(text), b);
  }

  lemma KeyForced(text: string, a: string, k: string, b: string)
    requires TrimsKey(text, a, k, b)
    ensures k == Key(text)
  {
    Associative(a, k, b);
    FrontOf(text, a, k + b);
    TrimEndIs(k + b, k, b);
  }

  /** Which part of a node's text is the key: each text has one, and no other. */
  lemma KeyIff(text: string, k: string)
    ensures k == Key(text) <==> exists a: string, b: string :: TrimsKey(text, a, k, b)
  {
    var a, b := KeyTrims(text);
    forall a: string, b: string | TrimsKey(text, a, k, b)
      ensures k == Key(text)
    {
      KeyForced(text, a, k, b);
    }
  }

  /** What an argument name adds: a comma after the first, the quoted key, a colon. */
  function KeyPiece(argCount: nat, text: string): string {
    (if argCount > 0 then "," else "") + KeyColon(Key(text))
  }

  predicate IsContainer(value: string) {
    value != "" && (value[0] == '[' || value[0] == '{')
  }

  function OpenQuote(closing: bool): string {
    if closing then "" else "\""
  }

  /** The text a value node adds, and whether a closing quote is due afterwards. */
  function ValuePiece(closing: bool, node: Node): (string, bool)
    requires node.ArgValue? || node.ArgString?
  {
    var v := Value(node.text);
    if node.ArgString? then
      if v == "" then ("\"", true) else (OpenQuote(closing) + Escape(v), true)
    else if v == "" then ("", closing)
    else
      var w := if IsContainer(v) then Quotes.Normalize(v) else v;
      match node.parse
      case JsonString(s) => ("\"" + Escape(s), true)
      case JsonOther => (w, closing)
      case NotJson =>
        if node.partial && IsContainer(v) then (w, closing) else (OpenQuote(closing) + Escape(w), true)
  }

  function Repeat(c: char, n: int): string {
    if n <= 0 then "" else [c] + Repeat(c, n - 1)
  }

  function CloseBraces(text: string): string {
    text + Repeat('}', BraceScan.BraceDepth(text))
  }

  // ---------- One node ----------

  function StepName(st: State, text: string): (r: State)
    requires Coherent(st) && HasTool(st)
    ensures Coherent(r)
  {
    var call := Current(st).(name := TrimEnd(text));
    var filled :=
      if st.buffer != "" then call.(arguments := st.buffer)
      else if call.arguments == "" then call.(arguments := "{")
      else call;
    if st.pending.Some? then
      st.(message := st.message.(calls := st.message.calls + [filled]), pending := None, cursor := AtResult, buffer := "")
    else WithCurrent(st.(buffer := ""), filled)
  }

  function StepClose(st: State): (r: State)
    requires Coherent(st) && HasTool(st)
    ensures Coherent(r)
  {
    var call := Current(st);
    var flush := call.name == "" && st.buffer != "";
    var args := if flush then st.buffer else call.arguments;
    var quoted := if st.closing then args + "\"" else args;
    var closed := call.(arguments := CloseBraces(quoted));
    var st' := st.(buffer := if flush then "" else st.buffer, closing := false);
    if st.pending.None? then WithCurrent(st', closed)
    else
      var calls := if call.name != "" then st.message.calls + [closed] else st.message.calls;
      st'.(message := st.message.(calls := calls), pending := None, cursor := Dangling)
  }

  /** The nodes that act on the current call. */
  predicate IsToolNode(node: Node) {
    !(node.Reasoning? || node.Content? || node.ToolOpen? || node.ArgOpen? || node.Untagged?)
  }

  function StepTool(st: State, node: Node): (r: State)
    requires Coherent(st) && HasTool(st) && IsToolNode(node)
    ensures Coherent(r)
  {
    if node.ToolId? then WithCurrent(st, Current(st).(id := UnquoteId(node.text)))
    else if node.ToolName? then StepName(st, node.text)
    else if node.ToolArgs? then (if IsObjectText(node.text) then WithTarget(st, TrimEnd(node.text)) else st)
    else if node.ArgName? then
      var start := if Target(st) == "" then "{" else Target(st);
      WithTarget(st, start + KeyPiece(st.argCount, node.text)).(argCount := st.argCount + 1)
    else if node.ArgClose? then
      (if st.closing then WithTarget(st, Target(st) + "\"").(closing := false) else st)
    else if node.ToolClose? then StepClose(st)
    else
      var piece := ValuePiece(st.closing, node);
      WithTarget(st, Target(st) + piece.0).(closing := piece.1)
  }

  function Step(st: State, node: Node): (r: State)
    requires Coherent(st)
    ensures Coherent(r)
  {
    match node
    case Reasoning(t) => st.(message := st.message.(reasoning := st.message.reasoning + t))
    case Content(t) => st.(message := st.message.(content := st.message.content + t))
    case ToolOpen =>
      st.(pending := Some(ToolCall("", "", "")), cursor := AtPending, argCount := 0, buffer := "", closing := false)
    case ArgOpen => st.(closing := false)
    case Untagged => st
    case _ => if HasTool(st) then StepTool(st, node) else st
  }

  /**
   False when the node would be written through the pointer to a discarded call, where the
   original's behaviour is undefined. `Step` leaves the state alone in that case. The statements
   about tagged calls, JSON calls and well-formed runs show that it does not arise in them; those
   about every run (reported calls and message texts) speak of the original only where it is defined.
   */
  predicate Defined(st: State, node: Node) {
    && st.cursor == Dangling
    && IsToolNode(node)
    ==>
      || (node.ToolArgs? && !IsObjectText(node.text))
      || (node.ArgClose? && !st.closing)
  }

  // ---------- A whole parse ----------

  function Run(st: State, nodes: seq<Node>): (r: State)
    requires Coherent(st)
    ensures Coherent(r)
    decreases |nodes|
  {
    if nodes == [] then st else Run(Step(st, nodes[0]), nodes[1..])
  }

  predicate RunDefined(st: State, nodes: seq<Node>)
    requires Coherent(st)
    decreases |nodes|
  {
    nodes == [] || (Defined(st, nodes[0]) && RunDefined(Step(st, nodes[0]), nodes[1..]))
  }

  predicate IsBlankReasoning(text: string) {
    forall c :: c in text ==> c == ' ' || c == '\n' || c == '\r' || c == '\t'
  }

  /** The end of `from_ast`: flush a named pending call, drop reasoning that is only white space. */
  function Finish(st: State): Message {
    var m := st.message;
    var flushed :=
      if st.pending.Some? && st.pending.value.name != "" then
        var args := if st.buffer != "" then st.buffer else st.pending.value.arguments;
        var quoted := if st.closing && args != "" then args + "\"" else args;
        m.calls + [st.pending.value.(arguments := quoted)]
      else m.calls;
    m.(calls := flushed, reasoning := if IsBlankReasoning(m.reasoning) then "" else m.reasoning)
  }

  /** The message a parse with these nodes yields. */
  function MessageOf(nodes: seq<Node>): Message {
    Finish(Run(INITIAL, nodes))
  }

  // ---------- The class ----------

  class PegMapper {
    var message: Message
    var pendingToolCall: Option<ToolCall>
    var currentTool: Cursor
    var argCount: nat
    var closingQuotePending: bool
    var argsBuffer: string

    function View(): State
      reads this
    {
      State(message, pendingToolCall, currentTool, argCount, closingQuotePending, argsBuffer)
    }

    predicate Valid()
      reads this
    {
      Coherent(View())
    }

    constructor ()
      ensures Valid() && View() == INITIAL
    {
      message, pendingToolCall, currentTool := EMPTY_MESSAGE, None, NoTool;
      argCount, closingQuotePending, argsBuffer := 0, false, "";
    }

    /** `*current_tool = call`. */
    method SetCurrent(call: ToolCall)
      requires Valid() && HasTool(View())
      modifies this
      ensures Valid() && View() == WithCurrent(old(View()), call)
    {
      if currentTool == AtPending {
        pendingToolCall := Some(call);
      } else {
        message := message.(calls := message.calls[|message.calls| - 1 := call]);
      }
    }

    /** `args_target() = text`. */
    method SetArgs(text: string)
      requires Valid()
      modifies this
      ensures Valid() && View() == WithTarget(old(View()), text)
    {
      if HasTool(View()) && Current(View()).name != "" {
        SetCurrent(Current(View()).(arguments := text));
      } else {
        argsBuffer := text;
      }
    }

    method MapName(text: string)
      requires Valid() && HasTool(View())
      modifies this
      ensures Valid() && View() == StepName(old(View()), text)
    {
      var call := Current(View()).(name := TrimEnd(text));
      if argsBuffer != "" {
        call := call.(arguments := argsBuffer);
        argsBuffer := "";
      } else if call.arguments == "" {
        call := call.(arguments := "{");
      }
      if pendingToolCall.Some? {
        message := message.(calls := message.calls + [call]);
        pendingToolCall := None;
        currentTool := AtResult;
      } else {
        SetCurrent(call);
      }
    }

    /** The text a value node adds; sets the closing-quote flag. */
    method WriteValue(node: Node) returns (piece: string)
      requires Valid() && (node.ArgValue? || node.ArgString?)
      modifies this`closingQuotePending
      ensures (piece, closingQuotePending) == ValuePiece(old(closingQuotePending), node)
    {
      var content := Value(node.text);
      piece := "";
      if node.ArgString? {
        piece := if content == "" then "\"" else OpenQuote(closingQuotePending) + Escape(content);
        closingQuotePending := true;
      } else if content != "" {
        var isContainer := IsContainer(content);
        if isContainer {
          content := Quotes.NormalizeQuotesToJson(content);
        }
        if node.parse.JsonString? {
          piece := "\"" + Escape(node.parse.value);
          closingQuotePending := true;
        } else if node.parse.JsonOther? || (node.partial && isContainer) {
          piece := content;
        } else {
          piece := OpenQuote(closingQuotePending) + Escape(content);
          closingQuotePending := true;
        }
      }
    }

    method MapClose()
      requires Valid() && HasTool(View())
      modifies this
      ensures Valid() && View() == StepClose(old(View()))
    {
      var call := Current(View());
      if call.name == "" && argsBuffer != "" {
        call := call.(arguments := argsBuffer);
        argsBuffer := "";
      }
      if closingQuotePending {
        call := call.(arguments := call.arguments + "\"");
        closingQuotePending := false;
      }
      var d := BraceScan.JsonBraceDepth(call.arguments);
      ghost var quoted := call;
      while d > 0
        invariant call == quoted.(arguments := call.arguments)
        invariant call.arguments + Repeat('}', d) == CloseBraces(quoted.arguments)
      {
        assert call.arguments + "}" + Repeat('}', d - 1) == call.arguments + ("}" + Repeat('}', d - 1));
        call := call.(arguments := call.arguments + "}");
        d := d - 1;
      }
      assert call == quoted.(arguments := CloseBraces(quoted.arguments));
      if pendingToolCall.Some? {
        if call.name != "" {
          message := message.(calls := message.calls + [call]);
        }
        pendingToolCall := None;
        currentTool := Dangling;
      } else {
        SetCurrent(call);
      }
    }

    /** `map(node)`. */
    method Map(node: Node)
      requires Valid() && Defined(View(), node)
      modifies this
      ensures Valid() && View() == Step(old(View()), node)
    {
      match node {
        case Reasoning(t) =>
          message := message.(reasoning := message.reasoning + t);
        case Content(t) =>
          message := message.(content := message.content + t);
        case ToolOpen =>
          pendingToolCall := Some(ToolCall("", "", ""));
          currentTool := AtPending;
          argCount, argsBuffer, closingQuotePending := 0, "", false;
        case ArgOpen =>
          closingQuotePending := false;
        case Untagged =>
        case _ =>
          if HasTool(View()) {
            MapToolNode(node);
          }
      }
    }

    /** The branches of `map` that need a current call. */
    method MapToolNode(node: Node)
      requires Valid() && HasTool(View()) && IsToolNode(node)
      modifies this
      ensures Valid() && View() == StepTool(old(View()), node)
    {
      if node.ToolId? {
        SetCurrent(Current(View()).(id := UnquoteId(node.text)));
      } else if node.ToolName? {
        MapName(node.text);
      } else if node.ToolArgs? {
        if IsObjectText(node.text) {
          SetArgs(TrimEnd(node.text));
        }
      } else if node.ToolClose? {
        MapClose();
      } else {
        MapArgument(node);
      }
    }

    /** The branches for the name, the value and the end of an argument. */
    method MapArgument(node: Node)
      requires Valid() && HasTool(View())
      requires node.ArgName? || node.ArgClose? || node.ArgValue? || node.ArgString?
      modifies this
      ensures Valid() && View() == StepTool(old(View()), node)
    {
      if node.ArgName? {
        var entry := KeyPiece(argCount, node.text);
        argCount := argCount + 1;
        SetArgs((if Target(View()) == "" then "{" else Target(View())) + entry);
      } else if node.ArgClose? {
        if closingQuotePending {
          SetArgs(Target(View()) + "\"");
          closingQuotePending := false;
        }
      } else {
        var piece := WriteValue(node);
        SetArgs(Target(View()) + piece);
      }
    }

    /** `from_ast`: the nodes in visiting order, then the end of the parse. */
    method FromAst(nodes: seq<Node>)
      requires Valid() && View() == INITIAL && RunDefined(INITIAL, nodes)
      modifies this
      ensures message == MessageOf(nodes)
    {
      for i := 0 to |nodes|
        invariant Valid()
        invariant Run(INITIAL, nodes) == Run(View(), nodes[i..])
        invariant RunDefined(View(), nodes[i..])
      {
        assert nodes[i..][1..] == nodes[i + 1..];
        Map(nodes[i]);
      }
      ghost var last := View();
      if pendingToolCall.Some? && pendingToolCall.value.name != "" {
        var call := pendingToolCall.value;
        if argsBuffer != "" {
          call := call.(arguments := argsBuffer);
        }
        if closingQuotePending && call.arguments != "" {
          call := call.(arguments := call.arguments + "\"");
        }
        message := message.(calls := message.calls + [call]);
        pendingToolCall := None;
        currentTool := Dangling;
      }
      if message.reasoning != "" {
        var allWhitespace := true;
        for i := 0 to |message.reasoning|
          invariant allWhitespace <==> IsBlankReasoning(message.reasoning[..i])
        {
          var c := message.reasoning[i];
          assert message.reasoning[..i + 1] == message.reasoning[..i] + [c];
          if c != ' ' && c != '\n' && c != '\r' && c != '\t' {
            allWhitespace := false;
            assert c == message.reasoning[i] && c in message.reasoning;
            break;
          }
        }
        assert message.reasoning[..|message.reasoning|] == message.reasoning;
        if allWhitespace {
          message := message.(reasoning := "");
        }
      }
    }
  }
}
