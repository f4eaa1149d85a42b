/**
 `convert_tool_responses_gemma4`: a chat history in which tool results are messages of their
 own is rewritten so that each call-bearing assistant message carries its results.
 */
module GemmaTurns {
  import opened Base

  // ---------- Messages ----------

  /** A JSON value, as far as the conversion looks into it. */
  datatype Value = Null | Text(text: string) | List(items: seq<Value>) | Other(printed: string)

  /** A tool call: the name in its `function` object, if it has one, and everything else in it. */
  datatype Function = NoFunction | Function(name: Option<string>)
  datatype Call = Call(callee: Function, rest: string)

  datatype ToolCalls = Absent | NotArray | Calls(calls: seq<Call>)

  datatype Response = Response(name: string, response: Value)

  datatype Message = Message(
    role: Option<string>,
    content: Option<Value>,
    reasoning: Option<Value>,
    toolCalls: ToolCalls,
    toolCallId: Option<string>,
    toolResponses: seq<Response>,
    rest: string)

  function OrEmpty(s: Option<string>): string {
    if s.Some? then s.value else ""
  }

  predicate IsRole(m: Message, role: string) {
    OrEmpty(m.role) == role
  }

  predicate HasToolCalls(m: Message) {
    m.toolCalls.Calls? && m.toolCalls.calls != []
  }

  predicate HasContent(m: Message) {
    m.content.Some? && ((m.content.value.Text? && m.content.value.text != "") || (m.content.value.List? && m.content.value.items != []))
  }

  /** The message opens a model turn. */
  predicate OpensTurn(m: Message) {
    IsRole(m, "assistant") && HasToolCalls(m)
  }

  /** The message, right after the results, is the final message of the turn. */
  predicate EndsTurn(m: Message) {
    IsRole(m, "assistant") && !HasToolCalls(m) && HasContent(m)
  }

  // ---------- The conversion ----------

  /** The first position from i on that does not hold a tool result. */
  function ResultsEnd(ms: seq<Message>, i: nat): (r: nat)
    requires i <= |ms|
    ensures i <= r <= |ms|
    ensures forall k :: i <= k < r ==> IsRole(ms[k], "tool")
    ensures r < |ms| ==> !IsRole(ms[r], "tool")
    decreases |ms| - i
  {
    if i < |ms| && IsRole(ms[i], "tool") then ResultsEnd(ms, i + 1) else i
  }

  /** The name in the k-th call; the id in the result is only used when that is missing or empty. */
  function NameOf(calls: seq<Call>, k: nat, result: Message): string {
    var name := if k < |calls| && calls[k].callee.Function? then OrEmpty(calls[k].callee.name) else "";
    if name == "" then OrEmpty(result.toolCallId) else name
  }

  /** Text that the JSON library can parse is replaced by what it parses to. */
  function ResponseOf(parse: string -> Option<Value>, result: Message): Value {
    if result.content.None? then Null
    else if result.content.value.Text? then
      var parsed := parse(result.content.value.text);
      if parsed.Some? then parsed.value else result.content.value
    else result.content.value
  }

  function ResponseTo(parse: string -> Option<Value>, calls: seq<Call>, k: nat, result: Message): Response {
    Response(NameOf(calls, k, result), ResponseOf(parse, result))
  }

  /** The responses made of the messages from one position to another. */
  function Responses(parse: string -> Option<Value>, calls: seq<Call>, ms: seq<Message>, from: nat,
                     end: nat): (r: seq<Response>)
    requires from <= end <= |ms|
    ensures |r| == end - from
    ensures forall k :: 0 <= k < |r| ==> r[k] == ResponseTo(parse, calls, k, ms[from + k])
  {
    if from == end then []
    else Responses(parse, calls, ms, from, end - 1) + [ResponseTo(parse, calls, end - 1 - from, ms[end - 1])]
  }

  function TextOnly(v: Option<Value>): Option<Value> {
    if v.Some? && v.value.Text? then v else None
  }

  /** Where the stretch that starts at position i ends: one message, or a whole model turn. */
  function StretchEnd(ms: seq<Message>, i: nat): (r: nat)
    requires i < |ms|
    ensures i < r <= |ms|
  {
    if !OpensTurn(ms[i]) then i + 1
    else
      var end := ResultsEnd(ms, i + 1);
      if end < |ms| && EndsTurn(ms[end]) then end + 1 else end
  }

  /** The content of the message that ends a turn, if position `end` holds one. */
  function FinalContent(ms: seq<Message>, end: nat): Option<Value> {
    if end < |ms| && EndsTurn(ms[end]) then ms[end].content else None
  }

  /** The message that stands for the stretch. */
  function Stretch(parse: string -> Option<Value>, ms: seq<Message>, i: nat): Message
    requires i < |ms|
  {
    if !OpensTurn(ms[i]) then ms[i]
    else
      var end := ResultsEnd(ms, i + 1);
      Message(Some("assistant"), FinalContent(ms, end), TextOnly(ms[i].reasoning), ms[i].toolCalls, None,
              Responses(parse, ms[i].toolCalls.calls, ms, i + 1, end), "")
  }

  function ConvertFrom(parse: string -> Option<Value>, ms: seq<Message>, i: nat): seq<Message>
    requires i <= |ms|
    decreases |ms| - i
  {
    if i == |ms| then [] else [Stretch(parse, ms, i)] + ConvertFrom(parse, ms, StretchEnd(ms, i))
  }

  function Convert(parse: string -> Option<Value>, ms: seq<Message>): seq<Message> {
    ConvertFrom(parse, ms, 0)
  }

  lemma {:induction false} ResultsEndIs(ms: seq<Message>, i: nat, end: nat)
    requires i <= end <= |ms| && (forall k :: i <= k < end ==> IsRole(ms[k], "tool"))
    requires end < |ms| ==> !IsRole(ms[end], "tool")
    ensures ResultsEnd(ms, i) == end
    decreases end - i
  {
    if i < end {
      ResultsEndIs(ms, i + 1, end);
    }
  }

  // ---------- The builder and the loop ----------

  /** The messages from `from` up to `pos` are tool results, and these are their responses. */
  ghost predicate Collected(parse: string -> Option<Value>, calls: seq<Call>, ms: seq<Message>, from: nat,
                            pos: nat, r: seq<Response>) {
    && from <= pos <= |ms|
    && (forall k :: from <= k < pos ==> IsRole(ms[k], "tool"))
    && r == Responses(parse, calls, ms, from, pos)
  }

  lemma CollectOne(parse: string -> Option<Value>, calls: seq<Call>, ms: seq<Message>, from: nat, pos: nat,
                   r: seq<Response>)
    requires Collected(parse, calls, ms, from, pos, r) && pos < |ms| && IsRole(ms[pos], "tool")
    ensures |r| == pos - from
    ensures Collected(parse, calls, ms, from, pos + 1, r + [ResponseTo(parse, calls, |r|, ms[pos])])
  {
  }

  class TurnBuilder {
    const parse: string -> Option<Value>
    const messages: seq<Message>
    var pos: nat
    var toolCalls: seq<Call>
    var toolResponses: seq<Response>
    var content: Value
    var reasoningContent: Value

    constructor (parse: string -> Option<Value>, messages: seq<Message>, pos: nat)
      ensures this.parse == parse && this.messages == messages && this.pos == pos
      ensures toolCalls == [] && toolResponses == [] && content == Null && reasoningContent == Null
    {
      this.parse, this.messages, this.pos := parse, messages, pos;
      toolCalls, toolResponses, content, reasoningContent := [], [], Null, Null;
    }

    method CollectResult(curr: Message)
      modifies this`toolResponses
      ensures toolResponses == old(toolResponses) + [ResponseTo(parse, toolCalls, |old(toolResponses)|, curr)]
    {
      var response := Null;
      if curr.content.Some? {
        var text := curr.content.value;
        response := text;
        if text.Text? {
          var parsed := parse(text.text);
          if parsed.Some? {
            response := parsed.value;
          }
        }
      }
      var name := "";
      var idx := |toolResponses|;
      if idx < |toolCalls| {
        if toolCalls[idx].callee.Function? {
          name := OrEmpty(toolCalls[idx].callee.name);
        }
      }
      if name == "" {
        name := OrEmpty(curr.toolCallId);
      }
      toolResponses := toolResponses + [Response(name, response)];
    }

    /** The tool calls of the message that opens the turn. */
    method CollectCalls(calls: seq<Call>)
      requires toolCalls == []
      modifies this`toolCalls
      ensures toolCalls == calls
    {
      for i := 0 to |calls|
        invariant toolCalls == calls[..i]
      {
        toolCalls := toolCalls + [calls[i]];
      }
    }

    /** The tool results from the position on. */
    method CollectResults()
      requires pos <= |messages| && toolResponses == []
      modifies this`toolResponses, this`pos
      ensures pos == ResultsEnd(messages, old(pos))
      ensures toolResponses == Responses(parse, toolCalls, messages, old(pos), pos)
    {
      ghost var start := pos;
      while pos < |messages| && IsRole(messages[pos], "tool")
        invariant Collected(parse, toolCalls, messages, start, pos, toolResponses)
      {
        CollectOne(parse, toolCalls, messages, start, pos, toolResponses);
        CollectResult(messages[pos]);
        pos := pos + 1;
      }
      ResultsEndIs(messages, start, pos);
    }

    /** The final message of the turn, if it is one. */
    method CollectFinal()
      requires pos <= |messages| && content == Null
      modifies this`content, this`pos
      ensures pos == if FinalContent(messages, old(pos)).Some? then old(pos) + 1 else old(pos)
      ensures (if content == Null then None else Some(content)) == FinalContent(messages, old(pos))
    {
      if pos < |messages| && IsRole(messages[pos], "assistant") {
        var next := messages[pos];
        if !HasToolCalls(next) && HasContent(next) {
          content := next.content.value;
          pos := pos + 1;
        }
      }
    }

    method Collect()
      requires pos < |messages| && OpensTurn(messages[pos])
      requires toolCalls == [] && toolResponses == [] && content == Null && reasoningContent == Null
      modifies this
      ensures toolCalls == messages[old(pos)].toolCalls.calls
      ensures pos == StretchEnd(messages, old(pos))
      ensures (if reasoningContent == Null then None else Some(reasoningContent)) == TextOnly(messages[old(pos)].reasoning)
      ensures var end := ResultsEnd(messages, old(pos) + 1);
              && toolResponses == Responses(parse, toolCalls, messages, old(pos) + 1, end)
              && (if content == Null then None else Some(content)) == FinalContent(messages, end)
    {
      var msg := messages[pos];
      if msg.reasoning.Some? && msg.reasoning.value.Text? {
        reasoningContent := msg.reasoning.value;
      }
      CollectCalls(msg.toolCalls.calls);
      pos := pos + 1;
      CollectResults();
      CollectFinal();
    }

    method Build() returns (msg: Message)
      requires pos < |messages| && OpensTurn(messages[pos])
      requires toolCalls == [] && toolResponses == [] && content == Null && reasoningContent == Null
      modifies this
      ensures msg == Stretch(parse, messages, old(pos))
      ensures pos == StretchEnd(messages, old(pos))
    {
      Collect();
      msg := Message(Some("assistant"), None, None, Calls(toolCalls), None, [], "");
      if toolResponses != [] {
        msg := msg.(toolResponses := toolResponses);
      }
      if content != Null {
        msg := msg.(content := Some(content));
      }
      if reasoningContent != Null {
        msg := msg.(reasoning := Some(reasoningContent));
      }
    }
  }

  lemma AppendStretch(parse: string -> Option<Value>, ms: seq<Message>, result: seq<Message>, i: nat)
    requires i < |ms| && Convert(parse, ms) == result + ConvertFrom(parse, ms, i)
    ensures Convert(parse, ms) == result + [Stretch(parse, ms, i)] + ConvertFrom(parse, ms, StretchEnd(ms, i))
  {
  }

  method ConvertToolResponses(parse: string -> Option<Value>, messages: seq<Message>) returns (result: seq<Message>)
    ensures result == Convert(parse, messages)
  {
    result := [];
    var i: nat := 0;
    while i < |messages|
      invariant i <= |messages|
      invariant Convert(parse, messages) == result + ConvertFrom(parse, messages, i)
    {
      AppendStretch(parse, messages, result, i);
      var msg := messages[i];
      if !IsRole(msg, "assistant") || !HasToolCalls(msg) {
        result := result + [msg];
        i := i + 1;
      } else {
        var builder := new TurnBuilder(parse, messages, i);
        var built := builder.Build();
        result := result + [built];
        i := builder.pos;
      }
    }
  }

  // ---------- What the conversion keeps ----------

  /** The call with this index gives a name. */
  predicate GivesName(calls: seq<Call>, k: nat) {
    k < |calls| && calls[k].callee.Function? && calls[k].callee.name.Some? && calls[k].callee.name.value != ""
  }

  /**
   The response is named after the call with the index of the result, or where that has no name after
   the id in the result, and holds the content of the result: parsed, if it is text that parses.
   */
  predicate Answers(parse: string -> Option<Value>, calls: seq<Call>, k: nat, result: Message, r: Response) {
    && (GivesName(calls, k) ==> r.name == calls[k].callee.name.value)
    && (!GivesName(calls, k) && result.toolCallId.Some? ==> r.name == result.toolCallId.value)
    && (!GivesName(calls, k) && result.toolCallId.None? ==> r.name == "")
    && (result.content.None? ==> r.response == Null)
    && (result.content.Some? && !result.content.value.Text? ==> r.response == result.content.value)
    && (result.content.Some? && result.content.value.Text? ==>
          var parsed := parse(result.content.value.text);
          if parsed.Some? then r.response == parsed.value else r.response == result.content.value)
  }

  lemma AnswersIff(parse: string -> Option<Value>, calls: seq<Call>, k: nat, result: Message, r: Response)
    ensures Answers(parse, calls, k, result, r) <==> r == ResponseTo(parse, calls, k, result)
  {
  }

  /** `out` is a model turn made of the messages from i to `end`, and neither more nor fewer of them. */
  predicate ExplainsTurn(parse: string -> Option<Value>, ms: seq<Message>, i: nat, end: nat, out: Message)
    requires i < |ms| && ms[i].toolCalls.Calls?
  {
    var last := i + 1 + |out.toolResponses|;
    && last <= |ms|
    && (forall k :: i < k < last ==>
          && IsRole(ms[k], "tool")
          && Answers(parse, ms[i].toolCalls.calls, k - i - 1, ms[k], out.toolResponses[k - i - 1]))
    && (last < |ms| ==> !IsRole(ms[last], "tool"))
    && end == (if last < |ms| && EndsTurn(ms[last]) then last + 1 else last)
    && out.content == (if last < |ms| && EndsTurn(ms[last]) then ms[last].content else None)
    && out.role == Some("assistant") && out.toolCalls == ms[i].toolCalls
    && out.reasoning == TextOnly(ms[i].reasoning)
    && out.toolCallId == None && out.rest == ""
  }

  predicate Explains(parse: string -> Option<Value>, ms: seq<Message>, i: nat, end: nat, out: Message)
    requires i < |ms|
  {
    if OpensTurn(ms[i]) then ExplainsTurn(parse, ms, i, end, out) else end == i + 1 && out == ms[i]
  }

  lemma ResponsesAre(parse: string -> Option<Value>, calls: seq<Call>, ms: seq<Message>, i: nat, end: nat,
                     r: seq<Response>)
    requires i < end <= |ms| && |r| == end - i - 1
    requires forall k :: i < k < end ==> Answers(parse, calls, k - i - 1, ms[k], r[k - i - 1])
    ensures r == Responses(parse, calls, ms, i + 1, end)
  {
    forall j | 0 <= j < |r|
      ensures r[j] == Responses(parse, calls, ms, i + 1, end)[j]
    {
      assert Answers(parse, calls, i + 1 + j - i - 1, ms[i + 1 + j], r[i + 1 + j - i - 1]);
      AnswersIff(parse, calls, j, ms[i + 1 + j], r[j]);
    }
  }

  lemma TurnExplained(parse: string -> Option<Value>, ms: seq<Message>, i: nat)
    requires i < |ms| && OpensTurn(ms[i])
    ensures ExplainsTurn(parse, ms, i, StretchEnd(ms, i), Stretch(parse, ms, i))
  {
    var out := Stretch(parse, ms, i);
    var last := ResultsEnd(ms, i + 1);
    assert i + 1 + |out.toolResponses| == last;
    forall k | i < k < last
      ensures Answers(parse, ms[i].toolCalls.calls, k - i - 1, ms[k], out.toolResponses[k - i - 1])
    {
      assert ms[i + 1 + (k - i - 1)] == ms[k];
      AnswersIff(parse, ms[i].toolCalls.calls, k - i - 1, ms[k], out.toolResponses[k - i - 1]);
    }
  }

  lemma TurnForced(parse: string -> Option<Value>, ms: seq<Message>, i: nat, end: nat, out: Message)
    requires i < |ms| && OpensTurn(ms[i]) && ExplainsTurn(parse, ms, i, end, out)
    ensures end == StretchEnd(ms, i) && out == Stretch(parse, ms, i)
  {
    var last := i + 1 + |out.toolResponses|;
    ResultsEndIs(ms, i + 1, last);
    ResponsesAre(parse, ms[i].toolCalls.calls, ms, i, last, out.toolResponses);
  }

  /** The stretch at position i is explained by one message and one end only. */
  lemma StretchIff(parse: string -> Option<Value>, ms: seq<Message>, i: nat, end: nat, out: Message)
    requires i < |ms|
    ensures Explains(parse, ms, i, end, out) <==> end == StretchEnd(ms, i) && out == Stretch(parse, ms, i)
  {
    if OpensTurn(ms[i]) {
      TurnExplained(parse, ms, i);
      if Explains(parse, ms, i, end, out) {
        TurnForced(parse, ms, i, end, out);
      }
    }
  }

  /** Each message of the result stands for a stretch of the history, one after the other. */
  predicate Explained(parse: string -> Option<Value>, ms: seq<Message>, i: nat, ends: seq<nat>, outs: seq<Message>)
    decreases |outs|
  {
    && |ends| == |outs|
    && if outs == [] then i == |ms|
       else i < |ms| && Explains(parse, ms, i, ends[0], outs[0]) && Explained(parse, ms, ends[0], ends[1..], outs[1..])
  }

  function Ends(ms: seq<Message>, i: nat): seq<nat>
    requires i <= |ms|
    decreases |ms| - i
  {
    if i == |ms| then [] else [StretchEnd(ms, i)] + Ends(ms, StretchEnd(ms, i))
  }

  lemma {:induction false} ConvertExplains(parse: string -> Option<Value>, ms: seq<Message>, i: nat)
    requires i <= |ms|
    ensures Explained(parse, ms, i, Ends(ms, i), ConvertFrom(parse, ms, i))
    decreases |ms| - i
  {
    if i < |ms| {
      StretchIff(parse, ms, i, StretchEnd(ms, i), Stretch(parse, ms, i));
      ConvertExplains(parse, ms, StretchEnd(ms, i));
    }
  }

  lemma {:induction false} NothingElseExplains(parse: string -> Option<Value>, ms: seq<Message>, i: nat,
                                               ends: seq<nat>, outs: seq<Message>)
    requires i <= |ms| && Explained(parse, ms, i, ends, outs)
    ensures outs == ConvertFrom(parse, ms, i)
    decreases |outs|
  {
    if outs != [] {
      StretchIff(parse, ms, i, ends[0], outs[0]);
      NothingElseExplains(parse, ms, ends[0], ends[1..], outs[1..]);
      assert outs == [outs[0]] + outs[1..];
    }
  }

  /**
   The result is the one list of messages that explains the whole history: a call-bearing
   message takes the maximal run of tool messages behind it and, if it qualifies, the assistant
   message behind those; the k-th response belongs to the k-th of them and is named after the k-th
   call; every other message is kept, in order.
   */
  lemma ConvertIff(parse: string -> Option<Value>, ms: seq<Message>, outs: seq<Message>)
    ensures outs == Convert(parse, ms) <==> exists ends: seq<nat> :: Explained(parse, ms, 0, ends, outs)
  {
    if outs == Convert(parse, ms) {
      ConvertExplains(parse, ms, 0);
      assert Explained(parse, ms, 0, Ends(ms, 0), outs);
      assert exists ends: seq<nat> :: Explained(parse, ms, 0, ends, outs);
    }
    if exists ends: seq<nat> :: Explained(parse, ms, 0, ends, outs) {
      var ends: seq<nat> :| Explained(parse, ms, 0, ends, outs);
      NothingElseExplains(parse, ms, 0, ends, outs);
      assert outs == Convert(parse, ms);
    }
  }

  // ---------- Histories spelled out ----------

  /** An assistant message with calls, and the results behind it. */
  predicate IsExchange(opener: Message, results: seq<Message>) {
    && opener.role == Some("assistant")
    && opener.toolCalls.Calls? && opener.toolCalls.calls != []
    && forall k :: 0 <= k < |results| ==> results[k].role == Some("tool")
  }

  /** The turn built of such messages and of the content of the message that ends it. */
  predicate IsTurn(parse: string -> Option<Value>, opener: Message, results: seq<Message>, content: Option<Value>,
                   out: Message) {
    && out.role == Some("assistant") && out.toolCalls == opener.toolCalls && out.content == content
    && (if opener.reasoning.Some? && opener.reasoning.value.Text? then out.reasoning == opener.reasoning
        else out.reasoning == None)
    && |out.toolResponses| == |results|
    && (opener.toolCalls.Calls? ==>
          forall k :: 0 <= k < |results| ==>
            Answers(parse, opener.toolCalls.calls, k, results[k], out.toolResponses[k]))
  }

  lemma ExchangeStretch(parse: string -> Option<Value>, ms: seq<Message>, opener: Message, results: seq<Message>)
    requires IsExchange(opener, results) && [opener] + results <= ms
    requires |ms| > |results| + 1 ==> ms[|results| + 1].role != Some("tool")
    ensures ResultsEnd(ms, 1) == |results| + 1
    ensures IsTurn(parse, opener, results, FinalContent(ms, |results| + 1), Stretch(parse, ms, 0))
  {
    assert ms[0] == opener && forall k :: 0 <= k < |results| ==> ms[k + 1] == results[k];
    forall k | 1 <= k < |results| + 1
      ensures IsRole(ms[k], "tool")
    {
      assert ms[k] == results[k - 1];
    }
    ResultsEndIs(ms, 1, |results| + 1);
    var out := Stretch(parse, ms, 0);
    forall k | 0 <= k < |results|
      ensures Answers(parse, opener.toolCalls.calls, k, results[k], out.toolResponses[k])
    {
      AnswersIff(parse, opener.toolCalls.calls, k, results[k], out.toolResponses[k]);
    }
  }

  /** An assistant message without calls, with text or a list as content, ends the turn and is part of it. */
  lemma FinalIsAbsorbed(parse: string -> Option<Value>, opener: Message, results: seq<Message>, final: Message)
    requires IsExchange(opener, results) && final.role == Some("assistant")
    requires final.toolCalls.Calls? ==> final.toolCalls.calls == []
    requires final.content.Some?
    requires match final.content.value
             case Text(s) => s != ""
             case List(items) => items != []
             case _ => false
    ensures var outs := Convert(parse, [opener] + results + [final]);
            |outs| == 1 && IsTurn(parse, opener, results, final.content, outs[0])
  {
    var ms := [opener] + results + [final];
    assert [opener] + results <= ms && ms[|results| + 1] == final;
    ExchangeStretch(parse, ms, opener, results);
    assert StretchEnd(ms, 0) == |ms|;
    assert ConvertFrom(parse, ms, |ms|) == [];
  }

  /** Any other message behind the results, or none, is not, and is kept unless it opens a turn itself. */
  lemma OtherIsNotAbsorbed(parse: string -> Option<Value>, opener: Message, results: seq<Message>, next: Message)
    requires IsExchange(opener, results) && next.role != Some("tool")
    requires next.toolCalls.Calls? ==> next.toolCalls.calls == []
    requires next.role == Some("assistant") && next.content.Some? ==>
               match next.content.value
               case Text(s) => s == ""
               case List(items) => items == []
               case _ => true
    ensures var outs := Convert(parse, [opener] + results + [next]);
            |outs| == 2 && IsTurn(parse, opener, results, None, outs[0]) && outs[1] == next
  {
    var ms := [opener] + results + [next];
    assert [opener] + results <= ms && ms[|results| + 1] == next;
    ExchangeStretch(parse, ms, opener, results);
    assert StretchEnd(ms, 0) == |results| + 1 == |ms| - 1;
    assert ConvertFrom(parse, ms, |ms| - 1) == [next] + ConvertFrom(parse, ms, |ms|);
  }

  /** A history in which no assistant message has calls is not changed. */
  lemma {:induction false} OthersKept(parse: string -> Option<Value>, ms: seq<Message>, i: nat)
    requires i <= |ms|
    requires forall k :: 0 <= k < |ms| ==>
               ms[k].role != Some("assistant") || (ms[k].toolCalls.Calls? ==> ms[k].toolCalls.calls == [])
    ensures ConvertFrom(parse, ms, i) == ms[i..]
    decreases |ms| - i
  {
    if i < |ms| {
      OthersKept(parse, ms, i + 1);
      assert ms[i..] == [ms[i]] + ms[i + 1..];
    }
  }

  function CallsIn(m: Message): seq<Call> {
    if OpensTurn(m) then m.toolCalls.calls else []
  }

  /** The tool calls of all assistant messages, in order. */
  function AssistantCalls(ms: seq<Message>): seq<Call> {
    if ms == [] then [] else AssistantCalls(ms[..|ms| - 1]) + CallsIn(ms[|ms| - 1])
  }

  lemma {:induction false} CallsOfStretch(ms: seq<Message>, i: nat, end: nat)
    requires i < end <= |ms| && forall k :: i < k < end ==> !OpensTurn(ms[k])
    ensures AssistantCalls(ms[..end]) == AssistantCalls(ms[..i]) + CallsIn(ms[i])
    decreases end
  {
    assert ms[..end][..end - 1] == ms[..end - 1];
    if end > i + 1 {
      CallsOfStretch(ms, i, end - 1);
    }
  }

  lemma NoOpenerInside(ms: seq<Message>, i: nat, k: nat)
    requires i < |ms| && i < k < StretchEnd(ms, i)
    ensures !OpensTurn(ms[k])
  {
    assert k < ResultsEnd(ms, i + 1) ==> IsRole(ms[k], "tool");
  }

  lemma CallsOfAppend(outs: seq<Message>, out: Message)
    ensures AssistantCalls(outs + [out]) == AssistantCalls(outs) + CallsIn(out)
  {
    assert (outs + [out])[..|outs|] == outs;
  }

  lemma StretchHasCallsOf(parse: string -> Option<Value>, ms: seq<Message>, i: nat)
    requires i < |ms|
    ensures CallsIn(Stretch(parse, ms, i)) == CallsIn(ms[i])
    ensures AssistantCalls(ms[..StretchEnd(ms, i)]) == AssistantCalls(ms[..i]) + CallsIn(ms[i])
  {
    var end := StretchEnd(ms, i);
    forall k | i < k < end
      ensures !OpensTurn(ms[k])
    {
      NoOpenerInside(ms, i, k);
    }
    CallsOfStretch(ms, i, end);
  }

  lemma {:induction false} CallsKeptFrom(parse: string -> Option<Value>, ms: seq<Message>, i: nat, outs: seq<Message>)
    requires i <= |ms| && AssistantCalls(outs) == AssistantCalls(ms[..i])
    ensures AssistantCalls(outs + ConvertFrom(parse, ms, i)) == AssistantCalls(ms)
    decreases |ms| - i
  {
    if i == |ms| {
      assert outs + [] == outs && ms[..i] == ms;
    } else {
      StretchHasCallsOf(parse, ms, i);
      CallsOfAppend(outs, Stretch(parse, ms, i));
      CallsKeptFrom(parse, ms, StretchEnd(ms, i), outs + [Stretch(parse, ms, i)]);
      Associative(outs, [Stretch(parse, ms, i)], ConvertFrom(parse, ms, StretchEnd(ms, i)));
    }
  }

  /** No tool call is lost, repeated or moved. */
  lemma CallsKept(parse: string -> Option<Value>, ms: seq<Message>)
    ensures AssistantCalls(Convert(parse, ms)) == AssistantCalls(ms)
  {
    CallsKeptFrom(parse, ms, 0, []);
    assert [] + Convert(parse, ms) == Convert(parse, ms);
  }

  // ---------- What it does not keep ----------

  /** Two histories that differ at most in the contents of call-bearing messages. */
  predicate SameButOwnContent(a: seq<Message>, b: seq<Message>) {
    |a| == |b| && forall i :: 0 <= i < |a| ==> a[i] == b[i] || (OpensTurn(a[i]) && b[i] == a[i].(content := b[i].content))
  }

  lemma SameResults(a: seq<Message>, b: seq<Message>, i: nat)
    requires i <= |a| && SameButOwnContent(a, b)
    ensures ResultsEnd(a, i) == ResultsEnd(b, i)
    ensures forall k :: i <= k < ResultsEnd(a, i) ==> a[k] == b[k]
    ensures forall end :: FinalContent(a, end) == FinalContent(b, end)
  {
    var end := ResultsEnd(a, i);
    assert forall k :: i <= k < end ==> IsRole(a[k], "tool");
    ResultsEndIs(b, i, end);
  }

  lemma SameStretch(parse: string -> Option<Value>, a: seq<Message>, b: seq<Message>, i: nat)
    requires i < |a| && SameButOwnContent(a, b)
    ensures StretchEnd(a, i) == StretchEnd(b, i) && Stretch(parse, a, i) == Stretch(parse, b, i)
  {
    if OpensTurn(a[i]) {
      SameResults(a, b, i + 1);
      TurnExplained(parse, a, i);
      TurnForced(parse, b, i, StretchEnd(a, i), Stretch(parse, a, i));
    } else {
      assert a[i] == b[i];
    }
  }

  /** The content of a call-bearing message is not carried over: replacing it by anything changes nothing. */
  lemma {:induction false} OwnContentIsDropped(parse: string -> Option<Value>, a: seq<Message>, b: seq<Message>, i: nat)
    requires i <= |a| && SameButOwnContent(a, b)
    ensures ConvertFrom(parse, a, i) == ConvertFrom(parse, b, i)
    decreases |a| - i
  {
    if i < |a| {
      SameStretch(parse, a, b, i);
      OwnContentIsDropped(parse, a, b, StretchEnd(a, i));
    }
  }
}
