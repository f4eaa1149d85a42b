/**
 `string_diff`, `compute_diffs` and the JSON deltas sent to a client: when they throw, and when
 a client that follows the deltas ends up with the same message.
 */
module ChatDiff {
  import opened Base
  import opened Chat

  datatype Error = InvalidText | FewerCalls | CallMismatch

  datatype Result<+T> = Ok(value: T) | Err(error: Error) {
    predicate IsFailure() { Err? }
    function PropagateFailure<U>(): Result<U>
      requires Err?
    {
      Err(error)
    }
    function Extract(): T
      requires Ok?
    {
      value
    }
  }

  datatype Diff = Diff(reasoning: string, content: string, index: Option<nat>, call: ToolCall)

  const NO_CALL := ToolCall("", "", "")

  // ---------- The differ ----------

  function StringDiff(last: string, current: string): Result<string> {
    if last == "" then Ok(current)
    else if !(last <= current) then
      if current <= last then Ok("") else Err(InvalidText)
    else Ok(current[|last|..])
  }

  function ReasoningDiffs(prev: Message, next: Message): Result<seq<Diff>> {
    if prev.reasoning == next.reasoning then Ok([])
    else
      var d :- StringDiff(prev.reasoning, next.reasoning);
      Ok([Diff(d, "", None, NO_CALL)])
  }

  function ContentDiffs(prev: Message, next: Message): Result<seq<Diff>> {
    if prev.content == next.content then Ok([])
    else
      var d :- StringDiff(prev.content, next.content);
      Ok([Diff("", d, None, NO_CALL)])
  }

  function TextDiffs(prev: Message, next: Message): Result<seq<Diff>> {
    var r :- ReasoningDiffs(prev, next);
    var c :- ContentDiffs(prev, next);
    Ok(r + c)
  }

  /** What has changed in the last call the previous message had. */
  function CallDiffs(index: nat, prev: ToolCall, next: ToolCall): Result<seq<Diff>> {
    if prev.name != next.name && prev.name != "" && next.name != "" && !(prev.name <= next.name) then Err(CallMismatch)
    else
      var args :- StringDiff(prev.arguments, next.arguments);
      var renamed := prev.id != next.id || prev.name != next.name;
      if args == "" && !renamed then Ok([])
      else if renamed then Ok([Diff("", "", Some(index), ToolCall(next.name, args, next.id))])
      else Ok([Diff("", "", Some(index), ToolCall("", args, ""))])
  }

  function NewCallDiffs(from: nat, calls: seq<ToolCall>): seq<Diff>
    requires from <= |calls|
    decreases |calls| - from
  {
    if from == |calls| then [] else [Diff("", "", Some(from), calls[from])] + NewCallDiffs(from + 1, calls)
  }

  function Diffs(prev: Message, next: Message): Result<seq<Diff>> {
    var text :- TextDiffs(prev, next);
    if |next.calls| < |prev.calls| then Err(FewerCalls)
    else
      var last := |prev.calls| - 1;
      var changed: seq<Diff> :- if prev.calls == [] then Ok([]) else CallDiffs(last, prev.calls[last], next.calls[last]);
      Ok(text + changed + NewCallDiffs(|prev.calls|, next.calls))
  }

  method ComputeDiffs(prev: Message, next: Message) returns (r: Result<seq<Diff>>)
    ensures r == Diffs(prev, next)
  {
    var diffs := [];
    if prev.reasoning != next.reasoning {
      var d := StringDiff(prev.reasoning, next.reasoning);
      if d.Err? {
        return Err(d.error);
      }
      diffs := diffs + [Diff(d.value, "", None, NO_CALL)];
      assert diffs == [Diff(d.value, "", None, NO_CALL)];
    }
    assert ReasoningDiffs(prev, next) == Ok(diffs);
    ghost var known := diffs;
    if prev.content != next.content {
      var d := StringDiff(prev.content, next.content);
      if d.Err? {
        return Err(d.error);
      }
      diffs := diffs + [Diff("", d.value, None, NO_CALL)];
    }
    assert known + [] == known;
    assert TextDiffs(prev, next) == Ok(diffs);
    if |next.calls| < |prev.calls| {
      return Err(FewerCalls);
    }
    if prev.calls != [] {
      var idx := |prev.calls| - 1;
      var changed := CallDiffs(idx, prev.calls[idx], next.calls[idx]);
      if changed.Err? {
        return Err(changed.error);
      }
      diffs := diffs + changed.value;
    }
    assert prev.calls == [] ==> diffs + [] == diffs;
    ghost var whole := diffs + NewCallDiffs(|prev.calls|, next.calls);
    for idx := |prev.calls| to |next.calls|
      invariant whole == diffs + NewCallDiffs(idx, next.calls)
    {
      diffs := diffs + [Diff("", "", Some(idx), next.calls[idx])];
    }
    assert diffs + [] == diffs;
    return Ok(diffs);
  }

  // ---------- The client ----------

  datatype CallDelta = CallDelta(index: nat, id: Option<string>, name: Option<string>, arguments: Option<string>)

  datatype Delta = Delta(reasoning: Option<string>, content: Option<string>, call: Option<CallDelta>)

  function NonEmpty(s: string): Option<string> {
    if s == "" then None else Some(s)
  }

  /** `common_chat_msg_diff_to_json_oaicompat`: only non-empty parts are sent. */
  function ToDelta(d: Diff): Delta {
    Delta(
      NonEmpty(d.reasoning),
      NonEmpty(d.content),
      if d.index.None? then None
      else Some(CallDelta(d.index.value, NonEmpty(d.call.id), NonEmpty(d.call.name), NonEmpty(d.call.arguments))))
  }

  function Appended(s: string, more: Option<string>): string {
    if more.None? then s else s + more.value
  }

  function Overwritten(s: string, other: Option<string>): string {
    if other.None? then s else other.value
  }

  function ApplyCall(c: ToolCall, d: CallDelta): ToolCall {
    ToolCall(Overwritten(c.name, d.name), Appended(c.arguments, d.arguments), Overwritten(c.id, d.id))
  }

  /** Append text and arguments; overwrite a name and an id that are sent; a new index is a new call. */
  function Apply(m: Message, d: Delta): Message {
    var calls :=
      if d.call.None? || d.call.value.index > |m.calls| then m.calls
      else if d.call.value.index == |m.calls| then m.calls + [ApplyCall(NO_CALL, d.call.value)]
      else m.calls[d.call.value.index := ApplyCall(m.calls[d.call.value.index], d.call.value)];
    Message(Appended(m.reasoning, d.reasoning), Appended(m.content, d.content), calls)
  }

  function ApplyAll(m: Message, diffs: seq<Diff>): Message
    decreases |diffs|
  {
    if diffs == [] then m else ApplyAll(Apply(m, ToDelta(diffs[0])), diffs[1..])
  }

  // ---------- Extension ----------

  predicate CallExtends(prev: ToolCall, next: ToolCall) {
    && prev.arguments <= next.arguments
    && prev.name <= next.name
    && (prev.id == next.id || next.id != "")
  }

  /** Text only grows, and of the calls only the last known one may still grow. */
  predicate Extends(prev: Message, next: Message) {
    && prev.reasoning <= next.reasoning
    && prev.content <= next.content
    && |prev.calls| <= |next.calls|
    && (forall i :: 0 <= i < |prev.calls| - 1 ==> prev.calls[i] == next.calls[i])
    && (prev.calls != [] ==> CallExtends(prev.calls[|prev.calls| - 1], next.calls[|prev.calls| - 1]))
  }

  lemma ExtendsTransitive(a: Message, b: Message, c: Message)
    requires Extends(a, b) && Extends(b, c)
    ensures Extends(a, c)
  {
    if a.calls != [] {
      var k := |a.calls| - 1;
      assert CallExtends(b.calls[k], c.calls[k]);
    }
  }

  // ---------- When the differ throws ----------

  predicate Comparable(a: string, b: string) {
    a <= b || b <= a
  }

  /** The differ accepts a pair of messages exactly when their texts are comparable. */
  lemma DiffsOkIff(prev: Message, next: Message)
    ensures Diffs(prev, next).Ok? <==>
      && Comparable(prev.reasoning, next.reasoning)
      && Comparable(prev.content, next.content)
      && |prev.calls| <= |next.calls|
      && (prev.calls != [] ==>
           var a, b := prev.calls[|prev.calls| - 1], next.calls[|prev.calls| - 1];
           (a.name <= b.name || b.name == "") && Comparable(a.arguments, b.arguments))
  {
  }

  // ---------- The client rebuilds the message exactly on extensions ----------

  lemma {:induction false} ApplyAllConcat(m: Message, a: seq<Diff>, b: seq<Diff>)
    ensures ApplyAll(m, a + b) == ApplyAll(ApplyAll(m, a), b)
    decreases |a|
  {
    if a == [] {
      assert a + b == b;
    } else {
      assert (a + b)[1..] == a[1..] + b;
      ApplyAllConcat(Apply(m, ToDelta(a[0])), a[1..], b);
    }
  }

  /** The text diffs touch only the texts, and reach the new ones exactly on extensions. */
  lemma ApplyTextDiffs(prev: Message, next: Message)
    requires TextDiffs(prev, next).Ok?
    ensures var m := ApplyAll(prev, TextDiffs(prev, next).value);
            && m.calls == prev.calls
            && (m.reasoning == next.reasoning <==> prev.reasoning <= next.reasoning)
            && (m.content == next.content <==> prev.content <= next.content)
  {
    var r, c := ReasoningDiffs(prev, next).value, ContentDiffs(prev, next).value;
    ApplyAllConcat(prev, r, c);
    var m := ApplyAll(prev, r);
    assert m.calls == prev.calls && m.content == prev.content;
    assert m.reasoning == next.reasoning <==> prev.reasoning <= next.reasoning;
  }

  /** The diff of a call changes that call only, and reaches the new one exactly on extensions. */
  lemma ApplyCallDiffs(m: Message, index: nat, next: ToolCall)
    requires index < |m.calls| && CallDiffs(index, m.calls[index], next).Ok?
    ensures var m' := ApplyAll(m, CallDiffs(index, m.calls[index], next).value);
            && m'.reasoning == m.reasoning
            && m'.content == m.content
            && |m'.calls| == |m.calls|
            && (forall i :: 0 <= i < |m.calls| && i != index ==> m'.calls[i] == m.calls[i])
            && (m'.calls[index] == next <==> CallExtends(m.calls[index], next))
  {
  }

  lemma {:induction false} ApplyNewCalls(m: Message, from: nat, calls: seq<ToolCall>)
    requires |m.calls| == from <= |calls|
    ensures ApplyAll(m, NewCallDiffs(from, calls)) == m.(calls := m.calls + calls[from..])
    decreases |calls| - from
  {
    if from < |calls| {
      var d := Diff("", "", Some(from), calls[from]);
      var m' := Apply(m, ToDelta(d));
      assert "" + calls[from].arguments == calls[from].arguments;
      assert m' == m.(calls := m.calls + [calls[from]]);
      ApplyNewCalls(m', from + 1, calls);
      assert m.calls + [calls[from]] + calls[from + 1..] == m.calls + calls[from..];
    }
  }

  /**
   The round trip, in both directions: the deltas between two messages are accepted and turn
   the first into the second exactly when the second extends the first.
   */
  lemma DeltasRebuildIff(prev: Message, next: Message)
    ensures Diffs(prev, next).Ok? && ApplyAll(prev, Diffs(prev, next).value) == next <==> Extends(prev, next)
  {
    DiffsOkIff(prev, next);
    if Diffs(prev, next).Ok? {
      var text := TextDiffs(prev, next).value;
      var n := |prev.calls|;
      var changed := if n == 0 then [] else CallDiffs(n - 1, prev.calls[n - 1], next.calls[n - 1]).value;
      var m1 := ApplyAll(prev, text);
      var m2 := ApplyAll(m1, changed);
      ApplyTextDiffs(prev, next);
      if n > 0 {
        ApplyCallDiffs(m1, n - 1, next.calls[n - 1]);
      }
      ApplyNewCalls(m2, n, next.calls);
      ApplyAllConcat(prev, text, changed);
      ApplyAllConcat(prev, text + changed, NewCallDiffs(n, next.calls));
      RebuiltCalls(m2.calls, next.calls);
    }
  }

  lemma RebuiltCalls(known: seq<ToolCall>, calls: seq<ToolCall>)
    requires |known| <= |calls|
    ensures known + calls[|known|..] == calls <==> forall i :: 0 <= i < |known| ==> known[i] == calls[i]
  {
    var all := known + calls[|known|..];
    assert forall i :: 0 <= i < |known| ==> all[i] == known[i];
  }

  lemma EqualMessagesNoDiff(m: Message)
    ensures Diffs(m, m) == Ok([])
  {
    assert TextDiffs(m, m) == Ok([] + []);
    if m.calls != [] {
      var c := m.calls[|m.calls| - 1];
      assert c.arguments[|c.arguments|..] == "";
    }
    var none: seq<Diff> := [];
    assert none + none == none && NewCallDiffs(|m.calls|, m.calls) == none;
  }

  /** While only the arguments of the last call grow, only what is new of them is sent. */
  lemma OnlyArgumentsSent(m: Message, call: ToolCall, more: string)
    requires m.calls != [] && m.calls[|m.calls| - 1] == call && more != ""
    ensures var next := m.(calls := m.calls[|m.calls| - 1 := call.(arguments := call.arguments + more)]);
            Diffs(m, next) == Ok([Diff("", "", Some(|m.calls| - 1), ToolCall("", more, ""))])
  {
    var next := m.(calls := m.calls[|m.calls| - 1 := call.(arguments := call.arguments + more)]);
    var none: seq<Diff> := [];
    assert (call.arguments + more)[|call.arguments|..] == more;
    assert TextDiffs(m, next) == Ok(none + none);
    assert none + none == none && NewCallDiffs(|m.calls|, next.calls) == none;
    var d := Diff("", "", Some(|m.calls| - 1), ToolCall("", more, ""));
    assert none + [d] + none == [d];
  }

  lemma SameCallNoDiff(index: nat, call: ToolCall)
    ensures CallDiffs(index, call, call) == Ok([])
  {
    assert call.arguments[|call.arguments|..] == "";
  }

  /** While only the texts grow, only what is new of them is sent, reasoning first. */
  lemma OnlyTextSent(m: Message, reasoning: string, content: string)
    requires reasoning != "" && content != ""
    ensures var next := Message(m.reasoning + reasoning, m.content + content, m.calls);
            Diffs(m, next) == Ok([Diff(reasoning, "", None, NO_CALL), Diff("", content, None, NO_CALL)])
  {
    var next := Message(m.reasoning + reasoning, m.content + content, m.calls);
    var none: seq<Diff> := [];
    assert next.reasoning[|m.reasoning|..] == reasoning && next.content[|m.content|..] == content;
    assert ReasoningDiffs(m, next) == Ok([Diff(reasoning, "", None, NO_CALL)]);
    assert ContentDiffs(m, next) == Ok([Diff("", content, None, NO_CALL)]);
    var texts := [Diff(reasoning, "", None, NO_CALL)] + [Diff("", content, None, NO_CALL)];
    assert TextDiffs(m, next) == Ok(texts);
    assert texts == [Diff(reasoning, "", None, NO_CALL), Diff("", content, None, NO_CALL)];
    if m.calls != [] {
      SameCallNoDiff(|m.calls| - 1, m.calls[|m.calls| - 1]);
    }
    assert NewCallDiffs(|m.calls|, next.calls) == none && texts + none + none == texts;
  }

  // ---------- A whole stream ----------

  predicate IsStream(messages: seq<Message>) {
    && messages != []
    && messages[0] == EMPTY_MESSAGE
    && forall i :: 0 <= i < |messages| - 1 ==> Extends(messages[i], messages[i + 1])
  }

  /** The client's message after the deltas between all successive messages; `None` if one throws. */
  function Follow(client: Message, messages: seq<Message>): Option<Message>
    requires messages != []
    decreases |messages|
  {
    if |messages| == 1 then Some(client)
    else
      var d := Diffs(messages[0], messages[1]);
      if d.Err? then None else Follow(ApplyAll(client, d.value), messages[1..])
  }

  lemma {:induction false} FollowStep(messages: seq<Message>)
    requires messages != [] && forall i :: 0 <= i < |messages| - 1 ==> Extends(messages[i], messages[i + 1])
    ensures Follow(messages[0], messages) == Some(messages[|messages| - 1])
    decreases |messages|
  {
    if |messages| > 1 {
      DeltasRebuildIff(messages[0], messages[1]);
      FollowStep(messages[1..]);
    }
  }

  /** A client that starts from nothing and applies every delta of a stream has its last message. */
  lemma {:induction false} FollowRebuilds(messages: seq<Message>)
    requires IsStream(messages)
    ensures Follow(EMPTY_MESSAGE, messages) == Some(messages[|messages| - 1])
  {
    FollowStep(messages);
  }

  /** Messages of which each extends the one before are a stream once nothing has been put in front. */
  lemma ChainRebuilds(ms: seq<Message>)
    requires ms != [] && forall i :: 0 <= i < |ms| - 1 ==> Extends(ms[i], ms[i + 1])
    ensures Follow(EMPTY_MESSAGE, [EMPTY_MESSAGE] + ms) == Some(ms[|ms| - 1])
  {
    var all := [EMPTY_MESSAGE] + ms;
    forall i | 0 <= i < |all| - 1
      ensures Extends(all[i], all[i + 1])
    {
      if i > 0 {
        assert Extends(ms[i - 1], ms[i - 1 + 1]);
      }
    }
    FollowRebuilds(all);
  }
}
