/**
 `common_chat_peg_gemma4_mapper`: the walk over the trees of a parse that builds the chat message
 of a Gemma 4 model. When the trees grow, the message only grows, so the differ never throws and
 a client that follows the deltas ends with the final message.
 */
module GemmaMapper {
  import opened Base
  import opened Chat
  import opened ChatDiff
  import opened GemmaJson

  // ---------- Lookup by tag ----------

  const LOOKUP_DEPTH := 3

  /** The first node with the tag, parents before children, down to a depth below the given nodes. */
  function Find(ts: seq<Tree>, tag: Tag, depth: nat): Option<Tree>
    decreases ts
  {
    if ts == [] then None
    else if ts[0].tag == tag then Some(ts[0])
    else
      var inner := if depth > 1 then Find(ts[0].children, tag, depth - 1) else None;
      if inner.Some? then inner else Find(ts[1..], tag, depth)
  }

  method FindByTag(parent: Tree, tag: Tag, depth: nat) returns (r: Option<Tree>)
    ensures r == Find(parent.children, tag, depth)
    decreases parent
  {
    var ts := parent.children;
    for i := 0 to |ts|
      invariant Find(ts, tag, depth) == Find(ts[i..], tag, depth)
    {
      assert ts[i..][1..] == ts[i + 1..];
      if ts[i].tag == tag {
        return Some(ts[i]);
      }
      if depth > 1 {
        var inner := FindByTag(ts[i], tag, depth - 1);
        if inner.Some? {
          return inner;
        }
      }
    }
    return None;
  }

  // ---------- The walk ----------

  /** The call of a tool node, once its name is complete and its arguments have begun. */
  function CallOf(t: Tree): Option<ToolCall> {
    var name, args := Find(t.children, ToolName, LOOKUP_DEPTH), Find(t.children, ToolArgs, LOOKUP_DEPTH);
    if name.None? || args.None? || name.value.partial then None
    else
      var ts := args.value.children;
      Some(ToolCall(name.value.text, if ts == [] then "" else ToJson(ts[0]), ""))
  }

  /** Where the walk stops; it passes through all other nodes. */
  predicate IsPiece(t: Tree) {
    t.tag == Reasoning || t.tag == Content || t.tag == Tool
  }

  function Walk(m: Message, t: Tree): Message
    decreases t, 1
  {
    match t.tag
    case Reasoning => m.(reasoning := m.reasoning + t.text)
    case Content => m.(content := m.content + t.text)
    case Tool => if CallOf(t).Some? then m.(calls := m.calls + [CallOf(t).value]) else m
    case _ => WalkEach(m, t.children)
  }

  function WalkEach(m: Message, ts: seq<Tree>): Message
    decreases ts, 0
  {
    if ts == [] then m else WalkEach(Walk(m, ts[0]), ts[1..])
  }

  /** The message of a parse. */
  function MessageOf(ts: seq<Tree>): Message {
    WalkEach(EMPTY_MESSAGE, ts)
  }

  class Gemma4Mapper {
    var result: Message

    constructor ()
      ensures result == EMPTY_MESSAGE
    {
      result := EMPTY_MESSAGE;
    }

    method VisitTool(t: Tree)
      requires t.tag == Tool
      modifies this
      ensures result == Walk(old(result), t)
    {
      var name := FindByTag(t, ToolName, LOOKUP_DEPTH);
      var args := FindByTag(t, ToolArgs, LOOKUP_DEPTH);
      if name.Some? && args.Some? && !name.value.partial {
        var call := ToolCall(name.value.text, "", "");
        if args.value.children != [] {
          var text := Print(args.value.children[0]);
          call := call.(arguments := text);
        }
        result := result.(calls := result.calls + [call]);
      }
    }

    method Visit(t: Tree)
      modifies this
      ensures result == Walk(old(result), t)
      decreases t, 1
    {
      if t.tag == Reasoning {
        result := result.(reasoning := result.reasoning + t.text);
      } else if t.tag == Content {
        result := result.(content := result.content + t.text);
      } else if t.tag == Tool {
        VisitTool(t);
      } else {
        FromAst(t.children);
      }
    }

    /** The loop of `from_ast` over the roots, which is that of `visit` over the children. */
    method FromAst(ts: seq<Tree>)
      modifies this
      ensures result == WalkEach(old(result), ts)
      decreases ts, 0
    {
      for i := 0 to |ts|
        invariant WalkEach(result, ts[i..]) == WalkEach(old(result), ts)
      {
        assert ts[i..][1..] == ts[i + 1..];
        Visit(ts[i]);
      }
    }
  }

  // ---------- The pieces the walk collects ----------

  /** Empty texts, and calls that cannot be reported yet, leave no trace. */
  predicate HasEffect(t: Tree) {
    if t.tag == Tool then CallOf(t).Some? else IsPiece(t) && t.text != ""
  }

  function Pieces(t: Tree): seq<Tree>
    decreases t, 1
  {
    if HasEffect(t) then [t] else if IsPiece(t) then [] else PiecesOf(t.children)
  }

  function PiecesOf(ts: seq<Tree>): seq<Tree>
    decreases ts, 0
  {
    if ts == [] then [] else Pieces(ts[0]) + PiecesOf(ts[1..])
  }

  lemma {:induction false} WalkEachConcat(m: Message, ts: seq<Tree>, us: seq<Tree>)
    ensures WalkEach(m, ts + us) == WalkEach(WalkEach(m, ts), us)
    decreases |ts|
  {
    if ts == [] {
      assert ts + us == us;
    } else {
      assert (ts + us)[1..] == ts[1..] + us;
      WalkEachConcat(Walk(m, ts[0]), ts[1..], us);
    }
  }

  lemma NothingAdded(m: Message)
    ensures m.(reasoning := m.reasoning + "") == m && m.(content := m.content + "") == m
  {
    assert m.reasoning + "" == m.reasoning && m.content + "" == m.content;
  }

  lemma {:induction false} WalkIsPieces(m: Message, t: Tree)
    ensures Walk(m, t) == WalkEach(m, Pieces(t))
    decreases t, 1
  {
    NothingAdded(m);
    if HasEffect(t) {
      assert [t][1..] == [];
    } else if !IsPiece(t) {
      PiecesSuffice(m, t.children);
    }
  }

  /** The message depends on the pieces only, wherever they are in the trees. */
  lemma {:induction false} PiecesSuffice(m: Message, ts: seq<Tree>)
    ensures WalkEach(m, ts) == WalkEach(m, PiecesOf(ts))
    decreases ts, 0
  {
    if ts != [] {
      WalkIsPieces(m, ts[0]);
      PiecesSuffice(Walk(m, ts[0]), ts[1..]);
      WalkEachConcat(m, Pieces(ts[0]), PiecesOf(ts[1..]));
    }
  }

  // ---------- What the message holds ----------

  /** The nodes at which the walk stops, whether they leave a trace or not: none encloses another. */
  function Outermost(t: Tree): seq<Tree>
    decreases t, 1
  {
    if t.tag == Reasoning || t.tag == Content || t.tag == Tool then [t] else OutermostOf(t.children)
  }

  function OutermostOf(ts: seq<Tree>): seq<Tree>
    decreases ts, 0
  {
    if ts == [] then [] else Outermost(ts[0]) + OutermostOf(ts[1..])
  }

  function TextsWith(tag: Tag, ts: seq<Tree>): string {
    if ts == [] then "" else (if ts[0].tag == tag then ts[0].text else "") + TextsWith(tag, ts[1..])
  }

  /** A call for each tool node that has a complete name and arguments. */
  function CallsIn(ts: seq<Tree>): seq<ToolCall> {
    if ts == [] then []
    else (if ts[0].tag == Tool && CallOf(ts[0]).Some? then [CallOf(ts[0]).value] else []) + CallsIn(ts[1..])
  }

  /** The message with more text and more calls. */
  function Added(m: Message, reasoning: string, content: string, calls: seq<ToolCall>): Message {
    Message(m.reasoning + reasoning, m.content + content, m.calls + calls)
  }

  lemma AddedTwice(m: Message, r: string, c: string, calls: seq<ToolCall>,
                   r': string, c': string, calls': seq<ToolCall>)
    ensures Added(Added(m, r, c, calls), r', c', calls') == Added(m, r + r', c + c', calls + calls')
    ensures Added(m, "", "", []) == m
  {
    Associative(m.reasoning, r, r');
    Associative(m.content, c, c');
    Associative(m.calls, calls, calls');
    assert m.reasoning + "" == m.reasoning && m.content + "" == m.content && m.calls + [] == m.calls;
  }

  lemma {:induction false} TextsConcat(tag: Tag, ts: seq<Tree>, us: seq<Tree>)
    ensures TextsWith(tag, ts + us) == TextsWith(tag, ts) + TextsWith(tag, us)
    ensures CallsIn(ts + us) == CallsIn(ts) + CallsIn(us)
    decreases |ts|
  {
    if ts == [] {
      assert ts + us == us;
    } else {
      assert (ts + us)[1..] == ts[1..] + us && (ts + us)[0] == ts[0];
      TextsConcat(tag, ts[1..], us);
      Associative(if ts[0].tag == tag then ts[0].text else "", TextsWith(tag, ts[1..]), TextsWith(tag, us));
      var first := if ts[0].tag == Tool && CallOf(ts[0]).Some? then [CallOf(ts[0]).value] else [];
      Associative(first, CallsIn(ts[1..]), CallsIn(us));
    }
  }

  function AddedBy(m: Message, nodes: seq<Tree>): Message {
    Added(m, TextsWith(Reasoning, nodes), TextsWith(Content, nodes), CallsIn(nodes))
  }

  lemma AddedByConcat(m: Message, ts: seq<Tree>, us: seq<Tree>)
    ensures AddedBy(AddedBy(m, ts), us) == AddedBy(m, ts + us)
  {
    TextsConcat(Reasoning, ts, us);
    TextsConcat(Content, ts, us);
    AddedTwice(m, TextsWith(Reasoning, ts), TextsWith(Content, ts), CallsIn(ts),
      TextsWith(Reasoning, us), TextsWith(Content, us), CallsIn(us));
  }

  lemma PartsOfOne(tag: Tag, t: Tree)
    ensures TextsWith(tag, [t]) == if t.tag == tag then t.text else ""
    ensures CallsIn([t]) == if t.tag == Tool && CallOf(t).Some? then [CallOf(t).value] else []
  {
    var text := if t.tag == tag then t.text else "";
    var call: seq<ToolCall> := if t.tag == Tool && CallOf(t).Some? then [CallOf(t).value] else [];
    assert [t][1..] == [] && text + "" == text && call + [] == call;
  }

  lemma {:induction false} WalkAdds(m: Message, t: Tree)
    ensures Walk(m, t) == AddedBy(m, Outermost(t))
    decreases t, 1
  {
    if IsPiece(t) {
      PartsOfOne(Reasoning, t);
      PartsOfOne(Content, t);
      assert m.reasoning + "" == m.reasoning && m.content + "" == m.content && m.calls + [] == m.calls;
    } else {
      WalkEachAdds(m, t.children);
    }
  }

  lemma {:induction false} WalkEachAdds(m: Message, ts: seq<Tree>)
    ensures WalkEach(m, ts) == AddedBy(m, OutermostOf(ts))
    decreases ts, 0
  {
    if ts == [] {
      AddedTwice(m, "", "", [], "", "", []);
    } else {
      WalkAdds(m, ts[0]);
      WalkEachAdds(Walk(m, ts[0]), ts[1..]);
      AddedByConcat(m, Outermost(ts[0]), OutermostOf(ts[1..]));
    }
  }

  /**
   Reasoning is the text of the outermost reasoning nodes, content that of the outermost content
   nodes, and there is a call for each outermost tool node that can be reported, all in order.
   */
  lemma MessageHolds(ts: seq<Tree>)
    ensures var nodes := OutermostOf(ts);
            && MessageOf(ts).reasoning == TextsWith(Reasoning, nodes)
            && MessageOf(ts).content == TextsWith(Content, nodes)
            && MessageOf(ts).calls == CallsIn(nodes)
  {
    var nodes := OutermostOf(ts);
    WalkEachAdds(EMPTY_MESSAGE, ts);
    assert "" + TextsWith(Reasoning, nodes) == TextsWith(Reasoning, nodes);
    assert "" + TextsWith(Content, nodes) == TextsWith(Content, nodes);
    assert [] + CallsIn(nodes) == CallsIn(nodes);
  }

  /** The nodes a lookup may see, in its order: each before its descendants, down to the depth. */
  function Visited(ts: seq<Tree>, depth: nat): seq<Tree>
    decreases ts
  {
    if ts == [] then []
    else [ts[0]] + (if depth > 1 then Visited(ts[0].children, depth - 1) else []) + Visited(ts[1..], depth)
  }

  /** The first of the nodes with the tag, if there is one. */
  predicate IsFirst(nodes: seq<Tree>, tag: Tag, r: Option<Tree>) {
    if r.None? then forall i :: 0 <= i < |nodes| ==> nodes[i].tag != tag
    else
      exists i :: 0 <= i < |nodes| && r == Some(nodes[i]) && nodes[i].tag == tag
        && forall j :: 0 <= j < i ==> nodes[j].tag != tag
  }

  lemma FirstOfConcat(a: seq<Tree>, b: seq<Tree>, tag: Tag, x: Option<Tree>, y: Option<Tree>)
    requires IsFirst(a, tag, x) && IsFirst(b, tag, y)
    ensures IsFirst(a + b, tag, if x.Some? then x else y)
  {
    if x.Some? {
      var i :| 0 <= i < |a| && x == Some(a[i]) && a[i].tag == tag && forall j :: 0 <= j < i ==> a[j].tag != tag;
      assert (a + b)[i] == a[i];
    } else if y.Some? {
      var i :| 0 <= i < |b| && y == Some(b[i]) && b[i].tag == tag && forall j :: 0 <= j < i ==> b[j].tag != tag;
      assert (a + b)[|a| + i] == b[i];
      assert forall j :: 0 <= j < |a| + i ==> (a + b)[j] == if j < |a| then a[j] else b[j - |a|];
    }
  }

  /** The lookup finds the first node with the tag among those it may see. */
  lemma {:induction false} FindIsFirst(ts: seq<Tree>, tag: Tag, depth: nat)
    ensures IsFirst(Visited(ts, depth), tag, Find(ts, tag, depth))
    decreases ts
  {
    if ts != [] {
      var t := ts[0];
      var below := if depth > 1 then Visited(t.children, depth - 1) else [];
      var inner := if depth > 1 then Find(t.children, tag, depth - 1) else None;
      if depth > 1 {
        FindIsFirst(t.children, tag, depth - 1);
      }
      FindIsFirst(ts[1..], tag, depth);
      var own := if t.tag == tag then Some(t) else None;
      assert t.tag == tag ==> [t][0] == t;
      assert IsFirst([t], tag, own);
      FirstOfConcat([t], below, tag, own, inner);
      FirstOfConcat([t] + below, Visited(ts[1..], depth), tag,
        if own.Some? then own else inner, Find(ts[1..], tag, depth));
    }
  }

  /** The children of a tool node, their children and theirs. */
  function WithinThree(t: Tree): seq<Tree> {
    Visited(t.children, 3)
  }

  /**
   What a tool node reports: nothing without a name or arguments within three levels or while the
   name is partial; otherwise a call with the text of the first name, without an id, with the
   arguments that the first child of the first arguments prints.
   */
  lemma CallOfIff(t: Tree, name: Option<Tree>, args: Option<Tree>)
    requires IsFirst(WithinThree(t), ToolName, name) && IsFirst(WithinThree(t), ToolArgs, args)
    ensures CallOf(t).Some? <==> name.Some? && args.Some? && !name.value.partial
    ensures CallOf(t).Some? ==>
              && CallOf(t).value.name == name.value.text
              && CallOf(t).value.id == ""
              && (args.value.children == [] ==> CallOf(t).value.arguments == "")
              && (args.value.children != [] ==> CallOf(t).value.arguments == ToJson(args.value.children[0]))
  {
    FindIsFirst(t.children, ToolName, LOOKUP_DEPTH);
    FindIsFirst(t.children, ToolArgs, LOOKUP_DEPTH);
    OneFirst(WithinThree(t), ToolName, name, Find(t.children, ToolName, LOOKUP_DEPTH));
    OneFirst(WithinThree(t), ToolArgs, args, Find(t.children, ToolArgs, LOOKUP_DEPTH));
  }

  lemma OneFirst(nodes: seq<Tree>, tag: Tag, x: Option<Tree>, y: Option<Tree>)
    requires IsFirst(nodes, tag, x) && IsFirst(nodes, tag, y)
    ensures x == y
  {
    if x.Some? && y.Some? {
      var i :| 0 <= i < |nodes| && x == Some(nodes[i]) && nodes[i].tag == tag
               && forall k :: 0 <= k < i ==> nodes[k].tag != tag;
      var j :| 0 <= j < |nodes| && y == Some(nodes[j]) && nodes[j].tag == tag
               && forall k :: 0 <= k < j ==> nodes[k].tag != tag;
      assert i == j;
    }
  }

  // ---------- More pieces, more message ----------

  lemma {:induction false} WalkExtends(m: Message, t: Tree)
    requires IsPiece(t)
    ensures Extends(m, Walk(m, t))
  {
  }

  lemma {:induction false} PiecesArePieces(t: Tree)
    ensures forall i :: 0 <= i < |Pieces(t)| ==> HasEffect(Pieces(t)[i])
    decreases t, 1
  {
    if !HasEffect(t) && !IsPiece(t) {
      PiecesOfArePieces(t.children);
    }
  }

  lemma {:induction false} PiecesOfArePieces(ts: seq<Tree>)
    ensures forall i :: 0 <= i < |PiecesOf(ts)| ==> HasEffect(PiecesOf(ts)[i])
    decreases ts, 0
  {
    if ts != [] {
      PiecesArePieces(ts[0]);
      PiecesOfArePieces(ts[1..]);
    }
  }

  lemma {:induction false} MorePiecesExtend(m: Message, ps: seq<Tree>)
    requires forall i :: 0 <= i < |ps| ==> HasEffect(ps[i])
    ensures Extends(m, WalkEach(m, ps))
    decreases |ps|
  {
    if ps != [] {
      var m' := Walk(m, ps[0]);
      WalkExtends(m, ps[0]);
      MorePiecesExtend(m', ps[1..]);
      ExtendsTransitive(m, m', WalkEach(m', ps[1..]));
    }
  }

  // ---------- Growing trees ----------

  lemma {:induction false} NothingFound(ts: seq<Tree>, tag: Tag, depth: nat)
    requires tag != NoTag && forall i :: 0 <= i < |ts| ==> IsUntagged(ts[i])
    ensures Find(ts, tag, depth) == None
    decreases ts
  {
    if ts != [] {
      assert IsUntagged(ts[0]);
      NothingFound(ts[0].children, tag, if depth > 1 then depth - 1 else 0);
      NothingFound(ts[1..], tag, depth);
    }
  }

  /** A node that was found is found again, and has at most grown. */
  lemma {:induction false} FoundGrows(ts: seq<Tree>, us: seq<Tree>, tag: Tag, depth: nat)
    requires ChildrenGrow(ts, us) && tag != NoTag && Find(ts, tag, depth).Some?
    ensures Find(us, tag, depth).Some? && Grows(Find(ts, tag, depth).value, Find(us, tag, depth).value)
    decreases ts
  {
    var t, u := ts[0], us[0];
    if |ts| == 1 {
      assert Find(ts[1..], tag, depth) == None;
      if t != u {
        if t.text == "" && IsUntagged(t) {
          NothingFound(ts, tag, depth);
        } else if t.tag != tag {
          FoundGrows(t.children, u.children, tag, depth - 1);
        }
      }
    } else if t.tag != tag && (depth <= 1 || Find(t.children, tag, depth - 1).None?) {
      FoundGrows(ts[1..], us[1..], tag, depth);
    }
  }

  /** A reported call keeps its name, and its arguments only grow. */
  lemma GrownCallExtends(t: Tree, u: Tree)
    requires t.tag == Tool && Grows(t, u) && CallOf(t).Some?
    ensures CallOf(u).Some? && CallExtends(CallOf(t).value, CallOf(u).value)
    ensures CallOf(u).value.name == CallOf(t).value.name
  {
    if t != u {
      FoundGrows(t.children, u.children, ToolName, LOOKUP_DEPTH);
      FoundGrows(t.children, u.children, ToolArgs, LOOKUP_DEPTH);
      var args, args' :=
        Find(t.children, ToolArgs, LOOKUP_DEPTH).value, Find(u.children, ToolArgs, LOOKUP_DEPTH).value;
      FoundHasTag(t.children, ToolName, LOOKUP_DEPTH);
      FoundHasTag(t.children, ToolArgs, LOOKUP_DEPTH);
      if args != args' && args.children != [] {
        GrownFirstChild(args.children, args'.children);
      }
    }
  }

  lemma {:induction false} FoundHasTag(ts: seq<Tree>, tag: Tag, depth: nat)
    requires Find(ts, tag, depth).Some?
    ensures Find(ts, tag, depth).value.tag == tag
    decreases ts
  {
    if ts[0].tag != tag {
      if depth > 1 && Find(ts[0].children, tag, depth - 1).Some? {
        FoundHasTag(ts[0].children, tag, depth - 1);
      } else {
        FoundHasTag(ts[1..], tag, depth);
      }
    }
  }

  /** What a piece adds to a message. */
  predicate SameEffect(t: Tree, u: Tree) {
    t.tag == u.tag && (if t.tag == Tool then CallOf(t) == CallOf(u) else t.text == u.text)
  }

  /** The later pieces add what the earlier ones add, except that the last of these may have grown. */
  predicate ContinuesOn(ps: seq<Tree>, qs: seq<Tree>) {
    || ps == []
    || var n := |ps| - 1;
       && n < |qs|
       && (forall i :: 0 <= i < n ==> SameEffect(ps[i], qs[i]))
       && Grows(ps[n], qs[n])
  }

  /**
   A later parse continues an earlier one as far as the pieces go; the nodes around them, and those
   without effect, may come, go and change.
   */
  predicate Continues(ts: seq<Tree>, us: seq<Tree>) {
    ContinuesOn(PiecesOf(ts), PiecesOf(us))
  }

  lemma {:induction false} SameWalk(m: Message, ps: seq<Tree>, qs: seq<Tree>)
    requires |ps| == |qs| && forall i :: 0 <= i < |ps| ==> HasEffect(ps[i]) && SameEffect(ps[i], qs[i])
    ensures WalkEach(m, ps) == WalkEach(m, qs)
    decreases |ps|
  {
    if ps != [] {
      assert HasEffect(ps[0]) && SameEffect(ps[0], qs[0]);
      SameWalk(Walk(m, ps[0]), ps[1..], qs[1..]);
    }
  }

  lemma GrownPieceExtends(m: Message, t: Tree, u: Tree)
    requires HasEffect(t) && Grows(t, u)
    ensures Extends(Walk(m, t), Walk(m, u))
  {
    if t.tag == Tool {
      GrownCallExtends(t, u);
    }
  }

  lemma WalkHead(m: Message, t: Tree, ts: seq<Tree>)
    ensures WalkEach(m, [t] + ts) == WalkEach(Walk(m, t), ts)
  {
    assert ([t] + ts)[1..] == ts;
  }

  lemma LastPieceExtends(m: Message, t: Tree, u: Tree, more: seq<Tree>)
    requires HasEffect(t) && Grows(t, u) && forall i :: 0 <= i < |more| ==> HasEffect(more[i])
    ensures Extends(WalkEach(m, [t]), WalkEach(m, [u] + more))
  {
    assert [t] + [] == [t];
    WalkHead(m, t, []);
    WalkHead(m, u, more);
    GrownPieceExtends(m, t, u);
    MorePiecesExtend(Walk(m, u), more);
    ExtendsTransitive(Walk(m, t), Walk(m, u), WalkEach(Walk(m, u), more));
  }

  lemma ExtendsAfterFront(front: seq<Tree>, front': seq<Tree>, t: Tree, u: Tree, more: seq<Tree>)
    requires WalkEach(EMPTY_MESSAGE, front) == WalkEach(EMPTY_MESSAGE, front')
    requires HasEffect(t) && Grows(t, u) && forall i :: 0 <= i < |more| ==> HasEffect(more[i])
    ensures Extends(MessageOf(front + [t]), MessageOf(front' + ([u] + more)))
  {
    WalkEachConcat(EMPTY_MESSAGE, front, [t]);
    WalkEachConcat(EMPTY_MESSAGE, front', [u] + more);
    LastPieceExtends(WalkEach(EMPTY_MESSAGE, front), t, u, more);
  }

  lemma ContinuedPiecesExtend(ps: seq<Tree>, qs: seq<Tree>)
    requires forall i :: 0 <= i < |ps| ==> HasEffect(ps[i])
    requires forall i :: 0 <= i < |qs| ==> HasEffect(qs[i])
    requires ContinuesOn(ps, qs)
    ensures Extends(MessageOf(ps), MessageOf(qs))
  {
    if ps == [] {
      MorePiecesExtend(EMPTY_MESSAGE, qs);
    } else {
      var n := |ps| - 1;
      var front, front', more := ps[..n], qs[..n], qs[n + 1..];
      AroundElement(ps, n);
      AroundElement(qs, n);
      SameWalk(EMPTY_MESSAGE, front, front');
      ExtendsAfterFront(front, front', ps[n], qs[n], more);
    }
  }

  /**
   Two parses of a growing output, the later one continuing the earlier one: the later message
   extends the earlier one, so the differ does not throw and its deltas rebuild it.
   */
  lemma ContinuedParseExtends(ts: seq<Tree>, us: seq<Tree>)
    requires Continues(ts, us)
    ensures Extends(MessageOf(ts), MessageOf(us))
    ensures Diffs(MessageOf(ts), MessageOf(us)).Ok?
    ensures ApplyAll(MessageOf(ts), Diffs(MessageOf(ts), MessageOf(us)).value) == MessageOf(us)
  {
    PiecesSuffice(EMPTY_MESSAGE, ts);
    PiecesSuffice(EMPTY_MESSAGE, us);
    PiecesOfArePieces(ts);
    PiecesOfArePieces(us);
    ContinuedPiecesExtend(PiecesOf(ts), PiecesOf(us));
    DeltasRebuildIff(MessageOf(ts), MessageOf(us));
  }

  // ---------- Trees that grow as a whole ----------

  lemma PrefixContinues(front: seq<Tree>, ps: seq<Tree>, qs: seq<Tree>, more: seq<Tree>)
    requires ContinuesOn(ps, qs)
    ensures ContinuesOn(front + ps, front + (qs + more))
  {
    if ps == [] {
      assert front + ps == front;
      assert forall i :: 0 <= i < |front| ==> (front + (qs + more))[i] == front[i];
    } else {
      var n := |ps| - 1;
      forall i | 0 <= i < |front| + n
        ensures SameEffect((front + ps)[i], (front + (qs + more))[i])
      {
        if i >= |front| {
          assert SameEffect(ps[i - |front|], qs[i - |front|]);
        }
      }
      assert (front + ps)[|front| + n] == ps[n] && (front + (qs + more))[|front| + n] == qs[n];
    }
  }

  lemma SameContinues(ps: seq<Tree>)
    ensures ContinuesOn(ps, ps)
  {
  }

  lemma {:induction false} NoPieces(t: Tree)
    requires IsUntagged(t)
    ensures Pieces(t) == []
    decreases t, 1
  {
    NoPiecesOf(t.children);
  }

  lemma {:induction false} NoPiecesOf(ts: seq<Tree>)
    requires forall i :: 0 <= i < |ts| ==> IsUntagged(ts[i])
    ensures PiecesOf(ts) == []
    decreases ts, 0
  {
    if ts != [] {
      assert IsUntagged(ts[0]);
      NoPieces(ts[0]);
      NoPiecesOf(ts[1..]);
    }
  }

  lemma {:induction false} GrownTreeContinues(t: Tree, u: Tree)
    requires Grows(t, u)
    ensures ContinuesOn(Pieces(t), Pieces(u))
    decreases t, 1
  {
    if t == u {
      SameContinues(Pieces(t));
    } else if t.text == "" && IsUntagged(t) {
      NoPieces(t);
    } else if HasEffect(t) {
      if t.tag == Tool {
        GrownCallExtends(t, u);
      }
    } else if !IsPiece(t) {
      GrownTreesContinue(t.children, u.children);
    }
  }

  /** Where all roots but the last stay and that one grows, the parse continues. */
  lemma {:induction false} GrownTreesContinue(ts: seq<Tree>, us: seq<Tree>)
    requires ChildrenGrow(ts, us)
    ensures Continues(ts, us)
    decreases ts, 0
  {
    if ts != [] {
      var more := PiecesOf(us[1..]);
      if |ts| == 1 {
        GrownTreeContinues(ts[0], us[0]);
        PrefixContinues([], Pieces(ts[0]), Pieces(us[0]), more);
        assert PiecesOf(ts[1..]) == [];
        assert [] + Pieces(ts[0]) == PiecesOf(ts) && [] + (Pieces(us[0]) + more) == PiecesOf(us);
      } else {
        GrownTreesContinue(ts[1..], us[1..]);
        PrefixContinues(Pieces(ts[0]), PiecesOf(ts[1..]), more, []);
        assert more + [] == more;
      }
    }
  }

  // ---------- A whole stream ----------

  function Messages(parses: seq<seq<Tree>>): (ms: seq<Message>)
    ensures |ms| == |parses|
    ensures forall i :: 0 <= i < |parses| ==> ms[i] == MessageOf(parses[i])
  {
    if parses == [] then [] else Messages(parses[..|parses| - 1]) + [MessageOf(parses[|parses| - 1])]
  }

  /**
   For any stream of parses of which each continues the one before, a client that starts from
   nothing and applies every delta ends with the message of the last parse.
   */
  lemma {:induction false} StreamReachesClient(parses: seq<seq<Tree>>)
    requires parses != []
    requires forall i :: 0 <= i < |parses| - 1 ==> Continues(parses[i], parses[i + 1])
    ensures Follow(EMPTY_MESSAGE, [EMPTY_MESSAGE] + Messages(parses)) == Some(MessageOf(parses[|parses| - 1]))
  {
    var ms := Messages(parses);
    forall i | 0 <= i < |ms| - 1
      ensures Extends(ms[i], ms[i + 1])
    {
      ContinuedParseExtends(parses[i], parses[i + 1]);
    }
    ChainRebuilds(ms);
  }
}
