/**
 `gemma4_to_json`: prints a (possibly partial) Gemma 4 argument tree as JSON. A complete tree
 reads back as itself exactly when each of its strings has a content node and no scalar is
 followed by white space that JSON does not know; the text printed for a partial tree is a
 prefix of what is printed once the tree has grown.
 */
module GemmaJson {
  import opened Base
  import opened Json
  import opened ReaderLimits

  datatype Rule =
    | StringContent | StringRule | Number | Boolean | Null | Array
    | DictKeyName | DictKey | DictKv | Dict | ValueRule | OtherRule

  /** The tags the walk over a parse asks for. */
  datatype Tag = NoTag | Reasoning | Content | Tool | ToolName | ToolArgs

  /** A node of a parse: of a rule or of a tag, with the text it has matched. */
  datatype Tree = Tree(rule: Rule, tag: Tag, text: string, partial: bool, children: seq<Tree>)

  predicate IsScalarRule(r: Rule) {
    r == Number || r == Boolean || r == Null
  }

  function ToJson(t: Tree): string
    decreases t, 1
  {
    if t.text == "" then ""
    else if IsScalarRule(t.rule) then t.text
    else match t.rule
      case StringContent => Escape(t.text)
      case StringRule =>
        if t.children == [] then "\"" else "\"" + ToJson(t.children[0]) + (if t.partial then "" else "\"")
      case Array => "[" + Join(ToJsonEach(t.children)) + (if t.partial then "" else "]")
      case DictKeyName => t.text
      case DictKey =>
        "\"" + (if t.children == [] then "" else Escape(ToJson(t.children[0]))) + (if t.partial then "" else "\":")
      case DictKv => Concat(ToJsonEach(t.children))
      case Dict => "{" + Join(ToJsonEach(t.children)) + (if t.partial then "" else "}")
      case ValueRule => if t.children == [] then "" else ToJson(t.children[0])
      case _ => ""
  }

  function ToJsonEach(ts: seq<Tree>): (texts: seq<string>)
    ensures |texts| == |ts|
    ensures forall i :: 0 <= i < |ts| ==> texts[i] == ToJson(ts[i])
    decreases ts, 0
  {
    if ts == [] then [] else [ToJson(ts[0])] + ToJsonEach(ts[1..])
  }

  function Concat(texts: seq<string>): string {
    if texts == [] then "" else texts[0] + Concat(texts[1..])
  }

  lemma {:induction false} ConcatAppend(texts: seq<string>, text: string)
    ensures Concat(texts + [text]) == Concat(texts) + text
  {
    if texts == [] {
      assert [text][1..] == [] && "" + text == text && text + "" == text;
    } else {
      assert (texts + [text])[1..] == texts[1..] + [text];
      ConcatAppend(texts[1..], text);
      Associative(texts[0], Concat(texts[1..]), text);
    }
  }

  lemma NextText(ts: seq<Tree>, i: nat)
    requires i < |ts|
    ensures ToJsonEach(ts[..i + 1]) == ToJsonEach(ts[..i]) + [ToJson(ts[i])]
  {
    assert ts[..i + 1][..i] == ts[..i];
  }

  /** The loop over the children of an array or a dictionary, with its flag for the comma. */
  method PrintJoined(ts: seq<Tree>) returns (result: string)
    ensures result == Join(ToJsonEach(ts))
    decreases ts, 0
  {
    result := "";
    var addComma := false;
    for i := 0 to |ts|
      invariant result == Join(ToJsonEach(ts[..i]))
      invariant addComma <==> i > 0
    {
      NextText(ts, i);
      JoinAppend(ToJsonEach(ts[..i]), ToJson(ts[i]));
      if addComma {
        result := result + ",";
      }
      addComma := true;
      var text := Print(ts[i]);
      result := result + text;
    }
    assert ts[..|ts|] == ts;
  }

  /** The loop over the key and the value of a member. */
  method PrintConcatenated(ts: seq<Tree>) returns (result: string)
    ensures result == Concat(ToJsonEach(ts))
    decreases ts, 0
  {
    result := "";
    for i := 0 to |ts|
      invariant result == Concat(ToJsonEach(ts[..i]))
    {
      NextText(ts, i);
      ConcatAppend(ToJsonEach(ts[..i]), ToJson(ts[i]));
      var text := Print(ts[i]);
      result := result + text;
    }
    assert ts[..|ts|] == ts;
  }

  method Print(t: Tree) returns (result: string)
    ensures result == ToJson(t)
    decreases t, 1
  {
    if t.text == "" {
      return "";
    }
    if IsScalarRule(t.rule) || t.rule == DictKeyName {
      return t.text;
    }
    var inner := "";
    if t.rule == Array || t.rule == Dict {
      inner := PrintJoined(t.children);
    } else if t.rule == DictKv {
      inner := PrintConcatenated(t.children);
    } else if t.children != [] {
      inner := Print(t.children[0]);
    }
    match t.rule {
      case StringContent => result := Escape(t.text);
      case StringRule =>
        result := "\"";
        if t.children != [] {
          result := result + inner;
          if !t.partial {
            result := result + "\"";
          }
        }
      case Array => result := "[" + inner + (if t.partial then "" else "]");
      case DictKey =>
        result := "\"" + (if t.children == [] then "" else Escape(inner));
        if !t.partial {
          result := result + "\":";
        }
      case DictKv => result := inner;
      case Dict => result := "{" + inner + (if t.partial then "" else "}");
      case ValueRule => result := inner;
      case _ => result := "";
    }
  }

  // ---------- Complete trees and what they mean ----------

  /**
   The grammar's shape for a complete value, array, dictionary, scalar or string. The rules for
   scalars end in `space()`, so white space behind a scalar is part of its text.
   */
  predicate IsComplete(t: Tree)
    decreases t, 1
  {
    && !t.partial
    && t.text != ""
    && match t.rule
       case Number => IsScalar(TrimEnd(t.text))
       case Boolean => IsScalar(TrimEnd(t.text))
       case Null => IsScalar(TrimEnd(t.text))
       case StringRule => t.children == [] || (|t.children| == 1 && t.children[0].rule == StringContent)
       case Array => AreComplete(t.children)
       case Dict => AreMembers(t.children)
       case ValueRule => |t.children| == 1 && t.children[0].rule != ValueRule && IsComplete(t.children[0])
       case _ => false
  }

  predicate AreComplete(ts: seq<Tree>)
    decreases ts, 0
  {
    ts == [] || (IsComplete(ts[0]) && AreComplete(ts[1..]))
  }

  /** A key node over its name, then a value. */
  predicate IsMember(t: Tree)
    decreases t, 1
  {
    && !t.partial
    && t.text != ""
    && t.rule == DictKv
    && |t.children| == 2
    && IsKey(t.children[0])
    && IsComplete(t.children[1])
  }

  predicate IsKey(t: Tree) {
    !t.partial && t.text != "" && t.rule == DictKey && |t.children| == 1 && t.children[0].rule == DictKeyName
  }

  predicate AreMembers(ts: seq<Tree>)
    decreases ts, 0
  {
    ts == [] || (IsMember(ts[0]) && AreMembers(ts[1..]))
  }

  function Meaning(t: Tree): Json
    requires IsComplete(t)
    decreases t, 1
  {
    if IsScalarRule(t.rule) then Scalar(TrimEnd(t.text))
    else if t.rule == StringRule then Str(if t.children == [] then "" else t.children[0].text)
    else if t.rule == Array then Arr(Meanings(t.children))
    else if t.rule == Dict then Obj(MemberMeanings(t.children))
    else Meaning(t.children[0])
  }

  function Meanings(ts: seq<Tree>): (vs: seq<Json>)
    requires AreComplete(ts)
    ensures |vs| == |ts|
    decreases ts, 0
  {
    if ts == [] then [] else [Meaning(ts[0])] + Meanings(ts[1..])
  }

  function MemberMeaning(t: Tree): (string, Json)
    requires IsMember(t)
    decreases t, 1
  {
    (t.children[0].children[0].text, Meaning(t.children[1]))
  }

  function MemberMeanings(ts: seq<Tree>): (ms: seq<(string, Json)>)
    requires AreMembers(ts)
    ensures |ms| == |ts|
    decreases ts, 0
  {
    if ts == [] then [] else [MemberMeaning(ts[0])] + MemberMeanings(ts[1..])
  }

  /** How many strings of the tree have no content node. */
  function Bare(t: Tree): nat
    requires IsComplete(t)
    decreases t, 1
  {
    if IsScalarRule(t.rule) then 0
    else if t.rule == StringRule then (if t.children == [] then 1 else 0)
    else if t.rule == Array then BareEach(t.children)
    else if t.rule == Dict then BareMembers(t.children)
    else Bare(t.children[0])
  }

  function BareEach(ts: seq<Tree>): nat
    requires AreComplete(ts)
    decreases ts, 0
  {
    if ts == [] then 0 else Bare(ts[0]) + BareEach(ts[1..])
  }

  function BareMember(t: Tree): nat
    requires IsMember(t)
    decreases t, 1
  {
    Bare(t.children[1])
  }

  function BareMembers(ts: seq<Tree>): nat
    requires AreMembers(ts)
    decreases ts, 0
  {
    if ts == [] then 0 else BareMember(ts[0]) + BareMembers(ts[1..])
  }

  /** JSON knows fewer white-space characters than `std::isspace`. */
  predicate PlainSpace(text: string) {
    forall i :: |TrimEnd(text)| <= i < |text| ==> IsWhite(text[i])
  }

  /** No scalar of the tree is followed by a vertical tab or a form feed. */
  predicate PlainSpaces(t: Tree)
    requires IsComplete(t)
    decreases t, 1
  {
    if IsScalarRule(t.rule) then PlainSpace(t.text)
    else if t.rule == StringRule then true
    else if t.rule == Array then PlainSpacesEach(t.children)
    else if t.rule == Dict then PlainSpacesMembers(t.children)
    else PlainSpaces(t.children[0])
  }

  predicate PlainSpacesEach(ts: seq<Tree>)
    requires AreComplete(ts)
    decreases ts, 0
  {
    ts == [] || (PlainSpaces(ts[0]) && PlainSpacesEach(ts[1..]))
  }

  predicate PlainSpacesMember(t: Tree)
    requires IsMember(t)
    decreases t, 1
  {
    PlainSpaces(t.children[1])
  }

  predicate PlainSpacesMembers(ts: seq<Tree>)
    requires AreMembers(ts)
    decreases ts, 0
  {
    ts == [] || (PlainSpacesMember(ts[0]) && PlainSpacesMembers(ts[1..]))
  }

  // ---------- Reading back ----------

  lemma ScalarTextReads(text: string)
    requires IsScalar(TrimEnd(text)) && PlainSpace(text)
    ensures Reads(text, Scalar(TrimEnd(text)))
  {
    var core := TrimEnd(text);
    var space := text[|core|..];
    assert text == core + space;
    forall c | c in space
      ensures IsWhite(c)
    {
      var i :| 0 <= i < |space| && space[i] == c;
      assert text[|core| + i] == c;
    }
    ReadsScalar(core, space);
  }

  lemma {:induction false} TreeReads(t: Tree)
    requires IsComplete(t) && Bare(t) == 0 && PlainSpaces(t)
    ensures Reads(ToJson(t), Meaning(t))
    decreases t, 1
  {
    if IsScalarRule(t.rule) {
      ScalarTextReads(t.text);
    } else if t.rule == StringRule {
      ReadsString(t.children[0].text);
    } else if t.rule == Array {
      TreesRead(t.children);
      ReadsArray(ToJsonEach(t.children), Meanings(t.children));
    } else if t.rule == Dict {
      MembersRead(t.children);
      ReadsObject(ToJsonEach(t.children), MemberMeanings(t.children));
    } else {
      TreeReads(t.children[0]);
    }
  }

  lemma {:induction false} TreesRead(ts: seq<Tree>)
    requires AreComplete(ts) && BareEach(ts) == 0 && PlainSpacesEach(ts)
    ensures forall i :: 0 <= i < |ts| ==> Reads(ToJsonEach(ts)[i], Meanings(ts)[i])
    decreases ts, 0
  {
    if ts != [] {
      TreeReads(ts[0]);
      TreesRead(ts[1..]);
    }
  }

  lemma MemberPrints(t: Tree)
    requires IsMember(t)
    ensures ToJson(t) == MemberText(MemberMeaning(t).0, ToJson(t.children[1]))
  {
    var key, value := t.children[0], t.children[1];
    assert t.children == [key, value];
    var texts := ToJsonEach(t.children);
    assert texts == [ToJson(key), ToJson(value)];
    assert Concat(texts[1..]) == ToJson(value);
    assert ToJson(key) == KeyColon(key.children[0].text);
  }

  lemma {:induction false} MembersRead(ts: seq<Tree>)
    requires AreMembers(ts) && BareMembers(ts) == 0 && PlainSpacesMembers(ts)
    ensures forall i :: 0 <= i < |ts| ==> ReadsMember(ToJsonEach(ts)[i], MemberMeanings(ts)[i])
    decreases ts, 0
  {
    if ts != [] {
      var m := MemberMeaning(ts[0]);
      TreeReads(ts[0].children[1]);
      MemberPrints(ts[0]);
      MemberReads(m.0, ToJson(ts[0].children[1]), m.1);
      MembersRead(ts[1..]);
    }
  }

  // ---------- The converse: what is printed otherwise is not read as the tree ----------

  lemma ScalarInk(text: string)
    requires IsScalar(TrimEnd(text)) && PlainSpace(text)
    ensures Ink(text) == Ink(TrimEnd(text))
  {
    var core := TrimEnd(text);
    assert text == core + text[|core|..];
    InkConcat(core, text[|core|..]);
    InkOfWhite(text[|core|..]);
  }

  /** The printed text has one character of ink too few for each bare string. */
  lemma {:induction false} PrintedInk(t: Tree)
    requires IsComplete(t) && PlainSpaces(t)
    ensures Ink(ToJson(t)) + Bare(t) == Shortest(Meaning(t))
    decreases t, 1
  {
    if IsScalarRule(t.rule) {
      ScalarInk(t.text);
    } else if t.rule == StringRule {
      if t.children != [] {
        FramedInk("\"", ToJson(t.children[0]), "\"");
        assert ToJson(t.children[0]) == Escape(t.children[0].text);
      }
    } else if t.rule == Array {
      PrintedInks(t.children);
      JoinInk(ToJsonEach(t.children));
      FramedInk("[", Join(ToJsonEach(t.children)), "]");
    } else if t.rule == Dict {
      PrintedMemberInks(t.children);
      JoinInk(ToJsonEach(t.children));
      FramedInk("{", Join(ToJsonEach(t.children)), "}");
    } else {
      PrintedInk(t.children[0]);
    }
  }

  lemma {:induction false} PrintedInks(ts: seq<Tree>)
    requires AreComplete(ts) && PlainSpacesEach(ts)
    ensures TotalInk(ToJsonEach(ts)) + BareEach(ts) == ShortestItems(Meanings(ts))
    decreases ts, 0
  {
    if ts != [] {
      PrintedInk(ts[0]);
      PrintedInks(ts[1..]);
      assert ToJsonEach(ts)[1..] == ToJsonEach(ts[1..]);
      assert Meanings(ts)[1..] == Meanings(ts[1..]);
    }
  }

  lemma MemberInk(key: string, part: string)
    ensures Ink(MemberText(key, part)) == Ink(Escape(key)) + 3 + Ink(part)
  {
    FramedInk("\"", Escape(key), "\"");
    InkConcat(KeyColon(key), part);
    InkConcat(Quoted(key), ":");
    InkOfInk(":", 1);
  }

  lemma {:induction false} PrintedMemberInks(ts: seq<Tree>)
    requires AreMembers(ts) && PlainSpacesMembers(ts)
    ensures TotalInk(ToJsonEach(ts)) + BareMembers(ts) == ShortestMembers(MemberMeanings(ts))
    decreases ts, 0
  {
    if ts != [] {
      PrintedInk(ts[0].children[1]);
      MemberPrints(ts[0]);
      MemberInk(MemberMeaning(ts[0]).0, ToJson(ts[0].children[1]));
      PrintedMemberInks(ts[1..]);
      assert ToJsonEach(ts)[1..] == ToJsonEach(ts[1..]);
      assert MemberMeanings(ts)[1..] == MemberMeanings(ts[1..]);
    }
  }

  lemma IllegalPart(left: string, part: string, right: string)
    requires !Legal(part)
    ensures !Legal(left + part + right)
  {
    var i :| 0 <= i < |part| && !IsLegal(part[i]);
    assert (left + part + right)[|left| + i] == part[i];
  }

  lemma {:induction false} IllegalJoin(texts: seq<string>, k: nat)
    requires k < |texts| && !Legal(texts[k])
    ensures !Legal(Join(texts))
  {
    if |texts| > 1 {
      if k == 0 {
        IllegalPart("", texts[0], "," + Join(texts[1..]));
        assert "" + texts[0] + ("," + Join(texts[1..])) == Join(texts);
      } else {
        IllegalJoin(texts[1..], k - 1);
        IllegalPart(texts[0] + ",", Join(texts[1..]), "");
        assert texts[0] + "," + Join(texts[1..]) + "" == Join(texts);
      }
    }
  }

  /** Other white space behind a scalar is a control character that no JSON text may contain. */
  lemma {:induction false} OddSpacePrints(t: Tree)
    requires IsComplete(t) && !PlainSpaces(t)
    ensures !Legal(ToJson(t))
    decreases t, 1
  {
    if IsScalarRule(t.rule) {
      var i :| |TrimEnd(t.text)| <= i < |t.text| && !IsWhite(t.text[i]);
      assert IsSpace(t.text[i]) && !IsLegal(t.text[i]);
    } else if t.rule == Array {
      var k := OddSpacesPrint(t.children);
      IllegalJoin(ToJsonEach(t.children), k);
      IllegalPart("[", Join(ToJsonEach(t.children)), "]");
    } else if t.rule == Dict {
      var k := OddMembersPrint(t.children);
      IllegalJoin(ToJsonEach(t.children), k);
      IllegalPart("{", Join(ToJsonEach(t.children)), "}");
    } else {
      OddSpacePrints(t.children[0]);
    }
  }

  lemma {:induction false} OddSpacesPrint(ts: seq<Tree>) returns (k: nat)
    requires AreComplete(ts) && !PlainSpacesEach(ts)
    ensures k < |ts| && !Legal(ToJsonEach(ts)[k])
    decreases ts, 0
  {
    if !PlainSpaces(ts[0]) {
      OddSpacePrints(ts[0]);
      k := 0;
    } else {
      k := OddSpacesPrint(ts[1..]);
      k := k + 1;
    }
  }

  lemma {:induction false} OddMembersPrint(ts: seq<Tree>) returns (k: nat)
    requires AreMembers(ts) && !PlainSpacesMembers(ts)
    ensures k < |ts| && !Legal(ToJsonEach(ts)[k])
    decreases ts, 0
  {
    if !PlainSpacesMember(ts[0]) {
      var m := MemberMeaning(ts[0]);
      OddSpacePrints(ts[0].children[1]);
      MemberPrints(ts[0]);
      IllegalPart(KeyColon(m.0), ToJson(ts[0].children[1]), "");
      assert MemberText(m.0, ToJson(ts[0].children[1])) + "" == ToJson(ts[0]);
      k := 0;
    } else {
      k := OddMembersPrint(ts[1..]);
      k := k + 1;
    }
  }

  /**
   A complete tree reads back as itself exactly when each of its strings has a content node and
   no scalar is followed by white space that JSON does not know.
   */
  lemma ReadsBackIff(t: Tree)
    requires IsComplete(t)
    ensures ReadDocument(ToJson(t)) == Some(Meaning(t)) <==> Bare(t) == 0 && PlainSpaces(t)
  {
    var text := ToJson(t);
    if !PlainSpaces(t) {
      OddSpacePrints(t);
      if ReadDocument(text).Some? {
        ReadValueLegal(text);
      }
    } else if Bare(t) == 0 {
      TreeReads(t);
      ReadsDocument(text, Meaning(t));
    } else if ReadDocument(text).Some? {
      ReadValueInk(text);
      PrintedInk(t);
    }
  }

  /** The number 1 with a vertical tab behind it is printed as it is, which is no JSON. */
  lemma FailingSpace()
    ensures var t := Tree(Number, NoTag, ['1', 11 as char], false, []);
            IsComplete(t) && ReadDocument(ToJson(t)) == None
  {
    var t := Tree(Number, NoTag, ['1', 11 as char], false, []);
    assert t.text[..1] == ['1'];
    assert TrimEnd(t.text) == ['1'];
    OddSpacePrints(t);
    if ReadDocument(t.text).Some? {
      ReadValueLegal(t.text);
    }
  }

  // ---------- Growing trees ----------

  /** The nodes that print their end, or count as a name, only once they are complete. */
  predicate WaitsForItsEnd(t: Tree) {
    t.rule == StringRule || t.rule == Array || t.rule == DictKey || t.rule == Dict || t.tag == ToolName
  }

  predicate IsUntagged(t: Tree) {
    t.tag == NoTag && forall i :: 0 <= i < |t.children| ==> IsUntagged(t.children[i])
  }

  /**
   How a node may look once more input has been parsed: where nothing had matched there may be
   anything, and any other node keeps its kind and all its children but the last, which may have
   grown itself; there may be further children. A node that prints its end grows only while it is
   partial; names of keys, contents of strings, members and scalars grow after their parser has
   succeeded, too.
   */
  predicate Grows(t: Tree, u: Tree)
    decreases t, 1
  {
    || t == u
    || (t.text == "" && IsUntagged(t))
    || (t.rule == u.rule && t.tag == u.tag && t.text <= u.text && (WaitsForItsEnd(t) ==> t.partial)
        && ChildrenGrow(t.children, u.children))
  }

  predicate ChildrenGrow(ts: seq<Tree>, us: seq<Tree>)
    decreases ts, 0
  {
    || ts == []
    || (us != [] && (if |ts| == 1 then Grows(ts[0], us[0]) else ts[0] == us[0] && ChildrenGrow(ts[1..], us[1..])))
  }

  /** The text of a node that grows, given what its children print. */
  lemma GrownNodePrints(t: Tree, u: Tree)
    requires t.text != "" && t.rule == u.rule && t.text <= u.text && (WaitsForItsEnd(t) ==> t.partial)
    requires t.rule == StringContent ==> Escape(t.text) <= Escape(u.text)
    requires t.rule == Array || t.rule == Dict ==> Join(ToJsonEach(t.children)) <= Join(ToJsonEach(u.children))
    requires t.rule == DictKv ==> Concat(ToJsonEach(t.children)) <= Concat(ToJsonEach(u.children))
    requires t.children != [] && (t.rule == StringRule || t.rule == ValueRule || t.rule == DictKey) ==>
               u.children != [] && ToJson(t.children[0]) <= ToJson(u.children[0])
    requires t.children != [] && t.rule == DictKey ==> Escape(ToJson(t.children[0])) <= Escape(ToJson(u.children[0]))
    ensures ToJson(t) <= ToJson(u)
  {
  }

  lemma {:induction false} GrownTreePrints(t: Tree, u: Tree)
    requires Grows(t, u)
    ensures ToJson(t) <= ToJson(u)
    decreases t, 1
  {
    if t != u && t.text != "" {
      var ts, us := t.children, u.children;
      if t.rule == StringContent {
        EscapeMonotone(t.text, u.text);
      } else if t.rule == Array || t.rule == Dict {
        GrownChildrenJoin(ts, us);
      } else if t.rule == DictKv {
        GrownChildrenConcat(ts, us);
      } else if ts != [] {
        GrownFirstChild(ts, us);
        EscapeMonotone(ToJson(ts[0]), ToJson(us[0]));
      }
      GrownNodePrints(t, u);
    }
  }

  lemma {:induction false} GrownFirstChild(ts: seq<Tree>, us: seq<Tree>)
    requires ts != [] && ChildrenGrow(ts, us)
    ensures us != [] && ToJson(ts[0]) <= ToJson(us[0])
    decreases ts, 0
  {
    if |ts| == 1 {
      GrownTreePrints(ts[0], us[0]);
    }
  }

  lemma {:induction false} GrownChildrenJoin(ts: seq<Tree>, us: seq<Tree>)
    requires ChildrenGrow(ts, us)
    ensures Join(ToJsonEach(ts)) <= Join(ToJsonEach(us))
    decreases ts, 1
  {
    if ts != [] {
      GrownFirstChild(ts, us);
      if |ts| > 1 {
        GrownChildrenJoin(ts[1..], us[1..]);
      }
      assert ToJsonEach(us)[1..] == ToJsonEach(us[1..]) && ToJsonEach(ts)[1..] == ToJsonEach(ts[1..]);
    }
  }

  lemma {:induction false} GrownChildrenConcat(ts: seq<Tree>, us: seq<Tree>)
    requires ChildrenGrow(ts, us)
    ensures Concat(ToJsonEach(ts)) <= Concat(ToJsonEach(us))
    decreases ts, 1
  {
    if ts != [] {
      GrownFirstChild(ts, us);
      if |ts| > 1 {
        GrownChildrenConcat(ts[1..], us[1..]);
      }
      assert ToJsonEach(us)[1..] == ToJsonEach(us[1..]) && ToJsonEach(ts)[1..] == ToJsonEach(ts[1..]);
    }
  }

  // ---------- How much of a partial tree is printed ----------

  /** The same tree once it is complete, with nothing more in it. */
  function Finished(t: Tree): Tree
    decreases t, 1
  {
    t.(partial := false, children := FinishedEach(t.children))
  }

  function FinishedEach(ts: seq<Tree>): (us: seq<Tree>)
    ensures |us| == |ts|
    ensures forall i :: 0 <= i < |ts| ==> us[i] == Finished(ts[i])
    decreases ts, 0
  {
    if ts == [] then [] else [Finished(ts[0])] + FinishedEach(ts[1..])
  }

  /** Only nodes on the way to the end of the input are partial; below a key there is its name. */
  predicate IsOpen(t: Tree)
    decreases t, 1
  {
    && (t.rule == DictKey && t.children != [] ==> t.children[0].rule == DictKeyName)
    && if t.partial then AreOpen(t.children) else t == Finished(t)
  }

  predicate AreOpen(ts: seq<Tree>)
    decreases ts, 0
  {
    ts == [] || (if |ts| == 1 then IsOpen(ts[0]) else ts[0] == Finished(ts[0]) && AreOpen(ts[1..]))
  }

  /** Marks that end something. */
  predicate AreClosers(s: string) {
    forall i :: 0 <= i < |s| ==> s[i] in "\"]}:"
  }

  /** `more` is all that `a` lacks of `b`, and it only ends things. */
  predicate Lacks(a: string, b: string, more: string) {
    b == a + more && AreClosers(more)
  }

  lemma LacksAfter(head: string, a: string, b: string, more: string)
    requires Lacks(a, b, more)
    ensures Lacks(head + a, head + b, more)
  {
  }

  lemma LacksEnd(a: string, b: string, more: string, end: string)
    requires Lacks(a, b, more) && AreClosers(end)
    ensures Lacks(a, b + end, more + end)
  {
  }

  /** What a node prints is its opener, its inner text and, when it is complete, its ender. */
  function Inner(t: Tree): string {
    if t.rule == Array || t.rule == Dict then Join(ToJsonEach(t.children))
    else if t.rule == DictKv then Concat(ToJsonEach(t.children))
    else if t.children == [] then ""
    else if t.rule == DictKey then Escape(ToJson(t.children[0]))
    else ToJson(t.children[0])
  }

  function Opener(t: Tree): string {
    match t.rule
    case StringRule => "\""
    case DictKey => "\""
    case Array => "["
    case Dict => "{"
    case _ => ""
  }

  function Ender(t: Tree): string {
    match t.rule
    case StringRule => if t.children == [] then "" else "\""
    case DictKey => "\":"
    case Array => "]"
    case Dict => "}"
    case _ => ""
  }

  predicate PrintsInner(t: Tree) {
    || t.rule == StringRule || t.rule == Array || t.rule == Dict
    || t.rule == DictKey || t.rule == DictKv || t.rule == ValueRule
  }

  /** Other nodes: scalars and names print their text, the content of a string prints it escaped, the rest nothing. */
  lemma OthersPrint(t: Tree)
    requires t.text == "" || !PrintsInner(t)
    ensures t.text == "" || t.rule == OtherRule ==> ToJson(t) == ""
    ensures t.rule == StringContent ==> ToJson(t) == Escape(t.text)
    ensures t.rule == Number || t.rule == Boolean || t.rule == Null || t.rule == DictKeyName ==> ToJson(t) == t.text
  {
  }

  lemma PrintsParts(t: Tree)
    requires t.text != "" && PrintsInner(t)
    ensures ToJson(t) == Opener(t) + Inner(t) + (if t.partial then "" else Ender(t))
  {
  }

  lemma NodeLacks(t: Tree, u: Tree, more: string)
    requires t.text != "" && PrintsInner(t) && t.partial && !u.partial && u.text == t.text && u.rule == t.rule
    requires |u.children| == |t.children| && Lacks(Inner(t), Inner(u), more)
    ensures Lacks(ToJson(t), ToJson(u), more + Ender(u))
  {
    PrintsParts(t);
    PrintsParts(u);
    LacksAfter(Opener(t), Inner(t), Inner(u), more);
    LacksEnd(Opener(t) + Inner(t), Opener(u) + Inner(u), more, Ender(u));
    assert Opener(t) + Inner(t) + "" == Opener(t) + Inner(t);
  }

  /** A partial tree prints all that the same tree prints when it is complete, except for marks at its end. */
  lemma {:induction false} PartialLacksOnlyEnds(t: Tree) returns (more: string)
    requires IsOpen(t)
    ensures Lacks(ToJson(t), ToJson(Finished(t)), more)
    decreases t, 1
  {
    var u := Finished(t);
    more := "";
    assert ToJson(t) + "" == ToJson(t);
    if t.partial && t.text != "" && PrintsInner(t) {
      if t.rule == Array || t.rule == Dict {
        more := JoinedLacks(t.children);
      } else if t.rule == DictKv {
        more := ConcatenatedLacks(t.children);
      } else if t.children != [] {
        more := FirstLacks(t.children);
        if t.rule == DictKey {
          more := "";
          assert Inner(t) + "" == Inner(t);
        }
      }
      NodeLacks(t, u, more);
      more := more + Ender(u);
    }
  }

  lemma {:induction false} FirstLacks(ts: seq<Tree>) returns (more: string)
    requires ts != [] && AreOpen(ts)
    ensures Lacks(ToJson(ts[0]), ToJson(FinishedEach(ts)[0]), more)
    decreases ts, 0
  {
    if |ts| == 1 {
      more := PartialLacksOnlyEnds(ts[0]);
    } else {
      more := "";
      assert ToJson(ts[0]) + "" == ToJson(ts[0]);
    }
  }

  lemma {:induction false} JoinedLacks(ts: seq<Tree>) returns (more: string)
    requires AreOpen(ts)
    ensures Lacks(Join(ToJsonEach(ts)), Join(ToJsonEach(FinishedEach(ts))), more)
    decreases ts, 1
  {
    var us := FinishedEach(ts);
    if ts == [] {
      more := "";
    } else if |ts| == 1 {
      more := FirstLacks(ts);
    } else {
      more := JoinedLacks(ts[1..]);
      assert us[1..] == FinishedEach(ts[1..]);
      assert ToJsonEach(ts)[1..] == ToJsonEach(ts[1..]) && ToJsonEach(us)[1..] == ToJsonEach(us[1..]);
      LacksAfter(ToJson(ts[0]) + ",", Join(ToJsonEach(ts[1..])), Join(ToJsonEach(us[1..])), more);
    }
  }

  lemma {:induction false} ConcatenatedLacks(ts: seq<Tree>) returns (more: string)
    requires AreOpen(ts)
    ensures Lacks(Concat(ToJsonEach(ts)), Concat(ToJsonEach(FinishedEach(ts))), more)
    decreases ts, 1
  {
    var us := FinishedEach(ts);
    if ts == [] {
      more := "";
    } else if |ts| == 1 {
      more := FirstLacks(ts);
      assert ToJson(ts[0]) + "" == ToJson(ts[0]) && ToJson(us[0]) + "" == ToJson(us[0]);
      assert ToJsonEach(ts)[1..] == [] && ToJsonEach(us)[1..] == [];
    } else {
      more := ConcatenatedLacks(ts[1..]);
      assert us[1..] == FinishedEach(ts[1..]);
      assert ToJsonEach(ts)[1..] == ToJsonEach(ts[1..]) && ToJsonEach(us)[1..] == ToJsonEach(us[1..]);
      LacksAfter(ToJson(ts[0]), Concat(ToJsonEach(ts[1..])), Concat(ToJsonEach(us[1..])), more);
    }
  }
}
