/**
 `segmentize_markers`: text is cut into markers, from an opener to its closer, and what stands
 between them. There is exactly one way to do that.
 */
module Segmentation {
  import opened Base

  // ---------- Segments ----------

  datatype Kind = Text | Marker

  datatype Segment = Segment(kind: Kind, value: string)

  predicate IsOpener(c: char) {
    c == '<' || c == '['
  }

  predicate IsCloser(opener: char, c: char) {
    (opener == '<' && c == '>') || (opener == '[' && c == ']')
  }

  function TextSegment(s: string): seq<Segment> {
    if s == "" then [] else [Segment(Text, s)]
  }

  /** Segments of `current + rest`, where `current` is not cut yet and may be an open marker. */
  function SegmentsFrom(current: string, marker: Option<char>, rest: string): seq<Segment>
    decreases |rest|
  {
    if rest == "" then TextSegment(current)
    else
      var c := rest[0];
      if marker.None? && IsOpener(c) then TextSegment(current) + SegmentsFrom([c], Some(c), rest[1..])
      else if marker.Some? && IsCloser(marker.value, c) then
        [Segment(Marker, current + [c])] + SegmentsFrom("", None, rest[1..])
      else SegmentsFrom(current + [c], marker, rest[1..])
  }

  function Segments(text: string): seq<Segment> {
    SegmentsFrom("", None, text)
  }

  /** `segments` is the result for the text before `border`; what follows up to `cur` is not cut yet. */
  ghost predicate Cut(text: string, segments: seq<Segment>, border: nat, cur: nat, marker: Option<char>) {
    && border <= cur <= |text|
    && Segments(text) == segments + SegmentsFrom(text[border..cur], marker, text[cur..])
  }

  lemma CutStep(text: string, segments: seq<Segment>, border: nat, cur: nat, marker: Option<char>)
    requires Cut(text, segments, border, cur, marker) && cur < |text|
    ensures var c := text[cur];
            if marker.None? && IsOpener(c) then Cut(text, segments + TextSegment(text[border..cur]), cur, cur + 1, Some(c))
            else if marker.Some? && IsCloser(marker.value, c) then
              Cut(text, segments + [Segment(Marker, text[border..cur + 1])], cur + 1, cur + 1, None)
            else Cut(text, segments, border, cur + 1, marker)
  {
    assert text[cur..][1..] == text[cur + 1..];
    assert text[border..cur] + [text[cur]] == text[border..cur + 1];
    assert text[cur..cur + 1] == [text[cur]] && text[cur + 1..cur + 1] == "";
  }

  method SegmentizeMarkers(text: string) returns (segments: seq<Segment>)
    ensures segments == Segments(text)
  {
    segments := [];
    var inMarker, opener, lastBorder := false, '\0', 0;
    assert text[0..0] == "" && text[0..] == text;
    for cur := 0 to |text|
      invariant 0 <= lastBorder && Cut(text, segments, lastBorder, cur, if inMarker then Some(opener) else None)
    {
      CutStep(text, segments, lastBorder, cur, if inMarker then Some(opener) else None);
      if !inMarker && IsOpener(text[cur]) {
        assert lastBorder == cur ==> segments + [] == segments;
        if lastBorder < cur {
          segments := segments + [Segment(Text, text[lastBorder..cur])];
        }
        lastBorder := cur;
        inMarker := true;
        opener := text[cur];
      } else if inMarker && IsCloser(opener, text[cur]) {
        segments := segments + [Segment(Marker, text[lastBorder..cur + 1])];
        lastBorder := cur + 1;
        inMarker := false;
        opener := '\0';
      }
    }
    assert lastBorder == |text| ==> segments + [] == segments;
    assert text[lastBorder..|text|] == text[lastBorder..];
    if lastBorder < |text| {
      segments := segments + [Segment(Text, text[lastBorder..])];
    }
  }

  function Cat(segments: seq<Segment>): string {
    if segments == [] then "" else segments[0].value + Cat(segments[1..])
  }

  lemma {:induction false} CatConcat(a: seq<Segment>, b: seq<Segment>)
    ensures Cat(a + b) == Cat(a) + Cat(b)
  {
    if a == [] {
      assert a + b == b;
    } else {
      assert (a + b)[1..] == a[1..] + b;
      CatConcat(a[1..], b);
    }
  }

  predicate IsSegment(s: Segment) {
    && s.value != ""
    && (s.kind == Marker ==> |s.value| >= 2 && IsOpener(s.value[0]) && IsCloser(s.value[0], s.value[|s.value| - 1]))
  }

  lemma CatText(s: string, more: seq<Segment>)
    ensures Cat(TextSegment(s) + more) == s + Cat(more)
  {
    CatConcat(TextSegment(s), more);
    assert Cat(TextSegment(s)) == s;
  }

  lemma HeadAndRest(a: string, c: char, rest: string)
    ensures a + [c] + rest == a + ([c] + rest)
  {
  }

  /** Segmentation loses nothing. */
  lemma {:induction false} SegmentsConserve(current: string, marker: Option<char>, rest: string)
    ensures Cat(SegmentsFrom(current, marker, rest)) == current + rest
    decreases |rest|
  {
    if rest == "" {
      CatText(current, []);
    } else {
      var c, tail := rest[0], rest[1..];
      HeadAndRest(current, c, tail);
      assert [c] + tail == rest && "" + tail == tail;
      SegmentsConserve([c], Some(c), tail);
      SegmentsConserve("", None, tail);
      SegmentsConserve(current + [c], marker, tail);
      CatText(current, SegmentsFrom([c], Some(c), tail));
      assert ([Segment(Marker, current + [c])] + SegmentsFrom("", None, tail))[1..] == SegmentsFrom("", None, tail);
    }
  }

  /** No segment is empty, and a marker runs from an opener to its closer. */
  lemma {:induction false} SegmentsFormed(current: string, marker: Option<char>, rest: string)
    requires marker.Some? ==> current != "" && current[0] == marker.value && IsOpener(marker.value)
    ensures forall s :: s in SegmentsFrom(current, marker, rest) ==> IsSegment(s)
    decreases |rest|
  {
    if rest != "" {
      var c := rest[0];
      if marker.None? && IsOpener(c) {
        SegmentsFormed([c], Some(c), rest[1..]);
      } else if marker.Some? && IsCloser(marker.value, c) {
        SegmentsFormed("", None, rest[1..]);
      } else {
        SegmentsFormed(current + [c], marker, rest[1..]);
      }
    }
  }

  // ---------- There is no other way to cut ----------

  function CloserOf(opener: char): char {
    if opener == '<' then '>' else ']'
  }

  /** From an opener to the first closer of its kind. */
  predicate IsWholeMarker(v: string) {
    && |v| >= 2
    && (v[0] == '<' || v[0] == '[')
    && v[|v| - 1] == CloserOf(v[0])
    && CloserOf(v[0]) !in v[..|v| - 1]
  }

  /** An opener whose closer is missing, up to the end of the text. */
  predicate IsUnclosed(v: string) {
    v != "" && (v[0] == '<' || v[0] == '[') && CloserOf(v[0]) !in v
  }

  predicate HasNoOpener(v: string) {
    '<' !in v && '[' !in v
  }

  predicate StartsWithOpener(segments: seq<Segment>) {
    segments != [] && segments[0].value != "" && (segments[0].value[0] == '<' || segments[0].value[0] == '[')
  }

  /**
   Whole markers, with text between them that opens none; if an opener is not closed, the rest of
   the text starts there.
   */
  predicate IsCut(segments: seq<Segment>) {
    if segments == [] then true
    else
      var s, more := segments[0], segments[1..];
      if s.kind == Marker then IsWholeMarker(s.value) && IsCut(more)
      else if IsUnclosed(s.value) then more == []
      else s.value != "" && HasNoOpener(s.value) && (more == [] || StartsWithOpener(more)) && IsCut(more)
  }

  lemma CutAhead(s: Segment, more: seq<Segment>)
    ensures ([s] + more)[0] == s && ([s] + more)[1..] == more
  {
  }

  lemma InAppended(v: string, c: char, d: char)
    ensures d in v + [c] <==> d in v || d == c
  {
  }

  lemma UnclosedGrows(current: string, c: char)
    requires IsUnclosed(current) && c != CloserOf(current[0])
    ensures IsUnclosed(current + [c]) && (current + [c])[0] == current[0]
  {
    InAppended(current, c, CloserOf(current[0]));
  }

  lemma UnclosedCloses(current: string)
    requires IsUnclosed(current)
    ensures IsWholeMarker(current + [CloserOf(current[0])])
  {
    var v := current + [CloserOf(current[0])];
    assert v[0] == current[0] && v[..|v| - 1] == current;
  }

  lemma PlainGrows(current: string, c: char)
    requires HasNoOpener(current) && !IsOpener(c)
    ensures HasNoOpener(current + [c])
  {
    InAppended(current, c, '<');
    InAppended(current, c, '[');
  }

  lemma TextAhead(current: string, more: seq<Segment>)
    requires HasNoOpener(current) && StartsWithOpener(more) && IsCut(more)
    ensures IsCut(TextSegment(current) + more)
  {
    if current == "" {
      assert [] + more == more;
    } else {
      assert current[0] in current;
      CutAhead(Segment(Text, current), more);
    }
  }

  lemma {:induction false} SegmentsAreCut(current: string, marker: Option<char>, rest: string)
    requires if marker.None? then HasNoOpener(current) else IsUnclosed(current) && current[0] == marker.value
    ensures IsCut(SegmentsFrom(current, marker, rest))
    ensures marker.Some? ==> StartsWithOpener(SegmentsFrom(current, marker, rest))
    decreases |rest|
  {
    if rest == "" {
      assert current != "" ==> current[0] in current;
    } else {
      var c, tail := rest[0], rest[1..];
      if marker.None? && IsOpener(c) {
        SegmentsAreCut([c], Some(c), tail);
        TextAhead(current, SegmentsFrom([c], Some(c), tail));
      } else if marker.Some? && IsCloser(marker.value, c) {
        SegmentsAreCut("", None, tail);
        UnclosedCloses(current);
        CutAhead(Segment(Marker, current + [c]), SegmentsFrom("", None, tail));
      } else {
        if marker.None? {
          PlainGrows(current, c);
        } else {
          UnclosedGrows(current, c);
        }
        SegmentsAreCut(current + [c], marker, tail);
      }
    }
  }

  /** Characters that neither open nor close are taken over one by one. */
  lemma {:induction false} TakenOver(current: string, marker: Option<char>, v: string, more: string)
    requires if marker.None? then HasNoOpener(v) else CloserOf(marker.value) !in v && IsOpener(marker.value)
    ensures SegmentsFrom(current, marker, v + more) == SegmentsFrom(current + v, marker, more)
    decreases |v|
  {
    if v == "" {
      assert v + more == more && current + v == current;
    } else {
      assert (v + more)[0] == v[0] && (v + more)[1..] == v[1..] + more;
      TakenOver(current + [v[0]], marker, v[1..], more);
      assert current + [v[0]] + v[1..] == current + v;
    }
  }

  lemma OpenedAt(current: string, v: string, more: string)
    requires v != "" && IsOpener(v[0])
    ensures SegmentsFrom(current, None, v + more)
         == TextSegment(current) + SegmentsFrom([v[0]], Some(v[0]), v[1..] + more)
  {
    assert (v + more)[0] == v[0] && (v + more)[1..] == v[1..] + more;
  }

  lemma WholeMarkerCut(v: string, more: string)
    requires IsWholeMarker(v)
    ensures Segments(v + more) == [Segment(Marker, v)] + Segments(more)
  {
    var inner, close := v[1..|v| - 1], v[|v| - 1..];
    var rest := close + more;
    OpenedAt("", v, more);
    assert v[1..] + more == inner + rest;
    assert CloserOf(v[0]) !in inner by {
      assert forall c :: c in inner ==> c in v[..|v| - 1];
    }
    TakenOver([v[0]], Some(v[0]), inner, rest);
    assert [v[0]] + inner == v[..|v| - 1];
    assert rest[0] == v[|v| - 1] && rest[1..] == more;
    assert v[..|v| - 1] + [v[|v| - 1]] == v;
  }

  lemma UnclosedCut(v: string)
    requires IsUnclosed(v)
    ensures Segments(v) == [Segment(Text, v)]
  {
    OpenedAt("", v, "");
    assert v + "" == v && v[1..] + "" == v[1..];
    assert forall c :: c in v[1..] ==> c in v;
    TakenOver([v[0]], Some(v[0]), v[1..], "");
    assert [v[0]] + v[1..] == v;
  }

  lemma PlainCut(v: string, more: string)
    requires v != "" && HasNoOpener(v) && (more == "" || IsOpener(more[0]))
    ensures Segments(v + more) == [Segment(Text, v)] + Segments(more)
  {
    TakenOver("", None, v, more);
    assert "" + v == v;
    if more != "" {
      OpenedAt(v, more, "");
      OpenedAt("", more, "");
      assert more + "" == more;
    }
  }

  lemma {:induction false} CutIsForced(segments: seq<Segment>)
    requires IsCut(segments)
    ensures Segments(Cat(segments)) == segments
  {
    if segments != [] {
      var s, more := segments[0], segments[1..];
      assert segments == [s] + more;
      CutIsForced(more);
      if s.kind == Marker {
        WholeMarkerCut(s.value, Cat(more));
      } else if IsUnclosed(s.value) {
        UnclosedCut(s.value);
        assert s.value + "" == s.value;
      } else {
        PlainCut(s.value, Cat(more));
      }
    }
  }

  /** A list of segments is that of the text exactly if it is cut in this way and nothing is lost. */
  lemma SegmentsIff(text: string, segments: seq<Segment>)
    ensures segments == Segments(text) <==> IsCut(segments) && Cat(segments) == text
  {
    SegmentsAreCut("", None, text);
    SegmentsConserve("", None, text);
    assert "" + text == text;
    if IsCut(segments) {
      CutIsForced(segments);
    }
  }
}
