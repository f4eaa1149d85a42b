/** `string_find_partial_stop`: where a stop word may have begun in text that is still growing. */
module PartialStop {
  import opened Base

  predicate EndsWith(str: string, suffix: string) {
    |str| >= |suffix| && str[|str| - |suffix|..] == suffix
  }

  /** The text from position p to its end is a non-empty beginning of the stop word. */
  predicate MayBegin(str: string, stop: string, p: nat) {
    p < |str| && str[p..] <= stop
  }

  lemma MayBeginWhenEndsWith(str: string, stop: string, len: nat)
    requires 0 < len <= |str| && len <= |stop|
    ensures MayBegin(str, stop, |str| - len) <==> EndsWith(str, stop[..len])
    ensures MayBegin(str, stop, |str| - len) ==> stop[len - 1] == str[|str| - 1]
  {
    var p := |str| - len;
    assert |str[p..]| == len;
    if str[p..] <= stop {
      assert str[p..][len - 1] == stop[len - 1];
    }
  }

  /** The first position where the stop word may have begun, or nothing when there is none. */
  method StringFindPartialStop(str: string, stop: string) returns (r: Option<nat>)
    ensures r.Some? ==> MayBegin(str, stop, r.value) && forall p :: 0 <= p < r.value ==> !MayBegin(str, stop, p)
    ensures r.None? ==> forall p: nat :: !MayBegin(str, stop, p)
  {
    if str != "" && stop != "" {
      var maxLen := if |str| < |stop| then |str| else |stop|;
      var lastChar := str[|str| - 1];
      var len := maxLen;
      while len > 0
        invariant 0 <= len <= maxLen
        invariant forall p :: 0 <= p < |str| - len ==> !MayBegin(str, stop, p)
      {
        MayBeginWhenEndsWith(str, stop, len);
        if stop[len - 1] == lastChar {
          if EndsWith(str, stop[..len]) {
            return Some(|str| - len);
          }
        }
        len := len - 1;
      }
    }
    return None;
  }

  predicate OccursAt(text: string, stop: string, p: nat) {
    p + |stop| <= |text| && text[p..p + |stop|] == stop
  }

  /** The stop word begins inside the text and, with some continuation, reaches or crosses its end. */
  ghost predicate Threatens(str: string, stop: string, p: nat) {
    p < |str| <= p + |stop| && exists more :: OccursAt(str + more, stop, p)
  }

  /**
   The positions the search looks for are exactly those that threaten, so what precedes its
   answer can be sent to the client, and what follows could still become the stop word.
   */
  lemma ThreatensIff(str: string, stop: string, p: nat)
    ensures Threatens(str, stop, p) <==> MayBegin(str, stop, p)
  {
    if Threatens(str, stop, p) {
      var more :| OccursAt(str + more, stop, p);
      assert str[p..] == (str + more)[p..p + |stop|][..|str| - p];
    }
    if MayBegin(str, stop, p) {
      var more := stop[|str| - p..];
      assert (str + more)[p..p + |stop|] == str[p..] + more == stop;
      assert OccursAt(str + more, stop, p);
    }
  }
}
