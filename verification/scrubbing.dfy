/**
 The scrub step: every illegal character of a profile is replaced by '_'.
 The source walks the illegal set in whatever order the set yields and calls
 `str.replace` once per character; `Scrub` takes that order as a sequence and
 `ScrubOrderIrrelevant` shows the order cannot matter.
 */
module Scrubbing {
  import opened Unicode

  /** `str.replace` for a single character: every `c` becomes `replacement`. */
  function Replace(s: seq<int>, c: int, replacement: int): (r: seq<int>)
    ensures |r| == |s|
    ensures forall i :: 0 <= i < |s| ==> r[i] == (if s[i] == c then replacement else s[i])
  {
    if s == [] then [] else [if s[0] == c then replacement else s[0]] + Replace(s[1..], c, replacement)
  }

  /**
   One `Replace(_, c, '_')` per character of `order`, in that order. Each
   position ends up '_' exactly when its character is listed, and is
   otherwise untouched; in particular the length is preserved.
   */
  function Scrub(s: seq<int>, order: seq<int>): (r: seq<int>)
    ensures |r| == |s|
    ensures forall i :: 0 <= i < |s| ==> r[i] == (if s[i] in order then Underscore else s[i])
    ensures Underscore !in order ==> forall i :: 0 <= i < |r| ==> r[i] !in order
    ensures IsText(s) ==> IsText(r)
    decreases |order|
  {
    if order == [] then s
    else Scrub(Replace(s, order[0], Underscore), order[1..])
  }

  /** Any two orders over the same set of characters scrub alike. */
  lemma ScrubOrderIrrelevant(s: seq<int>, o1: seq<int>, o2: seq<int>)
    requires forall c :: c in o1 <==> c in o2
    ensures Scrub(s, o1) == Scrub(s, o2)
  {
    var r1, r2 := Scrub(s, o1), Scrub(s, o2);
    assert forall i :: 0 <= i < |s| ==> r1[i] == r2[i];
  }
}
