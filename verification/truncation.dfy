/**
 The greedy, length-constrained truncation shared by both profile kinds.

 The input is walked one code point at a time; each code point is normalised
 on its own into a fragment, and the fragment is appended only while the
 running size stays within the limit. The first fragment that does not fit
 ends the walk, even if a later, smaller one would still fit. The size of a
 text is measured in the profile's unit: UTF-8 octets or code points.
 */
module Truncation {
  import opened Unicode
  import opened Outcomes
  import Utf8

  /** Size of a text in the given unit. */
  function Size(unit: Unit, t: seq<int>): nat {
    match unit
    case Bytes => Utf8.EncodedLength(t)
    case Characters => |t|
  }

  /** Sizes add up over concatenation, in both units. */
  lemma SizeAppend(unit: Unit, a: seq<int>, b: seq<int>)
    ensures Size(unit, a + b) == Size(unit, a) + Size(unit, b)
  {
    if unit == Bytes {
      Utf8.EncodedLengthAppend(a, b);
    }
  }

  /** The fragments of the first `k` code points of `s`, concatenated. */
  function Fragments(s: seq<int>, frag: int -> seq<int>, k: nat): seq<int>
    requires k <= |s|
  {
    if k == 0 then [] else Fragments(s, frag, k - 1) + frag(s[k - 1])
  }

  /** Fragments of valid code points that are themselves valid text concatenate to valid text. */
  lemma {:induction false} FragmentsText(s: seq<int>, frag: int -> seq<int>, k: nat)
    requires k <= |s|
    requires forall i :: 0 <= i < |s| ==> IsText(frag(s[i]))
    ensures IsText(Fragments(s, frag, k))
  {
    if k > 0 {
      FragmentsText(s, frag, k - 1);
    }
  }

  /** More code points never make the accumulated size smaller. */
  lemma {:induction false} FragmentsSizeMonotone(s: seq<int>, frag: int -> seq<int>, unit: Unit, k: nat, j: nat)
    requires k <= j <= |s|
    ensures Size(unit, Fragments(s, frag, k)) <= Size(unit, Fragments(s, frag, j))
    decreases j
  {
    if k < j {
      FragmentsSizeMonotone(s, frag, unit, k, j - 1);
      SizeAppend(unit, Fragments(s, frag, j - 1), frag(s[j - 1]));
    }
  }

  /** The outcome of a truncation: the kept text and how many input code points it covers. */
  datatype Cut = Cut(text: seq<int>, consumed: nat)

  /**
   Where the greedy walk must stop: the first `k` fragments fit, and either
   the input is exhausted or fragment `k` would overflow.
   */
  ghost predicate GreedyCut(s: seq<int>, frag: int -> seq<int>, unit: Unit, limit: nat, k: nat) {
    && k <= |s|
    && Size(unit, Fragments(s, frag, k)) <= limit
    && (k < |s| ==> Size(unit, Fragments(s, frag, k + 1)) > limit)
  }

  /**
   The walk from position `i` with accumulator `acc`. The requires are the
   loop invariant: the accumulator is the whole fragments of the first `i`
   code points and fits.
   */
  function TruncateFrom(s: seq<int>, frag: int -> seq<int>, unit: Unit, limit: nat, i: nat, acc: seq<int>): (r: Cut)
    requires i <= |s|
    requires acc == Fragments(s, frag, i)
    requires Size(unit, acc) <= limit
    ensures i <= r.consumed <= |s|
    ensures r.text == Fragments(s, frag, r.consumed)
    ensures Size(unit, r.text) <= limit
    ensures r.consumed < |s| ==> Size(unit, r.text + frag(s[r.consumed])) > limit
    decreases |s| - i
  {
    if i == |s| then
      Cut(acc, i)
    else
      var next := acc + frag(s[i]);
      if Size(unit, next) <= limit then TruncateFrom(s, frag, unit, limit, i + 1, next)
      else Cut(acc, i)
  }

  /**
   Greedy truncation of `s`: the result is whole fragments of a prefix of
   `s`, it fits within `limit`, and the walk stopped only because the input
   ran out or the next fragment would have overflowed.
   */
  function Truncate(s: seq<int>, frag: int -> seq<int>, unit: Unit, limit: nat): (r: Cut)
    ensures r.consumed <= |s|
    ensures r.text == Fragments(s, frag, r.consumed)
    ensures Size(unit, r.text) <= limit
    ensures r.consumed < |s| ==> Size(unit, r.text + frag(s[r.consumed])) > limit
  {
    TruncateFrom(s, frag, unit, limit, 0, [])
  }

  /**
   The stopping point is exactly the greedy cut: `Truncate` stops at `k`
   if and only if `k` is a position where the greedy walk must stop. There
   is only one such position.
   */
  lemma TruncateIsGreedyCut(s: seq<int>, frag: int -> seq<int>, unit: Unit, limit: nat, k: nat)
    ensures GreedyCut(s, frag, unit, limit, k) <==> k == Truncate(s, frag, unit, limit).consumed
  {
    var n := Truncate(s, frag, unit, limit).consumed;
    if GreedyCut(s, frag, unit, limit, k) && k != n {
      if k < n {
        FragmentsSizeMonotone(s, frag, unit, k + 1, n);
      } else {
        FragmentsSizeMonotone(s, frag, unit, n + 1, k);
      }
    }
  }

  /**
   Once a fragment fails, nothing after it is kept: no longer prefix of the
   input fits within the limit, so the cut is the longest prefix that fits.
   */
  lemma TruncateLongestFit(s: seq<int>, frag: int -> seq<int>, unit: Unit, limit: nat)
    ensures forall j :: Truncate(s, frag, unit, limit).consumed < j <= |s| ==>
      Size(unit, Fragments(s, frag, j)) > limit
  {
    var n := Truncate(s, frag, unit, limit).consumed;
    forall j | n < j <= |s|
      ensures Size(unit, Fragments(s, frag, j)) > limit
    {
      FragmentsSizeMonotone(s, frag, unit, n + 1, j);
    }
  }

  /** Truncation only looks at the fragments of the code points actually present. */
  lemma {:induction false} FragmentsCongruent(s: seq<int>, f1: int -> seq<int>, f2: int -> seq<int>, k: nat)
    requires k <= |s|
    requires forall i :: 0 <= i < |s| ==> f1(s[i]) == f2(s[i])
    ensures Fragments(s, f1, k) == Fragments(s, f2, k)
  {
    if k > 0 {
      FragmentsCongruent(s, f1, f2, k - 1);
    }
  }

  /** Two fragment functions that agree on the input's code points truncate it alike. */
  lemma TruncateCongruent(s: seq<int>, f1: int -> seq<int>, f2: int -> seq<int>, unit: Unit, limit: nat)
    requires forall i :: 0 <= i < |s| ==> f1(s[i]) == f2(s[i])
    ensures Truncate(s, f1, unit, limit) == Truncate(s, f2, unit, limit)
  {
    var r1, r2 := Truncate(s, f1, unit, limit), Truncate(s, f2, unit, limit);
    forall k | 0 <= k <= |s|
      ensures Fragments(s, f1, k) == Fragments(s, f2, k)
    {
      FragmentsCongruent(s, f1, f2, k);
    }
    TruncateIsGreedyCut(s, f1, unit, limit, r2.consumed);
  }

  /**
   The byte-limited walk exactly as the source performs it: fragments are
   encoded to UTF-8 and appended to an octet buffer while the buffer's
   length stays within the limit.
   */
  function TruncateBytesFrom(s: seq<int>, frag: int -> seq<int>, limit: nat, i: nat, buf: seq<Utf8.byte>): (r: seq<Utf8.byte>)
    requires i <= |s|
    requires forall j :: 0 <= j < |s| ==> IsText(frag(s[j]))
    ensures |buf| <= limit ==> |r| <= limit
    ensures buf <= r
    decreases |s| - i
  {
    if i == |s| then buf
    else
      var encoded := Utf8.Encode(frag(s[i]));
      if |buf + encoded| <= limit then TruncateBytesFrom(s, frag, limit, i + 1, buf + encoded)
      else buf
  }

  /** The octet buffer of the byte-limited walk, starting empty. */
  function TruncateBytes(s: seq<int>, frag: int -> seq<int>, limit: nat): (r: seq<Utf8.byte>)
    requires forall j :: 0 <= j < |s| ==> IsText(frag(s[j]))
    ensures |r| <= limit
  {
    TruncateBytesFrom(s, frag, limit, 0, [])
  }

  lemma {:induction false} TruncateBytesFromAgrees(s: seq<int>, frag: int -> seq<int>, limit: nat, i: nat)
    requires i <= |s|
    requires forall j :: 0 <= j < |s| ==> IsText(frag(s[j]))
    requires Size(Bytes, Fragments(s, frag, i)) <= limit
    ensures IsText(Fragments(s, frag, i))
    ensures IsText(TruncateFrom(s, frag, Bytes, limit, i, Fragments(s, frag, i)).text)
    ensures TruncateBytesFrom(s, frag, limit, i, Utf8.Encode(Fragments(s, frag, i)))
         == Utf8.Encode(TruncateFrom(s, frag, Bytes, limit, i, Fragments(s, frag, i)).text)
    decreases |s| - i
  {
    var acc := Fragments(s, frag, i);
    FragmentsText(s, frag, i);
    if i < |s| {
      var next := acc + frag(s[i]);
      Utf8.EncodeAppend(acc, frag(s[i]));
      if Size(Bytes, next) <= limit {
        TruncateBytesFromAgrees(s, frag, limit, i + 1);
      }
    }
  }

  /**
   The octet-buffer walk and the generic walk measured in bytes agree: the
   buffer is the UTF-8 encoding of the generic result, so it never ends in a
   split character and decodes back to exactly the kept fragments.
   */
  lemma TruncateBytesAgrees(s: seq<int>, frag: int -> seq<int>, limit: nat)
    requires forall j :: 0 <= j < |s| ==> IsText(frag(s[j]))
    ensures IsText(Truncate(s, frag, Bytes, limit).text)
    ensures TruncateBytes(s, frag, limit) == Utf8.Encode(Truncate(s, frag, Bytes, limit).text)
    ensures Utf8.Decode(TruncateBytes(s, frag, limit)) == Some(Truncate(s, frag, Bytes, limit).text)
  {
    TruncateBytesFromAgrees(s, frag, limit, 0);
    Utf8.DecodeEncode(Truncate(s, frag, Bytes, limit).text);
  }

  /**
   The walk stops at the first fragment that overflows even when a later one
   would fit: with a 3-octet limit, "aa€b" keeps "aa" and never reaches "b".
   */
  lemma GreedyStopExample()
    ensures Truncate([0x61, 0x61, 0x20AC, 0x62], c => [c], Bytes, 3) == Cut([0x61, 0x61], 2)
  {
    var s, frag := [0x61, 0x61, 0x20AC, 0x62], (c: int) => [c];
    assert Fragments(s, frag, 1) == [0x61];
    assert Fragments(s, frag, 2) == [0x61, 0x61];
    assert Fragments(s, frag, 3) == [0x61, 0x61, 0x20AC];
    assert Size(Bytes, [0x61, 0x61, 0x20AC]) == 5;
    TruncateIsGreedyCut(s, frag, Bytes, 3, 2);
  }
}
