/** `Array.prototype.filter` and what it means for a result to be drawn from its input. */
module Seqs {

  /** `idx` lists, in strictly increasing order, the positions of `s` that make up `r`. */
  ghost predicate IsEmbedding<T>(idx: seq<nat>, r: seq<T>, s: seq<T>) {
    && |idx| == |r|
    && (forall k | 0 <= k < |idx| :: idx[k] < |s| && r[k] == s[idx[k]])
    && (forall k, l | 0 <= k < l < |idx| :: idx[k] < idx[l])
  }

  /** `r` is obtained from `s` by deleting items: nothing added, duplicated or reordered. */
  ghost predicate IsSubsequence<T>(r: seq<T>, s: seq<T>) {
    exists idx: seq<nat> :: IsEmbedding(idx, r, s)
  }

  /** `s.filter(p)`: the items of `s` that satisfy `p`, in their original order. */
  function Filter<T>(p: T -> bool, s: seq<T>): (r: seq<T>)
    ensures |r| <= |s|
    ensures forall i | 0 <= i < |r| :: r[i] in s && p(r[i])
    ensures forall i | 0 <= i < |s| :: p(s[i]) ==> s[i] in r
  {
    if |s| == 0 then []
    else if p(s[0]) then [s[0]] + Filter(p, s[1..])
    else Filter(p, s[1..])
  }

  /** Counted with multiplicity: every occurrence of a satisfying item is kept and no
      other item is. */
  lemma {:induction false} FilterCounts<T>(p: T -> bool, s: seq<T>)
    ensures forall x :: multiset(Filter(p, s))[x] == if p(x) then multiset(s)[x] else 0
  {
    if |s| > 0 {
      FilterCounts(p, s[1..]);
      assert s == [s[0]] + s[1..];
    }
  }

  /** An embedding into the tail of `s`, shifted by one, is an embedding into `s`;
      it extends by position 0 when the head of `s` is kept too. */
  lemma ShiftEmbedding<T>(idx: seq<nat>, r: seq<T>, s: seq<T>) returns (shifted: seq<nat>)
    requires |s| > 0 && IsEmbedding(idx, r, s[1..])
    ensures IsEmbedding(shifted, r, s)
    ensures IsEmbedding([0] + shifted, [s[0]] + r, s)
  {
    shifted := seq(|idx|, k requires 0 <= k < |idx| => idx[k] + 1);
    assert forall k | 0 <= k < |idx| :: s[shifted[k]] == s[1..][idx[k]];
  }

  /** The positions `Filter` keeps, which witness that its result is a subsequence. */
  lemma {:induction false} FilterEmbedding<T>(p: T -> bool, s: seq<T>) returns (idx: seq<nat>)
    ensures IsEmbedding(idx, Filter(p, s), s)
  {
    if |s| == 0 {
      idx := [];
    } else {
      var rest := FilterEmbedding(p, s[1..]);
      var shifted := ShiftEmbedding(rest, Filter(p, s[1..]), s);
      if p(s[0]) {
        idx := [0] + shifted;
      } else {
        idx := shifted;
      }
    }
  }

  lemma FilterIsSubsequence<T>(p: T -> bool, s: seq<T>)
    ensures IsSubsequence(Filter(p, s), s)
  {
    var idx := FilterEmbedding(p, s);
  }

  /** When every item satisfies `p`, filtering is the identity. */
  lemma {:induction false} FilterKeepsAll<T>(p: T -> bool, s: seq<T>)
    requires forall i | 0 <= i < |s| :: p(s[i])
    ensures Filter(p, s) == s
  {
    if |s| > 0 {
      FilterKeepsAll(p, s[1..]);
      assert [s[0]] + s[1..] == s;
    }
  }

  /** Filtering twice by the same predicate is filtering once. */
  lemma {:induction false} FilterIdempotent<T>(p: T -> bool, s: seq<T>)
    ensures Filter(p, Filter(p, s)) == Filter(p, s)
  {
    FilterKeepsAll(p, Filter(p, s));
  }
}
