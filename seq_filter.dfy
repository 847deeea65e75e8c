/**
 * `Array.prototype.filter` on immutable sequences: the one list operation
 * that the store's delete and clear-expired actions and its active counter
 * are built from.
 */
module SeqFilter {

  /** The elements of `s` that satisfy `keep`, in their original order. */
  function Filter<T>(s: seq<T>, keep: T -> bool): (r: seq<T>)
    ensures |r| <= |s|
    ensures forall i :: 0 <= i < |r| ==> r[i] in s && keep(r[i])
    ensures forall i :: 0 <= i < |s| && keep(s[i]) ==> s[i] in r
  {
    if s == [] then []
    else (if keep(s[0]) then [s[0]] else []) + Filter(s[1..], keep)
  }

  /**
   * The positions `i <= m < |s|` whose element `keep` accepts, ascending.
   * This is the reference against which `Filter` is shown to preserve order.
   */
  ghost function KeptFrom<T>(s: seq<T>, keep: T -> bool, i: nat): seq<nat>
    requires i <= |s|
    decreases |s| - i
  {
    if i == |s| then []
    else (if keep(s[i]) then [i] else []) + KeptFrom(s, keep, i + 1)
  }

  /** The positions of `s` that `Filter(s, keep)` keeps. */
  ghost function KeptIndices<T>(s: seq<T>, keep: T -> bool): seq<nat>
  {
    KeptFrom(s, keep, 0)
  }

  /** `idx` lists, in strictly increasing order, the positions of `s` from `i` on that satisfy `keep`, and `r` holds their elements. */
  ghost predicate SelectsInOrder<T>(r: seq<T>, s: seq<T>, keep: T -> bool, idx: seq<nat>, i: nat)
  {
    && |r| == |idx|
    && (forall j :: 0 <= j < |idx| ==> i <= idx[j] < |s| && r[j] == s[idx[j]])
    && (forall j, k :: 0 <= j < k < |idx| ==> idx[j] < idx[k])
    && (forall m :: i <= m < |s| ==> (keep(s[m]) <==> m in idx))
  }

  lemma {:induction false} FilterFromSelects<T>(s: seq<T>, keep: T -> bool, i: nat)
    requires i <= |s|
    ensures SelectsInOrder(Filter(s[i..], keep), s, keep, KeptFrom(s, keep, i), i)
    decreases |s| - i
  {
    if i < |s| {
      FilterFromSelects(s, keep, i + 1);
      assert s[i..][0] == s[i];
      assert s[i..][1..] == s[i + 1..];
      var rest, idxRest := Filter(s[i + 1..], keep), KeptFrom(s, keep, i + 1);
      if keep(s[i]) {
        ConsSelects(s, keep, rest, idxRest, i);
      } else {
        assert Filter(s[i..], keep) == rest;
        assert KeptFrom(s, keep, i) == idxRest;
      }
    }
  }

  /** One step of `FilterFromSelects`: an accepted element at position `i` extends a selection from `i + 1`. */
  lemma ConsSelects<T>(s: seq<T>, keep: T -> bool, rest: seq<T>, idxRest: seq<nat>, i: nat)
    requires i < |s| && keep(s[i])
    requires SelectsInOrder(rest, s, keep, idxRest, i + 1)
    ensures SelectsInOrder([s[i]] + rest, s, keep, [i] + idxRest, i)
  {
  }

  /**
   * Order preservation, stated completely: `Filter(s, keep)` is exactly the
   * elements at the positions `keep` accepts, taken in increasing position order.
   */
  lemma FilterKeepsOrder<T>(s: seq<T>, keep: T -> bool)
    ensures SelectsInOrder(Filter(s, keep), s, keep, KeptIndices(s, keep), 0)
  {
    assert s[0..] == s;
    FilterFromSelects(s, keep, 0);
  }

  /** When `keep` accepts every element, filtering changes nothing. */
  lemma {:induction false} FilterAllKept<T>(s: seq<T>, keep: T -> bool)
    requires forall i :: 0 <= i < |s| ==> keep(s[i])
    ensures Filter(s, keep) == s
  {
    if s != [] {
      FilterAllKept(s[1..], keep);
      assert [s[0]] + s[1..] == s;
    }
  }

  /** Filtering twice with the same predicate is filtering once. */
  lemma FilterIdempotent<T>(s: seq<T>, keep: T -> bool)
    ensures Filter(Filter(s, keep), keep) == Filter(s, keep)
  {
    FilterAllKept(Filter(s, keep), keep);
  }

  /** Filtering distributes over concatenation. */
  lemma {:induction false} FilterConcat<T>(a: seq<T>, b: seq<T>, keep: T -> bool)
    ensures Filter(a + b, keep) == Filter(a, keep) + Filter(b, keep)
  {
    if a == [] {
      assert a + b == b;
    } else {
      assert (a + b)[0] == a[0];
      assert (a + b)[1..] == a[1..] + b;
      FilterConcat(a[1..], b, keep);
    }
  }
}
