/** `Array.prototype.filter` over sequences, and what it means to be an order-preserving selection. */
module Seqs {

  /** `s.filter(keep)`: the elements of `s` that satisfy `keep`, in their original order. */
  function Filter<T>(s: seq<T>, keep: T -> bool): (r: seq<T>)
    ensures |r| <= |s|
    ensures forall i :: 0 <= i < |r| ==> keep(r[i])
  {
    if s == [] then []
    else if keep(s[0]) then [s[0]] + Filter(s[1..], keep)
    else Filter(s[1..], keep)
  }

  /**
   * `r` is the subsequence of `s` picked out by the strictly increasing
   * positions `idx`, and those positions are exactly the ones whose
   * element satisfies `keep`.
   */
  ghost predicate IsSelection<T>(r: seq<T>, s: seq<T>, keep: T -> bool, idx: seq<int>) {
    && |idx| == |r|
    && (forall k :: 0 <= k < |idx| ==> 0 <= idx[k] < |s| && r[k] == s[idx[k]])
    && (forall k, l :: 0 <= k < l < |idx| ==> idx[k] < idx[l])
    && (forall j :: 0 <= j < |s| ==> (keep(s[j]) <==> j in idx))
  }

  /** The filter keeps every element that satisfies the predicate, drops every other one, and keeps the order. */
  lemma {:induction false} FilterSelects<T>(s: seq<T>, keep: T -> bool) returns (idx: seq<int>)
    ensures IsSelection(Filter(s, keep), s, keep, idx)
  {
    if s == [] {
      idx := [];
    } else {
      var rest := FilterSelects(s[1..], keep);
      assert s == [s[0]] + s[1..];
      idx := SelectionCons(s[0], s[1..], Filter(s[1..], keep), keep, rest);
    }
  }

  /** Every position moved one place to the right. */
  function Shift(idx: seq<int>): (r: seq<int>)
    ensures |r| == |idx| && forall k :: 0 <= k < |idx| ==> r[k] == idx[k] + 1
    ensures forall j :: j in r <==> j - 1 in idx
  {
    if idx == [] then [] else [idx[0] + 1] + Shift(idx[1..])
  }

  /** Extending the source by one element at the front extends the selection accordingly. */
  lemma SelectionCons<T>(x: T, s: seq<T>, r: seq<T>, keep: T -> bool, idx: seq<int>) returns (idx': seq<int>)
    requires IsSelection(r, s, keep, idx)
    ensures IsSelection(if keep(x) then [x] + r else r, [x] + s, keep, idx')
  {
    if keep(x) {
      idx' := SelectionConsKept(x, s, r, keep, idx);
    } else {
      idx' := SelectionConsDropped(x, s, r, keep, idx);
    }
  }

  lemma SelectionConsDropped<T>(x: T, s: seq<T>, r: seq<T>, keep: T -> bool, idx: seq<int>) returns (idx': seq<int>)
    requires IsSelection(r, s, keep, idx) && !keep(x)
    ensures IsSelection(r, [x] + s, keep, idx')
  {
    var s' := [x] + s;
    idx' := Shift(idx);
    forall k | 0 <= k < |idx'| ensures 0 <= idx'[k] < |s'| && r[k] == s'[idx'[k]] {
      assert s'[idx[k] + 1] == s[idx[k]];
    }
    forall k, l | 0 <= k < l < |idx'| ensures idx'[k] < idx'[l] {
      assert idx[k] < idx[l];
    }
    forall j | 0 <= j < |s'| ensures keep(s'[j]) <==> j in idx' {
      if j > 0 {
        assert s'[j] == s[j - 1];
      }
    }
  }

  lemma SelectionConsKept<T>(x: T, s: seq<T>, r: seq<T>, keep: T -> bool, idx: seq<int>) returns (idx': seq<int>)
    requires IsSelection(r, s, keep, idx) && keep(x)
    ensures IsSelection([x] + r, [x] + s, keep, idx')
  {
    var s' := [x] + s;
    var r' := [x] + r;
    var shifted := Shift(idx);
    idx' := [0] + shifted;
    forall k | 0 <= k < |idx'| ensures 0 <= idx'[k] < |s'| && r'[k] == s'[idx'[k]] {
      if k > 0 {
        assert idx'[k] == idx[k - 1] + 1 && r'[k] == r[k - 1];
        assert s'[idx[k - 1] + 1] == s[idx[k - 1]];
      }
    }
    forall k, l | 0 <= k < l < |idx'| ensures idx'[k] < idx'[l] {
      assert idx'[l] == idx[l - 1] + 1 && idx[l - 1] >= 0;
      if k > 0 {
        assert idx[k - 1] < idx[l - 1];
      }
    }
    forall j | 0 <= j < |s'| ensures keep(s'[j]) <==> j in idx' {
      if j > 0 {
        assert s'[j] == s[j - 1];
        assert j in idx' <==> j in shifted;
      }
    }
  }

  /** A selection holds exactly the elements of the source that satisfy the predicate. */
  lemma SelectionMembers<T>(r: seq<T>, s: seq<T>, keep: T -> bool, idx: seq<int>)
    requires IsSelection(r, s, keep, idx)
    ensures forall x :: x in r <==> x in s && keep(x)
  {
  }

  /** Filtering with a predicate that every element satisfies changes nothing. */
  lemma {:induction false} FilterKeepsAll<T>(s: seq<T>, keep: T -> bool)
    requires forall i :: 0 <= i < |s| ==> keep(s[i])
    ensures Filter(s, keep) == s
  {
    if s != [] {
      FilterKeepsAll(s[1..], keep);
    }
  }

  /** Filtering twice with the same predicate is filtering once. */
  lemma FilterIdempotent<T>(s: seq<T>, keep: T -> bool)
    ensures Filter(Filter(s, keep), keep) == Filter(s, keep)
  {
  }

  /** Two filters applied one after the other commute. */
  lemma {:induction false} FilterCommutes<T>(s: seq<T>, p: T -> bool, q: T -> bool)
    ensures Filter(Filter(s, p), q) == Filter(Filter(s, q), p)
  {
    if s != [] {
      FilterCommutes(s[1..], p, q);
    }
  }
}
