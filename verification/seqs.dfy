/**
 * The array operations the component is built from: `filter` and an
 * id-keyed `map`, together with the subsequence relation they respect.
 */
module Seqs {

  /** `a` is `b` with some elements dropped, order kept. */
  predicate IsSubseq<T(==)>(a: seq<T>, b: seq<T>)
    decreases |b|
  {
    if a == [] then true
    else if b == [] then false
    else (a[0] == b[0] && IsSubseq(a[1..], b[1..])) || IsSubseq(a, b[1..])
  }

  lemma {:induction false} SubseqLength<T>(a: seq<T>, b: seq<T>)
    requires IsSubseq(a, b)
    ensures |a| <= |b|
    decreases |b|
  {
    if a != [] {
      if a[0] == b[0] && IsSubseq(a[1..], b[1..]) {
        SubseqLength(a[1..], b[1..]);
      } else {
        SubseqLength(a, b[1..]);
      }
    }
  }

  /** `Array.prototype.filter`: keep, in order, the elements `keep` accepts. */
  function Filter<T(==)>(xs: seq<T>, keep: T -> bool): (r: seq<T>)
    ensures IsSubseq(r, xs)
    ensures forall i :: 0 <= i < |r| ==> keep(r[i])
    decreases |xs|
  {
    if xs == [] then []
    else if keep(xs[0]) then [xs[0]] + Filter(xs[1..], keep)
    else Filter(xs[1..], keep)
  }

  /**
   * The filter drops nothing it accepts: each accepted value occurs in the
   * result exactly as often as in the input, and a rejected one not at all.
   */
  lemma {:induction false} FilterCounts<T(!new)>(xs: seq<T>, keep: T -> bool)
    ensures forall x :: multiset(Filter(xs, keep))[x] == if keep(x) then multiset(xs)[x] else 0
    decreases |xs|
  {
    if xs != [] {
      FilterCounts(xs[1..], keep);
      assert xs == [xs[0]] + xs[1..];
    }
  }

  /** Membership in the result: accepted and present in the input. */
  lemma FilterMembers<T(!new)>(xs: seq<T>, keep: T -> bool)
    ensures forall x :: x in Filter(xs, keep) <==> x in xs && keep(x)
  {
    FilterCounts(xs, keep);
    forall x
      ensures x in Filter(xs, keep) <==> x in xs && keep(x)
    {
      assert x in Filter(xs, keep) <==> multiset(Filter(xs, keep))[x] > 0;
      assert x in xs <==> multiset(xs)[x] > 0;
    }
  }

  lemma {:induction false} FilterAppend<T>(a: seq<T>, b: seq<T>, keep: T -> bool)
    ensures Filter(a + b, keep) == Filter(a, keep) + Filter(b, keep)
    decreases |a|
  {
    if a == [] {
      assert a + b == b;
    } else {
      assert (a + b)[0] == a[0];
      assert (a + b)[1..] == a[1..] + b;
      FilterAppend(a[1..], b, keep);
    }
  }

  /** A filter that accepts everything returns its input. */
  lemma {:induction false} FilterAll<T>(xs: seq<T>, keep: T -> bool)
    requires forall i :: 0 <= i < |xs| ==> keep(xs[i])
    ensures Filter(xs, keep) == xs
    decreases |xs|
  {
    if xs != [] {
      FilterAll(xs[1..], keep);
    }
  }

  /** A filter that rejects exactly one position shortens its input by one. */
  lemma FilterDropsOne<T>(xs: seq<T>, keep: T -> bool, k: int)
    requires 0 <= k < |xs| && !keep(xs[k])
    requires forall j :: 0 <= j < |xs| && j != k ==> keep(xs[j])
    ensures Filter(xs, keep) == xs[..k] + xs[k + 1..]
    ensures |Filter(xs, keep)| == |xs| - 1
  {
    var pre, post := xs[..k], xs[k + 1..];
    assert xs == pre + ([xs[k]] + post);
    FilterAppend(pre, [xs[k]] + post, keep);
    FilterAppend([xs[k]], post, keep);
    assert Filter([xs[k]], keep) == [] by {
      assert [xs[k]][1..] == [];
    }
    assert forall i :: 0 <= i < |pre| ==> pre[i] == xs[i];
    FilterAll(pre, keep);
    assert forall i :: 0 <= i < |post| ==> post[i] == xs[k + 1 + i];
    FilterAll(post, keep);
  }

  /**
   * `xs.map(item => hit(item) ? upd(item) : item)`: rewrite the elements
   * `hit` selects, leave the others as they are.
   */
  function MapWhere<T>(xs: seq<T>, hit: T -> bool, upd: T -> T): (r: seq<T>)
    ensures |r| == |xs|
    ensures forall i :: 0 <= i < |xs| && hit(xs[i]) ==> r[i] == upd(xs[i])
    ensures forall i :: 0 <= i < |xs| && !hit(xs[i]) ==> r[i] == xs[i]
    decreases |xs|
  {
    if xs == [] then []
    else [if hit(xs[0]) then upd(xs[0]) else xs[0]] + MapWhere(xs[1..], hit, upd)
  }
}
