/** Inserting into sequences and cutting them. */
module Seqs {

  function InsertAt<T>(xs: seq<T>, k: nat, x: T): (r: seq<T>)
    requires k <= |xs|
    ensures |r| == |xs| + 1 && r[k] == x
  {
    xs[..k] + [x] + xs[k..]
  }

  lemma InsertAtFront<T>(xs: seq<T>, x: T)
    ensures InsertAt(xs, 0, x) == [x] + xs
    ensures InsertAt(xs, 0, x)[1..] == xs
  {
  }

  lemma InsertAtTail<T>(xs: seq<T>, k: nat, x: T)
    requires 0 < k <= |xs|
    ensures InsertAt(xs, k, x) == [xs[0]] + InsertAt(xs[1..], k - 1, x)
    ensures InsertAt(xs, k, x)[1..] == InsertAt(xs[1..], k - 1, x)
  {
  }

  lemma SubSlice<T>(xs: seq<T>, p: nat, q: nat, i: nat, n: nat)
    requires p <= q <= |xs| && i + n <= q - p
    ensures xs[p..q][i..i + n] == xs[p + i..p + i + n]
  {
    var ys, zs := xs[p..q][i..i + n], xs[p + i..p + i + n];
    assert forall j :: 0 <= j < n ==> ys[j] == zs[j];
  }

  /** `part` lies in `xs` from index `p` on. */
  predicate At<T(==)>(xs: seq<T>, p: nat, part: seq<T>) {
    p + |part| <= |xs| && forall i :: 0 <= i < |part| ==> part[i] == xs[p + i]
  }

  lemma AtSplit<T>(xs: seq<T>, p: nat, a: seq<T>, b: seq<T>)
    requires At(xs, p, a + b)
    ensures At(xs, p, a) && At(xs, p + |a|, b)
  {
    assert forall i :: 0 <= i < |a| ==> a[i] == (a + b)[i];
    assert forall i :: 0 <= i < |b| ==> b[i] == (a + b)[|a| + i];
  }

  lemma AtSlice<T>(xs: seq<T>, p: nat, part: seq<T>)
    requires At(xs, p, part)
    ensures p + |part| <= |xs| && xs[p..p + |part|] == part
  {
  }

  lemma AtAll<T>(xs: seq<T>)
    ensures At(xs, 0, xs)
  {
  }

  lemma AtParts<T>(xs: seq<T>, a: seq<T>, b: seq<T>, c: seq<T>, d: seq<T>, e: seq<T>, f: seq<T>)
    requires At(xs, 0, a + b + c + d + e + f)
    ensures At(xs, 0, a) && At(xs, |a|, b) && At(xs, |a| + |b|, c) && At(xs, |a| + |b| + |c|, d)
    ensures At(xs, |a| + |b| + |c| + |d|, e) && At(xs, |a| + |b| + |c| + |d| + |e|, f)
  {
    AtSplit(xs, 0, a + b + c + d + e, f);
    AtSplit(xs, 0, a + b + c + d, e);
    AtSplit(xs, 0, a + b + c, d);
    AtSplit(xs, 0, a + b, c);
    AtSplit(xs, 0, a, b);
  }

  lemma Shift<T>(xs: seq<T>, ys: seq<T>)
    requires ys != []
    ensures (xs + [ys[0]]) + ys[1..] == xs + ys
  {
  }

  ghost predicate Distinct<T>(s: seq<T>) {
    forall i, j :: 0 <= i < j < |s| ==> s[i] != s[j]
  }
}
