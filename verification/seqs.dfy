/** Small facts about sequences used across the model. */
module Seqs {
  /** `xs.map(f)`. */
  function MapSeq<A, B>(xs: seq<A>, f: A -> B): (r: seq<B>)
    ensures |r| == |xs| && forall k :: 0 <= k < |xs| ==> r[k] == f(xs[k])
  {
    seq(|xs|, k requires 0 <= k < |xs| => f(xs[k]))
  }

  /** The elements in the opposite order. */
  function Reversed<T>(xs: seq<T>): (r: seq<T>)
    ensures |r| == |xs| && forall k :: 0 <= k < |xs| ==> r[k] == xs[|xs| - 1 - k]
  {
    seq(|xs|, k requires 0 <= k < |xs| => xs[|xs| - 1 - k])
  }

  /** The `k`-th pair of `d + ds`, where `d` is a pair. */
  lemma PairAt<T>(d: seq<T>, ds: seq<T>, k: nat)
    requires |d| == 2 && 2 * k + 2 <= 2 + |ds|
    ensures k == 0 ==> (d + ds)[0..2] == d
    ensures k > 0 ==> (d + ds)[2 * k..2 * k + 2] == ds[2 * (k - 1)..2 * (k - 1) + 2]
  {
  }

  lemma InCons<T>(xs: seq<T>, x: T)
    requires |xs| > 0
    ensures x in xs <==> xs[0] == x || x in xs[1..]
  {
    assert xs == [xs[0]] + xs[1..];
  }

  lemma Concat3<T>(x: seq<T>, y: seq<T>, z: seq<T>)
    ensures x + y + z == x + (y + z)
  {
  }

  /** The distinct elements of `ps` in the order of their first occurrence. */
  function FirstSeen<T(==)>(ps: seq<T>): seq<T> {
    if |ps| == 0 then []
    else
      var d := FirstSeen(ps[..|ps| - 1]);
      if ps[|ps| - 1] in d then d else d + [ps[|ps| - 1]]
  }

  lemma {:induction false} FirstSeenHas<T>(ps: seq<T>, x: T)
    ensures x in FirstSeen(ps) <==> x in ps
    decreases |ps|
  {
    if |ps| > 0 {
      var init := ps[..|ps| - 1];
      FirstSeenHas(init, x);
      assert ps == init + [ps[|ps| - 1]];
    }
  }

  /** One more element extends the list only when it is new. */
  lemma FirstSeenSnoc<T>(ps: seq<T>, x: T)
    ensures FirstSeen(ps + [x]) == if x in ps then FirstSeen(ps) else FirstSeen(ps) + [x]
  {
    assert (ps + [x])[..|ps|] == ps;
    FirstSeenHas(ps, x);
  }

  /** Each element is listed once. */
  lemma {:induction false} FirstSeenDistinct<T>(ps: seq<T>)
    ensures forall i, j :: 0 <= i < j < |FirstSeen(ps)| ==> FirstSeen(ps)[i] != FirstSeen(ps)[j]
    decreases |ps|
  {
    if |ps| > 0 {
      var init := ps[..|ps| - 1];
      FirstSeenDistinct(init);
    }
  }
}
