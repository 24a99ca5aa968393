/** Insertion-ordered association lists: the model of JavaScript objects and `Map`s.
    Iteration order is observable in the generator (files come out in first-seen
    order), so a plain Dafny `map` is not enough. */
module Assoc {
  import opened Maybe
  import opened Seqs

  type Assoc<V> = seq<(string, V)>

  function Keys<V>(m: Assoc<V>): (ks: seq<string>)
    ensures |ks| == |m|
    ensures forall i :: 0 <= i < |m| ==> ks[i] == m[i].0
  {
    seq(|m|, i requires 0 <= i < |m| => m[i].0)
  }

  function Values<V>(m: Assoc<V>): (vs: seq<V>)
    ensures |vs| == |m|
    ensures forall i :: 0 <= i < |m| ==> vs[i] == m[i].1
  {
    seq(|m|, i requires 0 <= i < |m| => m[i].1)
  }

  /** Every key occurs once, as in a JavaScript object. */
  predicate DistinctKeys<V>(m: Assoc<V>) {
    forall i, j :: 0 <= i < j < |m| ==> m[i].0 != m[j].0
  }

  /** Position of the entry for `k`. */
  function Find<V>(m: Assoc<V>, k: string): (r: Option<nat>)
    ensures r.Some? ==> r.value < |m| && m[r.value].0 == k
    ensures r.Some? ==> forall j :: 0 <= j < r.value ==> m[j].0 != k
    ensures r.None? <==> k !in Keys(m)
  {
    if |m| == 0 then None
    else if m[0].0 == k then Some(0)
    else match Find(m[1..], k)
      case Some(i) => Some(i + 1)
      case None => None
  }

  /** Property lookup `m[k]`. */
  function Get<V>(m: Assoc<V>, k: string): (r: Option<V>)
    ensures r.Some? <==> k in Keys(m)
  {
    match Find(m, k)
    case Some(i) => Some(m[i].1)
    case None => None
  }

  /** In an object every key has one entry, and lookup finds it. */
  lemma GetDistinct<V>(m: Assoc<V>, i: nat)
    requires DistinctKeys(m) && i < |m|
    ensures Get(m, m[i].0) == Some(m[i].1)
  {
  }

  /** Property assignment `m[k] = v`: an existing key keeps its position, a new key is appended. */
  function Put<V>(m: Assoc<V>, k: string, v: V): (r: Assoc<V>)
    ensures Get(r, k) == Some(v)
    ensures forall k' :: k' != k ==> Get(r, k') == Get(m, k')
    ensures k in Keys(m) ==> Keys(r) == Keys(m)
    ensures k !in Keys(m) ==> r == m + [(k, v)]
    ensures DistinctKeys(m) ==> DistinctKeys(r)
  {
    match Find(m, k)
    case Some(i) =>
      var r := m[i := (k, v)];
      FindReplaced(m, i, k, v);
      assert forall k' :: k' != k ==> Find(r, k') == Find(m, k') by {
        forall k' | k' != k ensures Find(r, k') == Find(m, k') {
          FindUnchanged(m, i, k, v, k');
        }
      }
      r
    case None =>
      var r := m + [(k, v)];
      assert Keys(r)[|m|] == k;
      assert forall k' :: k' != k ==> Find(r, k') == Find(m, k') by {
        forall k' | k' != k ensures Find(r, k') == Find(m, k') {
          FindAppend(m, k, v, k');
        }
      }
      r
  }

  lemma {:induction false} FindUnchanged<V>(m: Assoc<V>, i: nat, k: string, v: V, k': string)
    requires i < |m| && m[i].0 == k && k' != k
    ensures Find(m[i := (k, v)], k') == Find(m, k')
  {
    if i > 0 {
      assert m[i := (k, v)][1..] == m[1..][i - 1 := (k, v)];
      FindUnchanged(m[1..], i - 1, k, v, k');
    } else {
      assert m[i := (k, v)][1..] == m[1..];
    }
  }

  lemma {:induction false} FindReplaced<V>(m: Assoc<V>, i: nat, k: string, v: V)
    requires Find(m, k) == Some(i)
    ensures Find(m[i := (k, v)], k) == Some(i)
  {
    var r := m[i := (k, v)];
    if i > 0 {
      assert m[0].0 != k;
      assert r[0] == m[0];
      assert Find(m[1..], k) == Some(i - 1);
      assert r[1..] == m[1..][i - 1 := (k, v)];
      FindReplaced(m[1..], i - 1, k, v);
    } else {
      assert r[0].0 == k;
    }
  }

  lemma {:induction false} FindAppend<V>(m: Assoc<V>, k: string, v: V, k': string)
    requires k' != k
    ensures Find(m + [(k, v)], k') == Find(m, k')
  {
    if |m| > 0 {
      assert (m + [(k, v)])[1..] == m[1..] + [(k, v)];
      FindAppend(m[1..], k, v, k');
    }
  }

  /** Object spread `{...m, ...n}`: the entries of `n` are assigned over `m` in order. */
  function PutAll<V>(m: Assoc<V>, n: Assoc<V>): Assoc<V>
    decreases |n|
  {
    if |n| == 0 then m else PutAll(Put(m, n[0].0, n[0].1), n[1..])
  }

  lemma KeysCons<V>(n: Assoc<V>, k: string)
    requires |n| > 0
    ensures k in Keys(n) <==> k == n[0].0 || k in Keys(n[1..])
  {
    if k in Keys(n) && k != n[0].0 {
      var j :| 0 <= j < |n| && Keys(n)[j] == k;
      assert Keys(n[1..])[j - 1] == k;
    }
  }

  /** Spread precedence: a key of `n` takes `n`'s value, every other key keeps `m`'s. */
  lemma {:induction false} PutAllGet<V>(m: Assoc<V>, n: Assoc<V>, k: string)
    requires DistinctKeys(n)
    ensures Get(PutAll(m, n), k) == if k in Keys(n) then Get(n, k) else Get(m, k)
    decreases |n|
  {
    if |n| > 0 {
      var m' := Put(m, n[0].0, n[0].1);
      DistinctTail(n);
      PutAllGet(m', n[1..], k);
      KeysCons(n, k);
      if k != n[0].0 {
        GetTail(n, k);
      }
    }
  }

  lemma DistinctTail<V>(n: Assoc<V>)
    requires |n| > 0 && DistinctKeys(n)
    ensures DistinctKeys(n[1..])
  {
    assert forall i :: 0 <= i < |n| - 1 ==> n[1..][i] == n[i + 1];
  }

  lemma GetTail<V>(n: Assoc<V>, k: string)
    requires |n| > 0 && k != n[0].0
    ensures Get(n, k) == Get(n[1..], k)
  {
  }

  /** Spread has the keys of both sides. */
  lemma {:induction false} PutAllHasKey<V>(m: Assoc<V>, n: Assoc<V>, k: string)
    ensures k in Keys(PutAll(m, n)) <==> k in Keys(m) || k in Keys(n)
    decreases |n|
  {
    if |n| > 0 {
      var m' := Put(m, n[0].0, n[0].1);
      PutAllHasKey(m', n[1..], k);
      KeysCons(n, k);
      assert k in Keys(m') <==> k in Keys(m) || k == n[0].0 by {
        assert (k in Keys(m')) == Get(m', k).Some?;
        assert (k in Keys(m)) == Get(m, k).Some?;
      }
    }
  }

  /** Spread keeps the keys of `m` in their places. */
  lemma {:induction false} PutAllKeepsOrder<V>(m: Assoc<V>, n: Assoc<V>)
    ensures |m| <= |PutAll(m, n)|
    ensures forall i :: 0 <= i < |m| ==> PutAll(m, n)[i].0 == m[i].0
    decreases |n|
  {
    if |n| > 0 {
      var m' := Put(m, n[0].0, n[0].1);
      PutAllKeepsOrder(m', n[1..]);
      assert forall i :: 0 <= i < |m| ==> m'[i].0 == m[i].0 by {
        if n[0].0 in Keys(m) {
          assert forall i :: 0 <= i < |m| ==> m'[i].0 == Keys(m')[i] == Keys(m)[i];
        }
      }
    }
  }

  /** A property of every entry and of the new one holds of every entry after `Put`. */
  lemma PutPreserves<V>(m: Assoc<V>, k: string, v: V, ok: ((string, V)) -> bool)
    requires forall e :: 0 <= e < |m| ==> ok(m[e])
    requires ok((k, v))
    ensures forall e :: 0 <= e < |Put(m, k, v)| ==> ok(Put(m, k, v)[e])
  {
    PutEntries(m, k, v);
  }

  /** Every entry after `Put` is the new one or an old one. */
  lemma PutEntries<V>(m: Assoc<V>, k: string, v: V)
    ensures forall e :: 0 <= e < |Put(m, k, v)| ==> Put(m, k, v)[e] == (k, v) || Put(m, k, v)[e] in m
  {
    var r := Put(m, k, v);
    match Find(m, k)
    case Some(i) =>
      PutAt(m, k, v, i);
      forall e | 0 <= e < |r| ensures r[e] == (k, v) || r[e] in m {
        if e != i { assert r[e] == m[e]; }
      }
    case None =>
      assert r == m + [(k, v)];
      forall e | 0 <= e < |r| ensures r[e] == (k, v) || r[e] in m {
        if e < |m| { assert r[e] == m[e]; }
      }
  }

  /** `Put` over an existing key replaces the entry where the key was. */
  lemma PutAt<V>(m: Assoc<V>, k: string, v: V, i: nat)
    requires Find(m, k) == Some(i)
    ensures Put(m, k, v) == m[i := (k, v)]
  {
  }

  lemma PutKeepsKey<V>(m: Assoc<V>, k: string, v: V, key: string)
    requires key in Keys(m)
    ensures key in Keys(Put(m, k, v))
  {
    assert Get(m, key).Some?;
    if key != k { assert Get(Put(m, k, v), key) == Get(m, key); }
  }

  /** Spreading two lists of assignments one after the other. */
  lemma {:induction false} PutAllConcat<V>(m: Assoc<V>, xs: Assoc<V>, ys: Assoc<V>)
    ensures PutAll(m, xs + ys) == PutAll(PutAll(m, xs), ys)
    decreases |xs|
  {
    if |xs| == 0 {
      assert xs + ys == ys;
    } else {
      assert (xs + ys)[0] == xs[0];
      assert (xs + ys)[1..] == xs[1..] + ys;
      PutAllConcat(Put(m, xs[0].0, xs[0].1), xs[1..], ys);
    }
  }

  /** The value last assigned to `k`. */
  function LastFor<V>(xs: Assoc<V>, k: string): (r: Option<V>)
    ensures r.Some? ==> (k, r.value) in xs
    ensures r.None? <==> k !in Keys(xs)
    decreases |xs|
  {
    if |xs| == 0 then None
    else if xs[|xs| - 1].0 == k then Some(xs[|xs| - 1].1)
    else
      var r := LastFor(xs[..|xs| - 1], k);
      assert forall j :: 0 <= j < |xs| - 1 ==> xs[..|xs| - 1][j] == xs[j];
      r
  }

  /** After a run of assignments a key holds the last value assigned to it, or what it
      held before. */
  lemma {:induction false} PutAllLast<V>(m: Assoc<V>, xs: Assoc<V>, k: string)
    ensures Get(PutAll(m, xs), k) == if LastFor(xs, k).Some? then LastFor(xs, k) else Get(m, k)
    decreases |xs|
  {
    if |xs| > 0 {
      var init, x := xs[..|xs| - 1], xs[|xs| - 1];
      assert xs == init + [x];
      PutAllConcat(m, init, [x]);
      assert [x][1..] == [];
      PutAllLast(m, init, k);
    }
  }

  /** Assignments keep an object's keys distinct. */
  lemma {:induction false} PutAllDistinct<V>(m: Assoc<V>, xs: Assoc<V>)
    requires DistinctKeys(m)
    ensures DistinctKeys(PutAll(m, xs))
    decreases |xs|
  {
    if |xs| > 0 {
      PutAllDistinct(Put(m, xs[0].0, xs[0].1), xs[1..]);
    }
  }

  lemma DistinctCons<V>(x: (string, V), rest: Assoc<V>)
    requires DistinctKeys(rest) && x.0 !in Keys(rest)
    ensures DistinctKeys([x] + rest)
  {
    var r := [x] + rest;
    forall i, j | 0 <= i < j < |r| ensures r[i].0 != r[j].0 {
      assert r[j] == rest[j - 1];
      if i > 0 { assert r[i] == rest[i - 1]; }
      else { assert Keys(rest)[j - 1] == r[j].0; }
    }
  }

  lemma PutKeepsOrder<V>(m: Assoc<V>, k: string, v: V)
    ensures |m| <= |Put(m, k, v)|
    ensures forall i :: 0 <= i < |m| ==> Put(m, k, v)[i].0 == m[i].0
    ensures forall k' :: k' in Keys(Put(m, k, v)) <==> k' in Keys(m) || k' == k
  {
    if k in Keys(m) {
      assert forall i :: 0 <= i < |m| ==> Put(m, k, v)[i].0 == Keys(Put(m, k, v))[i] == Keys(m)[i];
    }
  }

  /** The value at the last position that assigns `k`. */
  lemma {:induction false} LastForAt<V>(xs: Assoc<V>, k: string, i: nat)
    requires i < |xs| && xs[i].0 == k
    requires forall j :: i < j < |xs| ==> xs[j].0 != k
    ensures LastFor(xs, k) == Some(xs[i].1)
    decreases |xs|
  {
    if i < |xs| - 1 {
      var init := xs[..|xs| - 1];
      assert init[i] == xs[i];
      LastForAt(init, k, i);
    }
  }

  /** Spreading one more entry is one more assignment. */
  lemma PutAllSnoc<V>(m: Assoc<V>, xs: Assoc<V>, x: (string, V))
    ensures PutAll(m, xs + [x]) == Put(PutAll(m, xs), x.0, x.1)
  {
    PutAllConcat(m, xs, [x]);
    PutAllOne(PutAll(m, xs), x);
  }

  /** Spreading a single entry is one assignment. */
  lemma PutAllOne<V>(m: Assoc<V>, x: (string, V))
    ensures PutAll(m, [x]) == Put(m, x.0, x.1)
  {
    assert [x][1..] == [];
  }

  /** Assigning a list of entries to an empty object: the keys in the order each was
      first assigned, each holding its last value. */
  lemma PutAllFromEmpty<V>(xs: Assoc<V>)
    ensures Keys(PutAll([], xs)) == FirstSeen(Keys(xs))
    ensures forall k :: Get(PutAll([], xs), k) == LastFor(xs, k)
  {
    PutAllFromEmptyKeys(xs);
    forall k ensures Get(PutAll([], xs), k) == LastFor(xs, k) {
      PutAllLast([], xs, k);
    }
  }

  lemma {:induction false} PutAllFromEmptyKeys<V>(xs: Assoc<V>)
    ensures Keys(PutAll([], xs)) == FirstSeen(Keys(xs))
    decreases |xs|
  {
    if |xs| > 0 {
      var init, x := xs[..|xs| - 1], xs[|xs| - 1];
      assert xs == init + [x];
      PutAllFromEmptyKeys(init);
      var p := PutAll([], init);
      PutAllSnoc([], init, x);
      PutKeys(p, x.0, x.1);
      KeysSnoc(init, x);
      FirstSeenSnoc(Keys(init), x.0);
      FirstSeenHas(Keys(init), x.0);
    }
  }

  /** The keys after an assignment: unchanged for a present key, one more otherwise. */
  lemma PutKeys<V>(m: Assoc<V>, k: string, v: V)
    ensures Keys(Put(m, k, v)) == if k in Keys(m) then Keys(m) else Keys(m) + [k]
  {
    if k !in Keys(m) {
      assert Keys(m + [(k, v)]) == Keys(m) + [k];
    }
  }

  lemma KeysSnoc<V>(xs: Assoc<V>, x: (string, V))
    ensures Keys(xs + [x]) == Keys(xs) + [x.0]
  {
  }

  /** An entry that no later entry reassigns is what the object holds. */
  lemma LastWins<V>(xs: Assoc<V>, i: nat)
    requires i < |xs| && forall j :: i < j < |xs| ==> xs[j].0 != xs[i].0
    ensures Get(PutAll([], xs), xs[i].0) == Some(xs[i].1)
  {
    PutAllLast([], xs, xs[i].0);
    LastForAt(xs, xs[i].0, i);
  }

}
