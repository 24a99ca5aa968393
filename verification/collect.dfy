/** `collectTypes` and `getTypesByFile`: which types get a generated file, under which
    name, and how they are grouped by file. */
module Collect {
  import opened Maybe
  import opened Assoc
  import opened Seqs
  import opened Schema
  import opened Settings
  import opened Naming
  import opened Fields

  /** The children the traversal visits from node `i`, in order and with repetition:
      the root always opens; a namespace or a message opens unless its name is ignored;
      a service opens in the same way and then once more, unconditionally. */
  function Opens(cfg: Config, a: Arena, i: nat): (r: seq<nat>)
    requires ValidArena(a) && i < |a|
    ensures forall k :: 0 <= k < |r| ==> i < r[k] < |a| && r[k] in a[i].nested
  {
    var own := if a[i].name in cfg.namespacesToIgnore then [] else a[i].nested;
    match a[i].kind
    case Root => a[i].nested
    case Namespace => own
    case Message(_) => own
    case Service => own + a[i].nested
    case Enum(_) => []
  }

  /** A node the traversal registers when it reaches it: a message or enum whose
      parent is not a message. */
  predicate Registrable(a: Arena, i: nat)
    requires i < |a|
  {
    IsType(a, i) && !ParentIsMessage(a, i)
  }

  /** The cache entry a registered node gets. */
  function Entry(cfg: Config, ext: Externals, a: Arena, i: nat): (e: CachedType)
    requires ValidArena(a) && i < |a|
    ensures e.node == i
  {
    CachedType(GeneratedFilename(cfg, a, i), GeneratedTypeName(cfg, ext, a, i), i)
  }

  /** `collectTypes(node)`: children first, then the node itself. */
  function CollectFrom(cfg: Config, ext: Externals, a: Arena, i: nat, cache: Cache): (r: Cache)
    requires ValidArena(a) && i < |a|
    ensures DistinctKeys(cache) ==> DistinctKeys(r)
    decreases |a| - i, 1, 0
  {
    var after := CollectKids(cfg, ext, a, i, 0, cache);
    if Registrable(a, i) then Put(after, CacheKey(ext, a, i), Entry(cfg, ext, a, i)) else after
  }

  /** The traversal of the children of node `i` from the `k`th one the node opens. */
  function CollectKids(cfg: Config, ext: Externals, a: Arena, i: nat, k: nat, cache: Cache): (r: Cache)
    requires ValidArena(a) && i < |a| && k <= |Opens(cfg, a, i)|
    ensures DistinctKeys(cache) ==> DistinctKeys(r)
    decreases |a| - i, 0, |Opens(cfg, a, i)| - k
  {
    var kids := Opens(cfg, a, i);
    if k == |kids| then cache
    else CollectKids(cfg, ext, a, i, k + 1, CollectFrom(cfg, ext, a, kids[k], cache))
  }

  /** The type cache after `collectTypes(root)`. */
  function TypeCache(cfg: Config, ext: Externals, a: Arena): Cache
    requires ValidArena(a)
  {
    CollectFrom(cfg, ext, a, 0, [])
  }

  /** Node `j` is visited by the traversal that starts at `i`. */
  predicate Reaches(cfg: Config, a: Arena, i: nat, j: nat)
    requires ValidArena(a) && i < |a|
    decreases |a| - i
  {
    i == j || exists k :: 0 <= k < |Opens(cfg, a, i)| && Reaches(cfg, a, Opens(cfg, a, i)[k], j)
  }

  /** An entry the traversal can have made: a reached, registrable node under its own
      key with its own name and file. */
  predicate Made(cfg: Config, ext: Externals, a: Arena, root: nat, entry: (string, CachedType))
    requires ValidArena(a) && root < |a|
  {
    var n := entry.1.node;
    && n < |a|
    && Registrable(a, n)
    && Reaches(cfg, a, root, n)
    && entry.0 == CacheKey(ext, a, n)
    && entry.1 == Entry(cfg, ext, a, n)
  }

  predicate AllMade(cfg: Config, ext: Externals, a: Arena, root: nat, cache: Cache)
    requires ValidArena(a) && root < |a|
  {
    forall e :: 0 <= e < |cache| ==> Made(cfg, ext, a, root, cache[e])
  }

  /** Reaching is transitive. */
  lemma {:induction false} ReachesTrans(cfg: Config, a: Arena, x: nat, i: nat, j: nat)
    requires ValidArena(a) && x < |a| && i < |a|
    requires Reaches(cfg, a, x, i) && Reaches(cfg, a, i, j)
    ensures Reaches(cfg, a, x, j)
    decreases |a| - x
  {
    if x != i {
      var o := Opens(cfg, a, x);
      var k :| 0 <= k < |o| && Reaches(cfg, a, o[k], i);
      ReachesTrans(cfg, a, o[k], i, j);
    }
  }

  /** A child the traversal opens is reached. */
  lemma ReachesChild(cfg: Config, a: Arena, x: nat, i: nat, kid: nat)
    requires ValidArena(a) && x < |a| && i < |a| && Reaches(cfg, a, x, i)
    requires kid in Opens(cfg, a, i)
    ensures Reaches(cfg, a, x, kid)
  {
    var o := Opens(cfg, a, i);
    var k :| 0 <= k < |o| && o[k] == kid;
    assert Reaches(cfg, a, kid, kid);
    assert Reaches(cfg, a, i, kid);
    ReachesTrans(cfg, a, x, i, kid);
  }

  /** Storing a made entry keeps every entry made. */
  lemma PutMade(cfg: Config, ext: Externals, a: Arena, root: nat, cache: Cache, n: nat)
    requires ValidArena(a) && root < |a| && n < |a| && AllMade(cfg, ext, a, root, cache)
    requires Made(cfg, ext, a, root, (CacheKey(ext, a, n), Entry(cfg, ext, a, n)))
    ensures AllMade(cfg, ext, a, root, Put(cache, CacheKey(ext, a, n), Entry(cfg, ext, a, n)))
  {
    var ok := (x: (string, CachedType)) => Made(cfg, ext, a, root, x);
    PutPreserves(cache, CacheKey(ext, a, n), Entry(cfg, ext, a, n), ok);
  }

  /** Soundness: every entry of the traversal from `i` is a reached, registrable node
      under its own key, given the same of the cache it starts from. */
  lemma {:induction false} CollectSound(cfg: Config, ext: Externals, a: Arena, root: nat, i: nat, cache: Cache)
    requires ValidArena(a) && root < |a| && i < |a| && Reaches(cfg, a, root, i)
    requires AllMade(cfg, ext, a, root, cache)
    ensures AllMade(cfg, ext, a, root, CollectFrom(cfg, ext, a, i, cache))
    decreases |a| - i, 1, 0
  {
    CollectKidsSound(cfg, ext, a, root, i, 0, cache);
    var after := CollectKids(cfg, ext, a, i, 0, cache);
    if Registrable(a, i) {
      PutMade(cfg, ext, a, root, after, i);
    }
  }

  lemma {:induction false} CollectKidsSound(cfg: Config, ext: Externals, a: Arena, root: nat, i: nat, k: nat, cache: Cache)
    requires ValidArena(a) && root < |a| && i < |a| && k <= |Opens(cfg, a, i)| && Reaches(cfg, a, root, i)
    requires AllMade(cfg, ext, a, root, cache)
    ensures AllMade(cfg, ext, a, root, CollectKids(cfg, ext, a, i, k, cache))
    decreases |a| - i, 0, |Opens(cfg, a, i)| - k
  {
    var kids := Opens(cfg, a, i);
    if k < |kids| {
      ReachesChild(cfg, a, root, i, kids[k]);
      CollectSound(cfg, ext, a, root, kids[k], cache);
      CollectKidsSound(cfg, ext, a, root, i, k + 1, CollectFrom(cfg, ext, a, kids[k], cache));
    }
  }

  /** Keys once stored stay stored. */
  lemma {:induction false} CollectKeepsKeys(cfg: Config, ext: Externals, a: Arena, i: nat, cache: Cache, key: string)
    requires ValidArena(a) && i < |a| && key in Keys(cache)
    ensures key in Keys(CollectFrom(cfg, ext, a, i, cache))
    decreases |a| - i, 1, 0
  {
    CollectKidsKeepKeys(cfg, ext, a, i, 0, cache, key);
    var after := CollectKids(cfg, ext, a, i, 0, cache);
    if Registrable(a, i) {
      PutKeepsKey(after, CacheKey(ext, a, i), Entry(cfg, ext, a, i), key);
    }
  }

  lemma {:induction false} CollectKidsKeepKeys(cfg: Config, ext: Externals, a: Arena, i: nat, k: nat, cache: Cache, key: string)
    requires ValidArena(a) && i < |a| && k <= |Opens(cfg, a, i)| && key in Keys(cache)
    ensures key in Keys(CollectKids(cfg, ext, a, i, k, cache))
    decreases |a| - i, 0, |Opens(cfg, a, i)| - k
  {
    var kids := Opens(cfg, a, i);
    if k < |kids| {
      CollectKeepsKeys(cfg, ext, a, kids[k], cache, key);
      CollectKidsKeepKeys(cfg, ext, a, i, k + 1, CollectFrom(cfg, ext, a, kids[k], cache), key);
    }
  }

  /** Completeness: every registrable node the traversal from `i` reaches has its key
      in the cache afterwards. */
  lemma {:induction false} CollectComplete(cfg: Config, ext: Externals, a: Arena, i: nat, cache: Cache, j: nat)
    requires ValidArena(a) && i < |a| && j < |a| && Reaches(cfg, a, i, j) && Registrable(a, j)
    ensures CacheKey(ext, a, j) in Keys(CollectFrom(cfg, ext, a, i, cache))
    decreases |a| - i, 1, 0
  {
    var kids := Opens(cfg, a, i);
    var after := CollectKids(cfg, ext, a, i, 0, cache);
    if i == j {
      assert Get(Put(after, CacheKey(ext, a, i), Entry(cfg, ext, a, i)), CacheKey(ext, a, i)).Some?;
    } else {
      var k :| 0 <= k < |kids| && Reaches(cfg, a, kids[k], j);
      CollectKidsComplete(cfg, ext, a, i, 0, cache, k, j);
      if Registrable(a, i) {
        PutKeepsKey(after, CacheKey(ext, a, i), Entry(cfg, ext, a, i), CacheKey(ext, a, j));
      }
    }
  }

  lemma {:induction false} CollectKidsComplete(cfg: Config, ext: Externals, a: Arena, i: nat, from: nat, cache: Cache, k: nat, j: nat)
    requires ValidArena(a) && i < |a| && from <= k < |Opens(cfg, a, i)|
    requires j < |a| && Reaches(cfg, a, Opens(cfg, a, i)[k], j) && Registrable(a, j)
    ensures CacheKey(ext, a, j) in Keys(CollectKids(cfg, ext, a, i, from, cache))
    decreases |a| - i, 0, |Opens(cfg, a, i)| - from
  {
    var kids := Opens(cfg, a, i);
    var next := CollectFrom(cfg, ext, a, kids[from], cache);
    if from == k {
      CollectComplete(cfg, ext, a, kids[k], cache, j);
      CollectKidsKeepKeys(cfg, ext, a, i, k + 1, next, CacheKey(ext, a, j));
    } else {
      CollectKidsComplete(cfg, ext, a, i, from + 1, next, k, j);
    }
  }

  /** The type cache holds exactly the reached registrable nodes' keys, each entry for a
      node under that node's key, name and file. */
  lemma TypeCacheExact(cfg: Config, ext: Externals, a: Arena)
    requires ValidArena(a)
    ensures DistinctKeys(TypeCache(cfg, ext, a))
    ensures AllMade(cfg, ext, a, 0, TypeCache(cfg, ext, a))
    ensures forall j :: 0 <= j < |a| && Reaches(cfg, a, 0, j) && Registrable(a, j)
              ==> CacheKey(ext, a, j) in Keys(TypeCache(cfg, ext, a))
  {
    CollectSound(cfg, ext, a, 0, 0, []);
    forall j | 0 <= j < |a| && Reaches(cfg, a, 0, j) && Registrable(a, j)
      ensures CacheKey(ext, a, j) in Keys(TypeCache(cfg, ext, a))
    {
      CollectComplete(cfg, ext, a, 0, [], j);
    }
  }

  /** The registrable nodes `collectTypes(node)` stores, in the order it stores them:
      children first, then the node itself. A node a service opens twice is listed
      twice. */
  function VisitFrom(cfg: Config, a: Arena, i: nat): (r: seq<nat>)
    requires ValidArena(a) && i < |a|
    ensures forall k :: 0 <= k < |r| ==> r[k] < |a| && Registrable(a, r[k])
    decreases |a| - i, 1, 0
  {
    VisitKids(cfg, a, i, 0) + if Registrable(a, i) then [i] else []
  }

  function VisitKids(cfg: Config, a: Arena, i: nat, k: nat): (r: seq<nat>)
    requires ValidArena(a) && i < |a| && k <= |Opens(cfg, a, i)|
    ensures forall j :: 0 <= j < |r| ==> r[j] < |a| && Registrable(a, r[j])
    decreases |a| - i, 0, |Opens(cfg, a, i)| - k
  {
    var kids := Opens(cfg, a, i);
    if k == |kids| then [] else VisitFrom(cfg, a, kids[k]) + VisitKids(cfg, a, i, k + 1)
  }

  /** The cache assignment `cache[key] = entry` made for node `n`. */
  function Write(cfg: Config, ext: Externals, a: Arena, n: nat): (string, CachedType)
    requires ValidArena(a) && n < |a|
  {
    (CacheKey(ext, a, n), Entry(cfg, ext, a, n))
  }

  /** The cache assignments made for the nodes `ns`, in order. */
  function Writes(cfg: Config, ext: Externals, a: Arena, ns: seq<nat>): (w: Cache)
    requires ValidArena(a) && forall k :: 0 <= k < |ns| ==> ns[k] < |a|
    ensures |w| == |ns|
    ensures forall k :: 0 <= k < |ns| ==> w[k] == Write(cfg, ext, a, ns[k])
  {
    seq(|ns|, k requires 0 <= k < |ns| => Write(cfg, ext, a, ns[k]))
  }

  lemma WritesConcat(cfg: Config, ext: Externals, a: Arena, xs: seq<nat>, ys: seq<nat>)
    requires ValidArena(a) && forall k :: 0 <= k < |xs| ==> xs[k] < |a|
    requires forall k :: 0 <= k < |ys| ==> ys[k] < |a|
    ensures Writes(cfg, ext, a, xs + ys) == Writes(cfg, ext, a, xs) + Writes(cfg, ext, a, ys)
  {
    var l, r := Writes(cfg, ext, a, xs + ys), Writes(cfg, ext, a, xs) + Writes(cfg, ext, a, ys);
    forall k | 0 <= k < |l| ensures l[k] == r[k] {
      if k < |xs| {
        assert (xs + ys)[k] == xs[k];
      } else {
        assert (xs + ys)[k] == ys[k - |xs|];
      }
    }
  }

  /** The traversal from `i` assigns the cache entries of its visit order, one after
      the other, as `cache[key] = entry` does. */
  lemma {:induction false} CollectIsPutAll(cfg: Config, ext: Externals, a: Arena, i: nat, cache: Cache)
    requires ValidArena(a) && i < |a|
    ensures CollectFrom(cfg, ext, a, i, cache) == PutAll(cache, Writes(cfg, ext, a, VisitFrom(cfg, a, i)))
    decreases |a| - i, 1, 0
  {
    CollectKidsIsPutAll(cfg, ext, a, i, 0, cache);
    var kids := VisitKids(cfg, a, i, 0);
    if Registrable(a, i) {
      WritesSnoc(cfg, ext, a, kids, i);
      PutAllSnoc(cache, Writes(cfg, ext, a, kids), Write(cfg, ext, a, i));
    } else {
      assert VisitFrom(cfg, a, i) == kids;
    }
  }

  lemma WritesSnoc(cfg: Config, ext: Externals, a: Arena, ns: seq<nat>, n: nat)
    requires ValidArena(a) && n < |a| && forall k :: 0 <= k < |ns| ==> ns[k] < |a|
    ensures Writes(cfg, ext, a, ns + [n]) == Writes(cfg, ext, a, ns) + [Write(cfg, ext, a, n)]
  {
    WritesConcat(cfg, ext, a, ns, [n]);
    assert Writes(cfg, ext, a, [n])[0] == Write(cfg, ext, a, n);
  }

  lemma {:induction false} CollectKidsIsPutAll(cfg: Config, ext: Externals, a: Arena, i: nat, k: nat, cache: Cache)
    requires ValidArena(a) && i < |a| && k <= |Opens(cfg, a, i)|
    ensures CollectKids(cfg, ext, a, i, k, cache) == PutAll(cache, Writes(cfg, ext, a, VisitKids(cfg, a, i, k)))
    decreases |a| - i, 0, |Opens(cfg, a, i)| - k
  {
    var kids := Opens(cfg, a, i);
    if k < |kids| {
      var first := VisitFrom(cfg, a, kids[k]);
      var rest := VisitKids(cfg, a, i, k + 1);
      CollectIsPutAll(cfg, ext, a, kids[k], cache);
      CollectKidsIsPutAll(cfg, ext, a, i, k + 1, CollectFrom(cfg, ext, a, kids[k], cache));
      WritesConcat(cfg, ext, a, first, rest);
      PutAllConcat(cache, Writes(cfg, ext, a, first), Writes(cfg, ext, a, rest));
    } else {
      assert Writes(cfg, ext, a, []) == [];
    }
  }

  /** Which entry the type cache keeps. The traversal assigns `w`, the cache entries of
      its visit order (see `Writes`); keys come out in the order they were first
      assigned, and when two visited nodes share a key the one visited last holds it,
      because a later `cache[key] = entry` overwrites the value in place. */
  lemma TypeCacheOrder(cfg: Config, ext: Externals, a: Arena)
    requires ValidArena(a)
    ensures var w := Writes(cfg, ext, a, VisitFrom(cfg, a, 0));
      && Keys(TypeCache(cfg, ext, a)) == FirstSeen(Keys(w))
      && forall i :: 0 <= i < |w| && (forall j :: i < j < |w| ==> w[j].0 != w[i].0)
           ==> Get(TypeCache(cfg, ext, a), w[i].0) == Some(w[i].1)
  {
    var w := Writes(cfg, ext, a, VisitFrom(cfg, a, 0));
    CollectIsPutAll(cfg, ext, a, 0, []);
    PutAllFromEmptyKeys(w);
    forall i | 0 <= i < |w| && (forall j :: i < j < |w| ==> w[j].0 != w[i].0)
      ensures Get(PutAll([], w), w[i].0) == Some(w[i].1)
    {
      LastWins(w, i);
    }
  }

  /** An ignored namespace hides everything under it. */
  lemma IgnoredNamespaceHidden(cfg: Config, ext: Externals, a: Arena, i: nat, cache: Cache)
    requires ValidArena(a) && i < |a| && a[i].kind.Namespace? && a[i].name in cfg.namespacesToIgnore
    ensures CollectFrom(cfg, ext, a, i, cache) == cache
  {
  }

  /** An ignored message name only stops the walk into the message: the message itself
      is still registered. */
  lemma IgnoredMessageStillCollected(cfg: Config, ext: Externals, a: Arena, i: nat, cache: Cache)
    requires ValidArena(a) && i < |a| && a[i].kind.Message? && a[i].name in cfg.namespacesToIgnore
    requires !ParentIsMessage(a, i)
    ensures CollectFrom(cfg, ext, a, i, cache) == Put(cache, CacheKey(ext, a, i), Entry(cfg, ext, a, i))
  {
  }

  /** `getTypesByFile`: the entries grouped by their file, each group in entry order and
      the files in the order they are first seen. */
  function GroupByFile(es: seq<CachedType>): (r: Assoc<seq<CachedType>>)
    ensures DistinctKeys(r)
  {
    if |es| == 0 then []
    else
      var acc := GroupByFile(es[..|es| - 1]);
      var e := es[|es| - 1];
      Put(acc, e.path, Get(acc, e.path).GetOr([]) + [e])
  }

  /** The entries of one file, in order. */
  function InFile(es: seq<CachedType>, p: string): seq<CachedType> {
    if |es| == 0 then []
    else InFile(es[..|es| - 1], p) + if es[|es| - 1].path == p then [es[|es| - 1]] else []
  }

  function Paths(es: seq<CachedType>): (ps: seq<string>)
    ensures |ps| == |es| && forall k :: 0 <= k < |es| ==> ps[k] == es[k].path
  {
    seq(|es|, k requires 0 <= k < |es| => es[k].path)
  }

  lemma PathsInit(es: seq<CachedType>)
    requires |es| > 0
    ensures Paths(es[..|es| - 1]) == Paths(es)[..|es| - 1]
    ensures Paths(es) == Paths(es[..|es| - 1]) + [es[|es| - 1].path]
  {
  }

  /** Each file's group is exactly its entries, in order, and only files that have
      entries get a group. */
  lemma {:induction false} GroupByFileIsFilter(es: seq<CachedType>, p: string)
    ensures Get(GroupByFile(es), p) == if p in Paths(es) then Some(InFile(es, p)) else None
    decreases |es|
  {
    if |es| > 0 {
      var init := es[..|es| - 1];
      var e := es[|es| - 1];
      var acc := GroupByFile(init);
      GroupByFileIsFilter(init, p);
      PathsInit(es);
      GroupStep(acc, e, p);
      assert GroupByFile(es) == Put(acc, e.path, Get(acc, e.path).GetOr([]) + [e]);
      if p == e.path {
        if p !in Paths(init) { InFileAbsent(init, p); }
        assert Get(acc, p).GetOr([]) == InFile(init, p);
        assert InFile(es, p) == InFile(init, p) + [e];
        assert p in Paths(es);
        assert Get(GroupByFile(es), p) == Some(InFile(es, p));
      } else {
        assert InFile(es, p) == InFile(init, p) + [] == InFile(init, p);
        assert p in Paths(es) <==> p in Paths(init);
        assert Get(GroupByFile(es), p) == Get(acc, p);
      }
    } else {
      assert GroupByFile(es) == [];
      assert p !in Paths(es);
    }
  }

  /** One step of the grouping: the entry joins its own file's group. */
  lemma GroupStep(acc: Assoc<seq<CachedType>>, e: CachedType, p: string)
    ensures Get(Put(acc, e.path, Get(acc, e.path).GetOr([]) + [e]), p)
         == if p == e.path then Some(Get(acc, p).GetOr([]) + [e]) else Get(acc, p)
  {
  }

  lemma {:induction false} InFileAbsent(es: seq<CachedType>, p: string)
    requires p !in Paths(es)
    ensures InFile(es, p) == []
    decreases |es|
  {
    if |es| > 0 {
      PathsInit(es);
      InFileAbsent(es[..|es| - 1], p);
    }
  }

  /** The files come out in the order their first entry appears. */
  lemma {:induction false} GroupByFileOrder(es: seq<CachedType>)
    ensures Keys(GroupByFile(es)) == FirstSeen(Paths(es))
    decreases |es|
  {
    if |es| > 0 {
      var init := es[..|es| - 1];
      var e := es[|es| - 1];
      var acc := GroupByFile(init);
      GroupByFileOrder(init);
      PathsInit(es);
      var v := Get(acc, e.path).GetOr([]) + [e];
      PutKeys(acc, e.path, v);
      assert Paths(es) == Paths(init) + [e.path];
      FirstSeenSnoc(Paths(init), e.path);
      FirstSeenHas(Paths(init), e.path);
    }
  }
}
