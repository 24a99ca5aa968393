/** POSIX path arithmetic over `/`-separated segments: `path.normalize`, `path.join`,
    `path.relative`, and the import specifier the generator derives from them. */
module Paths {
  import opened Text

  /** A segment that names a directory or file: not empty, not `.` and not `..`. */
  predicate PlainSegment(seg: string) {
    seg != "" && seg != "." && seg != ".."
  }

  predicate AllPlain(segs: seq<string>) {
    forall k :: 0 <= k < |segs| ==> PlainSegment(segs[k])
  }

  /** The shape of a normalised path: no empty or `.` segments, and `..` only as a
      leading run (and not at all where climbing above the root is not allowed). */
  predicate Normal(segs: seq<string>, aboveRoot: bool) {
    && (forall k :: 0 <= k < |segs| ==> segs[k] != "" && segs[k] != ".")
    && (forall k :: 0 <= k < |segs| && segs[k] == ".." ==> aboveRoot && LeadingDots(segs, k))
  }

  predicate LeadingDots(segs: seq<string>, k: nat)
    requires k <= |segs|
  {
    forall j :: 0 <= j < k ==> segs[j] == ".."
  }

  /** How one segment changes the kept segments: empty and `.` segments vanish, `..`
      removes the last kept segment unless that is itself `..`, and otherwise is kept
      only where the path may climb above its root. */
  function Step(kept: seq<string>, seg: string, aboveRoot: bool): seq<string> {
    if seg == "" || seg == "." then kept
    else if seg == ".." then
      if |kept| > 0 && kept[|kept| - 1] != ".." then kept[..|kept| - 1]
      else if aboveRoot then kept + [".."]
      else kept
    else kept + [seg]
  }

  /** A step keeps the path normal. */
  lemma StepNormal(kept: seq<string>, seg: string, aboveRoot: bool)
    requires Normal(kept, aboveRoot)
    ensures Normal(Step(kept, seg, aboveRoot), aboveRoot)
  {
    var r := Step(kept, seg, aboveRoot);
    if seg == ".." && aboveRoot && (|kept| == 0 || kept[|kept| - 1] == "..") {
      assert r == kept + [".."];
      assert LeadingDots(r, |kept|) by {
        if |kept| > 0 { assert LeadingDots(kept, |kept| - 1); }
      }
    } else if seg != "" && seg != "." && seg != ".." {
      assert r == kept + [seg];
    }
  }

  /** The segment loop of Node's `normalizeString`. */
  function NormalizeFrom(kept: seq<string>, segs: seq<string>, aboveRoot: bool): seq<string>
    decreases |segs|
  {
    if |segs| == 0 then kept else NormalizeFrom(Step(kept, segs[0], aboveRoot), segs[1..], aboveRoot)
  }

  lemma {:induction false} NormalizeFromNormal(kept: seq<string>, segs: seq<string>, aboveRoot: bool)
    requires Normal(kept, aboveRoot)
    ensures Normal(NormalizeFrom(kept, segs, aboveRoot), aboveRoot)
    decreases |segs|
  {
    if |segs| > 0 {
      StepNormal(kept, segs[0], aboveRoot);
      NormalizeFromNormal(Step(kept, segs[0], aboveRoot), segs[1..], aboveRoot);
    }
  }

  /** The segments of a normalised path: `normalizeString` from nothing kept. */
  function Segments(segs: seq<string>, aboveRoot: bool): (r: seq<string>)
    ensures Normal(r, aboveRoot)
  {
    NormalizeFromNormal([], segs, aboveRoot);
    NormalizeFrom([], segs, aboveRoot)
  }

  /** `path.posix.normalize(p)`. */
  function PosixNormalize(p: string): string {
    if p == "" then "."
    else
      var absolute := p[0] == '/';
      var trailing := p[|p| - 1] == '/';
      var body := Join(Segments(Split(p, '/'), !absolute), "/");
      if body == "" then (if absolute then "/" else if trailing then "./" else ".")
      else (if absolute then "/" else "") + body + (if trailing then "/" else "")
  }

  /** `path.posix.join(a, b)`: the non-empty arguments joined by `/`, then normalised. */
  function JoinPaths(a: string, b: string): string {
    var joined := if a == "" then b else if b == "" then a else a + "/" + b;
    if joined == "" then "." else PosixNormalize(joined)
  }

  /** Length of the longest common prefix of two segment lists. */
  function CommonPrefix(a: seq<string>, b: seq<string>): (n: nat)
    ensures n <= |a| && n <= |b|
    ensures a[..n] == b[..n]
    ensures n < |a| && n < |b| ==> a[n] != b[n]
  {
    if |a| == 0 || |b| == 0 || a[0] != b[0] then 0
    else
      var n := 1 + CommonPrefix(a[1..], b[1..]);
      assert a[..n] == [a[0]] + a[1..][..n - 1];
      assert b[..n] == [b[0]] + b[1..][..n - 1];
      n
  }

  /** `n` copies of `..`. */
  function Ups(n: nat): (r: seq<string>)
    ensures |r| == n && forall k :: 0 <= k < n ==> r[k] == ".."
  {
    seq(n, _ => "..")
  }

  /** The segments that lead from directory `f` to directory `t`: climb out of what `f`
      does not share with `t`, then descend into the rest of `t`. */
  function Climb(f: seq<string>, t: seq<string>): seq<string> {
    var p := CommonPrefix(f, t);
    Ups(|f| - p) + t[p..]
  }

  /** `path.relative(from, to)` for two directories inside the working directory. */
  function Relative(from: string, to: string): string {
    Join(Climb(Segments(Split(from, '/'), true), Segments(Split(to, '/'), true)), "/")
  }

  /** All segments but the last (the directory of a `/`-separated file path). */
  function Dir(segs: seq<string>): seq<string>
    requires |segs| >= 1
  {
    segs[..|segs| - 1]
  }

  /** The last segment (the file name of a `/`-separated file path). */
  function Base(segs: seq<string>): string
    requires |segs| >= 1
  {
    segs[|segs| - 1]
  }

  /** `getRelativePath(source, target)`: the specifier through which the file `source`
      imports the file `target`. */
  function RelativeImport(source: string, target: string): string {
    var targetParts := Split(target, '/');
    var rel := Relative(Join(Dir(Split(source, '/')), "/"), Join(Dir(targetParts), "/"));
    if rel != "" then rel + "/" + Base(targetParts) else "./" + Base(targetParts)
  }

  /** Normalisation of a list of plain segments keeps them all. */
  lemma {:induction false} NormalizePlain(kept: seq<string>, segs: seq<string>, aboveRoot: bool)
    requires AllPlain(segs)
    ensures NormalizeFrom(kept, segs, aboveRoot) == kept + segs
    decreases |segs|
  {
    if |segs| > 0 {
      assert PlainSegment(segs[0]);
      assert AllPlain(segs[1..]) by { PlainTail(segs); }
      NormalizePlain(kept + [segs[0]], segs[1..], aboveRoot);
      assert kept + [segs[0]] + segs[1..] == kept + segs;
    }
  }

  lemma PlainTail(segs: seq<string>)
    requires |segs| > 0 && AllPlain(segs)
    ensures AllPlain(segs[1..])
  {
    assert forall k :: 0 <= k < |segs| - 1 ==> segs[1..][k] == segs[k + 1];
  }

  lemma PlainSlice(segs: seq<string>, i: nat, j: nat)
    requires i <= j <= |segs| && AllPlain(segs)
    ensures AllPlain(segs[i..j])
  {
    assert forall k :: 0 <= k < j - i ==> segs[i..j][k] == segs[i + k];
  }

  /** Normalising two lists one after the other is normalising their concatenation. */
  lemma {:induction false} NormalizeAppend(kept: seq<string>, a: seq<string>, b: seq<string>, aboveRoot: bool)
    ensures NormalizeFrom(kept, a + b, aboveRoot) == NormalizeFrom(NormalizeFrom(kept, a, aboveRoot), b, aboveRoot)
    decreases |a|
  {
    if |a| > 0 {
      var next := Step(kept, a[0], aboveRoot);
      assert NormalizeFrom(kept, a + b, aboveRoot) == NormalizeFrom(next, a[1..] + b, aboveRoot) by {
        assert (a + b)[0] == a[0];
        assert (a + b)[1..] == a[1..] + b;
      }
      NormalizeAppend(next, a[1..], b, aboveRoot);
    } else {
      assert a + b == b;
    }
  }

  /** Each `..` removes one plain segment. */
  lemma {:induction false} NormalizeUps(kept: seq<string>, n: nat, aboveRoot: bool)
    requires n <= |kept| && AllPlain(kept)
    ensures NormalizeFrom(kept, Ups(n), aboveRoot) == kept[..|kept| - n]
    decreases n
  {
    if n > 0 {
      var popped := kept[..|kept| - 1];
      assert PlainSegment(kept[|kept| - 1]);
      assert Step(kept, "..", aboveRoot) == popped;
      assert Ups(n)[1..] == Ups(n - 1);
      PlainSlice(kept, 0, |kept| - 1);
      NormalizeUps(popped, n - 1, aboveRoot);
      assert popped[..|popped| - (n - 1)] == kept[..|kept| - n];
    } else {
      assert kept[..|kept|] == kept;
    }
  }

  /** Following the climb from `f` arrives at `t`. */
  lemma ClimbResolves(f: seq<string>, t: seq<string>)
    requires AllPlain(f) && AllPlain(t)
    ensures NormalizeFrom(f, Climb(f, t), true) == t
  {
    var p := CommonPrefix(f, t);
    NormalizeAppend(f, Ups(|f| - p), t[p..], true);
    NormalizeUps(f, |f| - p, true);
    assert f[..|f| - (|f| - p)] == t[..p];
    PlainSlice(t, p, |t|);
    NormalizePlain(t[..p], t[p..], true);
    assert t[..p] + t[p..] == t;
  }

  /** A `/`-joined list of segments that hold no `/` splits back into the list; the
      empty list splits into one empty part, which normalisation drops. */
  lemma SegmentsOfJoin(segs: seq<string>)
    requires AllPlain(segs) && forall k :: 0 <= k < |segs| ==> NoChar(segs[k], '/')
    ensures Segments(Split(Join(segs, "/"), '/'), true) == segs
  {
    if |segs| == 0 {
      SegmentsOfEmpty();
    } else {
      SplitJoin(segs, '/');
      NormalizePlain([], segs, true);
      assert [] + segs == segs;
    }
  }

  lemma SegmentsOfEmpty()
    ensures Segments(Split("", '/'), true) == []
  {
    SplitWhole("", '/');
    var e: seq<string> := [""];
    assert e[1..] == [];
    assert NormalizeFrom([], e, true) == NormalizeFrom([], [], true);
  }

  /** The segments of the specifier: the climb followed by the file name, or `.` and
      the file name when the two files share their directory. */
  lemma RelativeImportSegments(source: string, target: string)
    requires AllPlain(Split(source, '/')) && AllPlain(Split(target, '/'))
    ensures var tp := Split(target, '/');
            var climb := Climb(Dir(Split(source, '/')), Dir(tp));
            Split(RelativeImport(source, target), '/')
              == (if climb == [] then ["."] else climb) + [Base(tp)]
  {
    var sp, tp := Split(source, '/'), Split(target, '/');
    var f, t := Dir(sp), Dir(tp);
    PlainSlice(sp, 0, |sp| - 1);
    PlainSlice(tp, 0, |tp| - 1);
    NoSlashSlice(sp, |sp| - 1);
    NoSlashSlice(tp, |tp| - 1);
    SegmentsOfJoin(f);
    SegmentsOfJoin(t);
    var climb := Climb(f, t);
    ClimbNoSlash(f, t);
    var rel := Relative(Join(f, "/"), Join(t, "/"));
    assert rel == Join(climb, "/");
    SpecifierShape(rel, Base(tp), climb);
  }

  /** Splitting `rel/name`, or `./name` when `rel` is empty. */
  lemma SpecifierShape(rel: string, name: string, climb: seq<string>)
    requires rel == Join(climb, "/") && NoChar(name, '/')
    requires forall k :: 0 <= k < |climb| ==> NoChar(climb[k], '/') && climb[k] != ""
    ensures Split(if rel != "" then rel + "/" + name else "./" + name, '/')
         == (if climb == [] then ["."] else climb) + [name]
  {
    if |climb| == 0 {
      SpecifierHere(name);
    } else {
      JoinNonEmpty(climb);
      SpecifierUp(climb, name);
    }
  }

  lemma SpecifierHere(name: string)
    requires NoChar(name, '/')
    ensures Split("./" + name, '/') == [".", name]
  {
    var parts := [".", name];
    assert parts[1..] == [name];
    assert Join(parts, "/") == "./" + name;
    assert NoChar(parts[0], '/');
    SplitJoin(parts, '/');
  }

  lemma SpecifierUp(climb: seq<string>, name: string)
    requires |climb| >= 1 && NoChar(name, '/')
    requires forall k :: 0 <= k < |climb| ==> NoChar(climb[k], '/')
    ensures Split(Join(climb, "/") + "/" + name, '/') == climb + [name]
  {
    JoinSnoc(climb, name, "/");
    assert forall k :: 0 <= k < |climb + [name]| ==> NoChar((climb + [name])[k], '/') by {
      forall k | 0 <= k < |climb + [name]| ensures NoChar((climb + [name])[k], '/') {
        if k < |climb| { assert (climb + [name])[k] == climb[k]; }
      }
    }
    SplitJoin(climb + [name], '/');
  }

  lemma NoSlashSlice(segs: seq<string>, n: nat)
    requires n <= |segs| && forall k :: 0 <= k < |segs| ==> NoChar(segs[k], '/')
    ensures forall k :: 0 <= k < n ==> NoChar(segs[..n][k], '/')
  {
  }

  lemma ClimbNoSlash(f: seq<string>, t: seq<string>)
    requires AllPlain(t) && forall k :: 0 <= k < |t| ==> NoChar(t[k], '/')
    ensures forall k :: 0 <= k < |Climb(f, t)| ==> NoChar(Climb(f, t)[k], '/') && Climb(f, t)[k] != ""
  {
    var p := CommonPrefix(f, t);
    var c := Climb(f, t);
    forall k | 0 <= k < |c| ensures NoChar(c[k], '/') && c[k] != "" {
      if k < |f| - p {
        assert c[k] == "..";
        assert c[k][0] == '.' && c[k][1] == '.';
      } else {
        assert c[k] == t[p + k - (|f| - p)];
      }
    }
  }

  /** The specifier, read from the importing file's directory, leads back to the target:
      normalising the source directory followed by the specifier's segments gives the
      target's segments. Holds for paths made of plain segments. */
  lemma RelativeImportResolves(source: string, target: string)
    requires AllPlain(Split(source, '/')) && AllPlain(Split(target, '/'))
    ensures Segments(Dir(Split(source, '/')) + Split(RelativeImport(source, target), '/'), true)
         == Split(target, '/')
  {
    RelativeImportSegments(source, target);
    ResolveSegments(Split(source, '/'), Split(target, '/'), Split(RelativeImport(source, target), '/'));
  }

  lemma ResolveSegments(sp: seq<string>, tp: seq<string>, rel: seq<string>)
    requires |sp| >= 1 && |tp| >= 1 && AllPlain(sp) && AllPlain(tp)
    requires var climb := Climb(Dir(sp), Dir(tp));
      rel == (if climb == [] then ["."] else climb) + [Base(tp)]
    ensures Segments(Dir(sp) + rel, true) == tp
  {
    PlainSlice(sp, 0, |sp| - 1);
    PlainSlice(tp, 0, |tp| - 1);
    ResolveLead(Dir(sp), Dir(tp), Base(tp));
    assert Dir(tp) + [Base(tp)] == tp;
  }

  /** Resolution of the specifier's segments against the source directory. */
  lemma ResolveLead(f: seq<string>, t: seq<string>, name: string)
    requires AllPlain(f) && AllPlain(t) && PlainSegment(name)
    ensures var climb := Climb(f, t);
            NormalizeFrom([], f + ((if climb == [] then ["."] else climb) + [name]), true) == t + [name]
  {
    var climb := Climb(f, t);
    var lead := if climb == [] then ["."] else climb;
    NormalizeAppend([], f, lead + [name], true);
    NormalizePlain([], f, true);
    assert [] + f == f;
    NormalizeAppend(f, lead, [name], true);
    if climb == [] {
      assert NormalizeFrom(f, ["."], true) == f;
      ClimbEmpty(f, t);
    } else {
      ClimbResolves(f, t);
    }
    NormalizePlain(t, [name], true);
  }

  lemma ClimbEmpty(f: seq<string>, t: seq<string>)
    requires Climb(f, t) == []
    ensures f == t
  {
    var p := CommonPrefix(f, t);
    assert |f| == p && |t| == p;
    assert f == f[..p] && t == t[..p];
  }

  lemma JoinSnoc(parts: seq<string>, last: string, sep: string)
    requires |parts| >= 1
    ensures Join(parts, sep) + sep + last == Join(parts + [last], sep)
    decreases |parts|
  {
    if |parts| > 1 {
      JoinSnoc(parts[1..], last, sep);
      assert (parts + [last])[1..] == parts[1..] + [last];
    }
  }

  lemma JoinNonEmpty(parts: seq<string>)
    requires |parts| >= 1 && parts[0] != ""
    ensures Join(parts, "/") != ""
  {
  }

  /** Two files in the same directory import each other as `./name`. */
  lemma RelativeImportSibling(source: string, target: string)
    requires AllPlain(Split(source, '/')) && AllPlain(Split(target, '/'))
    requires Dir(Split(source, '/')) == Dir(Split(target, '/'))
    ensures RelativeImport(source, target) == "./" + Base(Split(target, '/'))
  {
    var sp, tp := Split(source, '/'), Split(target, '/');
    var f := Dir(tp);
    PlainSlice(tp, 0, |tp| - 1);
    NoSlashSlice(tp, |tp| - 1);
    SegmentsOfJoin(f);
    assert CommonPrefix(f, f) == |f|;
    assert Climb(f, f) == [];
    assert Relative(Join(f, "/"), Join(f, "/")) == Join([], "/");
  }

  /** A relative path of plain segments without a trailing `/` is already normal. */
  lemma PosixNormalizePlain(p: string)
    requires p != "" && p[0] != '/' && p[|p| - 1] != '/' && AllPlain(Split(p, '/'))
    ensures PosixNormalize(p) == p
  {
    NormalizePlain([], Split(p, '/'), true);
    assert [] + Split(p, '/') == Split(p, '/');
    JoinSplit(p, '/');
  }

  /** Joining two relative paths of plain segments puts one `/` between them. */
  lemma JoinPathsPlain(a: string, b: string)
    requires a != "" && b != "" && a[0] != '/' && b[|b| - 1] != '/'
    requires AllPlain(Split(a, '/')) && AllPlain(Split(b, '/'))
    ensures JoinPaths(a, b) == a + "/" + b
  {
    var joined := a + "/" + b;
    SplitConcat(a, b);
    PlainConcat(Split(a, '/'), Split(b, '/'));
    assert joined[0] == a[0];
    assert joined[|joined| - 1] == b[|b| - 1];
    PosixNormalizePlain(joined);
  }

  lemma PlainConcat(x: seq<string>, y: seq<string>)
    requires AllPlain(x) && AllPlain(y)
    ensures AllPlain(x + y)
  {
    forall k | 0 <= k < |x + y| ensures PlainSegment((x + y)[k]) {
      if k < |x| { assert (x + y)[k] == x[k]; } else { assert (x + y)[k] == y[k - |x|]; }
    }
  }

  /** Splitting `a/b` splits `a` and `b` separately. */
  lemma SplitConcat(a: string, b: string)
    ensures Split(a + "/" + b, '/') == Split(a, '/') + Split(b, '/')
  {
    var sa, sb := Split(a, '/'), Split(b, '/');
    JoinSplit(a, '/');
    JoinSplit(b, '/');
    JoinConcat(sa, sb);
    forall k | 0 <= k < |sa + sb| ensures NoChar((sa + sb)[k], '/') {
      if k < |sa| { assert (sa + sb)[k] == sa[k]; } else { assert (sa + sb)[k] == sb[k - |sa|]; }
    }
    SplitJoin(sa + sb, '/');
  }

  lemma {:induction false} JoinConcat(x: seq<string>, y: seq<string>)
    requires |x| >= 1 && |y| >= 1
    ensures Join(x, "/") + "/" + Join(y, "/") == Join(x + y, "/")
    decreases |x|
  {
    assert (x + y)[0] == x[0];
    if |x| > 1 {
      JoinConcat(x[1..], y);
      assert (x + y)[1..] == x[1..] + y;
    } else {
      assert (x + y)[1..] == y;
    }
  }
}
