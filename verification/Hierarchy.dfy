/** Where files sit in the tree: fully qualified paths, the relative path that `select_file` walks,
    and the identifiers selectable from a file (pySim/filesystem.py). */
module Hierarchy {
  import opened Wrappers
  import opened Filesystem

  /** The files attached to one MF, each with the files from the MF down to it. */
  type Paths = map<CardFile, seq<CardFile>>

  /** Every file hangs below `root`. */
  ghost predicate Rooted(root: CardFile, paths: Paths)
    reads paths.Keys
  {
    && root in paths && paths[root] == [root]
    && (forall f {:trigger Attached(root, paths, f)} | f in paths && f != root :: Attached(root, paths, f))
    && (forall d {:trigger Listed(paths, d)} | d in paths :: Listed(paths, d))
  }

  ghost predicate ValidTree(mf: CardFile, paths: Paths)
    reads paths.Keys
  {
    && Rooted(mf, paths) && mf.kind == MF && mf.parent == mf && mf.fid == MF_FID && mf.name == MF_NAME
    && (forall a <- mf.applications :: a in paths && a.kind == ADF && a.parent == mf)
    && (forall i, j | 0 <= i < j < |mf.applications| :: mf.applications[i].aid != mf.applications[j].aid)
  }

  /** A file other than the MF hangs below a directory that lists it. */
  ghost predicate Attached(mf: CardFile, paths: Paths, f: CardFile)
    requires mf in paths && f in paths
    reads paths.Keys
  {
    && f.kind != MF && f.parent != null && f.parent in paths && f.parent.IsDir() && f.parent != f
    && paths[f] == paths[f.parent] + [f]
    && (if f.kind == ADF then f.parent == mf && f in mf.applications else f in f.parent.children)
  }

  /** What a directory lists hangs below it. */
  ghost predicate Listed(paths: Paths, d: CardFile)
    requires d in paths
    reads paths.Keys
  {
    && (forall c <- d.children :: c in paths && c.parent == d && (c.kind == DF || c.kind == EF))
    && (if d.IsDir() then d.DirOk() else d.children == [])
  }

  function Last<T>(s: seq<T>): T
    requires s != []
  {
    s[|s| - 1]
  }

  function Init<T>(s: seq<T>): seq<T>
    requires s != []
  {
    s[..|s| - 1]
  }

  // ---------- fully qualified paths ----------

  lemma PathShape(mf: CardFile, paths: Paths, f: CardFile)
    requires ValidTree(mf, paths) && f in paths
    ensures paths[f] != [] && Last(paths[f]) == f && (f == mf <==> |paths[f]| == 1)
    decreases |paths[f]|
  {
    if f != mf {
      assert Attached(mf, paths, f);
      PathShape(mf, paths, f.parent);
    }
  }

  /** A sequence of files from the MF downwards, each the parent of the next. */
  ghost predicate Lineage(mf: CardFile, p: seq<CardFile>)
    reads p
  {
    && p != [] && p[0] == mf
    && (forall i {:trigger p[i].parent} | 0 < i < |p| :: p[i] != mf && p[i].parent == p[i - 1])
    && (forall i | 0 <= i < |p| - 1 :: p[i].IsDir())
  }

  lemma {:induction false} PathIsLineage(mf: CardFile, paths: Paths, f: CardFile)
    requires ValidTree(mf, paths) && f in paths
    ensures Lineage(mf, paths[f]) && Last(paths[f]) == f
    ensures forall g <- paths[f] :: g in paths
    decreases |paths[f]|
  {
    if f != mf {
      assert Attached(mf, paths, f);
      PathIsLineage(mf, paths, f.parent);
      PathShape(mf, paths, f.parent);
    }
  }

  /** A file stands at one depth only, below the same ancestors on every path. */
  lemma {:induction false} LineagesAgree(mf: CardFile, p: seq<CardFile>, q: seq<CardFile>, a: nat, b: nat)
    requires Lineage(mf, p) && Lineage(mf, q)
    requires a < |p| && b < |q| && p[a] == q[b]
    ensures a == b && forall i | 0 <= i <= a :: p[i] == q[i]
  {
    assert a > 0 ==> p[a].parent == p[a - 1];
    assert b > 0 ==> q[b].parent == q[b - 1];
    if a > 0 && b > 0 { LineagesAgree(mf, p, q, a - 1, b - 1); }
  }

  /** `fully_qualified_path_fobj` */
  function FullyQualifiedPathFobj(mf: CardFile, ghost paths: Paths, f: CardFile): (r: seq<CardFile>)
    requires ValidTree(mf, paths) && f in paths
    reads paths.Keys
    ensures r == paths[f]
    decreases |paths[f]|
  {
    assert f != mf ==> Attached(mf, paths, f);
    if f.parent != null && f.parent != f then FullyQualifiedPathFobj(mf, paths, f.parent) + [f] else [f]
  }

  /** `get_mf`, climbing as the source does. */
  method GetMf(mf: CardFile, ghost paths: Paths, f: CardFile) returns (r: CardFile)
    requires ValidTree(mf, paths) && f in paths
    ensures r == mf
  {
    r := f;
    PathShape(mf, paths, f);
    while r.parent != null && r.parent != r
      invariant r in paths
      decreases |paths[r]|
    {
      assert r != mf ==> Attached(mf, paths, r);
      r := r.parent;
    }
    PathShape(mf, paths, r);
    assert r != mf ==> Attached(mf, paths, r);
  }

  // ---------- the path that select_file walks ----------

  function Reversed<T>(s: seq<T>): (r: seq<T>)
    ensures |r| == |s| && forall i | 0 <= i < |s| :: r[i] == s[|s| - 1 - i]
  {
    seq(|s|, i requires 0 <= i < |s| => s[|s| - 1 - i])
  }

  /** Length of the longest common prefix. */
  function CommonLen<T(==)>(a: seq<T>, b: seq<T>): (k: nat)
    ensures k <= |a| && k <= |b| && forall i | 0 <= i < k :: a[i] == b[i]
    ensures k < |a| && k < |b| ==> a[k] != b[k]
  {
    if a == [] || b == [] || a[0] != b[0] then 0 else 1 + CommonLen(a[1..], b[1..])
  }

  /** Number of parent-child steps between the ends of two fully qualified paths. */
  function Distance<T(==)>(a: seq<T>, b: seq<T>): nat {
    |a| + |b| - 2 * CommonLen(a, b)
  }

  /** Up from the end of `a` to the deepest ancestor it shares with the parent of the end of `b`, then down. */
  function Route<T(==)>(a: seq<T>, b: seq<T>): seq<T>
    requires b != [] && CommonLen(a, Init(b)) > 0
  {
    var k := CommonLen(a, Init(b));
    Reversed(a[k - 1..|a| - 1]) + b[k..]
  }

  /** Index of the last ADF of a route, 0 when it has none. */
  function LastAdf(route: seq<CardFile>): (k: nat)
    ensures forall i | k < i < |route| :: route[i].kind != ADF
    ensures k <= |route| && (route != [] ==> k < |route|)
    ensures k > 0 ==> k < |route| && route[k].kind == ADF
  {
    if route == [] then 0
    else if Last(route).kind == ADF then |route| - 1
    else LastAdf(Init(route))
  }

  /** `clip_path`: an ADF can be selected from anywhere, so nothing before the last one is needed. */
  function Clip(route: seq<CardFile>): seq<CardFile> {
    if route == [] then [] else route[LastAdf(route)..]
  }

  ghost function SelectPath(mf: CardFile, paths: Paths, from: CardFile, target: CardFile): seq<CardFile>
    requires ValidTree(mf, paths) && from in paths && target in paths
    reads paths.Keys
  {
    RootIsShared(mf, paths, from, target);
    if target == mf then [mf] else Clip(Route(paths[from], paths[target]))
  }

  lemma RootIsShared(mf: CardFile, paths: Paths, from: CardFile, target: CardFile)
    requires ValidTree(mf, paths) && from in paths && target in paths
    ensures paths[target] != []
    ensures target != mf ==> CommonLen(paths[from], Init(paths[target])) > 0
  {
    PathIsLineage(mf, paths, from);
    PathIsLineage(mf, paths, target);
    PathShape(mf, paths, target);
  }

  /** `build_select_path_to`: it always finds a path, the one `SelectPath` describes. */
  method BuildSelectPathTo(mf: CardFile, ghost paths: Paths, from: CardFile, target: CardFile)
    returns (r: Option<seq<CardFile>>)
    requires ValidTree(mf, paths) && from in paths && target in paths
    ensures r == Some(SelectPath(mf, paths, from, target))
  {
    var root := GetMf(mf, paths, target);
    if target == root { return Some([target]); }
    RootIsShared(mf, paths, from, target);
    PathIsLineage(mf, paths, from);
    PathIsLineage(mf, paths, target);
    r := ViaCommonAncestor(mf, FullyQualifiedPathFobj(mf, paths, from), FullyQualifiedPathFobj(mf, paths, target));
  }

  /** The search of `build_select_path_to` over the two fully qualified paths. */
  method ViaCommonAncestor(ghost mf: CardFile, curFqpath: seq<CardFile>, tgt: seq<CardFile>)
    returns (r: Option<seq<CardFile>>)
    requires Lineage(mf, curFqpath) && Lineage(mf, tgt) && |tgt| > 1
    requires CommonLen(curFqpath, Init(tgt)) > 0
    ensures r == Some(Clip(Route(curFqpath, tgt)))
  {
    var cur := Reversed(curFqpath);
    var parents := Init(tgt);
    assert cur[|cur| - 1] in parents;
    r := None;
    var inter := [];
    for n := 0 to |cur|
      invariant inter == cur[..n]
      invariant forall j | 0 <= j < n :: cur[j] !in parents
    {
      var ce := cur[n];
      inter := inter + [ce];
      assert inter == cur[..n + 1];
      var i := IndexOf(parents, ce);
      if i < |parents| {
        r := GoDown(mf, curFqpath, tgt, inter, n, i);
        return;
      }
    }
  }

  /** The common ancestor is found: the path goes down from there. */
  method GoDown(ghost mf: CardFile, ghost curFqpath: seq<CardFile>, tgt: seq<CardFile>, up: seq<CardFile>,
                ghost n: nat, i: nat)
    returns (r: Option<seq<CardFile>>)
    requires Lineage(mf, curFqpath) && Lineage(mf, tgt) && n < |curFqpath| && i < |tgt| - 1
    requires up == Reversed(curFqpath)[..n + 1] && tgt[i] == Reversed(curFqpath)[n]
    requires forall j | 0 <= j < n :: Reversed(curFqpath)[j] !in Init(tgt)
    ensures CommonLen(curFqpath, Init(tgt)) > 0 && r == Some(Clip(Route(curFqpath, tgt)))
  {
    MeetingPoint(mf, curFqpath, tgt, |curFqpath| - 1 - n, i);
    var inter := AppendEach(up, tgt[i + 1..]);
    r := Some(Clip(inter[1..]));
  }

  method IndexOf(files: seq<CardFile>, f: CardFile) returns (i: nat)
    ensures i <= |files| && f !in files[..i] && (i < |files| ==> files[i] == f)
  {
    i := 0;
    while i < |files| && files[i] != f
      invariant 0 <= i <= |files| && f !in files[..i]
    {
      i := i + 1;
    }
  }

  method AppendEach(inter: seq<CardFile>, files: seq<CardFile>) returns (r: seq<CardFile>)
    ensures r == inter + files
  {
    r := inter;
    for j := 0 to |files|
      invariant r == inter + files[..j]
    {
      r := r + [files[j]];
    }
  }

  /** Where the two paths first meet going up, they have climbed to their deepest common ancestor. */
  lemma MeetingPoint(mf: CardFile, p: seq<CardFile>, q: seq<CardFile>, a: nat, b: nat)
    requires Lineage(mf, p) && Lineage(mf, q)
    requires a < |p| && b < |q| - 1 && p[a] == q[b]
    requires forall j | 0 <= j < |p| - 1 - a :: Reversed(p)[j] !in Init(q)
    ensures a == b && CommonLen(p, Init(q)) == a + 1
    ensures (Reversed(p)[..|p| - a] + q[b + 1..])[1..] == Route(p, q)
  {
    LineagesAgree(mf, p, q, a, b);
    if a < |p| - 1 { assert p[a + 1] == Reversed(p)[|p| - 2 - a]; }
    PartAfter(p, Init(q), a);
    UpThenDown(p, q[b + 1..], a);
  }

  lemma PartAfter<T>(p: seq<T>, q: seq<T>, a: nat)
    requires a < |p| && a < |q| && (forall i | 0 <= i <= a :: p[i] == q[i]) && (a < |p| - 1 ==> p[a + 1] !in q)
    ensures CommonLen(p, q) == a + 1
  {
  }

  lemma UpThenDown<T>(p: seq<T>, down: seq<T>, a: nat)
    requires a < |p|
    ensures (Reversed(p)[..|p| - a] + down)[1..] == Reversed(p[a..|p| - 1]) + down
  {
    var up := Reversed(p)[..|p| - a];
    assert up[1..] == Reversed(p[a..|p| - 1]);
    assert (up + down)[1..] == up[1..] + down;
  }

  // ---------- what that path is like ----------

  /** A SELECT the card can carry out after `prev`: the MF, an application, or a tree neighbour. */
  predicate Step(mf: CardFile, prev: CardFile, f: CardFile)
    reads prev, f
  {
    f == mf || f.kind == ADF || f.parent == prev || prev.parent == f
  }

  predicate StepAt(mf: CardFile, from: CardFile, r: seq<CardFile>, i: nat)
    requires i < |r|
    reads from, r
  {
    Step(mf, if i == 0 then from else r[i - 1], r[i])
  }

  /** Every element of `r` can be selected after the one before it, the first after `from`. */
  ghost predicate Walk(mf: CardFile, from: CardFile, r: seq<CardFile>)
    reads from, r
  {
    forall i | 0 <= i < |r| :: StepAt(mf, from, r, i)
  }

  lemma RouteIsWalk(mf: CardFile, p: seq<CardFile>, q: seq<CardFile>)
    requires Lineage(mf, p) && Lineage(mf, q) && |q| > 1
    requires CommonLen(p, Init(q)) > 0
    ensures var r := Route(p, q);
            && r != [] && Last(r) == Last(q)
            && (forall i | 0 <= i < |r| - 1 :: r[i].IsDir())
            && Walk(mf, Last(p), r)
            && |r| == Distance(p, Init(q)) + 1
  {
    var k := CommonLen(p, Init(q));
    assert p[k - 1] == q[k - 1];
    forall i | 0 <= i < |Route(p, q)|
      ensures StepAt(mf, Last(p), Route(p, q), i) && (i < |Route(p, q)| - 1 ==> Route(p, q)[i].IsDir())
    {
      RouteAt(p, q, i);
      if i > 0 { RouteAt(p, q, i - 1); }
      StepOfRoute(mf, p, q, k, i);
    }
    RouteEnds(p, q);
  }

  lemma RouteEnds<T>(p: seq<T>, q: seq<T>)
    requires |q| > 1 && CommonLen(p, Init(q)) > 0
    ensures var r := Route(p, q); r != [] && Last(r) == Last(q) && |r| == Distance(p, Init(q)) + 1
  {
    RouteAt(p, q, |Route(p, q)| - 1);
  }

  /** Element `i` of the route from the end of `p` up to element `k - 1`, then down along `q`. */
  function OnRoute<T>(p: seq<T>, q: seq<T>, k: nat, i: int): T
    requires 0 < k <= |p| && k <= |q| && -1 <= i < |p| + |q| - 2 * k
  {
    if i < |p| - k then p[|p| - 2 - i] else q[2 * k - |p| + i]
  }

  lemma StepOfRoute(mf: CardFile, p: seq<CardFile>, q: seq<CardFile>, k: nat, i: nat)
    requires Lineage(mf, p) && Lineage(mf, q) && 0 < k <= |p| && k <= |q| && p[k - 1] == q[k - 1]
    requires i < |p| + |q| - 2 * k
    ensures Step(mf, OnRoute(p, q, k, i - 1), OnRoute(p, q, k, i))
    ensures i < |p| + |q| - 2 * k - 1 ==> OnRoute(p, q, k, i).IsDir()
  {
    if i < |p| - k {
      assert p[|p| - 1 - i].parent == p[|p| - 2 - i];
    } else {
      assert q[2 * k - |p| + i].parent == q[2 * k - |p| + i - 1];
    }
  }

  lemma RouteAt<T>(p: seq<T>, q: seq<T>, i: nat)
    requires q != [] && CommonLen(p, Init(q)) > 0 && i < |Route(p, q)|
    ensures Route(p, q)[i] == OnRoute(p, q, CommonLen(p, Init(q)), i)
  {
  }

  /** Where two paths part at the MF and one enters an application, their route is clipped there. */
  lemma ClipAtSecond(p: seq<CardFile>, q: seq<CardFile>)
    requires |q| > 1 && CommonLen(p, Init(q)) == 1 && q[1].kind == ADF && forall i | 2 <= i < |q| :: q[i].kind != ADF
    ensures var r := Clip(Route(p, q)); r != [] && r[0] == q[1]
  {
    var route := Route(p, q);
    RouteAt(p, q, |p| - 1);
    if LastAdf(route) > |p| - 1 { RouteAt(p, q, LastAdf(route)); }
  }

  lemma RouteElements(p: seq<CardFile>, q: seq<CardFile>)
    requires p != [] && q != [] && CommonLen(p, Init(q)) > 0
    ensures forall f <- Clip(Route(p, q)) :: f in Init(p) || f in q
  {
    var k, r := CommonLen(p, Init(q)), Route(p, q);
    forall i | 0 <= i < |r| ensures r[i] in Init(p) || r[i] in q {
      RouteAt(p, q, i);
      assert i < |p| - k ==> r[i] == Init(p)[|p| - 2 - i];
    }
  }

  /** The path to any file stays among the ancestors of its two ends. */
  lemma SelectPathElements(mf: CardFile, paths: Paths, from: CardFile, target: CardFile)
    requires ValidTree(mf, paths) && from in paths && target in paths
    ensures paths[from] != []
    ensures forall f <- SelectPath(mf, paths, from, target) ::
              f in paths && (f in Init(paths[from]) || f in paths[target])
  {
    RootIsShared(mf, paths, from, target);
    PathIsLineage(mf, paths, from);
    PathIsLineage(mf, paths, target);
    if target != mf { RouteElements(paths[from], paths[target]); }
  }

  /** The path to any file ends there, passes only through directories, moves only as a card can,
      enters an application only at its start, and is at most one step longer than the way to the
      target's parent. */
  lemma SelectPathIsWalk(mf: CardFile, paths: Paths, from: CardFile, target: CardFile)
    requires ValidTree(mf, paths) && from in paths && target in paths
    ensures var r := SelectPath(mf, paths, from, target);
            && r != [] && Last(r) == target
            && (forall i | 0 <= i < |r| - 1 :: r[i].IsDir())
            && Walk(mf, from, r)
            && (forall i | 0 < i < |r| :: r[i].kind != ADF)
            && target.parent in paths && |r| <= Distance(paths[from], paths[target.parent]) + 1
  {
    RootIsShared(mf, paths, from, target);
    if target != mf {
      assert Attached(mf, paths, target);
      var p, q := paths[from], paths[target];
      PathIsLineage(mf, paths, from);
      PathIsLineage(mf, paths, target);
      PathShape(mf, paths, target);
      RouteIsWalk(mf, p, q);
      assert Init(q) == paths[target.parent];
      var route := Route(p, q);
      var r := SelectPath(mf, paths, from, target);
      forall i | 0 <= i < |r| ensures StepAt(mf, from, r, i) {
        assert StepAt(mf, from, route, LastAdf(route) + i);
      }
    }
  }

  lemma CommonLenStep<T>(a: seq<T>, x: T, b: seq<T>)
    ensures CommonLen(a, b) <= CommonLen(a + [x], b) <= CommonLen(a, b) + 1
  {
    var c, d := CommonLen(a, b), CommonLen(a + [x], b);
    assert c < d ==> c == |a|;
    assert forall i | 0 <= i < c :: (a + [x])[i] == b[i];
  }

  /** A sequence of moves from `from`, each to the parent or a child. */
  ghost predicate Trail(from: CardFile, moves: seq<CardFile>)
    reads from, moves
  {
    moves == [] ||
    (from != moves[0] && (moves[0].parent == from || from.parent == moves[0]) && Trail(moves[0], moves[1..]))
  }

  /** `Distance` is a true lower bound: no sequence of moves to a parent or child is shorter. */
  lemma {:induction false} DistanceIsShortest(mf: CardFile, paths: Paths, from: CardFile, moves: seq<CardFile>)
    requires ValidTree(mf, paths) && from in paths && forall f <- moves :: f in paths
    requires Trail(from, moves)
    ensures Distance(paths[from], paths[Last([from] + moves)]) <= |moves|
  {
    if moves == [] {
      assert CommonLen(paths[from], paths[from]) == |paths[from]|;
    } else {
      var next := moves[0];
      var to := Last([from] + moves);
      assert next != mf ==> Attached(mf, paths, next);
      assert from != mf ==> Attached(mf, paths, from);
      DistanceIsShortest(mf, paths, next, moves[1..]);
      assert [next] + moves[1..] == moves;
      if next.parent == from {
        assert paths[next] == paths[from] + [next];
        CommonLenStep(paths[from], next, paths[to]);
      } else {
        assert paths[from] == paths[next] + [from];
        CommonLenStep(paths[next], from, paths[to]);
      }
    }
  }
}
