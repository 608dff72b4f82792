/** How trees of file objects come about: files are attached to directories, and applications to the MF, one
    at a time and in any order, each with whatever is already below it (pySim/filesystem.py). */
module Building {
  import opened Filesystem
  import opened Hierarchy

  /** A DF, ADF or EF that is not attached yet, with all that is below it. */
  ghost predicate Branch(root: CardFile, sub: Paths)
    reads sub.Keys
  {
    Rooted(root, sub) && root.kind != MF && root.parent == null && root.applications == []
  }

  ghost function Longest(sub: Paths, files: set<CardFile>): (n: nat)
    requires files <= sub.Keys
    ensures forall f <- files :: |sub[f]| <= n
  {
    if files == {} then 0
    else
      var f :| f in files;
      var n := Longest(sub, files - {f});
      if n < |sub[f]| then |sub[f]| else n
  }

  ghost function Heights(sub: Paths): (h: map<CardFile, nat>)
    ensures h.Keys == sub.Keys
  {
    map f | f in sub :: Longest(sub, sub.Keys) - |sub[f]|
  }

  /** No file of a branch is its own descendant. */
  lemma BranchIsLayered(root: CardFile, sub: Paths)
    requires Branch(root, sub)
    ensures Layered(Heights(sub))
  {
    forall d, c | d in sub && c in d.children
      ensures c in sub && |sub[c]| == |sub[d]| + 1
    {
      assert Listed(sub, d) && Attached(root, sub, c);
    }
  }

  /** The files of `paths`, and those of `sub` below the directory `d`. */
  ghost function Grafted(paths: Paths, d: CardFile, sub: Paths): Paths
    requires d in paths
  {
    paths + map g | g in sub :: paths[d] + sub[g]
  }

  lemma NewFileIsBranch(f: CardFile)
    requires f.kind != MF && f.parent == null && f.children == [] && f.applications == []
    ensures Branch(f, map[f := [f]])
  {
  }

  lemma NewMfIsTree(mf: CardFile)
    requires mf.kind == MF && mf.fid == MF_FID && mf.name == MF_NAME && mf.parent == mf
    requires mf.children == [] && mf.applications == []
    ensures ValidTree(mf, map[mf := [mf]])
  {
  }

  /** The top of a branch has been entered below `d`, and nothing else has changed. */
  ghost predicate Graftable(root: CardFile, paths: Paths, d: CardFile, top: CardFile, sub: Paths)
    reads paths.Keys, sub.Keys
  {
    && root in paths && paths[root] == [root] && d in paths && d.IsDir() && paths.Keys !! sub.Keys
    && (forall f {:trigger Attached(root, paths, f)} | f in paths && f != root :: Attached(root, paths, f))
    && (forall e {:trigger Listed(paths, e)} | e in paths && e != d :: Listed(paths, e))
    && top in sub && ListedBut(paths, d, top)
    && sub[top] == [top] && top.kind != MF && top.applications == [] && top.parent == d
    && (if top.kind == ADF then d == root && top in root.applications else top in d.children)
    && (forall g {:trigger Attached(top, sub, g)} | g in sub && g != top :: Attached(top, sub, g))
    && (forall e {:trigger Listed(sub, e)} | e in sub :: Listed(sub, e))
  }

  /** What the directory `d` lists hangs below it, and one of it may be `top`. */
  ghost predicate ListedBut(paths: Paths, d: CardFile, top: CardFile)
    requires d in paths
    reads paths.Keys, top
  {
    && (forall c <- d.children :: (c == top || (c in paths && c.parent == d)) && (c.kind == DF || c.kind == EF))
    && d.DirOk()
  }

  lemma GraftedFileIsAttached(root: CardFile, paths: Paths, d: CardFile, top: CardFile, sub: Paths, g: CardFile)
    requires root in paths && d in paths && d.IsDir() && top in sub && sub[top] == [top] && paths.Keys !! sub.Keys
    requires top.kind != MF && top.applications == [] && top.parent == d && g in sub
    requires if top.kind == ADF then d == root && top in root.applications else top in d.children
    requires g != top ==> Attached(top, sub, g)
    ensures Attached(root, Grafted(paths, d, sub), g)
  {
    if g != top {
      assert paths[d] + (sub[g.parent] + [g]) == (paths[d] + sub[g.parent]) + [g];
    }
  }

  /** Once the top of a branch is entered below `d`, the tree holds the branch. */
  lemma GraftIsRooted(root: CardFile, paths: Paths, d: CardFile, top: CardFile, sub: Paths)
    requires Graftable(root, paths, d, top, sub)
    ensures Rooted(root, Grafted(paths, d, sub))
  {
    var all := Grafted(paths, d, sub);
    forall f | f in all && f != root ensures Attached(root, all, f) {
      if f in sub {
        GraftedFileIsAttached(root, paths, d, top, sub, f);
      } else {
        assert Attached(root, paths, f);
      }
    }
    forall e | e in all ensures Listed(all, e) {
      if e in sub {
        assert Listed(sub, e);
      } else {
        assert e != d ==> Listed(paths, e);
      }
    }
  }

  /** `add_file` on any directory of a tree, or of a branch still to be attached: a tree stays a tree, and if
      the file is admitted it holds the file with all that is below it. */
  method AddFileToTree(root: CardFile, ghost paths: Paths, d: CardFile, child: CardFile, ghost sub: Paths,
                       ignoreExisting: bool)
    returns (r: AddResult, ghost all: Paths)
    requires Rooted(root, paths) && d in paths && d.IsDir()
    requires Branch(child, sub) && (child.kind == DF || child.kind == EF) && paths.Keys !! sub.Keys
    modifies d`children, d`filesByService, child`parent
    ensures r.Added? || r.DeepService? <==> old(d.Admits(child, ignoreExisting)).Added?
    ensures all == if r.Added? || r.DeepService? then Grafted(paths, d, sub) else paths
    ensures Rooted(root, all)
    ensures r.Added? || r.DeepService? ==> d.children == old(d.children) + [child] && child.parent == d
    ensures old(ValidTree(root, paths)) ==> ValidTree(root, all)
    ensures old(Branch(root, paths)) ==> Branch(root, all)
  {
    all := paths;
    assert Listed(paths, d);
    r := EnterFile(root, paths, d, child, sub, ignoreExisting);
    if r.Added? || r.DeepService? {
      all := Grafted(paths, d, sub);
      GraftIsRooted(root, paths, d, child, sub);
    }
  }

  method EnterFile(root: CardFile, ghost paths: Paths, d: CardFile, child: CardFile, ghost sub: Paths,
                   ignoreExisting: bool)
    returns (r: AddResult)
    requires Rooted(root, paths) && d in paths && d.IsDir() && d.DirOk()
    requires Branch(child, sub) && (child.kind == DF || child.kind == EF) && paths.Keys !! sub.Keys
    modifies d`children, d`filesByService, child`parent
    ensures r.Added? || r.DeepService? <==> old(d.Admits(child, ignoreExisting)).Added?
    ensures r.Added? || r.DeepService? ==> d.children == old(d.children) + [child]
    ensures if r.Added? || r.DeepService? then Graftable(root, paths, d, child, sub) else Rooted(root, paths)
    ensures !r.Added? && !r.DeepService? ==> unchanged(d) && unchanged(child)
  {
    r := Append(d, child, sub, ignoreExisting);
    if r.Added? || r.DeepService? {
      forall f | f in paths && f != root ensures Attached(root, paths, f) {
        assert old(Attached(root, paths, f));
      }
      forall e | e in paths && e != d ensures Listed(paths, e) {
        assert old(Listed(paths, e));
      }
      assert old(Listed(paths, d));
      forall g | g in sub && g != child ensures Attached(child, sub, g) {
        assert old(Attached(child, sub, g));
      }
      forall e | e in sub ensures Listed(sub, e) {
        assert old(Listed(sub, e));
      }
    }
  }

  /** What `add_file` does to the tree, apart from the service index. */
  method Append(d: CardFile, child: CardFile, ghost sub: Paths, ignoreExisting: bool) returns (r: AddResult)
    requires d.IsDir() && d.DirOk() && Branch(child, sub) && d !in sub
    modifies d`children, d`filesByService, child`parent
    ensures r.Added? || r.DeepService? <==> old(d.Admits(child, ignoreExisting)).Added?
    ensures r.Added? || r.DeepService? ==> d.children == old(d.children) + [child] && child.parent == d && d.DirOk()
    ensures !r.Added? && !r.DeepService? ==> unchanged(d) && unchanged(child)
  {
    BranchIsLayered(child, sub);
    r := d.AddFile(child, ignoreExisting, Heights(sub));
  }

  /** `add_application_df` likewise. */
  method AddApplicationToTree(mf: CardFile, ghost paths: Paths, app: CardFile, ghost sub: Paths)
    returns (ok: bool, ghost all: Paths)
    requires ValidTree(mf, paths) && Branch(app, sub) && paths.Keys !! sub.Keys
    modifies mf`applications, app`parent
    ensures ok <==> app.kind == ADF && forall a <- old(mf.applications) :: a.aid != app.aid
    ensures all == if ok then Grafted(paths, mf, sub) else paths
    ensures ValidTree(mf, all)
    ensures if ok then mf.applications == old(mf.applications) + [app] && app.parent == mf
            else mf.applications == old(mf.applications) && app.parent == null
  {
    all := paths;
    ok := EnterApplication(mf, paths, app, sub);
    if ok {
      all := Grafted(paths, mf, sub);
      GraftIsRooted(mf, paths, mf, app, sub);
      assert forall a <- mf.applications :: a in all && a.kind == ADF && a.parent == mf;
    }
  }

  method EnterApplication(mf: CardFile, ghost paths: Paths, app: CardFile, ghost sub: Paths) returns (ok: bool)
    requires ValidTree(mf, paths) && Branch(app, sub) && paths.Keys !! sub.Keys
    modifies mf`applications, app`parent
    ensures ok <==> app.kind == ADF && forall a <- old(mf.applications) :: a.aid != app.aid
    ensures ok ==> Graftable(mf, paths, mf, app, sub) && mf.applications == old(mf.applications) + [app]
    ensures ok ==> forall i, j | 0 <= i < j < |mf.applications| :: mf.applications[i].aid != mf.applications[j].aid
    ensures ok ==> app.parent == mf && forall f <- paths :: f.parent == old(f.parent)
    ensures !ok ==> unchanged(mf) && unchanged(app)
  {
    ok := mf.AddApplicationDf(app);
    if ok {
      forall f | f in paths && f != mf ensures Attached(mf, paths, f) {
        assert old(Attached(mf, paths, f));
      }
      forall e | e in paths && e != mf ensures Listed(paths, e) {
        assert old(Listed(paths, e));
      }
      assert old(Listed(paths, mf));
      forall g | g in sub && g != app ensures Attached(app, sub, g) {
        assert old(Attached(app, sub, g));
      }
      forall e | e in sub ensures Listed(sub, e) {
        assert old(Listed(sub, e));
      }
    }
  }
}
