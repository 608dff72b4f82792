/** How the tree pySim knows corresponds to the files a card holds, and what a SELECT by FID along a
    select path then does on the card. */
module Correspondence {
  import opened Wrappers
  import opened Filesystem
  import opened Hierarchy
  import opened Card

  function IdOf(f: CardFile): Id {
    if f.kind == ADF then Aid(f.aid) else Fid(f.fid)
  }

  /** Where a known file sits on a card that holds it. */
  ghost function Place(paths: Paths, f: CardFile): (l: Location)
    requires f in paths
    ensures |l| == |paths[f]|
  {
    seq(|paths[f]|, i requires 0 <= i < |paths[f]| => IdOf(paths[f][i]))
  }

  /** The card may lack known files and hold unknown ones, but what it holds is of the known kind, no
      known file shares its FID with a directory above it, and where a known file is missing no
      directory beside its parent answers to its FID. */
  ghost predicate Matches(paths: Paths, fs: CardFs) {
    forall f {:trigger Matching(paths, fs, f)} | f in paths :: Matching(paths, fs, f)
  }

  ghost predicate Matching(paths: Paths, fs: CardFs, f: CardFile)
    requires f in paths
  {
    var l := Place(paths, f);
    && (l in fs.files ==> (l in fs.dirs <==> f.IsDir()))
    && (f.kind == ADF ==> (f.aid in fs.bare <==> !f.hasFs))
    && (|l| > 1 && f.kind != ADF ==> Fid(f.fid) !in Init(l) && f.fid != MF_FID)
    && (|l| > 2 && l !in fs.files ==> Init(Init(l)) + [Fid(f.fid)] !in fs.dirs)
  }

  lemma PlaceOfChild(mf: CardFile, paths: Paths, f: CardFile)
    requires ValidTree(mf, paths) && f in paths
    ensures Place(paths, mf) == ROOT
    ensures f != mf ==> Attached(mf, paths, f) && Place(paths, f) == Place(paths, f.parent) + [IdOf(f)]
    ensures f.kind == ADF ==> Place(paths, f) == ROOT + [Aid(f.aid)]
  {
    if f != mf {
      assert Attached(mf, paths, f);
      PathShape(mf, paths, f);
    }
  }

  /** No two files have the same place, so where the card stands tells which file that is. */
  lemma {:induction false} PlaceIsInjective(mf: CardFile, paths: Paths, f: CardFile, g: CardFile)
    requires ValidTree(mf, paths) && f in paths && g in paths && Place(paths, f) == Place(paths, g)
    ensures f == g
    decreases |paths[f]|
  {
    PlaceOfChild(mf, paths, f);
    PlaceOfChild(mf, paths, g);
    PathShape(mf, paths, f);
    PathShape(mf, paths, g);
    assert |paths[f]| == |paths[g]|;
    if f != mf {
      assert Init(Place(paths, f)) == Place(paths, f.parent) && Init(Place(paths, g)) == Place(paths, g.parent);
      assert Last(Place(paths, f)) == IdOf(f) && Last(Place(paths, g)) == IdOf(g);
      PlaceIsInjective(mf, paths, f.parent, g.parent);
      SameIdSameFile(mf, paths, f, g);
    }
  }

  lemma SameIdSameFile(mf: CardFile, paths: Paths, f: CardFile, g: CardFile)
    requires ValidTree(mf, paths) && f in paths && g in paths && f != mf && g != mf
    requires f.parent == g.parent && IdOf(f) == IdOf(g)
    ensures f == g
  {
    assert Attached(mf, paths, f) && Attached(mf, paths, g) && Listed(paths, f.parent);
    var files := if f.kind == ADF then mf.applications else f.parent.children;
    var i :| 0 <= i < |files| && files[i] == f;
    var j :| 0 <= j < |files| && files[j] == g;
    assert forall a, b | 0 <= a < b < |files| ::
        if f.kind == ADF then files[a].aid != files[b].aid else !Clash(files[a], files[b]);
    assert i == j;
  }

  /** Along a select path a SELECT by FID, if the card answers it at all, leads to the file pySim means;
      and it is answered whenever the card holds that file and no bare application is in the way. */
  lemma StepIsAnswered(mf: CardFile, paths: Paths, fs: CardFs, prev: CardFile, f: CardFile)
    requires ValidTree(mf, paths) && fs.Valid() && Matches(paths, fs)
    requires prev in paths && f in paths && f.kind != ADF && Step(mf, prev, f)
    requires Place(paths, prev) in fs.files
    ensures var a := fs.Answer(Place(paths, prev), f.fid);
            && (a.Some? ==> a == Some(Place(paths, f)))
            && (Place(paths, f) in fs.files && !fs.InBareApp(Place(paths, prev)) ==> a.Some?)
  {
    PlaceOfChild(mf, paths, prev);
    PlaceOfChild(mf, paths, f);
    assert Matching(paths, fs, prev) && Matching(paths, fs, f);
    var at, to := Place(paths, prev), Place(paths, f);
    if f == mf {
    } else if f.parent == prev {
      StepDown(fs, at, to, f.fid);
    } else {
      PathShape(mf, paths, f);
      assert to == Place(paths, f.parent) + [Fid(f.fid)] && at == to + [IdOf(prev)];
      StepUp(fs, at, to, f.fid);
    }
  }

  lemma StepDown(fs: CardFs, at: Location, to: Location, fid: string)
    requires fs.Valid() && at in fs.dirs && to == at + [Fid(fid)] && fid != MF_FID
    requires Fid(fid) !in at
    requires to !in fs.files && |to| > 2 ==> Init(at) + [Fid(fid)] !in fs.dirs
    ensures fs.Answer(at, fid) == if fs.InBareApp(at) || to !in fs.files then None else Some(to)
  {
    assert Last(at) in at;
    assert |at| > 1 ==> Last(Init(at)) in at;
  }

  /** To the directory above, or to the directory of a file that is no directory. */
  lemma StepUp(fs: CardFs, at: Location, to: Location, fid: string)
    requires fs.Valid() && at in fs.files && |at| > 1 && to == Init(at) && to != [] && Last(to) == Fid(fid) &&
             fid != MF_FID
    ensures fs.Answer(at, fid) == if fs.InBareApp(at) then None else Some(to)
  {
    var dir := fs.CurrentDir(at);
    var l := dir + [Fid(fid)];
    assert l[|to| - 1] == Fid(fid) == l[|l| - 1];
    assert dir == at ==> at[|at| - 2] == Fid(fid);
  }

  /** The last condition of `Matching` is needed: where a known file is missing, the single SELECT with which
      `select_file` goes there from its directory is answered exactly if that condition fails, and then by the
      directory beside, which is not the file pySim takes for selected. */
  lemma MissingFileIsAnswered(mf: CardFile, paths: Paths, fs: CardFs, f: CardFile)
    requires ValidTree(mf, paths) && fs.Valid() && f in paths && f != mf && f.kind != ADF && f.parent in paths
    requires var at := Place(paths, f.parent); at in fs.dirs && Fid(f.fid) !in at && !fs.InBareApp(at)
    requires f.fid != MF_FID && Place(paths, f) !in fs.files
    ensures SelectPath(mf, paths, f.parent, f) == [f]
    ensures var at := Place(paths, f.parent);
            && at != [] && fs.Answer(at, f.fid) != Some(Place(paths, f))
            && (fs.Answer(at, f.fid).Some? <==> |at| > 1 && Init(at) + [Fid(f.fid)] in fs.dirs)
            && (fs.Answer(at, f.fid).Some? ==> fs.Answer(at, f.fid) == Some(Init(at) + [Fid(f.fid)]))
  {
    PlaceOfChild(mf, paths, f);
    PathToChild(mf, paths, f);
    AnswerBeside(fs, Place(paths, f.parent), f.fid);
  }

  lemma AnswerBeside(fs: CardFs, at: Location, fid: string)
    requires fs.Valid() && at in fs.dirs && !fs.InBareApp(at)
    requires fid != MF_FID && Fid(fid) !in at && at + [Fid(fid)] !in fs.files
    ensures at != [] && fs.Answer(at, fid) ==
                        if |at| > 1 && Init(at) + [Fid(fid)] in fs.dirs then Some(Init(at) + [Fid(fid)]) else None
    ensures fs.Answer(at, fid) != Some(at + [Fid(fid)])
  {
    assert Last(at) in at;
    assert |at| > 1 ==> Last(Init(at)) in at;
  }

  /** From its directory a file is a single SELECT away. */
  lemma PathToChild(mf: CardFile, paths: Paths, f: CardFile)
    requires ValidTree(mf, paths) && f in paths && f != mf && f.parent in paths
    ensures SelectPath(mf, paths, f.parent, f) == [f]
  {
    assert Attached(mf, paths, f);
    var p := paths[f.parent];
    RootIsShared(mf, paths, f.parent, f);
    assert Init(p + [f]) == p && CommonLen(p, p) == |p|;
    assert Route(p, p + [f]) == [f];
  }

  /** An ancestor's place is a prefix of the file's. */
  lemma {:induction false} PlaceOfAncestor(mf: CardFile, paths: Paths, f: CardFile, g: CardFile)
    requires ValidTree(mf, paths) && f in paths && g in paths[f]
    ensures g in paths && Place(paths, g) <= Place(paths, f) && Place(paths, g) != []
    decreases |paths[f]|
  {
    PathShape(mf, paths, f);
    if f != g {
      PlaceOfChild(mf, paths, f);
      PlaceOfAncestor(mf, paths, f.parent, g);
    }
  }

  /** A card that holds a file holds everything above it. */
  lemma {:induction false} PrefixIsOnCard(fs: CardFs, l: Location, k: nat)
    requires fs.Valid() && l in fs.files && 0 < k <= |l|
    ensures l[..k] in fs.files
    decreases |l|
  {
    if k == |l| {
      assert l[..k] == l;
    } else {
      assert Init(l) in fs.files;
      PrefixIsOnCard(fs, Init(l), k);
      assert Init(l)[..k] == l[..k];
    }
  }

  /** A file is there to be selected: the card holds it, and not inside an application that offers no files. */
  ghost predicate Available(paths: Paths, fs: CardFs, f: CardFile)
    requires f in paths
  {
    Place(paths, f) in fs.files && (f.kind == ADF || !fs.InBareApp(Place(paths, f)))
  }

  lemma OnTheWay(mf: CardFile, paths: Paths, fs: CardFs, end: CardFile, f: CardFile)
    requires ValidTree(mf, paths) && fs.Valid() && end in paths && f in paths[end]
    requires Place(paths, end) in fs.files
    ensures f in paths && Place(paths, f) in fs.files && Place(paths, f) <= Place(paths, end)
    ensures fs.InBareApp(Place(paths, f)) ==> fs.InBareApp(Place(paths, end))
  {
    PlaceOfAncestor(mf, paths, end, f);
    PrefixIsOnCard(fs, Place(paths, end), |Place(paths, f)|);
    assert Place(paths, f) == Place(paths, end)[..|Place(paths, f)|];
  }

  /** If both ends of a select path are on the card and outside applications without files, so is all of it. */
  lemma SelectPathIsAvailable(mf: CardFile, paths: Paths, fs: CardFs, from: CardFile, target: CardFile)
    requires ValidTree(mf, paths) && fs.Valid() && from in paths && target in paths
    requires Place(paths, from) in fs.files && Available(paths, fs, target)
    requires fs.InBareApp(Place(paths, from)) ==> |Place(paths, from)| == 2
    ensures var r := SelectPath(mf, paths, from, target);
            && r != [] && (forall f <- r :: f in paths && Place(paths, f) in fs.files)
            && (|r| > 1 ==> forall f <- r :: !fs.InBareApp(Place(paths, f)))
  {
    SelectPathIsWalk(mf, paths, from, target);
    SelectPathElements(mf, paths, from, target);
    var r := SelectPath(mf, paths, from, target);
    forall f | f in r
      ensures f in paths && Place(paths, f) in fs.files
      ensures |r| > 1 ==> !fs.InBareApp(Place(paths, f))
    {
      if f in paths[target] {
        OnTheWay(mf, paths, fs, target, f);
        assert target.kind == ADF ==> |r| == 1;
      } else {
        PathShape(mf, paths, from);
        assert from != mf;
        PlaceOfChild(mf, paths, from);
        PrefixIsOnCard(fs, Place(paths, from), |Place(paths, from)| - 1);
        assert Init(paths[from]) == paths[from.parent];
        OnTheWay(mf, paths, fs, from.parent, f);
      }
    }
  }

  /** `probe_file` enters an accepted FID as a child of the selected directory.  That is where the card
      went exactly if the card holds such a child. */
  lemma ProbedFileIsChild(fs: CardFs, at: Location, fid: string)
    requires fs.Valid() && at in fs.dirs && fs.Answer(at, fid).Some?
    ensures fs.Answer(at, fid) == Some(at + [Fid(fid)]) <==> at + [Fid(fid)] in fs.files
  {
    var a := fs.Answer(at, fid).value;
    if at + [Fid(fid)] !in fs.files { assert a in fs.files; }
  }
}
