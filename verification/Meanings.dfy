/** What a name means from a file, said without the dictionaries of `get_selectables`: which of the files
    around it wins, and what `.`, `..`, a leading slash and the elements of a path stand for. */
module Meanings {
  import opened Wrappers
  import opened Filesystem
  import opened Hierarchy
  import opened Naming

  function At(d: Dict, k: string): Option<CardFile> {
    if k in d then Some(d[k]) else None
  }

  function Or(a: Option<CardFile>, b: Option<CardFile>): Option<CardFile> {
    if a.Some? then a else b
  }

  predicate HasFid(f: CardFile, k: string) { k != "" && f.fid == k }
  predicate HasName(f: CardFile, k: string) { k != "" && f.name == k }

  /** The last file of that name, `f` left aside. */
  function LastNamed(files: seq<CardFile>, f: CardFile?, k: string): (r: Option<CardFile>)
    ensures r.None? <==> forall g <- files :: g == f || !HasName(g, k)
  {
    if files == [] then None
    else
      assert files == Init(files) + [Last(files)];
      if Last(files) != f && HasName(Last(files), k) then Some(Last(files)) else LastNamed(Init(files), f, k)
  }

  function LastWithFid(files: seq<CardFile>, f: CardFile?, k: string): (r: Option<CardFile>)
    ensures r.None? <==> forall g <- files :: g == f || !HasFid(g, k)
  {
    if files == [] then None
    else
      assert files == Init(files) + [Last(files)];
      if Last(files) != f && HasFid(Last(files), k) then Some(Last(files)) else LastWithFid(Init(files), f, k)
  }

  function LastWithAid(files: seq<CardFile>, k: string): (r: Option<CardFile>)
    ensures r.None? <==> forall g <- files :: g.aid != k
  {
    if files == [] then None
    else
      assert files == Init(files) + [Last(files)];
      if Last(files).aid == k then Some(Last(files)) else LastWithAid(Init(files), k)
  }

  /** The first file of that FID or name. */
  function FirstCalled(files: seq<CardFile>, k: string): (r: Option<CardFile>)
    ensures r.None? <==> forall g <- files :: !HasFid(g, k) && !HasName(g, k)
  {
    if files == [] then None
    else if HasFid(files[0], k) || HasName(files[0], k) then Some(files[0])
    else FirstCalled(files[1..], k)
  }

  /** An application, by name before AID. */
  function App(mf: CardFile, k: string): Option<CardFile>
    reads mf
  {
    Or(LastNamed(mf.applications, null, k), LastWithAid(mf.applications, k))
  }

  /** A file of the directory `d` other than `f`, by name before FID. */
  function Member(d: CardFile, f: CardFile, k: string): Option<CardFile>
    reads d
  {
    Or(LastNamed(d.children, f, k), LastWithFid(d.children, f, k))
  }

  /** A directory above, the highest first, and the one directly above also by its alias. */
  ghost function Above(mf: CardFile, paths: Paths, f: CardFile, alias: string, k: string): Option<CardFile>
    requires f in paths && paths[f] != []
    reads f
  {
    var called := FirstCalled(Init(paths[f]), k);
    if called.None? && f != mf && f.parent != null && k == alias && k != "" then Some(f.parent) else called
  }

  /** The file `k` means from `f`: what stands further up in this list wins. */
  ghost function Means(mf: CardFile, paths: Paths, f: CardFile, k: string): Option<CardFile>
    requires f in paths && paths[f] != [] && f.parent != null
    reads mf, f, f.parent
  {
    if f == mf && App(mf, k).Some? then App(mf, k)
    else if f.IsDir() && Member(f, f, k).Some? then Member(f, f, k)
    else if !f.IsDir() && Member(f.parent, f, k).Some? then Member(f.parent, f, k)
    else if App(mf, k).Some? then App(mf, k)
    else if HasFid(mf, k) || HasName(mf, k) then Some(mf)
    else if Above(mf, paths, f, "..", k).Some? then Above(mf, paths, f, "..", k)
    else if k == "." || HasFid(f, k) || HasName(f, k) then Some(f)
    else None
  }

  // ---------- each dictionary ----------

  lemma {:induction false} KeyedMeans(files: seq<CardFile>, k: string)
    ensures At(Keyed(files, Fid), k) == LastWithFid(files, null, k)
    ensures At(Keyed(files, Name), k) == LastNamed(files, null, k)
    ensures At(Keyed(files, Aid), k) == LastWithAid(files, k)
  {
    if files != [] { KeyedMeans(Init(files), k); }
  }

  lemma {:induction false} OthersMean(files: seq<CardFile>, f: CardFile, k: string)
    ensures LastWithFid(Others(files, f), null, k) == LastWithFid(files, f, k)
    ensures LastNamed(Others(files, f), null, k) == LastNamed(files, f, k)
  {
    if files != [] {
      OthersMean(Init(files), f, k);
      InitOfAppended(Others(Init(files), f), Last(files));
    }
  }

  lemma InitOfAppended(files: seq<CardFile>, f: CardFile)
    ensures Init(files + [f]) == files && Last(files + [f]) == f
  {
  }

  lemma {:induction false} NotAmong(files: seq<CardFile>, f: CardFile, k: string)
    requires f !in files
    ensures LastWithFid(files, f, k) == LastWithFid(files, null, k)
    ensures LastNamed(files, f, k) == LastNamed(files, null, k)
  {
    if files != [] {
      assert files == Init(files) + [Last(files)];
      NotAmong(Init(files), f, k);
    }
  }

  lemma AppMeans(mf: CardFile, k: string)
    ensures At(AppSelectables(mf), k) == App(mf, k)
  {
    KeyedMeans(mf.applications, k);
  }

  lemma ChildMeans(d: CardFile, k: string)
    requires d !in d.children
    ensures At(ChildSelectables(d), k) == Member(d, d, k)
  {
    KeyedMeans(d.children, k);
    NotAmong(d.children, d, k);
  }

  lemma SiblingMeans(d: CardFile, f: CardFile, k: string)
    ensures At(SiblingSelectables(d, f), k) == Member(d, f, k)
  {
    KeyedMeans(Others(d.children, f), k);
    OthersMean(d.children, f, k);
  }

  /** The directories above, each overridden by those further up. */
  lemma {:induction false} ParentsMean(mf: CardFile, paths: Paths, f: CardFile, alias: string, k: string)
    requires ValidTree(mf, paths) && f in paths
    ensures paths[f] != [] && At(ParentSelectables(mf, paths, f, alias), k) == Above(mf, paths, f, alias, k)
    decreases |paths[f]|
  {
    PathShape(mf, paths, f);
    if f != mf {
      assert Attached(mf, paths, f);
      var d: CardFile := f.parent;
      PathShape(mf, paths, d);
      assert Init(paths[f]) == paths[d] == Init(paths[d]) + [d];
      ParentsMean(mf, paths, d, "", k);
      FirstThenLast(Init(paths[d]), d, k);
    }
  }

  lemma {:induction false} FirstThenLast(files: seq<CardFile>, f: CardFile, k: string)
    ensures FirstCalled(files + [f], k) ==
            Or(FirstCalled(files, k), if HasFid(f, k) || HasName(f, k) then Some(f) else None)
  {
    if files == [] {
      assert files + [f] == [f] && FirstCalled([f][1..], k) == None;
    } else {
      FirstThenLast(files[1..], f, k);
      TailOfAppended(files, f);
    }
  }

  lemma TailOfAppended(files: seq<CardFile>, f: CardFile)
    requires files != []
    ensures (files + [f])[1..] == files[1..] + [f] && (files + [f])[0] == files[0]
  {
  }

  lemma MergedMeans(a: Dict, b: Dict, k: string)
    ensures At(a + b, k) == Or(At(b, k), At(a, k))
  {
  }

  /** What every file offers. */
  lemma BaseMeans(mf: CardFile, paths: Paths, f: CardFile, k: string)
    requires ValidTree(mf, paths) && f in paths
    ensures paths[f] != []
    ensures At(BaseSelectables(mf, paths, f), k) ==
            if App(mf, k).Some? then App(mf, k)
            else if HasFid(mf, k) || HasName(mf, k) then Some(mf)
            else if Above(mf, paths, f, "..", k).Some? then Above(mf, paths, f, "..", k)
            else if k == "." || HasFid(f, k) || HasName(f, k) then Some(f)
            else None
  {
    ParentsMean(mf, paths, f, "..", k);
    AppMeans(mf, k);
    var near := NearSelectables(mf, paths, f);
    MergedMeans(SelfSelectables(f, "."), ParentSelectables(mf, paths, f, ".."), k);
    MergedMeans(near, SelfSelectables(mf, ""), k);
    MergedMeans(near + SelfSelectables(mf, ""), AppSelectables(mf), k);
  }

  /** The dictionary of any file of the tree, key by key. */
  lemma SelectablesMean(mf: CardFile, paths: Paths, f: CardFile, k: string)
    requires ValidTree(mf, paths) && f in paths
    ensures paths[f] != [] && f.parent != null
    ensures At(Selectables(mf, paths, f), k) == Means(mf, paths, f, k)
  {
    PathShape(mf, paths, f);
    assert f != mf ==> Attached(mf, paths, f);
    BaseMeans(mf, paths, f, k);
    if f.IsDir() { DirectoryMeans(mf, paths, f, k); } else { FileMeans(mf, paths, f, k); }
  }

  lemma DirectoryMeans(mf: CardFile, paths: Paths, f: CardFile, k: string)
    requires ValidTree(mf, paths) && f in paths && f.IsDir()
    ensures At(Selectables(mf, paths, f), k) ==
            if f == mf && App(mf, k).Some? then App(mf, k)
            else if Member(f, f, k).Some? then Member(f, f, k)
            else At(BaseSelectables(mf, paths, f), k)
  {
    assert f != mf ==> Attached(mf, paths, f);
    assert Listed(paths, f);
    var base := BaseSelectables(mf, paths, f);
    AppMeans(mf, k);
    ChildMeans(f, k);
    MergedMeans(base, ChildSelectables(f), k);
    MergedMeans(base + ChildSelectables(f), AppSelectables(mf), k);
  }

  lemma FileMeans(mf: CardFile, paths: Paths, f: CardFile, k: string)
    requires ValidTree(mf, paths) && f in paths && !f.IsDir()
    ensures f.parent != null
    ensures At(Selectables(mf, paths, f), k) ==
            if Member(f.parent, f, k).Some? then Member(f.parent, f, k) else At(BaseSelectables(mf, paths, f), k)
  {
    assert Attached(mf, paths, f);
    SiblingMeans(f.parent, f, k);
    MergedMeans(BaseSelectables(mf, paths, f), SiblingSelectables(f.parent, f), k);
  }

  // ---------- `.` and `..` ----------

  /** No application is identified by dots. */
  ghost predicate NoDots(mf: CardFile)
    reads mf
  {
    forall a <- mf.applications :: !Identifies(a, ".") && !Identifies(a, "..")
  }

  /** `.` is the file itself and `..` the directory above it; there is none above the MF. */
  lemma DotsMean(mf: CardFile, paths: Paths, f: CardFile)
    requires ValidTree(mf, paths) && f in paths && NoDots(mf)
    ensures var d := Selectables(mf, paths, f);
            && "." in d && d["."] == f
            && (if f == mf then ".." !in d else f.parent != null && ".." in d && d[".."] == f.parent)
  {
    DotMeans(mf, paths, f);
    DotDotMeans(mf, paths, f);
  }

  lemma DotMeans(mf: CardFile, paths: Paths, f: CardFile)
    requires ValidTree(mf, paths) && f in paths && NoDots(mf)
    ensures At(Selectables(mf, paths, f), ".") == Some(f)
  {
    SelectablesMean(mf, paths, f, ".");
    DotsAreFree(mf, paths, f, ".");
    DifferentDots();
  }

  lemma DotDotMeans(mf: CardFile, paths: Paths, f: CardFile)
    requires ValidTree(mf, paths) && f in paths && NoDots(mf)
    ensures At(Selectables(mf, paths, f), "..") == if f == mf || f.parent == null then None else Some(f.parent)
    ensures f.parent != null
  {
    SelectablesMean(mf, paths, f, "..");
    DotsAreFree(mf, paths, f, "..");
    NotCalledDots(mf, paths, f);
    DifferentDots();
  }

  lemma DifferentDots()
    ensures "." != ".."
  {
    assert |"."| == 1;
  }

  lemma NotCalledDots(mf: CardFile, paths: Paths, g: CardFile)
    requires ValidTree(mf, paths) && g in paths && NoDots(mf)
    ensures forall k <- [".", ".."] :: g.fid != k && g.name != k
  {
    assert MF_FID[0] != '.' && MF_NAME[0] != '.';
    if g != mf {
      assert Attached(mf, paths, g) && Listed(paths, g.parent);
      if g.kind == ADF {
        assert !Identifies(g, ".") && !Identifies(g, "..");
      } else {
        assert Attachable(g);
        assert !IsHexDigit(".."[0]);
      }
    }
  }

  lemma DotsAreFree(mf: CardFile, paths: Paths, f: CardFile, k: string)
    requires ValidTree(mf, paths) && f in paths && NoDots(mf) && k in [".", ".."]
    ensures paths[f] != [] && f.parent != null
    ensures App(mf, k) == None && Member(f, f, k) == None && (!f.IsDir() ==> Member(f.parent, f, k) == None)
    ensures !HasFid(mf, k) && !HasName(mf, k) && FirstCalled(Init(paths[f]), k) == None
  {
    PathIsLineage(mf, paths, f);
    assert f != mf ==> Attached(mf, paths, f);
    assert Listed(paths, f) && Listed(paths, f.parent);
    NotCalledDots(mf, paths, mf);
    forall a | a in mf.applications ensures !HasName(a, k) && a.aid != k { assert !Identifies(a, k); }
    forall g | g in paths && (g in Init(paths[f]) || g in f.children || g in f.parent.children)
      ensures !HasFid(g, k) && !HasName(g, k)
    {
      NotCalledDots(mf, paths, g);
    }
  }

  /** So a leading `..` goes up and a leading `.` stays. */
  lemma ResolveDots(mf: CardFile, paths: Paths, f: CardFile, names: seq<string>)
    requires ValidTree(mf, paths) && f in paths && NoDots(mf)
    ensures Resolve(mf, paths, f, ["."] + names) == Resolve(mf, paths, f, names)
    ensures if f == mf then Resolve(mf, paths, f, [".."] + names) == None
            else f.parent != null && f.parent in paths &&
                 Resolve(mf, paths, f, [".."] + names) == Resolve(mf, paths, f.parent, names)
  {
    DotsMean(mf, paths, f);
    assert f != mf ==> Attached(mf, paths, f);
    assert (["."] + names)[1..] == names && ([".."] + names)[1..] == names;
  }

  // ---------- path strings ----------

  /** The elements of a fully qualified path, file by file. */
  lemma {:induction false} PathElements(mf: CardFile, paths: Paths, f: CardFile, preferName: bool)
    requires ValidTree(mf, paths) && WellNamed(paths) && f in paths
    ensures var elements := FullyQualifiedPath(mf, paths, f, preferName);
            && |elements| == |paths[f]|
            && forall i | 0 <= i < |elements| ::
                 var g := paths[f][i];
                 elements[i] == if preferName && g.name != "" then g.name else if g.kind == ADF then g.aid else g.fid
    decreases |paths[f]|
  {
    assert NameOk(f);
    if f != mf {
      assert Attached(mf, paths, f) && Listed(paths, f.parent);
      assert f.kind != ADF ==> Attachable(f);
      PathElements(mf, paths, f.parent, preferName);
    }
  }

  /** A path that starts with a slash starts at the MF; any other means its elements. */
  lemma LeadingSlash(s: string)
    ensures PathList("/" + s) == [MF_NAME] + Split(s)
    ensures (s == "" || s[0] != '/') ==> PathList(s) == Split(s)
  {
    SlashInFront(s);
    assert '/' in "/" + s by { assert ("/" + s)[0] == '/'; }
    FirstReplaced(Split(s), MF_NAME);
    if s == "" || s[0] != '/' { FirstElement(s); }
  }

  lemma FirstReplaced(parts: seq<string>, name: string)
    ensures ([""] + parts)[0 := name] == [name] + parts
  {
  }

  lemma {:induction false} SlashInFront(s: string)
    ensures Split("/" + s) == [""] + Split(s)
  {
    if s == "" {
      assert Init("/" + s) == "";
    } else {
      SlashInFront(Init(s));
      InitOfPrefixed(s);
      OneMoreInFront(Split(Init(s)), Last(s));
    }
  }

  lemma InitOfPrefixed(s: string)
    requires s != ""
    ensures Init("/" + s) == "/" + Init(s) && Last("/" + s) == Last(s)
  {
  }

  lemma OneMoreInFront(front: seq<string>, c: char)
    requires front != []
    ensures ([""] + front) + [""] == [""] + (front + [""])
    ensures Init([""] + front) + [Last([""] + front) + [c]] == [""] + (Init(front) + [Last(front) + [c]])
  {
  }

  lemma {:induction false} FirstElement(s: string)
    requires s == "" || s[0] != '/'
    ensures Split(s)[0] == "" ==> s == ""
  {
    if |s| > 1 { FirstElement(Init(s)); }
  }

  /** From everywhere, a path with a leading slash is looked up from the MF. */
  lemma AbsolutePath(mf: CardFile, paths: Paths, cwd: CardFile, s: string)
    requires ValidTree(mf, paths) && Unambiguous(mf, paths) && cwd in paths
    ensures Resolve(mf, paths, cwd, PathList("/" + s)) == Resolve(mf, paths, mf, Split(s))
  {
    LeadingSlash(s);
    MfIsSelectable(mf, paths, cwd, MF_NAME);
    assert ([MF_NAME] + Split(s))[1..] == Split(s);
  }

  /** Joining puts single slashes between the elements, in their order. */
  lemma JoinedElements(a: string, b: string)
    ensures Join([a]) == a && Join([a, b]) == a + "/" + b
  {
    assert Init([a, b]) == [a];
  }
}
