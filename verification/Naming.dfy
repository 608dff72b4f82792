/** Identifiers: which names can be selected from a file, and how path strings are looked up
    (`get_selectables` in pySim/filesystem.py, `get_file_by_name` in pySim/runtime.py). */
module Naming {
  import opened Wrappers
  import opened Filesystem
  import opened Hierarchy

  // ---------- get_selectables ----------

  type Dict = map<string, CardFile>

  datatype Key = Fid | Name | Aid

  /** The identifier of the given sort; None where the source's dictionary skips the file. */
  function KeyOf(f: CardFile, key: Key): Option<string> {
    match key
    case Fid => if f.fid == "" then None else Some(f.fid)
    case Name => if f.name == "" then None else Some(f.name)
    case Aid => Some(f.aid)
  }

  /** `{x.key: x for x in files}`, where later files win. */
  function Keyed(files: seq<CardFile>, key: Key): (d: Dict)
    ensures forall k <- d :: d[k] in files && KeyOf(d[k], key) == Some(k)
    ensures forall f <- files :: KeyOf(f, key).Some? ==> KeyOf(f, key).value in d
  {
    if files == [] then map[]
    else
      var d := Keyed(Init(files), key);
      assert files == Init(files) + [Last(files)];
      match KeyOf(Last(files), key)
      case None => d
      case Some(k) => d[k := Last(files)]
  }

  function SelfSelectables(f: CardFile, alias: string): (d: Dict)
    ensures forall k <- d :: d[k] == f
    ensures forall k :: k in d <==> (k == alias || k == f.fid || k == f.name) && k != ""
  {
    (if alias == "" then map[] else map[alias := f]) +
    (if f.fid == "" then map[] else map[f.fid := f]) +
    (if f.name == "" then map[] else map[f.name := f])
  }

  function ParentSelectables(mf: CardFile, ghost paths: Paths, f: CardFile, alias: string): (d: Dict)
    requires ValidTree(mf, paths) && f in paths
    reads paths.Keys
    ensures forall k <- d :: d[k] in paths
    decreases |paths[f]|
  {
    assert f != mf ==> Attached(mf, paths, f);
    if f.parent == null || f.parent == f then map[]
    else SelfSelectables(f.parent, alias) + ParentSelectables(mf, paths, f.parent, "")
  }

  function AppSelectables(mf: CardFile): (d: Dict)
    reads mf
    ensures forall k <- d :: d[k] in mf.applications
  {
    Keyed(mf.applications, Aid) + Keyed(mf.applications, Name)
  }

  function NearSelectables(mf: CardFile, ghost paths: Paths, f: CardFile): (d: Dict)
    requires ValidTree(mf, paths) && f in paths
    reads paths.Keys
    ensures forall k <- d :: d[k] in paths
  {
    SelfSelectables(f, ".") + ParentSelectables(mf, paths, f, "..")
  }

  /** What `CardFile.get_selectables` offers from any file; the right-hand dictionary overrides. */
  function BaseSelectables(mf: CardFile, ghost paths: Paths, f: CardFile): (d: Dict)
    requires ValidTree(mf, paths) && f in paths
    reads paths.Keys
    ensures forall k <- d :: d[k] in paths
  {
    NearSelectables(mf, paths, f) + SelfSelectables(mf, "") + AppSelectables(mf)
  }

  function ChildSelectables(f: CardFile): (d: Dict)
    reads f
    ensures forall k <- d :: d[k] in f.children
  {
    Keyed(f.children, Fid) + Keyed(f.children, Name)
  }

  function Others(files: seq<CardFile>, f: CardFile): (r: seq<CardFile>)
    ensures (forall g <- r :: g in files && g != f) && (forall g <- files :: g != f ==> g in r)
  {
    if files == [] then []
    else
      assert files == Init(files) + [Last(files)];
      if Last(files) == f then Others(Init(files), f) else Others(Init(files), f) + [Last(files)]
  }

  /** What `CardEF.get_selectables` adds: the other files of the directory `d` that holds `f`. */
  function SiblingSelectables(d: CardFile, f: CardFile): (r: Dict)
    reads d
    ensures forall k <- r :: r[k] in d.children && r[k] != f
  {
    Keyed(Others(d.children, f), Fid) + Keyed(Others(d.children, f), Name)
  }

  /** `get_selectables` with no flags, for every kind of file. */
  function Selectables(mf: CardFile, ghost paths: Paths, f: CardFile): (d: Dict)
    requires ValidTree(mf, paths) && f in paths
    reads paths.Keys
    ensures forall k <- d :: d[k] in paths
  {
    assert f != mf ==> Attached(mf, paths, f);
    assert Listed(paths, f) && Listed(paths, f.parent);
    var base := BaseSelectables(mf, paths, f);
    var own := if f.IsDir() then base + ChildSelectables(f) else base + SiblingSelectables(f.parent, f);
    assert forall k <- own :: own[k] in paths;
    if f.kind == MF then own + AppSelectables(mf) else own
  }

  // ---------- path strings ----------

  function PathElement(f: CardFile, preferName: bool): string {
    if preferName && f.name != "" then f.name else if f.kind == ADF then f.aid else f.fid
  }

  /** `fully_qualified_path` */
  function FullyQualifiedPath(mf: CardFile, ghost paths: Paths, f: CardFile, preferName: bool): seq<string>
    requires ValidTree(mf, paths) && f in paths
    reads paths.Keys
    decreases |paths[f]|
  {
    assert f != mf ==> Attached(mf, paths, f);
    var above := if f.parent != null && f.parent != f then FullyQualifiedPath(mf, paths, f.parent, preferName) else [];
    if PathElement(f, preferName) == "" then above else above + [PathElement(f, preferName)]
  }

  /** `'/'.join(elements)` */
  function Join(elements: seq<string>): string {
    if elements == [] then ""
    else if |elements| == 1 then elements[0]
    else Join(Init(elements)) + "/" + Last(elements)
  }

  /** `s.split('/')` */
  function Split(s: string): (r: seq<string>)
    ensures r != [] && forall e <- r :: '/' !in e
    ensures '/' !in s ==> r == [s]
  {
    if s == "" then [""]
    else if Last(s) == '/' then Split(Init(s)) + [""]
    else
      var front := Split(Init(s));
      assert s == Init(s) + [Last(s)];
      Init(front) + [Last(front) + [Last(s)]]
  }

  lemma {:induction false} SplitAfterSlash(s: string, e: string)
    requires '/' !in e
    ensures Split(s + "/" + e) == Split(s) + [e]
  {
    if e == "" {
      assert Init(s + "/" + e) == s;
    } else {
      assert Init(s + "/" + e) == s + "/" + Init(e);
      assert Last(s + "/" + e) == Last(e);
      SplitAfterSlash(s, Init(e));
      assert Init(e) + [Last(e)] == e;
    }
  }

  predicate Plain(elements: seq<string>) {
    forall i | 0 <= i < |elements| :: '/' !in elements[i]
  }

  lemma {:induction false} SplitJoin(elements: seq<string>)
    requires elements != [] && Plain(elements)
    ensures Split(Join(elements)) == elements
  {
    if |elements| > 1 {
      SplitJoin(Init(elements));
      SplitOneMore(elements);
    }
  }

  lemma SplitOneMore(elements: seq<string>)
    requires |elements| > 1 && '/' !in Last(elements) && Split(Join(Init(elements))) == Init(elements)
    ensures Split(Join(elements)) == elements
  {
    SplitAfterSlash(Join(Init(elements)), Last(elements));
    InitAndLast(elements);
  }

  lemma InitAndLast<T>(s: seq<T>)
    requires s != []
    ensures Init(s) + [Last(s)] == s
  {
  }

  /** The list of names a path string stands for; a leading slash means the MF. */
  function PathList(name: string): (r: seq<string>)
    ensures r != [] && forall e <- r :: '/' !in e
  {
    var parts := Split(name);
    if '/' in name && parts[0] == "" then parts[0 := MF_NAME] else parts
  }

  // ---------- get_file_by_name ----------

  /** Looking the names up one after the other, each among what the previous file can select. */
  function Resolve(mf: CardFile, ghost paths: Paths, dir: CardFile, names: seq<string>): (r: Option<CardFile>)
    requires ValidTree(mf, paths) && dir in paths
    reads paths.Keys
    ensures r.Some? ==> r.value in paths
  {
    if names == [] then Some(dir)
    else
      var sels := Selectables(mf, paths, dir);
      if names[0] in sels then Resolve(mf, paths, sels[names[0]], names[1..]) else None
  }

  /** The same from a table of what each file can select. */
  ghost function Follow(table: map<CardFile, Dict>, f: CardFile, names: seq<string>): Option<CardFile> {
    if names == [] then Some(f)
    else if f in table && names[0] in table[f] then Follow(table, table[f][names[0]], names[1..])
    else None
  }

  ghost function Table(mf: CardFile, paths: Paths): map<CardFile, Dict>
    requires ValidTree(mf, paths)
    reads paths.Keys
  {
    map f | f in paths :: Selectables(mf, paths, f)
  }

  /** `table` is that table, said of one file at a time. */
  ghost predicate IsTable(mf: CardFile, paths: Paths, table: map<CardFile, Dict>)
    requires ValidTree(mf, paths)
    reads paths.Keys
  {
    && table.Keys == paths.Keys
    && forall f {:trigger RowIs(mf, paths, table, f)} | f in paths :: RowIs(mf, paths, table, f)
  }

  ghost predicate RowIs(mf: CardFile, paths: Paths, table: map<CardFile, Dict>, f: CardFile)
    requires ValidTree(mf, paths) && f in paths
    reads paths.Keys
  {
    f in table && table[f] == Selectables(mf, paths, f)
  }

  lemma TableIff(mf: CardFile, paths: Paths, table: map<CardFile, Dict>)
    requires ValidTree(mf, paths)
    ensures IsTable(mf, paths, table) <==> table == Table(mf, paths)
  {
    if IsTable(mf, paths, table) {
      forall f | f in paths ensures table[f] == Table(mf, paths)[f] {
        assert RowIs(mf, paths, table, f);
      }
    }
  }

  lemma {:induction false} ResolvedInTable(mf: CardFile, paths: Paths, table: map<CardFile, Dict>, f: CardFile,
                                           names: seq<string>)
    requires ValidTree(mf, paths) && f in paths && table == Table(mf, paths)
    ensures Resolve(mf, paths, f, names) == Follow(table, f, names)
    decreases |names|
  {
    if names != [] && names[0] in table[f] {
      ResolvedInTable(mf, paths, table, table[f][names[0]], names[1..]);
    }
  }

  method GetFileByName(mf: CardFile, ghost paths: Paths, cwd: CardFile, name: string) returns (r: Option<CardFile>)
    requires ValidTree(mf, paths) && cwd in paths
    ensures r == Resolve(mf, paths, cwd, PathList(name))
  {
    var pathlist := PathList(name);
    ghost var goal := Resolve(mf, paths, cwd, pathlist);
    var file := cwd;
    for i := 0 to |pathlist|
      invariant file in paths && Resolve(mf, paths, file, pathlist[i..]) == goal
    {
      var selectables := Selectables(mf, paths, file);
      assert pathlist[i..][1..] == pathlist[i + 1..];
      if pathlist[i] !in selectables { return None; }
      file := selectables[pathlist[i]];
    }
    r := Some(file);
  }

  // ---------- the round trip ----------

  /** Identifiers are usable in path strings. */
  ghost predicate WellNamed(paths: Paths) {
    forall f {:trigger NameOk(f)} | f in paths :: NameOk(f)
  }

  predicate NameOk(f: CardFile) {
    '/' !in f.name && '/' !in f.aid && '/' !in f.fid && (f.kind == ADF ==> f.aid != "")
  }

  predicate Identifies(f: CardFile, k: string) {
    k == f.fid || k == f.name || (f.kind == ADF && k == f.aid)
  }

  /** No sibling is named like another's FID, and no application is confusable with another, with the MF
      or with a file directly below the MF. */
  ghost predicate Unambiguous(mf: CardFile, paths: Paths)
    reads mf, paths.Keys
  {
    && (forall d {:trigger NamesApart(d)} | d in paths :: NamesApart(d))
    && (forall a {:trigger AppApart(mf, a)} | a in mf.applications :: AppApart(mf, a))
  }

  ghost predicate AppApart(mf: CardFile, a: CardFile)
    reads mf
  {
    && a.name !in [MF_NAME, MF_FID] && a.aid !in [MF_NAME, MF_FID]
    && (forall b <- mf.applications | b != a :: a.name != "" ==> a.name != b.name && a.name != b.aid)
    && (forall c <- mf.children :: !Identifies(c, a.aid) && (a.name != "" ==> !Identifies(c, a.name)))
  }

  ghost predicate NamesApart(d: CardFile)
    reads d
  {
    && (forall c <- d.children :: c.name != MF_FID)
    && (forall b <- d.children, c <- d.children | b != c :: b.name != "" ==> b.name != c.fid)
  }

  lemma AppKeysAvoid(mf: CardFile, k: string)
    requires forall a {:trigger AppApart(mf, a)} | a in mf.applications :: AppApart(mf, a)
    requires k in [MF_NAME, MF_FID] || exists c <- mf.children :: k == c.fid || (k == c.name && k != "")
    ensures k !in AppSelectables(mf)
  {
    forall a | a in mf.applications
      ensures KeyOf(a, Aid) != Some(k) && KeyOf(a, Name) != Some(k)
    {
      assert AppApart(mf, a);
    }
  }

  lemma ChildKeysAvoid(d: CardFile, k: string)
    requires NamesApart(d) && forall c <- d.children :: Attachable(c)
    requires k == MF_NAME || k == MF_FID
    ensures k !in ChildSelectables(d)
  {
  }

  lemma SiblingKeysAvoid(d: CardFile, f: CardFile, k: string)
    requires NamesApart(d) && forall c <- d.children :: Attachable(c)
    requires k == MF_NAME || k == MF_FID
    ensures k !in SiblingSelectables(d, f)
  {
  }

  /** The MF is reached by name or FID from every file. */
  lemma MfIsSelectable(mf: CardFile, paths: Paths, f: CardFile, k: string)
    requires ValidTree(mf, paths) && Unambiguous(mf, paths) && f in paths
    requires k == MF_NAME || k == MF_FID
    ensures k in Selectables(mf, paths, f) && Selectables(mf, paths, f)[k] == mf
  {
    AppKeysAvoid(mf, k);
    assert f != mf ==> Attached(mf, paths, f);
    var d := if f.IsDir() then f else f.parent;
    assert Listed(paths, d) && NamesApart(d);
    ChildKeysAvoid(d, k);
    if !f.IsDir() { SiblingKeysAvoid(d, f, k); }
    assert k in SelfSelectables(mf, "");
  }

  /** A file is selected from its parent by the element it contributes to path strings. */
  lemma ChildIsSelectable(mf: CardFile, paths: Paths, f: CardFile, preferName: bool)
    requires ValidTree(mf, paths) && Unambiguous(mf, paths) && WellNamed(paths) && f in paths && f != mf
    ensures Attached(mf, paths, f)
    ensures var k := PathElement(f, preferName);
            k != "" && k in Selectables(mf, paths, f.parent) && Selectables(mf, paths, f.parent)[k] == f
  {
    assert Attached(mf, paths, f);
    var k := PathElement(f, preferName);
    var d: CardFile := f.parent;
    if f.kind == ADF {
      assert AppApart(mf, f) && NameOk(f);
      AppKeysAreUnique(mf, f, preferName);
    } else {
      assert Listed(paths, d) && NamesApart(d);
      ChildKeysAreUnique(d, f, preferName);
      if d == mf { AppKeysAvoid(mf, k); }
      assert d.kind == MF ==> Attached(mf, paths, d) || d == mf;
    }
  }

  lemma ChildKeysAreUnique(d: CardFile, f: CardFile, preferName: bool)
    requires d.DirOk() && NamesApart(d) && f in d.children && f.kind != ADF
    ensures var k := PathElement(f, preferName);
            k != "" && k in ChildSelectables(d) && ChildSelectables(d)[k] == f
  {
    var k := PathElement(f, preferName);
    assert Attachable(f);
    assert KeyOf(f, if k == f.fid then Fid else Name) == Some(k);
    var g := ChildSelectables(d)[k];
    if g != f { SiblingsDiffer(d, f, g, k); }
  }

  lemma SiblingsDiffer(d: CardFile, f: CardFile, g: CardFile, k: string)
    requires d.DirOk() && NamesApart(d) && f in d.children && g in d.children && f != g
    requires k != "" && (k == f.fid || k == f.name)
    ensures k != g.fid && k != g.name
  {
    var i :| 0 <= i < |d.children| && d.children[i] == f;
    var j :| 0 <= j < |d.children| && d.children[j] == g;
    assert i < j ==> !Clash(f, g);
    assert j < i ==> !Clash(g, f);
  }

  /** From an EF, any other file of its directory is selected by its own path element, whatever applications
      and directories further up are called. */
  lemma SiblingIsSelectable(mf: CardFile, paths: Paths, f: CardFile, g: CardFile, preferName: bool)
    requires ValidTree(mf, paths) && Unambiguous(mf, paths) && f in paths && g in paths
    requires f.kind == EF && f != g && g.kind != ADF && g != mf && g.parent == f.parent
    ensures var k := PathElement(g, preferName);
            k != "" && k in Selectables(mf, paths, f) && Selectables(mf, paths, f)[k] == g
  {
    assert Attached(mf, paths, f) && Attached(mf, paths, g);
    var d: CardFile := f.parent;
    assert Listed(paths, d) && NamesApart(d);
    SiblingKeysAreUnique(d, f, g, preferName);
  }

  lemma SiblingKeysAreUnique(d: CardFile, f: CardFile, g: CardFile, preferName: bool)
    requires d.DirOk() && NamesApart(d) && g in d.children && f != g && g.kind != ADF
    ensures var k := PathElement(g, preferName);
            k != "" && k in SiblingSelectables(d, f) && SiblingSelectables(d, f)[k] == g
  {
    assert Attachable(g);
    var k := PathElement(g, preferName);
    assert KeyOf(g, if k == g.fid then Fid else Name) == Some(k);
    var x := SiblingSelectables(d, f)[k];
    if x != g { SiblingsDiffer(d, g, x, k); }
  }

  lemma AppKeysAreUnique(mf: CardFile, f: CardFile, preferName: bool)
    requires forall i, j | 0 <= i < j < |mf.applications| :: mf.applications[i].aid != mf.applications[j].aid
    requires forall a {:trigger AppApart(mf, a)} | a in mf.applications :: AppApart(mf, a)
    requires f in mf.applications && f.kind == ADF && f.aid != ""
    ensures var k := PathElement(f, preferName);
            k != "" && k in AppSelectables(mf) && AppSelectables(mf)[k] == f
  {
    var k := PathElement(f, preferName);
    AppKeyIsOwn(mf, f, k);
    var a := AppSelectables(mf)[k];
    if a != f { AppsDiffer(mf, f, a, k); }
  }

  lemma AppKeyIsOwn(mf: CardFile, f: CardFile, k: string)
    requires f in mf.applications && k != "" && (k == f.aid || k == f.name)
    ensures k in AppSelectables(mf)
    ensures var a := AppSelectables(mf)[k]; a in mf.applications && (k == a.aid || k == a.name)
  {
    assert KeyOf(f, if k == f.aid then Aid else Name) == Some(k);
  }

  lemma AppsDiffer(mf: CardFile, f: CardFile, a: CardFile, k: string)
    requires forall i, j | 0 <= i < j < |mf.applications| :: mf.applications[i].aid != mf.applications[j].aid
    requires f in mf.applications && a in mf.applications && a != f && AppApart(mf, a) && AppApart(mf, f)
    requires k == f.aid || (k == f.name && k != "")
    ensures k != a.aid && (a.name != "" ==> k != a.name)
  {
    var i :| 0 <= i < |mf.applications| && mf.applications[i] == f;
    var j :| 0 <= j < |mf.applications| && mf.applications[j] == a;
    assert f.aid != a.aid;
  }

  /** From any current directory, looking up a file's fully qualified path string finds that file,
      with names preferred or not. */
  lemma PathStringRoundTrip(mf: CardFile, paths: Paths, cwd: CardFile, f: CardFile, preferName: bool)
    requires ValidTree(mf, paths) && Unambiguous(mf, paths) && WellNamed(paths) && cwd in paths && f in paths
    ensures Resolve(mf, paths, cwd, PathList(Join(FullyQualifiedPath(mf, paths, f, preferName)))) == Some(f)
  {
    var elements := FullyQualifiedPath(mf, paths, f, preferName);
    PathListRoundTrip(mf, paths, cwd, f, preferName);
    SplitJoin(elements);
  }

  lemma {:induction false} PathListRoundTrip(mf: CardFile, paths: Paths, cwd: CardFile, f: CardFile, preferName: bool)
    requires ValidTree(mf, paths) && Unambiguous(mf, paths) && WellNamed(paths) && cwd in paths && f in paths
    ensures var elements := FullyQualifiedPath(mf, paths, f, preferName);
            && elements != [] && elements[0] != "" && (forall e <- elements :: '/' !in e)
            && Resolve(mf, paths, cwd, elements) == Some(f)
    decreases |paths[f]|
  {
    var k := PathElement(f, preferName);
    assert NameOk(f);
    if f == mf {
      MfIsSelectable(mf, paths, cwd, k);
      ResolveOneMore(mf, paths, cwd, [], k);
      assert [] + [k] == [k];
    } else {
      ChildIsSelectable(mf, paths, f, preferName);
      PathListRoundTrip(mf, paths, cwd, f.parent, preferName);
      ResolveOneMore(mf, paths, cwd, FullyQualifiedPath(mf, paths, f.parent, preferName), k);
    }
  }

  lemma {:induction false} ResolveOneMore(mf: CardFile, paths: Paths, dir: CardFile, names: seq<string>, k: string)
    requires ValidTree(mf, paths) && dir in paths
    ensures var g := Resolve(mf, paths, dir, names);
            Resolve(mf, paths, dir, names + [k]) ==
            if g.Some? && k in Selectables(mf, paths, g.value) then Some(Selectables(mf, paths, g.value)[k]) else None
    decreases |names|
  {
    if names == [] {
      assert (names + [k])[1..] == [];
    } else {
      assert (names + [k])[1..] == names[1..] + [k];
      var sels := Selectables(mf, paths, dir);
      if names[0] in sels { ResolveOneMore(mf, paths, sels[names[0]], names[1..], k); }
    }
  }
}
