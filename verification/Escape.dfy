/** Leaving an application without a file system: `select_file` selects another by its name, so it depends on
    what that name means there (lines 383-398 of pySim/runtime.py). */
module Escape {
  import opened Wrappers
  import opened Filesystem
  import opened Hierarchy
  import opened Naming
  import opened Runtime

  predicate NoFileCalled(a: CardFile, name: string)
    reads a
  {
    forall c <- a.children :: c.fid != name && c.name != name
  }

  lemma EscapeNameMeans(mf: CardFile, paths: Paths, a: CardFile, u: CardFile)
    requires ValidTree(mf, paths) && Unambiguous(mf, paths) && WellNamed(paths)
    requires a in mf.applications && u in mf.applications && u.name != ""
    ensures u.name in Selectables(mf, paths, mf) && Selectables(mf, paths, mf)[u.name] == u
    ensures u.name in Selectables(mf, paths, a)
    ensures Selectables(mf, paths, a)[u.name] == u <==> NoFileCalled(a, u.name)
  {
    assert NameOk(u);
    AppKeysAreUnique(mf, u, true);
    AppKeyFrom(mf, paths, mf, u.name);
    AppKeyFrom(mf, paths, a, u.name);
    ChildKeyFound(a, u.name);
    assert Listed(paths, a) && u !in a.children;
  }

  /** What an application's identifier means from a directory. */
  lemma AppKeyFrom(mf: CardFile, paths: Paths, d: CardFile, k: string)
    requires ValidTree(mf, paths) && d in paths && d.IsDir()
    ensures k in AppSelectables(mf) ==>
              && k in Selectables(mf, paths, d)
              && Selectables(mf, paths, d)[k] ==
                 if d != mf && k in ChildSelectables(d) then ChildSelectables(d)[k] else AppSelectables(mf)[k]
  {
    assert d != mf ==> Attached(mf, paths, d);
    assert k in AppSelectables(mf) ==>
             k in BaseSelectables(mf, paths, d) && BaseSelectables(mf, paths, d)[k] == AppSelectables(mf)[k];
  }

  lemma ChildKeyFound(d: CardFile, k: string)
    requires k != ""
    ensures k in ChildSelectables(d) <==> !NoFileCalled(d, k)
  {
  }

  /** No file in an application without a file system is called like the application picked. */
  ghost predicate EscapeNameFree(mf: CardFile)
    reads mf, mf.applications
  {
    var u := FirstFs(mf.applications);
    u != null ==> forall a <- mf.applications | IsBare(a) :: NoFileCalled(a, u.name)
  }

  /** Where applications are named as path strings need it, and the one picked not in upper-case hex digits, that
      is exactly what the escape needs. */
  lemma EscapeIsNamedIff(mf: CardFile, paths: Paths)
    requires ValidTree(mf, paths) && Unambiguous(mf, paths) && WellNamed(paths)
    requires var u := FirstFs(mf.applications); u != null ==> u.name != "" && NormalName(u.name) == u.name
    ensures EscapeIsNamed(mf, paths) <==> EscapeNameFree(mf)
  {
    var u := FirstFs(mf.applications);
    forall a | a in paths && a.kind == ADF ensures a in mf.applications {
      assert Attached(mf, paths, a);
    }
    if u != null {
      assert NameOk(u);
      forall a | a in mf.applications && IsBare(a)
        ensures NamedFrom(mf, paths, a) <==> NoFileCalled(a, u.name)
      {
        EscapeNameMeans(mf, paths, a, u);
      }
    }
  }

  // ---------- the application picked ----------

  function KeysOf(files: seq<CardFile>, key: Key): seq<string> {
    if files == [] then []
    else (if KeyOf(files[0], key).Some? then [KeyOf(files[0], key).value] else []) + KeysOf(files[1..], key)
  }

  /** The keys of the MF's selectables in the order in which the source's dictionary has them. */
  function MfKeys(mf: CardFile): seq<string>
    reads mf
  {
    [".", mf.fid, mf.name] + (KeysOf(mf.applications, Aid) + LaterKeys(mf))
  }

  function LaterKeys(mf: CardFile): seq<string>
    reads mf
  {
    KeysOf(mf.applications, Name) + KeysOf(mf.children, Fid) + KeysOf(mf.children, Name)
  }

  /** The search of `select_file` over the MF's selectables. */
  function FirstPick(sels: Dict, keys: seq<string>): CardFile? {
    if keys == [] then null
    else if keys[0] in sels && sels[keys[0]].kind == ADF && sels[keys[0]].hasFs then sels[keys[0]]
    else FirstPick(sels, keys[1..])
  }

  lemma {:induction false} FirstPickAmongAids(sels: Dict, apps: seq<CardFile>, rest: seq<string>)
    requires forall a <- apps :: a.kind == ADF && a.aid in sels && sels[a.aid] == a
    ensures FirstPick(sels, KeysOf(apps, Aid) + rest) ==
            if FirstFs(apps) != null then FirstFs(apps) else FirstPick(sels, rest)
  {
    if apps == [] {
      assert KeysOf(apps, Aid) + rest == rest;
    } else {
      FirstPickAmongAids(sels, apps[1..], rest);
      assert (KeysOf(apps, Aid) + rest)[1..] == KeysOf(apps[1..], Aid) + rest;
    }
  }

  lemma {:induction false} NothingToPick(sels: Dict, keys: seq<string>)
    requires forall k <- sels :: sels[k].kind == ADF ==> !sels[k].hasFs
    ensures FirstPick(sels, keys) == null
  {
    if keys != [] { NothingToPick(sels, keys[1..]); }
  }

  lemma FirstPickSkips(sels: Dict, k: string, rest: seq<string>)
    requires k in sels ==> sels[k].kind != ADF
    ensures FirstPick(sels, [k] + rest) == FirstPick(sels, rest)
  {
    assert ([k] + rest)[1..] == rest;
  }

  /** What is no identifier of an application selects none from the MF. */
  lemma OthersMeanNoApplication(mf: CardFile, paths: Paths, k: string)
    requires ValidTree(mf, paths) && k !in AppSelectables(mf)
    ensures k in Selectables(mf, paths, mf) ==> Selectables(mf, paths, mf)[k].kind != ADF
  {
    var near, base := NearSelectables(mf, paths, mf), BaseSelectables(mf, paths, mf);
    assert ParentSelectables(mf, paths, mf, "..") == map[];
    assert k in near ==> near[k] == mf;
    assert k in base ==> base[k] == mf;
    assert Listed(paths, mf);
    assert k in ChildSelectables(mf) ==> ChildSelectables(mf)[k].kind != ADF;
  }

  lemma AidMeans(mf: CardFile, paths: Paths, a: CardFile)
    requires ValidTree(mf, paths) && Unambiguous(mf, paths) && WellNamed(paths) && a in mf.applications
    ensures a.aid in Selectables(mf, paths, mf) && Selectables(mf, paths, mf)[a.aid] == a
  {
    assert NameOk(a);
    AppKeysAreUnique(mf, a, false);
    AppKeyFrom(mf, paths, mf, a.aid);
  }

  /** With unambiguous identifiers, the first application with a file system among the MF's selectables is the
      first one in the order in which applications were added. */
  lemma PickIsFirstFs(mf: CardFile, paths: Paths)
    requires ValidTree(mf, paths) && Unambiguous(mf, paths) && WellNamed(paths)
    requires "." !in AppSelectables(mf)
    ensures FirstPick(Selectables(mf, paths, mf), MfKeys(mf)) == FirstFs(mf.applications)
  {
    var sels := Selectables(mf, paths, mf);
    EarlyKeysMeanTheMf(mf, paths);
    forall a | a in mf.applications ensures a.kind == ADF && a.aid in sels && sels[a.aid] == a {
      AidMeans(mf, paths, a);
    }
    if FirstFs(mf.applications) == null { NoFsNothingToPick(mf, paths, LaterKeys(mf)); }
    FirstPickAfterMf(sels, mf.fid, mf.name, mf.applications, LaterKeys(mf));
  }

  lemma EarlyKeysMeanTheMf(mf: CardFile, paths: Paths)
    requires ValidTree(mf, paths) && Unambiguous(mf, paths) && "." !in AppSelectables(mf)
    ensures forall k <- [".", mf.fid, mf.name] ::
              k in Selectables(mf, paths, mf) ==> Selectables(mf, paths, mf)[k].kind != ADF
  {
    AppKeysAvoid(mf, mf.fid);
    AppKeysAvoid(mf, mf.name);
    forall k | k in [".", mf.fid, mf.name]
      ensures k in Selectables(mf, paths, mf) ==> Selectables(mf, paths, mf)[k].kind != ADF
    {
      OthersMeanNoApplication(mf, paths, k);
    }
  }

  lemma FirstPickAfterMf(sels: Dict, fid: string, name: string, apps: seq<CardFile>, rest: seq<string>)
    requires forall k <- [".", fid, name] :: k in sels ==> sels[k].kind != ADF
    requires forall a <- apps :: a.kind == ADF && a.aid in sels && sels[a.aid] == a
    requires FirstFs(apps) == null ==> FirstPick(sels, rest) == null
    ensures FirstPick(sels, [".", fid, name] + (KeysOf(apps, Aid) + rest)) == FirstFs(apps)
  {
    var keys := KeysOf(apps, Aid) + rest;
    var own := [".", fid, name];
    assert own[0] in own && own[1] in own && own[2] in own;
    FirstPickAmongAids(sels, apps, rest);
    FirstPickSkips(sels, name, keys);
    FirstPickSkips(sels, fid, [name] + keys);
    FirstPickSkips(sels, ".", [fid] + ([name] + keys));
    assert own + keys == ["."] + ([fid] + ([name] + keys));
  }

  lemma NoFsNothingToPick(mf: CardFile, paths: Paths, keys: seq<string>)
    requires ValidTree(mf, paths) && forall a <- mf.applications :: !a.hasFs
    ensures FirstPick(Selectables(mf, paths, mf), keys) == null
  {
    var sels := Selectables(mf, paths, mf);
    forall k | k in sels && sels[k].kind == ADF ensures !sels[k].hasFs {
      assert Attached(mf, paths, sels[k]);
    }
    NothingToPick(sels, keys);
  }

  // ---------- what happens otherwise ----------

  datatype Call = SelectFileCall(file: CardFile) | SelectCall(name: string)

  /** The call that a call makes before anything reaches the card, while an application without a file system is
      selected.  `sels` is what can be selected there, `escape` the name of the application picked. */
  function NestedCall(sels: Dict, escape: string, c: Call): Option<Call> {
    match c
    case SelectFileCall(f) => if f.kind == ADF then None else Some(SelectCall(escape))
    case SelectCall(name) =>
      if NormalName(name) in sels then Some(SelectFileCall(sels[NormalName(name)])) else None
  }

  /** What is called `k` levels further down. */
  function NestedAt(sels: Dict, escape: string, c: Call, k: nat): Option<Call> {
    if k == 0 then Some(c)
    else
      match NestedAt(sels, escape, c, k - 1)
      case None => None
      case Some(d) => NestedCall(sels, escape, d)
  }

  predicate MeansNoApplication(sels: Dict, name: string) {
    NormalName(name) in sels && sels[NormalName(name)].kind != ADF
  }

  /** Selecting a file outside applications recurses without end exactly if the name of the application picked
      means, from the one to be left, a file that is no application. */
  lemma EscapeRecursesIff(sels: Dict, escape: string, f: CardFile)
    requires f.kind != ADF && '/' !in escape
    ensures (forall k: nat :: NestedAt(sels, escape, SelectFileCall(f), k).Some?) <==> MeansNoApplication(sels, escape)
  {
    if MeansNoApplication(sels, escape) {
      forall k: nat ensures NestedAt(sels, escape, SelectFileCall(f), k).Some? {
        EscapeRecurses(sels, escape, f, k);
      }
    } else {
      NothingNestedAtThree(sels, escape, f);
    }
  }

  lemma {:induction false} EscapeRecurses(sels: Dict, escape: string, f: CardFile, k: nat)
    requires f.kind != ADF && MeansNoApplication(sels, escape)
    ensures var c := NestedAt(sels, escape, SelectFileCall(f), k);
            c.Some? && (c == Some(SelectCall(escape)) || (c.value.SelectFileCall? && c.value.file.kind != ADF))
  {
    if k > 0 { EscapeRecurses(sels, escape, f, k - 1); }
  }

  lemma NothingNestedAtThree(sels: Dict, escape: string, f: CardFile)
    requires f.kind != ADF && !MeansNoApplication(sels, escape)
    ensures NestedAt(sels, escape, SelectFileCall(f), 3) == None
  {
    assert NestedAt(sels, escape, SelectFileCall(f), 1) == Some(SelectCall(escape));
    var c := NestedAt(sels, escape, SelectFileCall(f), 2);
    assert c.Some? ==> c.value.SelectFileCall? && c.value.file.kind == ADF;
  }
}
