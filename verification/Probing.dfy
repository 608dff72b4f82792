/** Where the card is after `probe_file` (lines 317-356 of pySim/runtime.py), which enters the file it finds as a
    child of the selected directory. */
module Probing {
  import opened Wrappers
  import opened Filesystem
  import opened Hierarchy
  import opened Building
  import opened Naming
  import opened Card
  import opened Correspondence
  import opened Runtime

  /** A directory's own FID and that of its parent can be selected from it, under whatever file. */
  lemma OwnFidsAreSelectable(mf: CardFile, paths: Paths, f: CardFile)
    requires ValidTree(mf, paths) && f in paths && f.fid != ""
    ensures MF_FID in Selectables(mf, paths, f) && f.fid in Selectables(mf, paths, f)
    ensures f != mf ==> Attached(mf, paths, f) && (f.parent.fid != "" ==> f.parent.fid in Selectables(mf, paths, f))
  {
    assert f != mf ==> Attached(mf, paths, f);
    assert MF_FID in SelfSelectables(mf, "") && f.fid in SelfSelectables(f, ".");
    assert f != mf && f.parent.fid != "" ==> f.parent.fid in ParentSelectables(mf, paths, f, "..");
  }

  /** An accepted FID that selects nothing from a directory belongs to a child there, if the card holds one,
      and otherwise to a directory beside it. */
  lemma ProbedFileIsBelowOrBeside(mf: CardFile, paths: Paths, fs: CardFs, f: CardFile, fid: string)
    requires ValidTree(mf, paths) && fs.Valid() && Matches(paths, fs)
    requires f in paths && f.IsDir() && Place(paths, f) in fs.files
    requires fid != "" && fid !in Selectables(mf, paths, f) && fs.Answer(Place(paths, f), fid).Some?
    ensures var at, answer := Place(paths, f), fs.Answer(Place(paths, f), fid);
            if at + [Id.Fid(fid)] in fs.files then answer == Some(at + [Id.Fid(fid)])
            else |at| > 1 && answer == Some(Init(at) + [Id.Fid(fid)]) && Init(at) + [Id.Fid(fid)] in fs.dirs
  {
    var at := Place(paths, f);
    PlaceOfChild(mf, paths, f);
    assert Matching(paths, fs, f);
    if f.fid != "" {
      OwnFidsAreSelectable(mf, paths, f);
    } else {
      assert MF_FID in SelfSelectables(mf, "");
      assert f != mf && f.parent.fid != "" ==> f.parent.fid in ParentSelectables(mf, paths, f, "..");
    }
    assert Last(at) == IdOf(f) != Id.Fid(fid);
    if f != mf {
      PlaceOfChild(mf, paths, f.parent);
      PathShape(mf, paths, f.parent);
      assert Last(Init(at)) == IdOf(f.parent) != Id.Fid(fid);
    }
  }

  lemma {:induction false} ParentKeysNameAncestors(mf: CardFile, paths: Paths, f: CardFile, alias: string, k: string)
    requires ValidTree(mf, paths) && f in paths && paths[f] != []
    requires k != "" && k != alias && forall g <- Init(paths[f]) :: k != g.fid && k != g.name
    ensures k !in ParentSelectables(mf, paths, f, alias)
    decreases |paths[f]|
  {
    if f != mf {
      assert Attached(mf, paths, f);
      var d: CardFile := f.parent;
      PathShape(mf, paths, d);
      assert Init(paths[f]) == paths[d];
      assert k !in SelfSelectables(d, alias);
      ParentKeysNameAncestors(mf, paths, d, "", k);
    }
  }

  /** No two files of one directory are on the way to each other. */
  lemma BesideIsNotAbove(mf: CardFile, paths: Paths, d: CardFile, e: CardFile)
    requires ValidTree(mf, paths) && d in paths && e in paths && d != mf && e != mf && d.parent == e.parent
    ensures paths[d] != [] && e !in Init(paths[d])
  {
    assert Attached(mf, paths, d) && Attached(mf, paths, e);
    PathIsLineage(mf, paths, d);
    PathIsLineage(mf, paths, e);
    assert |paths[d]| == |paths[e]|;
    if e in Init(paths[d]) {
      var i :| 0 <= i < |paths[d]| - 1 && paths[d][i] == e;
      LineagesAgree(mf, paths[d], paths[e], i, |paths[e]| - 1);
    }
  }

  /** `k` belongs to `e` and to no other file. */
  predicate OnlyNames(paths: Paths, e: CardFile, k: string) {
    k != "" && k != "." && k != ".." && forall g {:trigger Identifies(g, k)} | g in paths && g != e :: !Identifies(g, k)
  }

  /** The directory beside a directory cannot be selected from it by FID, although it is a known file. */
  lemma BesideIsNotSelectable(mf: CardFile, paths: Paths, d: CardFile, e: CardFile)
    requires ValidTree(mf, paths) && d in paths && e in paths && d != mf && e != mf && d != e && d.parent == e.parent
    requires d.IsDir() && e.kind != ADF && OnlyNames(paths, e, e.fid)
    ensures e.fid !in Selectables(mf, paths, d)
  {
    var k := e.fid;
    assert Attached(mf, paths, d) && Attached(mf, paths, e);
    BesideIsNotAbove(mf, paths, d, e);
    PathIsLineage(mf, paths, d);
    forall g | g in Init(paths[d]) ensures k != g.fid && k != g.name {
      assert g in paths[d] && !Identifies(g, k);
    }
    assert !Identifies(d, k) && !Identifies(mf, k);
    AppsAndChildrenIdentify(mf, paths, d, e, k);
    KeyIsNotSelectable(mf, paths, d, k);
  }

  lemma AppsAndChildrenIdentify(mf: CardFile, paths: Paths, d: CardFile, e: CardFile, k: string)
    requires ValidTree(mf, paths) && d in paths && d.IsDir() && e in paths && e.kind != ADF && OnlyNames(paths, e, k)
    requires e.parent != d
    ensures k !in AppSelectables(mf) && k !in ChildSelectables(d)
  {
    assert Listed(paths, d);
    KeysIdentify(mf.applications, k);
    KeysIdentify(d.children, k);
  }

  lemma KeyIsNotSelectable(mf: CardFile, paths: Paths, d: CardFile, k: string)
    requires ValidTree(mf, paths) && d in paths && d.IsDir() && d != mf && paths[d] != []
    requires k != "" && k != "." && k != ".." && k !in AppSelectables(mf) && k !in ChildSelectables(d)
    requires k != d.fid && k != d.name && k != mf.fid && k != mf.name
    requires forall g <- Init(paths[d]) :: k != g.fid && k != g.name
    ensures k !in Selectables(mf, paths, d)
  {
    ParentKeysNameAncestors(mf, paths, d, "..", k);
    assert Attached(mf, paths, d);
    assert k !in SelfSelectables(d, ".") && k !in SelfSelectables(mf, "");
    assert k !in NearSelectables(mf, paths, d);
    assert k !in BaseSelectables(mf, paths, d);
  }

  lemma KeysIdentify(files: seq<CardFile>, k: string)
    requires forall g <- files :: !Identifies(g, k)
    ensures k !in Keyed(files, Key.Fid) && k !in Keyed(files, Name)
    ensures (forall g <- files :: g.kind == ADF) ==> k !in Keyed(files, Key.Aid)
  {
  }

  // ---------- a tree in which it happens ----------

  const TELECOM: Location := ROOT + [Id.Fid("7f10")]
  const GSM: Location := ROOT + [Id.Fid("7f20")]

  /** A card with two directories side by side. */
  const TWO_DIRECTORIES: CardFs := CardFs({ROOT, TELECOM, GSM}, {ROOT, TELECOM, GSM}, {})

  lemma FidsDiffer()
    ensures "7f10" != "7f20" && "7f10" != MF_FID && "7f20" != MF_FID
  {
    assert "7f10"[2] != "7f20"[2] && MF_FID[0] != "7f20"[0] && MF_FID[0] != "7f10"[0];
  }

  lemma FidsAreLower()
    ensures ToLower(MF_FID) == MF_FID && ToLower("7f10") == "7f10" && ToLower("7f20") == "7f20" && ToLower("") == ""
  {
    LowerStays(MF_FID);
    LowerStays("7f10");
    LowerStays("7f20");
  }

  lemma TwoDirectoriesAnswer()
    ensures TWO_DIRECTORIES.Valid() && ROOT != TELECOM && TELECOM != GSM && GSM != ROOT
    ensures TWO_DIRECTORIES.Answer(TELECOM, "7f20") == Some(GSM) && GSM != TELECOM + [Id.Fid("7f20")]
  {
    FidsDiffer();
    var child := TELECOM + [Id.Fid("7f20")];
    assert |ROOT| == 1 && |TELECOM| == 2 && |GSM| == 2 && |child| == 3;
    assert Init(TELECOM) == ROOT && Init(GSM) == ROOT;
    assert TELECOM[1] == Id.Fid("7f10") && GSM[1] == Id.Fid("7f20");
    assert TWO_DIRECTORIES.Valid();
    assert TWO_DIRECTORIES.CurrentDir(TELECOM) == TELECOM;
    assert child !in TWO_DIRECTORIES.files;
  }

  /** The MF with two directories, `7f10` and `7f20`, both known to pySim. */
  method TwoKnownDirectories() returns (mf: CardFile, telecom: CardFile, gsm: CardFile, ghost paths: Paths)
    ensures fresh({mf, telecom, gsm}) && mf != telecom && telecom != gsm && gsm != mf &&
            paths.Keys == {mf, telecom, gsm}
    ensures ValidTree(mf, paths) && mf.applications == []
    ensures mf.kind == MF && IsDfBelow(mf, telecom, "7f10") && IsDfBelow(mf, gsm, "7f20")
    ensures mf.name == MF_NAME && telecom.name == "DF.TELECOM" && gsm.name == "DF.GSM"
  {
    FidsAreLower();
    mf := new CardFile(MF, MF_FID, None, MF_NAME, "", false, NoService);
    NewMfIsTree(mf);
    telecom, paths := NewDirectory(mf, map[mf := [mf]], "7f10", "DF.TELECOM");
    gsm, paths := NewDirectory(mf, paths, "7f20", "DF.GSM");
  }

  predicate IsDfBelow(mf: CardFile, d: CardFile, fid: string)
    reads d
  {
    d.kind == DF && d.fid == fid && d.parent == mf
  }

  /** A new directory, attached to the MF. */
  method NewDirectory(mf: CardFile, ghost paths: Paths, fid: string, name: string)
    returns (d: CardFile, ghost all: Paths)
    requires ValidTree(mf, paths) && IsHex(fid, 4, 4) && ToLower(fid) == fid != MF_FID && name !in RESERVED_NAMES
    requires forall c <- mf.children :: c.fid != fid && !SameName(c.name, name)
    modifies mf`children, mf`filesByService
    ensures fresh(d) && IsDfBelow(mf, d, fid) && d.name == name && all.Keys == paths.Keys + {d}
    ensures ValidTree(mf, all) && mf.children == old(mf.children) + [d]
  {
    d := new CardFile(DF, fid, None, name, "", false, NoService);
    NewFileIsBranch(d);
    var r;
    r, all := AddFileToTree(mf, paths, mf, d, map[d := [d]], false);
  }

  lemma TwoDirectoriesMatch(mf: CardFile, telecom: CardFile, gsm: CardFile, paths: Paths)
    requires ValidTree(mf, paths) && paths.Keys == {mf, telecom, gsm} && mf.applications == []
    requires IsDfBelow(mf, telecom, "7f10") && IsDfBelow(mf, gsm, "7f20")
    ensures Place(paths, mf) == ROOT && Place(paths, telecom) == TELECOM && Place(paths, gsm) == GSM
    ensures Matches(paths, TWO_DIRECTORIES) && EscapeIsNamed(mf, paths)
  {
    PlaceOfChild(mf, paths, telecom);
    PlaceOfChild(mf, paths, gsm);
    FidsDiffer();
    forall f | f in paths ensures Matching(paths, TWO_DIRECTORIES, f) {
      PlaceMatches(mf, paths, f);
    }
  }

  lemma PlaceMatches(mf: CardFile, paths: Paths, f: CardFile)
    requires ValidTree(mf, paths) && f in paths && f.IsDir() && f.kind != ADF
    requires Place(paths, f) in [ROOT, TELECOM, GSM] && (f != mf ==> f.fid != MF_FID && f.parent == mf)
    ensures Matching(paths, TWO_DIRECTORIES, f)
  {
    PlaceOfChild(mf, paths, f);
    TwoDirectoriesAnswer();
    assert |Place(paths, f)| > 1 ==> Init(Place(paths, f)) == ROOT;
  }

  lemma GsmIsNotSelectable(mf: CardFile, telecom: CardFile, gsm: CardFile, paths: Paths)
    requires ValidTree(mf, paths) && paths.Keys == {mf, telecom, gsm} && telecom != gsm
    requires IsDfBelow(mf, telecom, "7f10") && IsDfBelow(mf, gsm, "7f20")
    requires telecom.name == "DF.TELECOM"
    ensures "7f20" !in Selectables(mf, paths, telecom)
  {
    assert "7f20"[2] != "7f10"[2] && "7f20"[0] != MF_FID[0] && "7f20"[0] != MF_NAME[0] && "7f20"[0] != "DF.TELECOM"[0];
    assert "7f20"[0] != '.';
    BesideIsNotSelectable(mf, paths, telecom, gsm);
  }

  /** The two directories, as pySim knows them. */
  ghost predicate KnowsTwo(mf: CardFile, paths: Paths, telecom: CardFile, gsm: CardFile)
    reads telecom, gsm
  {
    && paths.Keys == {mf, telecom, gsm} && telecom != gsm && telecom.name == "DF.TELECOM"
    && IsDfBelow(mf, telecom, "7f10") && IsDfBelow(mf, gsm, "7f20")
    && Place(paths, telecom) == TELECOM && Place(paths, gsm) == GSM
  }

  /** With `7f10` selected, the FID of `7f20` selects nothing, so pySim probes for it.  If the card answers, it has
      moved to `7f20`, while pySim is about to enter a new file below `7f10`. */
  method ProbeFromTelecom(l: RuntimeLchan, telecom: CardFile, gsm: CardFile) returns (r: Outcome)
    requires l.Valid() && l.Synced() && l.channel.fs == TWO_DIRECTORIES && KnowsTwo(l.mf, l.paths, telecom, gsm)
    requires l.selectedFile == telecom
    modifies l`selectedFile, l`selectedAdf, l`selectedFileFcpHex, l.channel
    ensures l.Valid() && KnowsTwo(l.mf, l.paths, telecom, gsm)
    ensures r.Discovered? || l.channel.refusals > old(l.channel.refusals)
    ensures r.Discovered? ==> l.selectedFile == telecom && l.channel.current == Place(l.paths, gsm)
    ensures r.Discovered? ==> !l.ProbedWhereEntered("7f20")
  {
    GsmAnswers(l, telecom, gsm);
    r := l.SelectOne("7f20");
  }

  /** From `7f10`, the FID `7f20` means nothing to pySim, and the card answers it with the directory beside. */
  lemma GsmAnswers(l: RuntimeLchan, telecom: CardFile, gsm: CardFile)
    requires l.Valid() && l.Synced() && l.channel.fs == TWO_DIRECTORIES && KnowsTwo(l.mf, l.paths, telecom, gsm)
    requires l.selectedFile == telecom
    ensures '/' !in "7f20" && NormalName("7f20") == "7f20" && IsHex("7f20", 4, 4) && l.Meaning("7f20") == None
    ensures l.channel.fs.Answer(l.channel.current, "7f20") == Some(Place(l.paths, gsm))
    ensures Place(l.paths, gsm) != Place(l.paths, telecom) + [Id.Fid("7f20")]
  {
    TwoDirectoriesAnswer();
    GsmIsNotSelectable(l.mf, telecom, gsm, l.paths);
    NormalGsm();
  }

  lemma NormalGsm()
    ensures '/' !in "7f20" && IsHex("7f20", 4, 4) && NormalName("7f20") == "7f20"
  {
  }

  /** There is such a tree, and a session on it that gets there unless the card refuses. */
  method ProbeLeavesTheDirectory() returns (l: RuntimeLchan, telecom: CardFile, gsm: CardFile, r: Outcome)
    ensures l.Valid() && KnowsTwo(l.mf, l.paths, telecom, gsm)
    ensures r.Discovered? || l.channel.refusals > 0
    ensures r.Discovered? ==> l.selectedFile == telecom && l.channel.current == Place(l.paths, gsm)
    ensures r.Discovered? ==> !l.ProbedWhereEntered("7f20")
  {
    l, telecom, gsm := TwoDirectoriesChannel();
    r := l.SelectFile(telecom);
    if r.Ok? { r := ProbeFromTelecom(l, telecom, gsm); }
  }

  method TwoDirectoriesChannel() returns (l: RuntimeLchan, telecom: CardFile, gsm: CardFile)
    ensures fresh(l) && fresh(l.channel) && l.channel.refusals == 0 && l.channel.fs == TWO_DIRECTORIES
    ensures l.Valid() && l.Synced() && l.mf.applications == [] && KnowsTwo(l.mf, l.paths, telecom, gsm)
  {
    var mf;
    ghost var paths;
    mf, telecom, gsm, paths := TwoKnownDirectories();
    TwoDirectoriesAnswer();
    TwoDirectoriesMatch(mf, telecom, gsm, paths);
    var channel := new Channel(TWO_DIRECTORIES, ROOT);
    l := new RuntimeLchan(mf, paths, channel);
  }
}
