/** pySim/runtime.py: the local picture of a logical channel, and the SELECTs that move it. */
module Runtime {
  import opened Wrappers
  import opened Filesystem
  import opened Hierarchy
  import opened Naming
  import opened Card
  import opened Correspondence
  import Meanings

  /** How a call ends: normally, or with the exception the source raises.  `Discovered` is where this
      model stops following `probe_file`: the card has just accepted a FID that selects nothing from here. */
  datatype Outcome = Ok | SwMatch | BadName | Discovered

  datatype Request = ByName(name: string) | ByFile(file: CardFile)

  /** The application picked to escape to: the first that offers a file system. */
  function FirstFs(apps: seq<CardFile>): (u: CardFile?)
    ensures u == null <==> forall a <- apps :: !a.hasFs
    ensures u != null ==> u in apps && u.hasFs
  {
    if apps == [] then null else if apps[0].hasFs then apps[0] else FirstFs(apps[1..])
  }

  predicate IsBare(f: CardFile) {
    f.kind == ADF && !f.hasFs
  }

  /** Inside an application without a file system, which offers no files on the card. */
  ghost predicate BelowBare(paths: Paths, f: CardFile)
    requires f in paths
  {
    |paths[f]| > 2 && IsBare(paths[f][1])
  }

  /** The card holds that application, so that the way to `f` leads into it. */
  ghost predicate EntersBare(paths: Paths, fs: CardFs, f: CardFile)
    requires f in paths
  {
    BelowBare(paths, f) && Place(paths, f)[..2] in fs.files
  }

  /** The escape from an application without a file system selects the one picked by name, and there that name
      must mean it. */
  ghost predicate EscapeIsNamed(mf: CardFile, paths: Paths)
    reads paths.Keys
  {
    forall a {:trigger NamedFrom(mf, paths, a)} | a in paths && IsBare(a) :: NamedFrom(mf, paths, a)
  }

  ghost predicate NamedFrom(mf: CardFile, paths: Paths, a: CardFile)
    requires a in paths
    reads paths.Keys
  {
    ValidTree(mf, paths) ==>
      var u := FirstFs(mf.applications);
      u != null ==>
        '/' !in u.name && NormalName(u.name) in Selectables(mf, paths, a) &&
        Selectables(mf, paths, a)[NormalName(u.name)] == u
  }

  function NormalName(name: string): string {
    if IsHex(name, 2, |name|) then ToLower(name) else name
  }

  /** Hexadecimal names mean the same in any case; all others are taken as they are. */
  lemma HexNamesFoldCase(a: string, b: string)
    requires ToLower(a) == ToLower(b)
    ensures |a| == |b| && (IsHex(a, 2, |a|) <==> IsHex(b, 2, |b|))
    ensures if IsHex(a, 2, |a|) then NormalName(a) == NormalName(b) && (ToLower(a) == a ==> NormalName(a) == a)
            else NormalName(a) == a
  {
    assert |a| == |ToLower(a)| == |ToLower(b)| == |b|;
    if IsHex(a, 2, |a|) { HexInAnyCase(a, b); }
    if IsHex(b, 2, |b|) { HexInAnyCase(b, a); }
  }

  lemma HexInAnyCase(a: string, b: string)
    requires ToLower(a) == ToLower(b) && IsHex(a, 2, |a|)
    ensures IsHex(b, 2, |b|)
  {
    assert |a| == |ToLower(a)| == |ToLower(b)| == |b|;
    forall c | c in b ensures IsHexDigit(c) {
      var i :| 0 <= i < |b| && b[i] == c;
      assert ToLower(a)[i] == ToLower(b)[i] && a[i] in a;
    }
  }

  lemma DotsAreNormal()
    ensures NormalName(".") == "." && NormalName("..") == ".." && '/' !in "." && '/' !in ".."
  {
    assert !IsHexDigit(".."[0]) && !IsHexDigit("."[0]);
  }

  lemma MfNameIsNormal()
    ensures NormalName(MF_NAME) == MF_NAME
  {
    assert !IsHexDigit(MF_NAME[0]);
  }

  /** What the source keeps of a SELECT response: an empty one is stored as None. */
  function Kept(response: Option<string>): (kept: Option<string>)
    ensures response.Some? && response.value != "" ==> kept == response
    ensures response.None? || response.value == "" ==> kept == None
  {
    if response == Some("") then None else response
  }

  /** Nothing a logical channel does changes what can be selected. */
  twostate predicate TreeKept(mf: CardFile, paths: Paths): (kept: bool)
    reads paths.Keys
    ensures kept && old(ValidTree(mf, paths)) && ValidTree(mf, paths) ==> Table(mf, paths) == old(Table(mf, paths))
  {
    forall g <- paths :: unchanged(g)
  }

  lemma BelowBareIsInBareApp(mf: CardFile, paths: Paths, fs: CardFs, f: CardFile)
    requires ValidTree(mf, paths) && Matches(paths, fs) && f in paths
    ensures BelowBare(paths, f) ==> fs.InBareApp(Place(paths, f)) && |Place(paths, f)| > 2 && f.kind != ADF
  {
    PathIsLineage(mf, paths, f);
    PlaceOfChild(mf, paths, f);
    assert |paths[f]| > 2 ==> Matching(paths, fs, paths[f][1]) && Place(paths, f)[1] == IdOf(paths[f][1]);
  }

  lemma PlaceOfBareApp(mf: CardFile, paths: Paths, f: CardFile)
    requires ValidTree(mf, paths) && f in paths && BelowBare(paths, f)
    ensures paths[f][1] in paths && Place(paths, paths[f][1]) == Place(paths, f)[..2]
  {
    PathIsLineage(mf, paths, f);
    var a := paths[f][1];
    PlaceOfChild(mf, paths, a);
    PathIsLineage(mf, paths, a);
  }

  lemma BareIfNoPick(mf: CardFile, paths: Paths, a: CardFile)
    requires ValidTree(mf, paths) && a in paths && a.kind == ADF
    ensures FirstFs(mf.applications) == null ==> IsBare(a)
  {
    assert Attached(mf, paths, a);
  }

  /** Applications are directly below the MF. */
  lemma AppIsSecond(mf: CardFile, paths: Paths, g: CardFile, i: nat)
    requires ValidTree(mf, paths) && g in paths && i < |paths[g]| && paths[g][i].kind == ADF
    ensures i == 1
  {
    var f := paths[g][i];
    PathIsLineage(mf, paths, g);
    PathIsLineage(mf, paths, f);
    PathShape(mf, paths, mf);
    assert Attached(mf, paths, f);
    LineagesAgree(mf, paths[g], paths[f], i, |paths[f]| - 1);
  }

  class RuntimeLchan {
    const mf: CardFile
    ghost const paths: Paths
    const channel: Channel
    var selectedFile: CardFile
    var selectedAdf: CardFile?
    var selectedFileFcpHex: Option<string>

    /** What every call needs and keeps, whatever the card does. */
    ghost predicate Valid()
      reads this, channel, paths.Keys
    {
      && ValidTree(mf, paths) && EscapeIsNamed(mf, paths) && Matches(paths, channel.fs) && channel.Valid()
      && selectedFile in paths
      && (selectedAdf != null ==> selectedAdf in paths && selectedAdf.kind == ADF)
      && (Trapped() ==> selectedFile == selectedAdf)
      && (selectedFile.kind == ADF && !selectedFile.hasFs ==> selectedAdf == selectedFile)
    }

    /** The last application selected has no file system, and there is one to escape to. */
    ghost predicate Trapped()
      reads this, mf
    {
      selectedAdf != null && !selectedAdf.hasFs && FirstFs(mf.applications) != null
    }

    /** The local picture is the card's: the selected file is where the card stands, with the response
        the card last gave. */
    ghost predicate Synced()
      requires selectedFile in paths
      reads this, channel
    {
      && channel.current == Place(paths, selectedFile)
      && (channel.response.Some? && channel.response.value != "" ==> selectedFileFcpHex == channel.response)
      && (channel.response.None? || channel.response.value == "" ==> selectedFileFcpHex == None)
    }

    constructor (mf: CardFile, ghost paths: Paths, channel: Channel)
      ensures this.mf == mf && this.paths == paths && this.channel == channel
      ensures selectedFile == mf && selectedAdf == null && selectedFileFcpHex == None
      ensures ValidTree(mf, paths) && EscapeIsNamed(mf, paths) && Matches(paths, channel.fs) && channel.Valid()
              ==> Valid()
      ensures Valid() && channel.current == ROOT && channel.response == None ==> Synced()
    {
      this.mf, this.paths, this.channel := mf, paths, channel;
      selectedFile, selectedAdf, selectedFileFcpHex := mf, null, None;
      new;
      if ValidTree(mf, paths) { PlaceOfChild(mf, paths, mf); }
    }

    /** `get_cwd` */
    function GetCwd(): (d: CardFile)
      requires Valid()
      reads this, channel, paths.Keys
      ensures d in paths && d.IsDir()
    {
      assert selectedFile != mf ==> Attached(mf, paths, selectedFile);
      if selectedFile.IsDir() then selectedFile else selectedFile.parent
    }

    /** `_select_post` for a file that was selected. */
    method SelectPost(file: CardFile, data: Option<string>)
      modifies this`selectedFile, this`selectedAdf, this`selectedFileFcpHex
      ensures selectedFile == file && selectedFileFcpHex == Kept(data)
      ensures selectedAdf == if file.kind == ADF then file else old(selectedAdf)
    {
      selectedFile := file;
      if file.kind == ADF { selectedAdf := file; }
      selectedFileFcpHex := Kept(data);
    }

    /** One SELECT on the card, by AID or by FID as `select_file` chooses. */
    method SelectOnCard(ghost prev: CardFile, f: CardFile) returns (answer: Option<string>)
      requires ValidTree(mf, paths) && Matches(paths, channel.fs) && channel.Valid()
      requires prev in paths && f in paths && Step(mf, prev, f)
      modifies channel
      ensures channel.Valid()
      ensures answer.Some? ==> channel.refusals == old(channel.refusals) && channel.response == answer
      ensures answer.Some? && (old(channel.current) == Place(paths, prev) || f == mf || f.kind == ADF)
              ==> channel.current == Place(paths, f)
      ensures answer.Some? && f.kind != ADF ==> !channel.fs.InBareApp(old(channel.current))
      ensures answer.Some? && f.kind == ADF ==> Place(paths, f) in channel.fs.files
      ensures answer.Some? && f.kind != ADF && IsBare(prev) ==> old(channel.current) != Place(paths, prev)
      ensures answer.None? ==> channel.current == old(channel.current) && channel.response == old(channel.response)
      ensures channel.refusals >= old(channel.refusals)
      ensures (answer.None? && Place(paths, f) in channel.fs.files &&
               (f.kind == ADF || (f == mf && old(channel.current) == ROOT) ||
                (old(channel.current) == Place(paths, prev) && !channel.fs.InBareApp(Place(paths, prev)))))
              ==> channel.refusals > old(channel.refusals)
    {
      PlaceOfChild(mf, paths, f);
      PlaceOfChild(mf, paths, prev);
      assert Matching(paths, channel.fs, prev);
      if f.kind == ADF {
        answer := channel.SelectAid(f.aid);
      } else {
        if channel.current == Place(paths, prev) { StepIsAnswered(mf, paths, channel.fs, prev, f); }
        AnswerIsPlace(channel.fs, channel.current, f.fid);
        answer := channel.SelectFid(f.fid);
      }
    }

    /** The card has no reason of its own to refuse a SELECT along the path: each file is there to be selected
        from the one before, or the path is a single SELECT that works from anywhere. */
    ghost predicate PathOpen(path: seq<CardFile>)
      requires selectedFile in paths && forall f <- path :: f in paths
      reads this, channel
    {
      || (Synced() && PathAvailable(paths, channel.fs, selectedFile, path))
      || (|path| == 1 && Place(paths, path[0]) in channel.fs.files &&
          (path[0].kind == ADF || (path[0] == mf && channel.current == ROOT)))
    }

    /** The loop of `select_file`: SELECT one file of the path after the other until one is refused.
        `last` and `data` are what the source hands to `_select_post`; `done`
        counts the SELECTs that were answered. */
    method RunSelects(path: seq<CardFile>) returns (r: Outcome, last: CardFile, data: Option<string>, ghost done: nat)
      requires ValidTree(mf, paths) && Matches(paths, channel.fs) && channel.Valid() && selectedFile in paths
      requires Walk(mf, selectedFile, path) && (forall f <- path :: f in paths)
      modifies channel
      ensures channel.Valid() && channel.refusals >= old(channel.refusals)
      ensures r.Ok? || r.SwMatch?
      ensures done <= |path| && last == (if done == 0 then selectedFile else path[done - 1])
      ensures done == 0 ==> data == selectedFileFcpHex && channel.current == old(channel.current)
      ensures r.Ok? <==> done == |path|
      ensures r.Ok? ==> channel.refusals == old(channel.refusals)
      ensures old(Synced()) || (r.Ok? && path != [] && (path[0] == mf || path[0].kind == ADF))
              ==> last in paths && channel.current == Place(paths, last) && Kept(data) == Kept(channel.response)
      ensures r.SwMatch? && old(PathOpen(path)) ==> channel.refusals > old(channel.refusals)
      ensures done > 0 && path[0].kind != ADF ==> !channel.fs.InBareApp(old(channel.current))
      ensures done > 0 && path[0].kind == ADF ==> Place(paths, path[0]) in channel.fs.files
      ensures done > 1 && path[1].kind != ADF ==> !IsBare(path[0])
      ensures done == 0 && path != [] && path[0].kind == ADF && Place(paths, path[0]) in channel.fs.files
              ==> channel.refusals > old(channel.refusals)
    {
      last, data, done := selectedFile, selectedFileFcpHex, 0;
      ghost var synced := Synced();
      r := Ok;
      for i := 0 to |path|
        invariant done == i
        invariant last == if i == 0 then selectedFile else path[i - 1]
        invariant i == 0 ==> data == selectedFileFcpHex && channel.current == old(channel.current)
        invariant channel.Valid() && channel.refusals == old(channel.refusals)
        invariant i > 0 && path[0].kind != ADF ==> !channel.fs.InBareApp(old(channel.current))
        invariant i > 0 && path[0].kind == ADF ==> Place(paths, path[0]) in channel.fs.files
        invariant i > 1 && path[1].kind != ADF ==> !IsBare(path[0])
        invariant old(Synced()) ==> synced
        invariant i > 0 && (path[0] == mf || path[0].kind == ADF) ==> synced
        invariant synced ==> channel.current == Place(paths, last) && Kept(data) == Kept(channel.response)
      {
        var f := path[i];
        assert StepAt(mf, selectedFile, path, i);
        assert i == 1 && IsBare(path[0]) ==> last == path[0] && channel.current == Place(paths, last);
        var answer := SelectOnCard(last, f);
        if answer.None? {
          r := SwMatch;
          break;
        }
        synced := synced || f == mf || f.kind == ADF;
        last, data, done := f, answer, i + 1;
      }
    }

    method WalkPath(path: seq<CardFile>) returns (r: Outcome)
      requires Valid() && path != [] && Walk(mf, selectedFile, path) && (forall f <- path :: f in paths)
      requires forall i | 0 < i < |path| :: path[i].kind != ADF
      requires Last(path).kind != ADF ==> !Trapped()
      modifies this`selectedFile, this`selectedAdf, this`selectedFileFcpHex, channel
      ensures Valid() && channel.refusals >= old(channel.refusals)
      ensures old(Synced()) ==> Synced()
      ensures r.Ok? || r.SwMatch?
      ensures r.Ok? ==> selectedFile == Last(path) && channel.refusals == old(channel.refusals)
      ensures r.Ok? ==> selectedAdf == if Last(path).kind == ADF then Last(path) else old(selectedAdf)
      ensures r.Ok? && (path[0] == mf || path[0].kind == ADF) ==> Synced()
      ensures r.SwMatch? && old(PathOpen(path)) ==> channel.refusals > old(channel.refusals)
      ensures r.Ok? && path[0].kind != ADF ==> !channel.fs.InBareApp(old(channel.current))
      ensures !r.Ok? && old(Synced()) && channel.refusals == old(channel.refusals)
              ==> (IsBare(selectedFile) <==> old(IsBare(selectedFile)) || WalksIntoBare(path))
    {
      var last, data;
      ghost var moved;
      r, last, data, moved := SelectAlong(path);
      Settle(last, data, moved);
    }

    /** The SELECTs along the path; `moved` says that the card has answered one. */
    method SelectAlong(path: seq<CardFile>)
      returns (r: Outcome, last: CardFile, data: Option<string>, ghost moved: bool)
      requires Valid() && path != [] && Walk(mf, selectedFile, path) && (forall f <- path :: f in paths)
      requires forall i | 0 < i < |path| :: path[i].kind != ADF
      requires Last(path).kind != ADF ==> !Trapped()
      modifies channel
      ensures channel.Valid() && channel.refusals >= old(channel.refusals) && last in paths
      ensures r.Ok? || r.SwMatch?
      ensures if moved then Trapped() ==> last.kind == ADF else last == selectedFile
      ensures r.Ok? ==> last == Last(path) && channel.refusals == old(channel.refusals)
      ensures old(Synced()) || (r.Ok? && (path[0] == mf || path[0].kind == ADF))
              ==> channel.current == Place(paths, last) && Kept(data) == Kept(channel.response)
      ensures r.SwMatch? && old(PathOpen(path)) ==> channel.refusals > old(channel.refusals)
      ensures r.Ok? && path[0].kind != ADF ==> !channel.fs.InBareApp(old(channel.current))
      ensures !r.Ok? && old(Synced()) && channel.refusals == old(channel.refusals)
              ==> (IsBare(last) <==> IsBare(selectedFile) || WalksIntoBare(path))
    {
      ghost var done;
      assert Trapped() ==> |path| == 1;
      if Synced() && IsBare(selectedFile) { HereIsBare(); }
      if path[0].kind == ADF { BareIfNoPick(mf, paths, path[0]); }
      r, last, data, done := RunSelects(path);
      moved := done > 0;
    }

    /** The first step of the path is into an application without a file system, and not the last. */
    ghost predicate WalksIntoBare(path: seq<CardFile>)
      requires path != [] && forall f <- path :: f in paths
    {
      |path| > 1 && IsBare(path[0]) && Place(paths, path[0]) in channel.fs.files
    }

    /** The end of `select_file`: `last` and its response are noted.  `moved` says that the card has. */
    method Settle(last: CardFile, data: Option<string>, ghost moved: bool)
      requires Valid() && last in paths && (Trapped() && moved ==> last.kind == ADF)
      requires !moved ==> last == selectedFile
      modifies this`selectedFile, this`selectedAdf, this`selectedFileFcpHex
      ensures Valid() && selectedFile == last && selectedFileFcpHex == Kept(data)
      ensures selectedAdf == if last.kind == ADF then last else old(selectedAdf)
    {
      SelectPost(last, data);
    }

    ghost predicate PickOnCard()
      requires ValidTree(mf, paths)
      reads mf, paths.Keys
    {
      var u := FirstFs(mf.applications);
      u != null && Place(paths, u) in channel.fs.files
    }

    /** Nothing keeps the source from selecting by FID: if the last application selected has no file system, the
        one picked to escape to is on the card, or there is none to pick and the card is outside. */
    ghost predicate CanLeave()
      requires ValidTree(mf, paths)
      reads this, mf, channel, paths.Keys
    {
      selectedAdf != null && !selectedAdf.hasFs ==>
        if FirstFs(mf.applications) != null then PickOnCard() else !channel.fs.InBareApp(channel.current)
    }

    /** The source knows where the card is, or need not: any file can be selected from there if the card has it. */
    ghost predicate Placed(file: CardFile)
      requires Valid() && file in paths
      reads this, channel, paths.Keys
    {
      Synced() || file.kind == ADF || (file == mf && channel.current == ROOT)
    }

    /** The card has no reason of its own to refuse `file`, wherever it stands or is believed to stand. */
    ghost predicate Answers(file: CardFile)
      requires Valid() && file in paths
      reads this, channel, paths.Keys
    {
      Available(paths, channel.fs, file) && (file.kind == ADF || CanLeave()) && Placed(file)
    }

    /** A synchronised channel that is not at an application without a file system is not inside one. */
    lemma OutsideBareApp()
      requires Valid() && Synced() && !IsBare(selectedFile)
      ensures !channel.fs.InBareApp(channel.current)
    {
      PlaceOfChild(mf, paths, selectedFile);
      assert Matching(paths, channel.fs, selectedFile);
      var at := channel.current;
      assert selectedFile != mf ==> at[|at| - 1] == IdOf(selectedFile);
    }

    /** An application without a file system, selected on a synchronised channel. */
    lemma HereIsBare()
      requires Valid() && Synced() && IsBare(selectedFile)
      ensures channel.fs.InBareApp(channel.current) && selectedAdf == selectedFile
    {
      PlaceOfChild(mf, paths, selectedFile);
      assert Matching(paths, channel.fs, selectedFile);
    }

    /** On a synchronised channel nothing keeps the source from selecting by FID, unless an application without a
        file system is selected and the card lacks the one picked. */
    lemma CanLeaveIff()
      requires Valid() && Synced()
      ensures CanLeave() <==> PickOnCard() || !IsBare(selectedFile)
    {
      if IsBare(selectedFile) { HereIsBare(); } else { OutsideBareApp(); }
    }

    /** The search of `select_file` for an application with a file system. */
    method FsApp() returns (u: CardFile?)
      ensures u == FirstFs(mf.applications)
    {
      var apps := mf.applications;
      for i := 0 to |apps|
        invariant FirstFs(apps) == FirstFs(apps[i..])
      {
        if apps[i].hasFs { return apps[i]; }
        assert apps[i..][1..] == apps[i + 1..];
      }
      u := null;
    }

    /** The card is where `probe_file` enters the file: directly below the selected one. */
    ghost predicate ProbedWhereEntered(fid: string)
      requires selectedFile in paths
      reads this, channel
    {
      channel.current == Place(paths, selectedFile) + [Id.Fid(fid)]
    }

    method ProbeFile(fid: string) returns (r: Outcome)
      requires channel.Valid()
      modifies channel
      ensures channel.Valid() && channel.refusals >= old(channel.refusals)
      ensures r.BadName? <==> !IsHex(fid, 4, 4)
      ensures r.BadName? ==> unchanged(channel)
      ensures r.SwMatch? ==> channel.current == old(channel.current) && channel.response == old(channel.response)
      ensures r.SwMatch? && old(channel.fs.Answer(channel.current, fid)).Some?
              ==> channel.refusals > old(channel.refusals)
      ensures r.Discovered? ==> old(channel.fs.Answer(channel.current, fid)) == Some(channel.current)
      ensures r.Discovered? && old(Valid() && Synced()) && selectedFile.IsDir()
              ==> (ProbedWhereEntered(fid) <==> Place(paths, selectedFile) + [Id.Fid(fid)] in channel.fs.files)
      ensures !r.Ok?
    {
      if !IsHex(fid, 4, 4) { return BadName; }
      if Valid() && Synced() && selectedFile.IsDir() && channel.fs.Answer(channel.current, fid).Some? {
        assert Matching(paths, channel.fs, selectedFile);
        ProbedFileIsChild(channel.fs, channel.current, fid);
      }
      var answer := channel.SelectFid(fid);
      r := if answer.Some? then Discovered else SwMatch;
    }

    /** The application selected last once `file` has been selected: `file` itself, or the one picked to escape to, or
        the same as before. */
    function AdfAfter(file: CardFile): CardFile?
      reads this, mf
    {
      var u := FirstFs(mf.applications);
      if file.kind == ADF then file
      else if selectedAdf != null && !selectedAdf.hasFs && u != null then u
      else selectedAdf
    }

    method SelectFile(file: CardFile) returns (r: Outcome)
      requires Valid() && file in paths
      modifies this`selectedFile, this`selectedAdf, this`selectedFileFcpHex, channel
      ensures Valid() && channel.refusals >= old(channel.refusals)
      ensures old(Synced()) ==> Synced()
      ensures r.Ok? || r.SwMatch?
      ensures r.Ok? ==> selectedFile == file && channel.refusals == old(channel.refusals)
      ensures r.Ok? ==> selectedAdf == old(AdfAfter(file))
      ensures r.Ok? && (file == mf || file.kind == ADF) ==> Synced()
      ensures old(Placed(file))
              ==> (r.Ok? <==> old(Answers(file)) && channel.refusals == old(channel.refusals))
      ensures !r.Ok? && old(Synced()) && channel.refusals == old(channel.refusals) && !PickOnCard()
              ==> (IsBare(selectedFile) <==> old(IsBare(selectedFile)) || EntersBare(paths, channel.fs, file))
      decreases if file.kind == ADF then 0 else 3, 0
    {
      if file.kind != ADF && selectedAdf != null && !selectedAdf.hasFs {
        var u := FsApp();
        if u != null {
          r := Escape(u);
          if !r.Ok? { return; }
        }
      }
      r := Approach(file);
    }

    /** The rest of `select_file`, once nothing keeps it from selecting by FID. */
    method Approach(file: CardFile) returns (r: Outcome)
      requires Valid() && file in paths && (file.kind != ADF ==> !Trapped())
      modifies this`selectedFile, this`selectedAdf, this`selectedFileFcpHex, channel
      ensures Valid() && channel.refusals >= old(channel.refusals)
      ensures old(Synced()) ==> Synced()
      ensures r.Ok? || r.SwMatch?
      ensures r.Ok? ==> selectedFile == file && channel.refusals == old(channel.refusals)
      ensures r.Ok? ==> selectedAdf == if file.kind == ADF then file else old(selectedAdf)
      ensures r.Ok? && (file == mf || file.kind == ADF) ==> Synced()
      ensures old(Placed(file))
              ==> (r.Ok? <==> old(Answers(file)) && channel.refusals == old(channel.refusals))
      ensures !r.Ok? && old(Synced()) && channel.refusals == old(channel.refusals) && !PickOnCard()
              ==> (IsBare(selectedFile) <==> old(IsBare(selectedFile)) || EntersBare(paths, channel.fs, file))
    {
      var path := BuildSelectPathTo(mf, paths, selectedFile, file);
      PathToWalk(file);
      PathForFile(file);
      r := WalkPath(path.value);
      if r.Ok? && Synced() { HereAnswers(); }
    }

    /** What is to be known of the path before it is walked. */
    lemma PathForFile(file: CardFile)
      requires Valid() && file in paths && (file.kind != ADF ==> !Trapped())
      ensures var path := SelectPath(mf, paths, selectedFile, file);
              && path != [] && (forall f <- path :: f in paths)
              && (Answers(file) ==> PathOpen(path))
              && ((Synced() && file.kind != ADF && Available(paths, channel.fs, file) &&
                   FirstFs(mf.applications) == null) ==> path[0].kind != ADF)
              && (Synced() && !IsBare(selectedFile) ==> (WalksIntoBare(path) <==> EntersBare(paths, channel.fs, file)))
    {
      PathToWalk(file);
      if Synced() {
        if Answers(file) { PathIsOpen(file); }
        if file.kind != ADF { NothingBareOnTheWay(file); }
        if !IsBare(selectedFile) { WalkEntersBare(file); }
      }
    }

    /** Where no application has a file system, no path to an available file leads into one. */
    lemma NothingBareOnTheWay(file: CardFile)
      requires Valid() && Synced() && file in paths && file.kind != ADF
      ensures var path := SelectPath(mf, paths, selectedFile, file);
              path != [] && (Available(paths, channel.fs, file) && FirstFs(mf.applications) == null
                             ==> path[0].kind != ADF)
    {
      PathToWalk(file);
      PathEntersBareApp(file);
      BelowBareIsInBareApp(mf, paths, channel.fs, file);
      var f := SelectPath(mf, paths, selectedFile, file)[0];
      if f.kind == ADF { BareIfNoPick(mf, paths, f); }
    }

    lemma PathToWalk(file: CardFile)
      requires Valid() && file in paths
      ensures var path := SelectPath(mf, paths, selectedFile, file);
              && path != [] && Walk(mf, selectedFile, path) && (forall f <- path :: f in paths) && Last(path) == file
              && (forall i | 0 < i < |path| :: path[i].kind != ADF)
              && (file == mf || file.kind == ADF ==> path == [file])
    {
      SelectPathIsWalk(mf, paths, selectedFile, file);
      SelectPathElements(mf, paths, selectedFile, file);
    }

    /** A path enters an application without a file system only for that application or what is below it. */
    lemma PathEntersBareApp(file: CardFile)
      requires Valid() && Synced() && file in paths
      ensures var path := SelectPath(mf, paths, selectedFile, file);
              path != [] && (IsBare(path[0]) ==> path == [file] || BelowBare(paths, file))
    {
      PathToWalk(file);
      SelectPathElements(mf, paths, selectedFile, file);
      NotBelowBare();
      var p, q := Init(paths[selectedFile]), paths[file];
      forall f | f in p ensures !IsBare(f) {
        var i :| 0 <= i < |p| && p[i] == f;
        if IsBare(f) { AppIsSecond(mf, paths, selectedFile, i); }
      }
      forall f | f in q && IsBare(f) ensures |q| >= 2 && q[1] == f {
        var i :| 0 <= i < |q| && q[i] == f;
        AppIsSecond(mf, paths, file, i);
      }
      PathShape(mf, paths, file);
    }

    /** From elsewhere the path to a file inside an application without a file system starts with that application. */
    /** From elsewhere the path to a file inside an application without a file system starts with that application. */
    lemma EntersThroughApp(file: CardFile)
      requires Valid() && Synced() && file in paths && BelowBare(paths, file) && selectedFile != paths[file][1]
      ensures file != mf && paths[file] != [] && CommonLen(paths[selectedFile], Init(paths[file])) > 0
      ensures var path := SelectPath(mf, paths, selectedFile, file); path != [] && path[0] == paths[file][1]
    {
      var p, q := paths[selectedFile], paths[file];
      RootIsShared(mf, paths, selectedFile, file);
      PathShape(mf, paths, file);
      AppIsNotShared(file);
      forall i | 2 <= i < |q| ensures q[i].kind != ADF {
        if q[i].kind == ADF { AppIsSecond(mf, paths, file, i); }
      }
      ClipAtSecond(p, q);
    }

    /** So a failing walk goes through that application exactly if the card holds it. */
    lemma WalkEntersBare(file: CardFile)
      requires Valid() && Synced() && file in paths && !IsBare(selectedFile)
      ensures var path := SelectPath(mf, paths, selectedFile, file);
              && path != [] && (forall f <- path :: f in paths)
              && (WalksIntoBare(path) <==> EntersBare(paths, channel.fs, file))
    {
      PathToWalk(file);
      PathEntersBareApp(file);
      if BelowBare(paths, file) {
        EntersThroughApp(file);
        BelowBareIsInBareApp(mf, paths, channel.fs, file);
        PlaceOfBareApp(mf, paths, file);
      }
    }

    lemma AppIsNotShared(file: CardFile)
      requires Valid() && Synced() && file in paths && BelowBare(paths, file) && selectedFile != paths[file][1]
      ensures CommonLen(paths[selectedFile], Init(paths[file])) <= 1
    {
      var p, q := paths[selectedFile], paths[file];
      NotBelowBare();
      PathShape(mf, paths, selectedFile);
    }

    lemma NotBelowBare()
      requires Valid() && Synced()
      ensures !BelowBare(paths, selectedFile)
    {
      BelowBareIsInBareApp(mf, paths, channel.fs, selectedFile);
    }

    lemma PathIsOpen(file: CardFile)
      requires Valid() && Synced() && file in paths && Available(paths, channel.fs, file)
      requires file.kind == ADF || CanLeave()
      requires file.kind != ADF ==> !Trapped()
      ensures var path := SelectPath(mf, paths, selectedFile, file);
              (forall f <- path :: f in paths) && PathAvailable(paths, channel.fs, selectedFile, path)
    {
      SelectPathIsWalk(mf, paths, selectedFile, file);
      SelectPathIsAvailable(mf, paths, channel.fs, selectedFile, file);
      if file.kind != ADF { NotInBareApp(); }
    }

    /** Nothing keeps an untrapped, synchronised channel from selecting by FID. */
    lemma NotInBareApp()
      requires Valid() && Synced() && CanLeave() && !Trapped()
      ensures !channel.fs.InBareApp(Place(paths, selectedFile))
    {
      if !IsBare(selectedFile) { OutsideBareApp(); }
    }

    /** Leaving an application without a file system for one that has one. */
    method Escape(u: CardFile) returns (r: Outcome)
      requires Valid() && Trapped() && u == FirstFs(mf.applications)
      modifies this`selectedFile, this`selectedAdf, this`selectedFileFcpHex, channel
      ensures Valid() && channel.refusals >= old(channel.refusals)
      ensures old(Synced()) ==> Synced()
      ensures r.Ok? || r.SwMatch?
      ensures r.Ok? ==> selectedFile == selectedAdf == u && !Trapped() && Synced() &&
                        channel.refusals == old(channel.refusals)
      ensures r.Ok? <==> old(PickOnCard()) && channel.refusals == old(channel.refusals)
      ensures !r.Ok? && old(Synced()) && channel.refusals == old(channel.refusals)
              ==> selectedFile == old(selectedFile)
      decreases 2
    {
      assert NamedFrom(mf, paths, selectedFile);
      r := SelectOne(u.name);
    }

    /** The file a single name means from here. */
    function Meaning(name: string): (f: Option<CardFile>)
      requires Valid()
      reads this, channel, paths.Keys
      ensures f.Some? ==> f.value in paths
    {
      var sels := Selectables(mf, paths, selectedFile);
      if NormalName(name) in sels then Some(sels[NormalName(name)]) else None
    }

    /** If selecting `target` fails, there is a way back: to an application always, and to any other file unless
        the attempt ends in an application without a file system that cannot be left. */
    ghost predicate Returns(target: Option<CardFile>)
      requires ValidTree(mf, paths) && (target.Some? ==> target.value in paths)
      reads this, mf, paths.Keys
    {
      PickOnCard() || selectedFile.kind == ADF || target.None? || !EntersBare(paths, channel.fs, target.value)
    }

    /** `select` for a single name. */
    method SelectOne(name: string) returns (r: Outcome)
      requires Valid() && '/' !in name
      modifies this`selectedFile, this`selectedAdf, this`selectedFileFcpHex, channel
      ensures Valid() && channel.refusals >= old(channel.refusals)
      ensures old(Synced()) && !r.Discovered? ==> Synced()
      ensures old(Meaning(name)).Some? ==> r.Ok? || r.SwMatch?
      ensures r.Ok? ==> old(Meaning(name)) == Some(selectedFile) && channel.refusals == old(channel.refusals)
      ensures r.Ok? ==> selectedAdf == old(AdfAfter(Meaning(name).value))
      ensures r.Ok? && (selectedFile == mf || selectedFile.kind == ADF) ==> Synced()
      ensures !r.Ok? && !r.Discovered? && old(Synced()) && channel.refusals == old(channel.refusals)
              ==> if old(Returns(Meaning(name))) then selectedFile == old(selectedFile) else IsBare(selectedFile)
      ensures old(Meaning(name).Some? && Placed(Meaning(name).value))
              ==> (r.Ok? <==> old(Answers(Meaning(name).value)) && channel.refusals == old(channel.refusals))
      ensures r.Discovered? ==> old(Meaning(name)) == None && selectedFile == old(selectedFile) &&
                                old(channel.fs.Answer(channel.current, NormalName(name))) == Some(channel.current)
      ensures (!r.Discovered? && old(Meaning(name)) == None && IsHex(NormalName(name), 4, 4) &&
               old(channel.fs.Answer(channel.current, NormalName(name))).Some?)
              ==> channel.refusals > old(channel.refusals)
      decreases if selectedFile.kind == ADF && Meaning(name).Some? && Meaning(name).value.kind == ADF then 1 else 4, 1
    {
      r := SelectMeaning(Meaning(name), NormalName(name));
    }

    /** `select` for a single name, once looked up. */
    method SelectMeaning(target: Option<CardFile>, name: string) returns (r: Outcome)
      requires Valid() && (target.Some? ==> target.value in paths)
      modifies this`selectedFile, this`selectedAdf, this`selectedFileFcpHex, channel
      ensures Valid() && channel.refusals >= old(channel.refusals)
      ensures old(Synced()) && !r.Discovered? ==> Synced()
      ensures target.Some? ==> r.Ok? || r.SwMatch?
      ensures r.Ok? ==> target == Some(selectedFile) && channel.refusals == old(channel.refusals)
      ensures r.Ok? ==> selectedAdf == old(AdfAfter(target.value))
      ensures r.Ok? && (selectedFile == mf || selectedFile.kind == ADF) ==> Synced()
      ensures !r.Ok? && !r.Discovered? && old(Synced()) && channel.refusals == old(channel.refusals)
              ==> if old(Returns(target)) then selectedFile == old(selectedFile) else IsBare(selectedFile)
      ensures target.Some? && old(Placed(target.value))
              ==> (r.Ok? <==> old(Answers(target.value)) && channel.refusals == old(channel.refusals))
      ensures r.Discovered? ==> target == None && selectedFile == old(selectedFile) &&
                                old(channel.fs.Answer(channel.current, name)) == Some(channel.current)
      ensures (!r.Discovered? && target == None && IsHex(name, 4, 4) &&
               old(channel.fs.Answer(channel.current, name)).Some?) ==> channel.refusals > old(channel.refusals)
      decreases if selectedFile.kind == ADF && target.Some? && target.value.kind == ADF then 1 else 4, 0
    {
      var prev := selectedFile;
      if Synced() { HereAnswers(); }
      ghost var pick, back := PickOnCard(), Synced() && Returns(target);
      r := Attempt(target, name);
      if !r.Ok? && !r.Discovered? {
        if Synced() { CanLeaveIff(); }
        assert pick == PickOnCard() && (back && channel.refusals == old(channel.refusals) ==> Answers(prev));
        r := GoBack(prev, r);
      }
    }

    /** The part of `select` that may raise. */
    method Attempt(target: Option<CardFile>, name: string) returns (r: Outcome)
      requires Valid() && (target.Some? ==> target.value in paths)
      modifies this`selectedFile, this`selectedAdf, this`selectedFileFcpHex, channel
      ensures Valid() && channel.refusals >= old(channel.refusals)
      ensures old(Synced()) && !r.Discovered? ==> Synced()
      ensures target.Some? ==> r.Ok? || r.SwMatch?
      ensures r.Ok? ==> target == Some(selectedFile) && channel.refusals == old(channel.refusals)
      ensures r.Ok? ==> selectedAdf == old(AdfAfter(target.value))
      ensures r.Ok? && (selectedFile == mf || selectedFile.kind == ADF) ==> Synced()
      ensures !r.Ok? && !r.Discovered? && old(Synced()) && channel.refusals == old(channel.refusals) && !PickOnCard()
              ==> (IsBare(selectedFile) <==>
                   old(IsBare(selectedFile)) || (target.Some? && EntersBare(paths, channel.fs, target.value)))
      ensures target.Some? && old(Placed(target.value))
              ==> (r.Ok? <==> old(Answers(target.value)) && channel.refusals == old(channel.refusals))
      ensures r.Discovered? ==> target == None && selectedFile == old(selectedFile) &&
                                old(channel.fs.Answer(channel.current, name)) == Some(channel.current)
      ensures (!r.Discovered? && target == None && IsHex(name, 4, 4) &&
               old(channel.fs.Answer(channel.current, name)).Some?) ==> channel.refusals > old(channel.refusals)
      decreases if target.Some? && target.value.kind == ADF then 0 else 3, 1
    {
      if target.Some? {
        r := SelectFile(target.value);
      } else {
        r := ProbeFile(name);
      }
    }

    /** The file a synchronised channel is at can be selected again. */
    lemma HereAnswers()
      requires Valid() && Synced()
      ensures Answers(selectedFile)
    {
      CanLeaveIff();
      if !IsBare(selectedFile) { OutsideBareApp(); }
    }

    /** The exception handlers of `select`: back to where the call began, then raise again. */
    method GoBack(prev: CardFile, error: Outcome) returns (r: Outcome)
      requires Valid() && prev in paths && (error.SwMatch? || error.BadName?)
      modifies this`selectedFile, this`selectedAdf, this`selectedFileFcpHex, channel
      ensures Valid() && channel.refusals >= old(channel.refusals)
      ensures old(Synced()) ==> Synced()
      ensures r == error || r.SwMatch?
      ensures old(Synced()) && Available(paths, channel.fs, prev) && channel.refusals == old(channel.refusals)
              ==> if old(Answers(prev)) then selectedFile == prev else IsBare(selectedFile)
      decreases if prev.kind == ADF then 0 else 3, 1
    {
      if Synced() { CanLeaveIff(); }
      r := SelectFile(prev);
      if r.Ok? { r := error; }
    }

    /** The loop of `select` over the elements of a path string. */
    method SelectEach(names: seq<string>, ghost table: map<CardFile, Dict>, ghost keys: seq<string>,
                      ghost goal: Option<CardFile>, ghost synced: bool, ghost open: bool, ghost stuck: bool)
      returns (r: Outcome)
      requires Valid() && |keys| == |names| && forall i | 0 <= i < |names| :: IsKeyOf(names[i], keys[i])
      requires Midway(table, keys, 0, goal, synced, open, stuck)
      modifies this`selectedFile, this`selectedAdf, this`selectedFileFcpHex, channel
      ensures Valid() && channel.refusals >= old(channel.refusals)
      ensures synced && !r.Discovered? ==> Synced()
      ensures r.Ok? ==> channel.refusals == old(channel.refusals)
      ensures r.Ok? ==> Midway(table, keys, |keys|, goal, synced, open, stuck)
      ensures !r.Ok? && synced && open ==> channel.refusals > old(channel.refusals)
      ensures !r.Ok? && !r.Discovered? && synced && channel.refusals == old(channel.refusals) && !PickOnCard()
              ==> (IsBare(selectedFile) <==> stuck)
      decreases 5, 0
    {
      r := Ok;
      for i := 0 to |names|
        invariant Valid() && r.Ok? && channel.refusals == old(channel.refusals)
        invariant Midway(table, keys, i, goal, synced, open, stuck)
      {
        r := SelectStep(names[i], table, keys, i, goal, synced, open, stuck);
        if !r.Ok? { return; }
      }
    }

    /** `key` is what the source looks up for a name. */
    predicate IsKeyOf(name: string, key: string) {
      '/' !in name && key == NormalName(name)
    }

    /** What remains of the names leads to the same end as all of them did. */
    ghost predicate Midway(table: map<CardFile, Dict>, keys: seq<string>, i: nat, goal: Option<CardFile>, synced: bool,
                           open: bool, stuck: bool)
      requires Valid() && i <= |keys|
      reads this, channel, paths.Keys
    {
      && IsTable(mf, paths, table) && Follow(table, selectedFile, keys[i..]) == goal
      && (synced ==> Synced() && OpenFrom(table, keys[i..]) == open && StuckFrom(table, keys[i..]) == stuck)
    }

    lemma AllSelected(table: map<CardFile, Dict>, keys: seq<string>, goal: Option<CardFile>, synced: bool, open: bool,
                      stuck: bool)
      requires Valid() && Midway(table, keys, |keys|, goal, synced, open, stuck)
      ensures goal == Some(selectedFile) && (synced ==> open)
    {
    }

    method SelectStep(name: string, ghost table: map<CardFile, Dict>, ghost keys: seq<string>, ghost i: nat,
                      ghost goal: Option<CardFile>, ghost synced: bool, ghost open: bool, ghost stuck: bool)
      returns (r: Outcome)
      requires Valid() && i < |keys| && IsKeyOf(name, keys[i])
      requires Midway(table, keys, i, goal, synced, open, stuck)
      modifies this`selectedFile, this`selectedAdf, this`selectedFileFcpHex, channel
      ensures Valid() && channel.refusals >= old(channel.refusals)
      ensures synced && !r.Discovered? ==> Synced()
      ensures r.Ok? ==> channel.refusals == old(channel.refusals)
      ensures r.Ok? ==> Midway(table, keys, i + 1, goal, synced, open, stuck)
      ensures !r.Ok? && synced && open ==> channel.refusals > old(channel.refusals)
      ensures !r.Ok? && !r.Discovered? && synced && channel.refusals == old(channel.refusals) && !PickOnCard()
              ==> (IsBare(selectedFile) <==> stuck)
      decreases 4, 3
    {
      TableIff(mf, paths, table);
      NextKey(table, paths, channel.fs, PickOnCard(), selectedFile, keys, i);
      r := SelectNext(name, table);
      TableIff(mf, paths, table);
    }

    /** The card has no reason of its own to stop a path of these names from here. */
    ghost predicate OpenFrom(table: map<CardFile, Dict>, keys: seq<string>)
      requires ValidTree(mf, paths)
      reads this, mf, channel, paths.Keys
    {
      WayOpen(table, paths, channel.fs, PickOnCard(), selectedFile, keys)
    }

    /** A path of these names stops in an application without a file system, if the card refuses nothing. */
    ghost predicate StuckFrom(table: map<CardFile, Dict>, keys: seq<string>)
      requires ValidTree(mf, paths)
      reads this, mf, channel, paths.Keys
    {
      StopsBare(table, paths, channel.fs, PickOnCard(), selectedFile, keys)
    }

    /** One of the names of a path. */
    method SelectNext(name: string, ghost table: map<CardFile, Dict>) returns (r: Outcome)
      requires Valid() && '/' !in name && table == Table(mf, paths)
      modifies this`selectedFile, this`selectedAdf, this`selectedFileFcpHex, channel
      ensures Valid() && channel.refusals >= old(channel.refusals) && table == Table(mf, paths)
      ensures PickOnCard() == old(PickOnCard())
      ensures old(Synced()) && !r.Discovered? ==> Synced()
      ensures r.Ok? ==> channel.refusals == old(channel.refusals)
      ensures var d, k := table[old(selectedFile)], NormalName(name);
              && (k in d ==> d[k] in paths) && (r.Ok? ==> k in d && selectedFile == d[k])
              && (old(Synced()) ==>
                    (r.Ok? <==> channel.refusals == old(channel.refusals) && k in d &&
                                StepOpen(paths, channel.fs, PickOnCard(), old(selectedFile), d[k])))
              && (!r.Ok? && !r.Discovered? && old(Synced()) && channel.refusals == old(channel.refusals) &&
                  !PickOnCard() ==>
                    (IsBare(selectedFile) <==>
                     StaysBare(paths, channel.fs, old(selectedFile), if k in d then Some(d[k]) else None)))
      decreases 4, 2
    {
      ghost var target := Meaning(name);
      if Synced() { CanLeaveIff(); }
      r := SelectOne(name);
      assert TreeKept(mf, paths);
    }

    /** If selecting the names one after the other fails, there is a way back, as for `Returns`. */
    ghost predicate WayBack(names: seq<string>)
      requires ValidTree(mf, paths)
      reads this, mf, channel, paths.Keys
    {
      PickOnCard() || selectedFile.kind == ADF || !StuckFrom(Table(mf, paths), NormalNames(names))
    }

    method Select(name: string) returns (r: Outcome)
      requires Valid()
      modifies this`selectedFile, this`selectedAdf, this`selectedFileFcpHex, channel
      ensures Valid() && channel.refusals >= old(channel.refusals)
      ensures old(Synced()) && !r.Discovered? ==> Synced()
      ensures r.Ok? ==> channel.refusals == old(channel.refusals)
      ensures r.Ok? ==> old(Resolve(mf, paths, selectedFile, NormalNames(PathList(name)))) == Some(selectedFile)
      ensures r.Ok? && '/' !in name && (selectedFile == mf || selectedFile.kind == ADF) ==> Synced()
      ensures old(Synced()) ==>
                (r.Ok? <==> old(OpenFrom(Table(mf, paths), NormalNames(PathList(name)))) &&
                            channel.refusals == old(channel.refusals))
      ensures !r.Ok? && !r.Discovered? && old(Synced()) && channel.refusals == old(channel.refusals)
              ==> if old(WayBack(PathList(name))) then selectedFile == old(selectedFile) else IsBare(selectedFile)
      decreases 6
    {
      if '/' in name {
        var prev := selectedFile;
        if Synced() { HereAnswers(); }
        r := SelectAll(PathList(name));
        if !r.Ok? && !r.Discovered? {
          if Synced() { CanLeaveIff(); }
          r := GoBack(prev, r);
        }
      } else {
        OneName(name);
        r := SelectOne(name);
      }
    }

    /** All the names of a path, from what is selected now. */
    method SelectAll(names: seq<string>) returns (r: Outcome)
      requires Valid() && forall p <- names :: '/' !in p
      modifies this`selectedFile, this`selectedAdf, this`selectedFileFcpHex, channel
      ensures Valid() && channel.refusals >= old(channel.refusals) && PickOnCard() == old(PickOnCard())
      ensures old(Synced()) && !r.Discovered? ==> Synced()
      ensures r.Ok? ==> channel.refusals == old(channel.refusals)
      ensures r.Ok? ==> old(Resolve(mf, paths, selectedFile, NormalNames(names))) == Some(selectedFile)
      ensures old(Synced()) ==>
                (r.Ok? <==> old(OpenFrom(Table(mf, paths), NormalNames(names))) &&
                            channel.refusals == old(channel.refusals))
      ensures !r.Ok? && !r.Discovered? && old(Synced()) && channel.refusals == old(channel.refusals) && !PickOnCard()
              ==> (IsBare(selectedFile) <==> old(StuckFrom(Table(mf, paths), NormalNames(names))))
      decreases 5, 1
    {
      ghost var table, keys := Table(mf, paths), NormalNames(names);
      ghost var goal := Resolve(mf, paths, selectedFile, keys);
      ghost var synced, open, stuck := Synced(), OpenFrom(table, keys), StuckFrom(table, keys);
      NothingSelected(table, keys);
      r := SelectEach(names, table, keys, goal, synced, open, stuck);
      if r.Ok? { AllSelected(table, keys, goal, synced, open, stuck); }
    }

    lemma NothingSelected(table: map<CardFile, Dict>, keys: seq<string>)
      requires Valid() && table == Table(mf, paths)
      ensures Midway(table, keys, 0, Resolve(mf, paths, selectedFile, keys), Synced(), OpenFrom(table, keys),
                     StuckFrom(table, keys))
    {
      ResolvedInTable(mf, paths, table, selectedFile, keys);
      TableIff(mf, paths, table);
      assert keys[0..] == keys;
    }

    /** `select('..')` goes to the directory above, under the same conditions as any other file; above the MF there is
        none. */
    method SelectUp() returns (r: Outcome)
      requires Valid() && Meanings.NoDots(mf)
      modifies this`selectedFile, this`selectedAdf, this`selectedFileFcpHex, channel
      ensures Valid() && channel.refusals >= old(channel.refusals)
      ensures r.Ok? ==> old(selectedFile) != mf && selectedFile == old(selectedFile.parent)
      ensures old(Synced() && selectedFile != mf)
              ==> (r.Ok? <==> old(Answers(Above())) && channel.refusals == old(channel.refusals))
    {
      DotsMean();
      OneName("..");
      r := Select("..");
    }

    function Above(): (d: CardFile)
      requires Valid()
      reads this, channel, paths.Keys
      ensures d in paths && (selectedFile != mf ==> d == selectedFile.parent)
    {
      assert selectedFile != mf ==> Attached(mf, paths, selectedFile);
      if selectedFile == mf then mf else selectedFile.parent
    }

    lemma DotsMean()
      requires Valid() && Meanings.NoDots(mf)
      ensures Meaning("..") == (if selectedFile == mf then None else Some(Above())) && '/' !in ".."
      ensures Meaning(".") == Some(selectedFile) && '/' !in "."
    {
      Meanings.DotsMean(mf, paths, selectedFile);
      DotsAreNormal();
    }

    /** A path of one name is that name. */
    lemma OneName(name: string)
      requires Valid() && '/' !in name
      ensures Resolve(mf, paths, selectedFile, NormalNames(PathList(name))) == Meaning(name)
      ensures Synced() ==>
                (OpenFrom(Table(mf, paths), NormalNames(PathList(name))) <==>
                 Meaning(name).Some? && Answers(Meaning(name).value))
      ensures Synced() && !OpenFrom(Table(mf, paths), NormalNames(PathList(name)))
              ==> (WayBack(PathList(name)) <==> Returns(Meaning(name)))
    {
      var k := NormalName(name);
      assert NormalNames(PathList(name)) == [k];
      OneKey(Table(mf, paths), paths, channel.fs, PickOnCard(), selectedFile, k);
      if Synced() { CanLeaveIff(); }
    }

    /** Any run of `select` and `select_file` calls on a synchronised channel, with any refusals: unless a run
        ends with an accepted probe, the channel stays synchronised, whether its calls return or raise. */
    method Session(requests: seq<Request>) returns (outcomes: seq<Outcome>)
      requires Valid() && Synced() && forall q <- requests :: q.ByFile? ==> q.file in paths
      modifies this`selectedFile, this`selectedAdf, this`selectedFileFcpHex, channel
      ensures Valid() && channel.refusals >= old(channel.refusals)
      ensures Discovered !in outcomes ==> Synced() && |outcomes| == |requests|
      ensures Discovered in outcomes ==> Last(outcomes) == Discovered
      ensures |outcomes| <= |requests|
    {
      outcomes := [];
      for i := 0 to |requests|
        invariant Valid() && Synced() && channel.refusals >= old(channel.refusals)
        invariant |outcomes| == i && Discovered !in outcomes
      {
        var r := Serve(requests[i]);
        outcomes := outcomes + [r];
        if r.Discovered? { return; }
      }
    }

    method Serve(q: Request) returns (r: Outcome)
      requires Valid() && Synced() && (q.ByFile? ==> q.file in paths)
      modifies this`selectedFile, this`selectedAdf, this`selectedFileFcpHex, channel
      ensures Valid() && channel.refusals >= old(channel.refusals)
      ensures !r.Discovered? ==> Synced()
    {
      match q
      case ByName(name) => r := Select(name);
      case ByFile(file) => r := SelectFile(file);
    }

    /** A reset leads back to the MF: the application selected last has a file system, or the one picked to escape
        to is on the card, or there is none to pick. */
    ghost predicate CanRestart()
      requires ValidTree(mf, paths)
      reads this, mf, paths.Keys
    {
      Trapped() ==> PickOnCard()
    }

    /** What `reset` does to the basic channel. */
    method Restart() returns (r: Outcome)
      requires Valid() && Unambiguous(mf, paths)
      modifies this`selectedFile, this`selectedAdf, this`selectedFileFcpHex, channel
      ensures Valid() && channel.refusals >= old(channel.refusals)
      ensures r.Ok? ==> Synced() && selectedFile == mf && selectedAdf == null
      ensures r.Ok? <==> old(CanRestart()) && channel.refusals == old(channel.refusals)
    {
      channel.Reset();
      r := SelectMf();
      if r.Ok? { LeaveApplications(); }
    }

    /** `select('MF')` on a card that has just been reset. */
    method SelectMf() returns (r: Outcome)
      requires Valid() && Unambiguous(mf, paths) && channel.current == ROOT
      modifies this`selectedFile, this`selectedAdf, this`selectedFileFcpHex, channel
      ensures Valid() && channel.refusals >= old(channel.refusals)
      ensures r.Ok? ==> Synced() && selectedFile == mf
      ensures r.Ok? <==> old(CanRestart()) && channel.refusals == old(channel.refusals)
    {
      MfMeansMf();
      r := SelectOne(MF_NAME);
    }

    method LeaveApplications()
      requires Valid() && selectedFile == mf
      modifies this`selectedAdf
      ensures Valid() && selectedAdf == null
    {
      selectedAdf := null;
    }

    /** On a card that has just been reset, `MF` means the MF and can be selected. */
    lemma MfMeansMf()
      requires Valid() && Unambiguous(mf, paths) && channel.current == ROOT
      ensures Meaning(MF_NAME) == Some(mf) && '/' !in MF_NAME
      ensures Placed(mf) && (CanRestart() <==> Answers(mf))
    {
      MfNameIsNormal();
      MfIsSelectable(mf, paths, selectedFile, MF_NAME);
      PlaceOfChild(mf, paths, mf);
    }

    /** A new channel opened from one other than the basic channel starts in its directory. */
    method StartFrom(opener: RuntimeLchan)
      requires opener.Valid() && opener.Synced() && opener.mf == mf && opener.paths == paths
      requires channel.Valid() && channel.fs == opener.channel.fs && channel.response == None
      requires channel.current == channel.fs.CurrentDir(opener.channel.current)
      requires selectedFileFcpHex == None
      modifies this`selectedFile, this`selectedAdf
      ensures Valid() && Synced() && selectedAdf == old(opener.selectedAdf) && selectedFile == old(opener.GetCwd())
    {
      CwdIsCurrentDir(opener);
      var cwd := opener.GetCwd();
      selectedAdf := opener.selectedAdf;
      selectedFile := cwd;
    }
  }

  function NormalNames(names: seq<string>): (r: seq<string>)
    ensures |r| == |names| && forall i | 0 <= i < |r| :: r[i] == NormalName(names[i])
  {
    seq(|names|, i requires 0 <= i < |names| => NormalName(names[i]))
  }

  lemma NextKey(table: map<CardFile, Dict>, paths: Paths, fs: CardFs, pick: bool, f: CardFile, keys: seq<string>,
                i: nat)
    requires i < |keys| && f in table
    ensures keys[i] in table[f] ==> Follow(table, f, keys[i..]) == Follow(table, table[f][keys[i]], keys[i + 1..])
    ensures WayOpen(table, paths, fs, pick, f, keys[i..]) <==>
              && keys[i] in table[f] && StepOpen(paths, fs, pick, f, table[f][keys[i]])
              && WayOpen(table, paths, fs, pick, table[f][keys[i]], keys[i + 1..])
    ensures StopsBare(table, paths, fs, pick, f, keys[i..]) ==
              if keys[i] in table[f] && StepOpen(paths, fs, pick, f, table[f][keys[i]])
              then StopsBare(table, paths, fs, pick, table[f][keys[i]], keys[i + 1..])
              else StaysBare(paths, fs, f, if keys[i] in table[f] then Some(table[f][keys[i]]) else None)
  {
    assert keys[i..][1..] == keys[i + 1..];
  }

  lemma OneKey(table: map<CardFile, Dict>, paths: Paths, fs: CardFs, pick: bool, f: CardFile, k: string)
    requires f in table
    ensures WayOpen(table, paths, fs, pick, f, [k]) <==> k in table[f] && StepOpen(paths, fs, pick, f, table[f][k])
    ensures !WayOpen(table, paths, fs, pick, f, [k]) ==>
              StopsBare(table, paths, fs, pick, f, [k]) ==
              StaysBare(paths, fs, f, if k in table[f] then Some(table[f][k]) else None)
  {
    assert [k][0..] == [k] && [k][1..] == [];
    NextKey(table, paths, fs, pick, f, [k], 0);
  }

  /** With `f` selected, the card has no reason of its own to refuse `g`.  `pick` says that applications without a
      file system can be left. */
  ghost predicate StepOpen(paths: Paths, fs: CardFs, pick: bool, f: CardFile, g: CardFile) {
    g in paths && Available(paths, fs, g) && (g.kind == ADF || pick || !IsBare(f))
  }

  /** Following the names leads somewhere, over files the card has no reason of its own to refuse. */
  ghost predicate WayOpen(table: map<CardFile, Dict>, paths: Paths, fs: CardFs, pick: bool, f: CardFile,
                          names: seq<string>)
    decreases |names|
  {
    names != [] ==>
      && f in table && names[0] in table[f] && StepOpen(paths, fs, pick, f, table[f][names[0]])
      && WayOpen(table, paths, fs, pick, table[f][names[0]], names[1..])
  }

  /** When `target` cannot be selected with `f` selected, an application without a file system is selected
      afterwards: `f`, or one on the way to `target` from which there is no way back. */
  ghost predicate StaysBare(paths: Paths, fs: CardFs, f: CardFile, target: Option<CardFile>) {
    if f.kind != ADF && target.Some? && target.value in paths then EntersBare(paths, fs, target.value) else IsBare(f)
  }

  /** Following the names as far as possible ends in an application without a file system. */
  ghost predicate StopsBare(table: map<CardFile, Dict>, paths: Paths, fs: CardFs, pick: bool, f: CardFile,
                            names: seq<string>)
    decreases |names|
  {
    if names == [] || f !in table || names[0] !in table[f] then IsBare(f)
    else
      var g := table[f][names[0]];
      if StepOpen(paths, fs, pick, f, g) then StopsBare(table, paths, fs, pick, g, names[1..])
      else StaysBare(paths, fs, f, Some(g))
  }

  /** Each SELECT along `path` is one the card has no reason of its own to refuse. */
  ghost predicate PathAvailable(paths: Paths, fs: CardFs, from: CardFile, path: seq<CardFile>)
    requires from in paths && forall f <- path :: f in paths
  {
    && (forall f <- path :: Place(paths, f) in fs.files)
    && (path != [] && path[0].kind != ADF ==> !fs.InBareApp(Place(paths, from)))
    && (forall i | 0 <= i < |path| - 1 :: !fs.InBareApp(Place(paths, path[i])))
  }

  /** `RuntimeState`: the logical channels of one session. */
  class RuntimeState {
    const mf: CardFile
    ghost const paths: Paths
    var lchan: map<nat, RuntimeLchan>

    /** The basic channel always exists. */
    constructor (mf: CardFile, ghost paths: Paths, channel: Channel)
      ensures this.mf == mf && this.paths == paths && lchan.Keys == {0} && fresh(lchan[0]) &&
              lchan[0].channel == channel
      ensures lchan[0].selectedFile == mf && lchan[0].selectedAdf == null
      ensures ValidTree(mf, paths) && EscapeIsNamed(mf, paths) && Matches(paths, channel.fs) && channel.Valid()
              ==> Ready(0)
      ensures Ready(0) && channel.current == ROOT && channel.response == None ==> lchan[0].Synced()
    {
      this.mf, this.paths, lchan := mf, paths, map[];
      new;
      var basic := new RuntimeLchan(mf, paths, channel);
      lchan := map[0 := basic];
    }

    ghost predicate Ready(nr: nat)
      requires nr in lchan
      reads this, lchan[nr], lchan[nr].channel, paths.Keys
    {
      lchan[nr].mf == mf && lchan[nr].paths == paths && lchan[nr].Valid()
    }

    /** `reset`: afterwards only the basic channel is left, in step with the card at the MF and out of
        every application, wherever it was believed to be before. */
    method Reset() returns (r: Outcome)
      requires 0 in lchan && Ready(0) && Unambiguous(mf, paths)
      modifies this, lchan[0], lchan[0].channel
      ensures lchan == map[0 := old(lchan[0])] && Ready(0)
      ensures lchan[0].channel.refusals >= old(lchan[0].channel.refusals)
      ensures r.Ok? ==> lchan[0].Synced() && lchan[0].selectedFile == mf && lchan[0].selectedAdf == null
      ensures r.Ok? <==> old(lchan[0].CanRestart()) && lchan[0].channel.refusals == old(lchan[0].channel.refusals)
    {
      lchan := map[0 := lchan[0]];
      r := lchan[0].Restart();
    }

    /** The new channel of `add_lchan`. */
    method NewLchan(opener: RuntimeLchan, isBasic: bool, side: Channel) returns (r: RuntimeLchan)
      requires opener.mf == mf && opener.paths == paths && opener.Valid() && opener.Synced()
      requires side.Valid() && side.fs == opener.channel.fs && side.response == None
      requires side.current == if isBasic then ROOT else side.fs.CurrentDir(opener.channel.current)
      ensures fresh(r) && r.mf == mf && r.paths == paths && r.channel == side && r.Valid() && r.Synced()
      ensures r.selectedAdf == if isBasic then null else opener.selectedAdf
      ensures r.selectedFile == if isBasic then mf else opener.GetCwd()
    {
      r := new RuntimeLchan(mf, paths, side);
      if isBasic { StartsAtMf(opener, r); } else { r.StartFrom(opener); }
    }

    /** `add_lchan` on the channel `opener`.  `side` is the card's side of the new channel, which starts
        at the MF, or in the current directory of an opener other than the basic channel (table 8.3 of
        ETSI TS 102 221).  Null where the source raises. */
    method AddLchan(opener: nat, nr: nat, side: Channel) returns (r: RuntimeLchan?)
      requires opener in lchan && Ready(opener) && lchan[opener].Synced()
      requires side.Valid() && side.fs == lchan[opener].channel.fs && side.response == None
      requires side.current == if opener == 0 then ROOT else side.fs.CurrentDir(lchan[opener].channel.current)
      modifies this
      ensures r == null <==> nr in old(lchan)
      ensures r == null ==> lchan == old(lchan)
      ensures r != null ==> fresh(r) && lchan == old(lchan)[nr := r] && r.channel == side
      ensures r != null ==> Ready(nr) && r.Synced()
      ensures r != null ==> r.selectedAdf == if opener == 0 then null else old(lchan[opener].selectedAdf)
      ensures r != null ==> r.selectedFile == if opener == 0 then mf else old(lchan[opener].GetCwd())
    {
      if nr in lchan { return null; }
      var l := lchan[opener];
      ghost var cwd := l.GetCwd();
      r := NewLchan(l, opener == 0, side);
      assert r.selectedFile == if opener == 0 then mf else cwd;
      lchan := lchan[nr := r];
    }
  }

  /** A new channel opened from the basic channel starts at the MF. */
  lemma StartsAtMf(opener: RuntimeLchan, l: RuntimeLchan)
    requires opener.Valid() && opener.mf == l.mf && opener.paths == l.paths
    requires l.channel.Valid() && l.channel.fs == opener.channel.fs && l.channel.response == None &&
             l.channel.current == ROOT
    requires l.selectedFile == l.mf && l.selectedAdf == null && l.selectedFileFcpHex == None
    ensures l.Valid() && l.Synced()
  {
    PlaceOfChild(l.mf, l.paths, l.mf);
  }

  /** The directory pySim takes for current is the card's. */
  lemma CwdIsCurrentDir(l: RuntimeLchan)
    requires l.Valid() && l.Synced()
    ensures l.channel.fs.CurrentDir(l.channel.current) == Place(l.paths, l.GetCwd())
    ensures l.GetCwd().kind == ADF && !l.GetCwd().hasFs ==> l.selectedFile == l.GetCwd()
    ensures l.Trapped() ==> l.selectedFile == l.GetCwd()
  {
    PlaceOfChild(l.mf, l.paths, l.selectedFile);
    PlaceOfChild(l.mf, l.paths, l.GetCwd());
    assert Matching(l.paths, l.channel.fs, l.selectedFile) && Matching(l.paths, l.channel.fs, l.GetCwd());
  }
}
