/** A session that enters an application without a file system and leaves it again. */
module Leaving {
  import opened Wrappers
  import opened Filesystem
  import opened Hierarchy
  import opened Building
  import opened Naming
  import opened Card
  import opened Correspondence
  import opened Runtime
  import opened Escape

  const ISD_R_AID: string := "a0000005591010ffffffff8900000100"
  const USIM_AID: string := "a0000000871002"
  const ISD_R: Location := ROOT + [Id.Aid(ISD_R_AID)]
  const USIM: Location := ROOT + [Id.Aid(USIM_AID)]

  /** A card with an application without a file system, and one with files, if `withUsim`. */
  function CardWith(withUsim: bool): CardFs {
    var files := {ROOT, ISD_R} + if withUsim then {USIM} else {};
    CardFs(files, files, {ISD_R_AID})
  }

  lemma AidsDiffer()
    ensures |ISD_R_AID| == 32 && |USIM_AID| == 14 && ISD_R_AID != USIM_AID
  {
  }

  lemma AidsAreLower()
    ensures ToLower(MF_FID) == MF_FID && ToLower(ISD_R_AID) == ISD_R_AID && ToLower(USIM_AID) == USIM_AID
  {
    LowerStays(MF_FID);
    LowerStays(ISD_R_AID);
    LowerStays(USIM_AID);
  }

  lemma CardHolds(withUsim: bool)
    ensures var fs := CardWith(withUsim);
            && ROOT in fs.files && ISD_R in fs.files && (USIM in fs.files <==> withUsim) && fs.dirs == fs.files
            && !fs.InBareApp(ROOT)
  {
    AidsDiffer();
    assert ISD_R[1] == Id.Aid(ISD_R_AID) && USIM[1] == Id.Aid(USIM_AID);
    assert |ROOT| == 1 && |USIM| == 2;
  }

  lemma CardIsValid(withUsim: bool)
    ensures CardWith(withUsim).Valid() && ROOT in CardWith(withUsim).files
  {
    assert |ROOT| == 1 && |ISD_R| == 2 && |USIM| == 2;
    assert Init(ISD_R) == ROOT && Init(USIM) == ROOT;
  }

  predicate IsApplication(mf: CardFile, a: CardFile, name: string, aid: string, hasFs: bool)
    reads a
  {
    && a.kind == ADF && a.fid == "" && a.name == name && a.aid == aid && a.hasFs == hasFs
    && a.parent == mf && a.children == []
  }

  /** The two applications, as pySim knows them. */
  ghost predicate KnowsTwo(mf: CardFile, paths: Paths, isdr: CardFile, usim: CardFile)
    reads mf, isdr, usim
  {
    && paths.Keys == {mf, isdr, usim} && mf.applications == [isdr, usim] && mf.children == [] && mf.aid == ""
    && IsApplication(mf, isdr, "ADF.ISD-R", ISD_R_AID, false) && IsApplication(mf, usim, "ADF.USIM", USIM_AID, true)
  }

  method TwoKnownApplications() returns (mf: CardFile, isdr: CardFile, usim: CardFile, ghost paths: Paths)
    ensures fresh({mf, isdr, usim}) && ValidTree(mf, paths) && KnowsTwo(mf, paths, isdr, usim)
  {
    AidsDiffer();
    AidsAreLower();
    mf := new CardFile(MF, MF_FID, None, MF_NAME, "", false, NoService);
    NewMfIsTree(mf);
    isdr, paths := NewApplication(mf, map[mf := [mf]], "ADF.ISD-R", ISD_R_AID, false);
    assert mf.applications == [isdr];
    usim, paths := NewApplication(mf, paths, "ADF.USIM", USIM_AID, true);
  }

  method NewApplication(mf: CardFile, ghost paths: Paths, name: string, aid: string, hasFs: bool)
    returns (a: CardFile, ghost all: Paths)
    requires ValidTree(mf, paths) && ToLower(aid) == aid && forall b <- mf.applications :: b.aid != aid
    modifies mf`applications
    ensures fresh(a) && IsApplication(mf, a, name, aid, hasFs) && all.Keys == paths.Keys + {a}
    ensures ValidTree(mf, all) && mf.applications == old(mf.applications) + [a]
  {
    a := new CardFile(ADF, "", None, name, aid, hasFs, NoService);
    NewFileIsBranch(a);
    var ok;
    ok, all := AddApplicationToTree(mf, paths, a, map[a := [a]]);
  }

  lemma TwoApplicationsMatch(mf: CardFile, paths: Paths, isdr: CardFile, usim: CardFile, withUsim: bool)
    requires ValidTree(mf, paths) && KnowsTwo(mf, paths, isdr, usim)
    ensures Matches(paths, CardWith(withUsim)) && Place(paths, mf) == ROOT
    ensures Available(paths, CardWith(withUsim), isdr) && Available(paths, CardWith(withUsim), mf)
    ensures Available(paths, CardWith(withUsim), usim) <==> withUsim
  {
    ApplicationMatches(mf, paths, isdr, withUsim);
    ApplicationMatches(mf, paths, usim, withUsim);
    ApplicationMatches(mf, paths, mf, withUsim);
  }

  lemma ApplicationMatches(mf: CardFile, paths: Paths, f: CardFile, withUsim: bool)
    requires ValidTree(mf, paths) && f in paths
    requires f == mf || (f.kind == ADF && (f.aid == if f.hasFs then USIM_AID else ISD_R_AID))
    ensures Matching(paths, CardWith(withUsim), f) && (f == mf ==> Place(paths, f) == ROOT)
    ensures Available(paths, CardWith(withUsim), f) <==> f == mf || !f.hasFs || withUsim
  {
    AidsDiffer();
    CardHolds(withUsim);
    PlaceOfChild(mf, paths, f);
    assert Place(paths, f) == if f == mf then ROOT else if f.hasFs then USIM else ISD_R;
  }

  lemma TwoApplicationsAreNamed(mf: CardFile, paths: Paths, isdr: CardFile, usim: CardFile)
    requires ValidTree(mf, paths) && KnowsTwo(mf, paths, isdr, usim)
    ensures Unambiguous(mf, paths) && WellNamed(paths) && EscapeIsNamed(mf, paths)
    ensures FirstFs(mf.applications) == usim
  {
    AidsDiffer();
    assert mf.applications[1..][0] == usim;
    assert AppApart(mf, isdr) && AppApart(mf, usim);
    assert NameOk(mf) && NameOk(isdr) && NameOk(usim);
    UsimIsNormal();
    EscapeIsNamedIff(mf, paths);
  }

  lemma UsimIsNormal()
    ensures NormalName("ADF.USIM") == "ADF.USIM"
  {
    assert !IsHexDigit("ADF.USIM"[3]);
  }

  /** A session on a card with ISD-R, and with USIM or without, in a tree that has both. */
  method NewSession(withUsim: bool) returns (rs: RuntimeState, isdr: CardFile)
    ensures rs.lchan.Keys == {0} && rs.Ready(0) && Unambiguous(rs.mf, rs.paths)
    ensures fresh(rs) && fresh(rs.lchan[0]) && fresh(rs.lchan[0].channel)
    ensures var l := rs.lchan[0];
            && l.Synced() && l.channel.refusals == 0 && l.selectedFile == l.mf
            && isdr in l.paths && IsBare(isdr) && FirstFs(l.mf.applications) != null
            && Available(l.paths, l.channel.fs, isdr) && Available(l.paths, l.channel.fs, l.mf)
            && (l.PickOnCard() <==> withUsim)
  {
    var mf, usim;
    ghost var paths;
    mf, isdr, usim, paths := TwoKnownApplications();
    CardIsValid(withUsim);
    TwoApplicationsMatch(mf, paths, isdr, usim, withUsim);
    TwoApplicationsAreNamed(mf, paths, isdr, usim);
    rs := PowerUp(mf, paths, CardWith(withUsim));
    var l := rs.lchan[0];
    assert l.PickOnCard() <==> withUsim;
  }

  method PowerUp(mf: CardFile, ghost paths: Paths, fs: CardFs) returns (rs: RuntimeState)
    requires ValidTree(mf, paths) && EscapeIsNamed(mf, paths) && Matches(paths, fs)
    requires fs.Valid() && ROOT in fs.files && Place(paths, mf) == ROOT
    ensures rs.mf == mf && rs.paths == paths && rs.lchan.Keys == {0} && rs.Ready(0)
    ensures fresh(rs) && fresh(rs.lchan[0]) && fresh(rs.lchan[0].channel)
    ensures rs.lchan[0].channel.fs == fs && rs.lchan[0].channel.refusals == 0
    ensures rs.lchan[0].Synced() && rs.lchan[0].selectedFile == mf
  {
    var channel := new Channel(fs, ROOT);
    rs := new RuntimeState(mf, paths, channel);
  }

  /** Selecting ISD-R and then the MF: the only way out is through the other application, so without a refusal it
      works exactly if the card holds that one. */
  method EnterAndLeave(withUsim: bool) returns (l: RuntimeLchan, entered: Outcome, r: Outcome)
    ensures l.Valid() && l.Synced()
    ensures entered.Ok? || l.channel.refusals > 0
    ensures entered.Ok? ==> (r.Ok? <==> withUsim && l.channel.refusals == 0)
    ensures entered.Ok? && r.Ok? ==> l.selectedFile == l.mf
    ensures entered.Ok? && !withUsim && l.channel.refusals == 0 ==> IsBare(l.selectedFile)
  {
    var rs, isdr := NewSession(withUsim);
    l := rs.lchan[0];
    entered := l.SelectFile(isdr);
    r := entered;
    if entered.Ok? {
      assert l.Trapped();
      r := l.SelectFile(l.mf);
    }
  }

  /** The same for a reset after ISD-R has been selected. */
  method EnterAndReset(withUsim: bool) returns (rs: RuntimeState, entered: Outcome, r: Outcome)
    ensures 0 in rs.lchan && rs.Ready(0)
    ensures entered.Ok? || rs.lchan[0].channel.refusals > 0
    ensures entered.Ok? ==> (r.Ok? <==> withUsim && rs.lchan[0].channel.refusals == 0)
  {
    var isdr;
    rs, isdr := NewSession(withUsim);
    var l := rs.lchan[0];
    entered := l.SelectFile(isdr);
    assert entered.Ok? ==> l.Trapped() && (l.CanRestart() <==> withUsim);
    r := rs.Reset();
  }
}
