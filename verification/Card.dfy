/** The card's side of a logical channel: the files it holds and the one it has selected.

    The card knows identifiers only.  It resolves a SELECT by FID from its own current directory,
    in the search order of ISO/IEC 7816-4 (section 7.1.1) and within the reach that section 8.4.1
    of ETSI TS 102 221 gives it, and it may refuse any command. */
module Card {
  import opened Wrappers
  import opened Filesystem
  import opened Hierarchy

  datatype Id = Fid(fid: string) | Aid(aid: string)

  /** A place on the card: the identifiers from the MF down to it. */
  type Location = seq<Id>

  const ROOT: Location := [Fid(MF_FID)]

  /** `bare` holds the AIDs of applications without a file system. */
  datatype CardFs = CardFs(files: set<Location>, dirs: set<Location>, bare: set<string>) {

    ghost predicate Valid() {
      && ROOT in dirs && dirs <= files
      && (forall l <- files :: l != [] && l[0] == ROOT[0])
      && (forall l <- files | |l| > 1 :: Init(l) in dirs)
      && (forall l <- files, i, j | 0 <= i < j < |l| :: l[i] != l[j])
    }

    function CurrentDir(at: Location): (d: Location)
      requires Valid() && at in files
      ensures d in dirs
    {
      assert |at| == 1 ==> at == ROOT;
      if at in dirs then at else Init(at)
    }

    predicate InBareApp(at: Location) {
      |at| > 1 && at[1].Aid? && at[1].aid in bare
    }

    /** Where a SELECT by FID leads from `at`; an application without a file system offers nothing. */
    function Answer(at: Location, fid: string): Option<Location>
      requires Valid() && at in files
    {
      var dir := CurrentDir(at);
      if InBareApp(at) then None
      else if fid == MF_FID then Some(ROOT)
      else if dir + [Fid(fid)] in files then Some(dir + [Fid(fid)])
      else if Last(dir) == Fid(fid) then Some(dir)
      else if |dir| > 1 && Last(Init(dir)) == Fid(fid) then Some(Init(dir))
      else if |dir| > 1 && Init(dir) + [Fid(fid)] in dirs then Some(Init(dir) + [Fid(fid)])
      else None
    }
  }

  class Channel {
    const fs: CardFs
    var current: Location
    var response: Option<string>    // to the last SELECT it accepted, if any
    ghost var refusals: nat         // SELECTs refused although the file was there to select

    ghost predicate Valid()
      reads this
    {
      fs.Valid() && current in fs.files && (fs.InBareApp(current) ==> |current| == 2)
    }

    constructor (fs: CardFs, current: Location)
      ensures this.fs == fs && this.current == current && response == None && refusals == 0
    {
      this.fs, this.current, response, refusals := fs, current, None, 0;
    }

    /** The card decides: it answers with any response, or refuses. */
    method Decide(target: Location) returns (r: Option<string>)
      requires Valid() && target in fs.files && (fs.InBareApp(target) ==> |target| == 2)
      modifies this
      ensures Valid()
      ensures r.Some? ==> current == target && response == r && refusals == old(refusals)
      ensures r.None? ==> current == old(current) && response == old(response) && refusals == old(refusals) + 1
    {
      var accepts: bool := *;
      var data: string := *;
      if accepts {
        current, response := target, Some(data);
        r := response;
      } else {
        refusals := refusals + 1;
        r := None;
      }
    }

    method SelectFid(fid: string) returns (r: Option<string>)
      requires Valid()
      modifies this
      ensures Valid()
      ensures r.Some? ==> old(fs.Answer(current, fid)) == Some(current) && response == r && refusals == old(refusals)
      ensures r.None? ==> current == old(current) && response == old(response)
      ensures r.None? ==> refusals == old(refusals) + if old(fs.Answer(current, fid)).Some? then 1 else 0
    {
      var target := fs.Answer(current, fid);
      if target.None? { return None; }
      AnswerIsPlace(fs, current, fid);
      r := Decide(target.value);
    }

    /** A card reset leaves the MF selected on the basic channel. */
    method Reset()
      requires Valid()
      modifies this
      ensures Valid() && current == ROOT && response == None && refusals == old(refusals)
    {
      current, response := ROOT, None;
    }

    method SelectAid(aid: string) returns (r: Option<string>)
      requires Valid()
      modifies this
      ensures Valid()
      ensures r.Some? ==> ROOT + [Aid(aid)] in fs.files && current == ROOT + [Aid(aid)]
      ensures r.Some? ==> response == r && refusals == old(refusals)
      ensures r.None? ==> current == old(current) && response == old(response)
      ensures r.None? ==> refusals == old(refusals) + if ROOT + [Aid(aid)] in fs.files then 1 else 0
    {
      if ROOT + [Aid(aid)] !in fs.files { return None; }
      r := Decide(ROOT + [Aid(aid)]);
    }
  }

  /** A SELECT by FID stays on the card and never enters an application. */
  lemma AnswerIsPlace(fs: CardFs, at: Location, fid: string)
    requires fs.Valid() && at in fs.files
    ensures var a := fs.Answer(at, fid);
            a.Some? ==> a.value in fs.files && !fs.InBareApp(a.value)
  {
    var dir := fs.CurrentDir(at);
    if !fs.InBareApp(at) {
      BelowIsNotBare(fs, dir, fid);
      if |dir| > 1 {
        assert Init(dir) in fs.dirs;
        BelowIsNotBare(fs, Init(dir), fid);
      }
    }
  }

  /** Outside applications without a file system, no FID leads into one. */
  lemma BelowIsNotBare(fs: CardFs, dir: Location, fid: string)
    requires dir != [] && !fs.InBareApp(dir)
    ensures !fs.InBareApp(dir + [Id.Fid(fid)]) && (|dir| > 1 ==> Init(dir) != [] && !fs.InBareApp(Init(dir)))
  {
  }
}
