/** The MF/DF/ADF/EF objects of pySim/filesystem.py.

    One class stands for the Python hierarchy, told apart by `kind`.  A name or FID that is
    None in Python is "" here: the source treats the two alike everywhere it looks. */
module Filesystem {
  import opened Wrappers

  datatype Kind = MF | DF | ADF | EF

  /** What `CardFile.service` can hold: nothing, one service, any of a list, all of a tuple. */
  datatype Service = NoService | One(number: nat) | AnyOf(numbers: seq<nat>) | AllOf(numbers: seq<nat>) {

    predicate Mentions(s: nat) {
      match this
      case NoService => false
      case One(n) => s == n
      case AnyOf(ns) => s in ns
      case AllOf(ns) => s in ns
    }

    /** Python truth of the attribute: 0 and empty collections count as "no service". */
    predicate Truthy() {
      match this
      case NoService => false
      case One(n) => n != 0
      case AnyOf(ns) => ns != []
      case AllOf(ns) => ns != []
    }
  }

  datatype AddResult = Added | Ignored | BadFid | ReservedName | ReservedFid | FidExists | SfidExists | NameExists
                     | DeepService

  const RESERVED_NAMES: seq<string> := ["..", ".", "/", "MF"]
  const MF_FID: string := "3f00"
  const MF_NAME: string := "MF"

  class CardFile {
    const kind: Kind
    const fid: string
    const sfid: Option<nat>
    const name: string
    const aid: string
    const hasFs: bool
    const service: Service
    var parent: CardFile?
    var children: seq<CardFile>       // the dictionary `children`, keyed by FID, in insertion order
    var applications: seq<CardFile>   // the dictionary `applications` of the MF, keyed by AID
    var filesByService: map<nat, seq<CardFile>>

    constructor (kind: Kind, fid: string, sfid: Option<nat>, name: string, aid: string, hasFs: bool, service: Service)
      ensures this.kind == kind && this.fid == ToLower(fid) && this.sfid == sfid && this.name == name
      ensures this.aid == ToLower(aid) && this.hasFs == hasFs && this.service == service
      ensures parent == if kind == MF then this else null
      ensures children == [] && applications == [] && filesByService == map[]
    {
      this.kind, this.fid, this.sfid, this.name := kind, ToLower(fid), sfid, name;
      this.aid, this.hasFs, this.service := ToLower(aid), hasFs, service;
      parent := if kind == MF then this else null;
      children, applications, filesByService := [], [], map[];
    }

    predicate IsDir() { kind != EF }

    /** What attaching files through `AddFile` keeps true of one directory. */
    ghost predicate DirOk()
      reads this, children
    {
      && (forall c <- children :: Attachable(c) && c.parent == this)
      && (forall i, j | 0 <= i < j < |children| :: !Clash(children[i], children[j]))
    }

    /** Every child and grandchild is listed under each service its `service` names, and nothing else is. */
    ghost predicate ServicesIndexed()
      reads this, children
    {
      && Sound(filesByService)
      && (forall c <- children :: Covers(filesByService, c) && CoversEach(filesByService, Below(c)))
    }

    function LookupByFid(wanted: string): (r: Option<CardFile>)
      reads this
      ensures r.None? <==> forall c <- children :: c.fid != wanted
      ensures r.Some? ==> r.value in children && r.value.fid == wanted
    {
      Find(children, (c: CardFile) => c.fid == wanted)
    }

    function LookupBySfid(wanted: Option<nat>): (r: Option<CardFile>)
      reads this
      ensures r.None? <==> forall c <- children :: !SameSfid(c.sfid, wanted)
      ensures r.Some? ==> r.value in children && SameSfid(r.value.sfid, wanted)
    {
      Find(children, (c: CardFile) => SameSfid(c.sfid, wanted))
    }

    function LookupByName(wanted: string): (r: Option<CardFile>)
      reads this
      ensures r.None? <==> forall c <- children :: !SameName(c.name, wanted)
      ensures r.Some? ==> r.value in children && SameName(r.value.name, wanted)
    {
      Find(children, (c: CardFile) => SameName(c.name, wanted))
    }

    method AddFileServices(child: CardFile)
      modifies this`filesByService
      ensures filesByService == Registered(old(filesByService), child)
    {
      if child.service.Truthy() {
        match child.service
        case One(n) =>
          filesByService := Appended(filesByService, n, child);
        case AnyOf(ns) =>
          for i := 0 to |ns|
            invariant filesByService == AppendedUnder(old(filesByService), ns[..i], child)
          {
            assert ns[..i + 1][..i] == ns[..i];
            filesByService := Appended(filesByService, ns[i], child);
          }
          assert ns[..|ns|] == ns;
        case AllOf(ns) =>
          for i := 0 to |ns|
            invariant filesByService == AppendedUnder(old(filesByService), ns[..i], child)
          {
            assert ns[..i + 1][..i] == ns[..i];
            filesByService := Appended(filesByService, ns[i], child);
          }
          assert ns[..|ns|] == ns;
      }
    }

    /** `add_application_df`; false where the source raises. */
    method AddApplicationDf(app: CardFile) returns (ok: bool)
      requires kind == MF && (forall i, j | 0 <= i < j < |applications| :: applications[i].aid != applications[j].aid)
      modifies this`applications, app`parent
      ensures ok <==> app.kind == ADF && forall a <- old(applications) :: a.aid != app.aid
      ensures ok ==> applications == old(applications) + [app] && app.parent == this
      ensures !ok ==> unchanged(this) && unchanged(app)
      ensures forall i, j | 0 <= i < j < |applications| :: applications[i].aid != applications[j].aid
    {
      if app.kind != ADF || Find(applications, (a: CardFile) => a.aid == app.aid).Some? { return false; }
      applications := applications + [app];
      app.parent := this;
      ok := true;
    }

    /** `_has_service`: the DF or a DF below it names a service.  `heights` only shows that no DF is
        its own descendant. */
    predicate HasService(ghost heights: map<CardFile, nat>)
      requires Layered(heights) && this in heights
      reads heights.Keys
      decreases heights[this]
    {
      service.Truthy() || exists c <- children :: c.IsDir() && c.HasService(heights)
    }

    /** No DF two levels further down needs a service. */
    ghost predicate Shallow(heights: map<CardFile, nat>)
      requires Layered(heights) && this in heights
      reads heights.Keys
    {
      IsDir() ==> forall g <- children :: g.IsDir() ==> !g.HasService(heights)
    }

    /** The checks at the head of `add_file`, in the order the source makes them. */
    function Admits(child: CardFile, ignoreExisting: bool): (r: AddResult)
      reads this
      ensures r.Added? <==> Attachable(child) && forall c <- children :: !Clash(c, child)
      ensures r.Ignored?
              ==> ignoreExisting && exists c <- children :: c.fid == child.fid || SameName(c.name, child.name)
      ensures r.FidExists? ==> !ignoreExisting && exists c <- children :: c.fid == child.fid
      ensures r.NameExists? ==> !ignoreExisting && exists c <- children :: SameName(c.name, child.name)
      ensures r.SfidExists? <==> Attachable(child) && (forall c <- children :: c.fid != child.fid) &&
                                 exists c <- children :: SameSfid(c.sfid, child.sfid)
      ensures !r.DeepService?
    {
      if !IsHex(child.fid, 4, 4) then BadFid
      else if child.name in RESERVED_NAMES then ReservedName
      else if child.fid == MF_FID then ReservedFid
      else if LookupByFid(child.fid).Some? then if ignoreExisting then Ignored else FidExists
      else if LookupBySfid(child.sfid).Some? then SfidExists
      else if LookupByName(child.name).Some? then if ignoreExisting then Ignored else NameExists
      else Added
    }

    method AddFile(child: CardFile, ignoreExisting: bool, ghost heights: map<CardFile, nat>) returns (r: AddResult)
      requires IsDir() && DirOk()
      requires Layered(heights) && child in heights && this !in heights
      modifies this`children, this`filesByService, child`parent
      ensures DirOk()
      ensures r == (if old(Admits(child, ignoreExisting)).Added? && exists c <- Below(child) :: !c.Shallow(heights)
                    then DeepService else old(Admits(child, ignoreExisting)))
      ensures r.Added? || r.DeepService? ==> children == old(children) + [child] && child.parent == this
      ensures !r.Added? && !r.DeepService? ==> unchanged(this) && unchanged(child)
      ensures r.Added? || r.DeepService?
              ==> filesByService ==
                  RegisteredEach(Registered(old(filesByService), child), Reached(Below(child), heights))
      ensures r.Added? ==> Reached(Below(child), heights) == Below(child)
      ensures r.Added? && old(ServicesIndexed()) ==> ServicesIndexed()
    {
      r := Admits(child, ignoreExisting);
      if r.Added? {
        var complete := AddAdmitted(child, heights);
        if !complete { r := DeepService; }
      }
    }

    /** The rest of `add_file` once every check has passed; false where the source raises. */
    method AddAdmitted(child: CardFile, ghost heights: map<CardFile, nat>) returns (complete: bool)
      requires DirOk() && Attachable(child) && forall c <- children :: !Clash(c, child)
      requires Layered(heights) && child in heights && this !in heights
      modifies this`children, this`filesByService, child`parent
      ensures children == old(children) + [child] && child.parent == this && DirOk()
      ensures complete <==> forall c <- Below(child) :: c.Shallow(heights)
      ensures complete ==> Reached(Below(child), heights) == Below(child)
      ensures filesByService == RegisteredEach(Registered(old(filesByService), child), Reached(Below(child), heights))
      ensures complete && old(ServicesIndexed()) ==> ServicesIndexed()
    {
      ghost var before := filesByService;
      Attach(child);
      ghost var own := filesByService;
      complete := IndexGrandchildren(child, heights);
      if complete {
        RegisteredEachCovers(own, Below(child));
        KeepsOn(before, own, filesByService);
        StaysCovered(own, filesByService, [child]);
        if old(ServicesIndexed()) {
          forall c | c in children
            ensures Covers(filesByService, c) && CoversEach(filesByService, Below(c))
          {
            if c in old(children) {
              assert Covers(before, c) && CoversEach(before, old(Below(c)));
              StaysCovered(before, filesByService, [c] + old(Below(c)));
            }
          }
        }
      }
    }

    /** Entering the child itself. */
    method Attach(child: CardFile)
      requires DirOk() && Attachable(child) && forall c <- children :: !Clash(c, child)
      modifies this`children, this`filesByService, child`parent
      ensures children == old(children) + [child] && child.parent == this && DirOk()
      ensures filesByService == Registered(old(filesByService), child)
      ensures Keeps(old(filesByService), filesByService) && Covers(filesByService, child)
      ensures Sound(old(filesByService)) ==> Sound(filesByService)
    {
      children := children + [child];
      child.parent := this;
      RegisteredCovers(filesByService, child);
      AddFileServices(child);
    }

    method IndexOne(c: CardFile, ghost heights: map<CardFile, nat>) returns (deep: bool)
      requires Layered(heights) && c in heights && this !in heights
      modifies this`filesByService
      ensures filesByService == Registered(old(filesByService), c)
      ensures deep <==> !c.Shallow(heights)
    {
      AddFileServices(c);
      deep := c.HasDeepService(heights);
    }

    /** The inner loop of `add_file`. */
    method HasDeepService(ghost heights: map<CardFile, nat>) returns (deep: bool)
      requires Layered(heights) && this in heights
      ensures deep <==> !Shallow(heights)
    {
      deep := false;
      if IsDir() {
        for k := 0 to |children|
          invariant forall j | 0 <= j < k :: children[j].IsDir() ==> !children[j].HasService(heights)
        {
          if children[k].IsDir() && children[k].HasService(heights) { return true; }
        }
      }
    }

    /** `add_files`: one file after the other, up to the first that is refused.  Files that were to be ignored
        have one like them in the directory. */
    method AddFiles(files: seq<CardFile>, ignoreExisting: bool, ghost heights: map<CardFile, nat>)
      returns (r: AddResult)
      requires IsDir() && DirOk()
      requires Layered(heights) && this !in heights && forall f <- files :: f in heights
      modifies this`children, this`filesByService, files`parent
      ensures DirOk() && !r.Ignored? && Layered(heights)
      ensures r.Added? && old(ServicesIndexed()) ==> ServicesIndexed()
      ensures old(children) <= children && forall c <- children :: c in old(children) || c in files
      ensures r.Added? ==> forall f <- files :: HasLike(f, ignoreExisting)
    {
      r := Added;
      for i := 0 to |files|
        invariant DirOk() && Layered(heights) && r.Added?
        invariant old(ServicesIndexed()) ==> ServicesIndexed()
        invariant old(children) <= children && forall c <- children :: c in old(children) || c in files
        invariant forall f <- files[..i] :: HasLike(f, ignoreExisting)
      {
        ghost var before := children;
        r := AddNext(files[i], ignoreExisting, heights);
        assert before <= children;
        assert files[..i + 1] == files[..i] + [files[i]];
        if !r.Added? { return; }
      }
      assert files[..|files|] == files;
    }

    method AddNext(f: CardFile, ignoreExisting: bool, ghost heights: map<CardFile, nat>) returns (r: AddResult)
      requires IsDir() && DirOk() && Layered(heights) && f in heights && this !in heights
      modifies this`children, this`filesByService, f`parent
      ensures DirOk() && Layered(heights) && !r.Ignored?
      ensures r.Added? ==> HasLike(f, ignoreExisting) && (old(ServicesIndexed()) ==> ServicesIndexed())
      ensures children == old(children) || children == old(children) + [f]
    {
      r := AddFile(f, ignoreExisting, heights);
      if r.Ignored? { r := Added; }
    }

    predicate HasLike(f: CardFile, ignoreExisting: bool)
      reads this
    {
      f in children || (ignoreExisting && exists c <- children :: c.fid == f.fid || SameName(c.name, f.name))
    }

    /** The loop of `add_file` over the files already below a new child; false where the source
        raises because a service sits too deep to be indexed. */
    method IndexGrandchildren(child: CardFile, ghost heights: map<CardFile, nat>) returns (complete: bool)
      requires Layered(heights) && child in heights && this !in heights
      modifies this`filesByService
      ensures complete ==> Reached(Below(child), heights) == Below(child)
      ensures filesByService == RegisteredEach(old(filesByService), Reached(Below(child), heights))
      ensures complete <==> forall c <- Below(child) :: c.Shallow(heights)
    {
      complete := true;
      if child.IsDir() {
        for i := 0 to |child.children|
          invariant filesByService == RegisteredEach(old(filesByService), child.children[..i])
          invariant forall j | 0 <= j < i :: child.children[j].Shallow(heights)
        {
          var c := child.children[i];
          assert child.children[..i + 1][..i] == child.children[..i];
          var deep := IndexOne(c, heights);
          if deep {
            ReachedUpTo(child.children, heights, i);
            return false;
          }
        }
        assert child.children[..|child.children|] == child.children;
        ReachedAll(child.children, heights);
      }
    }
  }

  // ---------- directories ----------

  function Below(f: CardFile): seq<CardFile>
    reads f
  {
    if f.IsDir() then f.children else []
  }

  predicate Attachable(f: CardFile) {
    IsHex(f.fid, 4, 4) && f.name !in RESERVED_NAMES && f.fid != MF_FID
  }

  predicate SameSfid(a: Option<nat>, b: Option<nat>) { a.Some? && a == b }
  predicate SameName(a: string, b: string) { a != "" && a == b }

  predicate Clash(a: CardFile, b: CardFile) {
    a.fid == b.fid || SameSfid(a.sfid, b.sfid) || SameName(a.name, b.name)
  }

  function Find(files: seq<CardFile>, wanted: CardFile -> bool): (r: Option<CardFile>)
    ensures r.None? <==> forall f <- files :: !wanted(f)
    ensures r.Some? ==> r.value in files && wanted(r.value)
  {
    if files == [] then None
    else if wanted(files[0]) then Some(files[0])
    else Find(files[1..], wanted)
  }

  ghost predicate Layered(heights: map<CardFile, nat>)
    reads heights.Keys
  {
    forall d <- heights :: forall c <- d.children :: c in heights && heights[c] < heights[d]
  }

  /** The files of a new child that `add_file` gets to: all up to the first with a service too deep below it. */
  ghost function Reached(files: seq<CardFile>, heights: map<CardFile, nat>): seq<CardFile>
    requires Layered(heights) && forall f <- files :: f in heights
    reads heights.Keys
  {
    if files == [] then []
    else if !files[0].Shallow(heights) then [files[0]]
    else [files[0]] + Reached(files[1..], heights)
  }

  lemma {:induction false} ReachedAll(files: seq<CardFile>, heights: map<CardFile, nat>)
    requires Layered(heights) && forall f <- files :: f in heights && f.Shallow(heights)
    ensures Reached(files, heights) == files
  {
    if files != [] { ReachedAll(files[1..], heights); }
  }

  lemma {:induction false} ReachedUpTo(files: seq<CardFile>, heights: map<CardFile, nat>, k: nat)
    requires Layered(heights) && k < |files| && forall f <- files :: f in heights
    requires (forall j | 0 <= j < k :: files[j].Shallow(heights)) && !files[k].Shallow(heights)
    ensures Reached(files, heights) == files[..k + 1]
  {
    if k > 0 {
      assert files[0].Shallow(heights);
      ReachedUpTo(files[1..], heights, k - 1);
      assert files[..k + 1] == [files[0]] + files[1..][..k];
    }
  }

  /** The checks of `add_file` in plain terms and in their order. */
  lemma AdmitsOutcome(d: CardFile, child: CardFile, ignoreExisting: bool)
    ensures var r := d.Admits(child, ignoreExisting);
            var hex := |child.fid| == 4 && forall c <- child.fid :: c in "0123456789abcdefABCDEF";
            var fidTaken := exists c <- d.children :: c.fid == child.fid;
            var sfidTaken := child.sfid.Some? && exists c <- d.children :: c.sfid == child.sfid;
            var nameTaken := child.name != "" && exists c <- d.children :: c.name == child.name;
            if !hex then r == BadFid
            else if child.name == ".." || child.name == "." || child.name == "/" || child.name == "MF"
            then r == ReservedName
            else if child.fid == "3f00" then r == ReservedFid
            else if fidTaken then r == if ignoreExisting then Ignored else FidExists
            else if sfidTaken then r == SfidExists
            else if nameTaken then r == if ignoreExisting then Ignored else NameExists
            else r == Added
  {
    FourHexDigits(child.fid);
    ReservedAre(child.name);
  }

  lemma ReservedAre(name: string)
    ensures name in RESERVED_NAMES <==> name == ".." || name == "." || name == "/" || name == "MF"
  {
  }

  /** A directory in order: valid and different FIDs, different short FIDs and names as far as there are any, and
      every child points back. */
  lemma DirOkMeans(d: CardFile)
    ensures d.DirOk() <==>
              && (forall c <- d.children :: Attachable(c) && c.parent == d)
              && (forall i, j | 0 <= i < j < |d.children| ::
                    var a, b := d.children[i], d.children[j];
                    a.fid != b.fid && (a.sfid == None || a.sfid != b.sfid) && (a.name == "" || a.name != b.name))
  {
    assert forall a: CardFile, b: CardFile ::
        Clash(a, b) <==> a.fid == b.fid || (a.sfid.Some? && a.sfid == b.sfid) || (a.name != "" && a.name == b.name);
  }

  // ---------- services below a directory ----------

  /** A way down through directories to one that names a service. */
  ghost predicate LeadsToService(d: CardFile, chain: seq<CardFile>)
    reads chain
  {
    && chain != [] && chain[0] == d
    && (forall i | 0 < i < |chain| :: chain[i].IsDir() && chain[i] in chain[i - 1].children)
    && chain[|chain| - 1].service !in [NoService, One(0), AnyOf([]), AllOf([])]
  }

  /** `_has_service` finds a service exactly if there is such a way. */
  lemma HasServiceMeans(d: CardFile, heights: map<CardFile, nat>)
    requires Layered(heights) && d in heights
    ensures d.HasService(heights) <==> exists chain :: LeadsToService(d, chain)
  {
    if d.HasService(heights) { var chain := WayToService(d, heights); }
    forall chain | LeadsToService(d, chain) ensures d.HasService(heights) { WayIsFound(d, heights, chain); }
  }

  lemma {:induction false} WayToService(d: CardFile, heights: map<CardFile, nat>) returns (chain: seq<CardFile>)
    requires Layered(heights) && d in heights && d.HasService(heights)
    ensures LeadsToService(d, chain)
    decreases heights[d]
  {
    if d.service.Truthy() {
      chain := [d];
    } else {
      var c :| c in d.children && c.IsDir() && c.HasService(heights);
      var rest := WayToService(c, heights);
      chain := [d] + rest;
    }
  }

  lemma {:induction false} WayIsFound(d: CardFile, heights: map<CardFile, nat>, chain: seq<CardFile>)
    requires Layered(heights) && d in heights && LeadsToService(d, chain)
    ensures d.HasService(heights)
    decreases |chain|
  {
    if |chain| > 1 {
      var rest := chain[1..];
      assert chain[1] in chain[0].children;
      forall i | 0 < i < |rest| ensures rest[i].IsDir() && rest[i] in rest[i - 1].children {
        assert chain[i + 1] in chain[i].children;
      }
      WayIsFound(chain[1], heights, rest);
    }
  }

  // ---------- the service index ----------

  type ServiceIndex = map<nat, seq<CardFile>>

  /** `files_by_service.setdefault(s, []).append(f)` */
  function Appended(index: ServiceIndex, s: nat, f: CardFile): ServiceIndex {
    index[s := (if s in index then index[s] else []) + [f]]
  }

  function AppendedUnder(index: ServiceIndex, services: seq<nat>, f: CardFile): ServiceIndex {
    if services == [] then index
    else Appended(AppendedUnder(index, services[..|services| - 1], f), services[|services| - 1], f)
  }

  function Registered(index: ServiceIndex, f: CardFile): ServiceIndex {
    if !f.service.Truthy() then index
    else
      match f.service
      case One(n) => Appended(index, n, f)
      case AnyOf(ns) => AppendedUnder(index, ns, f)
      case AllOf(ns) => AppendedUnder(index, ns, f)
  }

  function RegisteredEach(index: ServiceIndex, files: seq<CardFile>): ServiceIndex {
    if files == [] then index
    else Registered(RegisteredEach(index, files[..|files| - 1]), files[|files| - 1])
  }

  function Under(index: ServiceIndex, s: nat): seq<CardFile> {
    if s in index then index[s] else []
  }

  /** How often a file is to be listed under a service; 0 is no service where it stands alone. */
  function Times(service: Service, s: nat): nat {
    match service
    case NoService => 0
    case One(n) => if n == s && n != 0 then 1 else 0
    case AnyOf(ns) => Occurrences(ns, s)
    case AllOf(ns) => Occurrences(ns, s)
  }

  function Occurrences(ns: seq<nat>, s: nat): nat {
    if ns == [] then 0 else Occurrences(ns[..|ns| - 1], s) + if ns[|ns| - 1] == s then 1 else 0
  }

  function Copies(f: CardFile, n: nat): seq<CardFile> {
    seq(n, _ => f)
  }

  /** Registering a file appends it to the lists of its services and leaves all else as it was. */
  lemma RegisteredAppends(index: ServiceIndex, f: CardFile, s: nat)
    ensures Under(Registered(index, f), s) == Under(index, s) + Copies(f, Times(f.service, s))
    ensures s in Registered(index, f) <==> s in index || Times(f.service, s) > 0
  {
    match f.service
    case NoService =>
    case One(n) =>
    case AnyOf(ns) => AppendedTimes(index, ns, f, s);
    case AllOf(ns) => AppendedTimes(index, ns, f, s);
  }

  lemma {:induction false} AppendedTimes(index: ServiceIndex, ns: seq<nat>, f: CardFile, s: nat)
    ensures Under(AppendedUnder(index, ns, f), s) == Under(index, s) + Copies(f, Occurrences(ns, s))
    ensures s in AppendedUnder(index, ns, f) <==> s in index || Occurrences(ns, s) > 0
  {
    if ns != [] {
      var init, last := ns[..|ns| - 1], ns[|ns| - 1];
      AppendedTimes(index, init, f, s);
      OneMoreCopy(Under(index, s), f, Occurrences(init, s));
    }
  }

  lemma OneMoreCopy(files: seq<CardFile>, f: CardFile, n: nat)
    ensures files + Copies(f, n) + [f] == files + Copies(f, n + 1) && files + Copies(f, 0) == files
  {
  }

  ghost predicate Sound(index: ServiceIndex) {
    forall s <- index :: forall f <- index[s] :: f.service.Mentions(s) && f.service.Truthy()
  }

  ghost predicate Covers(index: ServiceIndex, f: CardFile) {
    f.service.Truthy() ==> forall s | f.service.Mentions(s) :: s in index && f in index[s]
  }

  ghost predicate CoversEach(index: ServiceIndex, files: seq<CardFile>) {
    forall f <- files :: Covers(index, f)
  }

  ghost predicate Keeps(index: ServiceIndex, index': ServiceIndex) {
    forall s <- index :: s in index' && forall f <- index[s] :: f in index'[s]
  }

  lemma KeepsOn(a: ServiceIndex, b: ServiceIndex, c: ServiceIndex)
    requires Keeps(a, b) && Keeps(b, c)
    ensures Keeps(a, c)
  {
    forall s | s in a ensures s in c && forall f <- a[s] :: f in c[s] {
      assert s in b && forall f <- a[s] :: f in b[s];
    }
  }

  lemma StaysCovered(index: ServiceIndex, index': ServiceIndex, files: seq<CardFile>)
    requires Keeps(index, index') && CoversEach(index, files)
    ensures CoversEach(index', files)
  {
  }

  lemma {:induction false} AppendedUnderCovers(index: ServiceIndex, services: seq<nat>, f: CardFile)
    requires f.service.Truthy() && forall s <- services :: f.service.Mentions(s)
    ensures Keeps(index, AppendedUnder(index, services, f))
    ensures forall s <- services :: s in AppendedUnder(index, services, f) && f in AppendedUnder(index, services, f)[s]
    ensures Sound(index) ==> Sound(AppendedUnder(index, services, f))
  {
    if services != [] {
      AppendedUnderCovers(index, services[..|services| - 1], f);
    }
  }

  lemma RegisteredCovers(index: ServiceIndex, f: CardFile)
    ensures Keeps(index, Registered(index, f)) && Covers(Registered(index, f), f)
    ensures Sound(index) ==> Sound(Registered(index, f))
  {
    match f.service
    case NoService =>
    case One(n) =>
    case AnyOf(ns) => if f.service.Truthy() { AppendedUnderCovers(index, ns, f); }
    case AllOf(ns) => if f.service.Truthy() { AppendedUnderCovers(index, ns, f); }
  }

  lemma {:induction false} RegisteredEachCovers(index: ServiceIndex, files: seq<CardFile>)
    ensures Keeps(index, RegisteredEach(index, files))
    ensures CoversEach(RegisteredEach(index, files), files)
    ensures Sound(index) ==> Sound(RegisteredEach(index, files))
  {
    if files != [] {
      var init, last := files[..|files| - 1], files[|files| - 1];
      RegisteredEachCovers(index, init);
      RegisteredCovers(RegisteredEach(index, init), last);
      assert files == init + [last];
      forall f | f in files ensures Covers(RegisteredEach(index, files), f) {
        if f != last { assert f in init; }
      }
    }
  }

  /** `should_exist_for_services`: None when the file depends on no service. */
  function ShouldExist(service: Service, active: set<nat>): Option<bool> {
    match service
    case NoService => None
    case One(n) => Some(n in active)
    case AnyOf(ns) => Some(exists n <- ns :: n in active)
    case AllOf(ns) => Some(forall n <- ns :: n in active)
  }

  /** Any of a list, all of a tuple. */
  lemma ShouldExistMeans(service: Service, ns: seq<nat>, active: set<nat>)
    ensures var numbers := set n | n in ns;
            && (ShouldExist(AnyOf(ns), active) == Some(numbers * active != {}))
            && (ShouldExist(AllOf(ns), active) == Some(numbers <= active))
            && (|ns| == 1 ==> ShouldExist(One(ns[0]), active) == Some(numbers <= active))
    ensures ShouldExist(service, active) == None <==> service == NoService
  {
    var numbers := set n | n in ns;
    if n :| n in ns && n in active { assert n in numbers * active; }
  }

  lemma UnmentionedServiceIsIrrelevant(service: Service, s: nat, active: set<nat>)
    requires !service.Mentions(s)
    ensures ShouldExist(service, active + {s}) == ShouldExist(service, active - {s})
  {
    assert forall n :: n != s ==> (n in active + {s} <==> n in active - {s});
  }

  /** Whenever switching service `s` changes whether a child or grandchild should exist, the directory lists
      that file under `s`, with the one exception of a file for service number 0. */
  lemma ToggledFileIsListed(d: CardFile, f: CardFile, s: nat, active: set<nat>)
    requires d.ServicesIndexed()
    requires f in d.children || exists c <- d.children :: f in Below(c)
    requires ShouldExist(f.service, active + {s}) != ShouldExist(f.service, active - {s})
    ensures s in d.filesByService && f in d.filesByService[s] <==> f.service != One(0)
  {
    if !f.service.Mentions(s) { UnmentionedServiceIsIrrelevant(f.service, s, active); }
    assert f.service.Mentions(s) && (f.service.Truthy() <==> f.service != One(0));
  }

  /** That exception: service 0 decides whether such a file should exist, and no directory lists it. */
  lemma ServiceZeroIsNeverListed(d: CardFile, f: CardFile, active: set<nat>)
    requires d.ServicesIndexed() && f.service == One(0)
    ensures ShouldExist(f.service, active + {0}) != ShouldExist(f.service, active - {0})
    ensures forall s <- d.filesByService :: f !in d.filesByService[s]
  {
  }
}
