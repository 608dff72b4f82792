/** Java Card load files, pySim/javacard.py: splitting an IJC file into CAP components and putting a load
    file together again (section 6.3 of the Java Card Virtual Machine Specification v3.2). */
module JavaCard {
  import opened Wrappers
  import opened Bytes

  /** A component's number, its tag; the source's `TAGS` lists the names in this order. */
  type Component = n: nat | 1 <= n <= 12 witness 1
  const HEADER: Component := 1
  const DIRECTORY: Component := 2
  const APPLET: Component := 3
  const IMPORT: Component := 4
  const CONSTANT_POOL: Component := 5
  const CLASS: Component := 6
  const METHOD: Component := 7
  const STATIC_FIELD: Component := 8
  const REF_LOCATION: Component := 9
  const EXPORT: Component := 10
  const DESCRIPTOR: Component := 11
  const DEBUG: Component := 12

  /** The names of the components, in the order of their tags. */
  const TAGS: seq<string> := ["Header", "Directory", "Applet", "Import", "ConstantPool", "Class", "Method",
                              "StaticField", "RefLocation", "Export", "Descriptor", "Debug"]

  function FileName(n: Component): string { TAGS[n - 1] }

  /** A file of the CAP archive. */
  datatype Entry = Entry(name: Component, data: seq<byte>)

  /** `TAGS[tag-1]`; tag 0 picks the last name, larger tags none. */
  function NameOf(tag: byte): Option<Component> {
    if tag == 0 then Some(DEBUG) else if tag <= 12 then Some(tag) else None
  }

  function Size(b: seq<byte>): nat
    requires |b| >= 3
  {
    FromBigEndian(b[1..3])
  }

  /** The component a load file starts with. */
  function FirstEntry(b: seq<byte>): Entry
    requires |b| >= 3 && NameOf(b[0]).Some?
  {
    Entry(NameOf(b[0]).value, Take(b, 3 + Size(b)))
  }

  /** The entries of a load file, each with the three octets of its tag and size; None where `ijc_to_cap`
      raises. */
  function Split(b: seq<byte>): Option<seq<Entry>>
    decreases |b|
  {
    if b == [] then Some([])
    else if |b| < 3 || NameOf(b[0]).None? then None
    else
      Prepended([FirstEntry(b)], Split(Drop(b, 3 + Size(b))))
  }

  function Prepended(entries: seq<Entry>, r: Option<seq<Entry>>): Option<seq<Entry>> {
    match r
    case None => None
    case Some(rest) => Some(entries + rest)
  }

  /** The same with the entries collected so far in front. */
  function SplitOnto(zip: seq<Entry>, b: seq<byte>): Option<seq<Entry>>
    decreases |b|
  {
    if b == [] then Some(zip)
    else if |b| < 3 || NameOf(b[0]).None? then None
    else SplitOnto(zip + [FirstEntry(b)], Drop(b, 3 + Size(b)))
  }

  lemma {:induction false} SplitOntoPrepends(zip: seq<Entry>, b: seq<byte>)
    ensures SplitOnto(zip, b) == Prepended(zip, Split(b))
    decreases |b|
  {
    if b == [] {
      assert zip + [] == zip;
    } else if |b| >= 3 && NameOf(b[0]).Some? {
      var entry, rest := FirstEntry(b), Drop(b, 3 + Size(b));
      SplitOntoPrepends(zip + [entry], rest);
      assert Split(rest).Some? ==> zip + ([entry] + Split(rest).value) == (zip + [entry]) + Split(rest).value;
    }
  }

  lemma SplitOntoNothing(b: seq<byte>)
    ensures SplitOnto([], b) == Split(b)
  {
    SplitOntoPrepends([], b);
    assert Split(b).Some? ==> [] + Split(b).value == Split(b).value;
  }

  /** `ijc_to_cap` */
  method IjcToCap(file: seq<byte>) returns (r: Option<seq<Entry>>)
    ensures r == Split(file)
  {
    SplitOntoNothing(file);
    var b := file;
    var zip: seq<Entry> := [];
    ghost var whole := SplitOnto([], file);
    while |b| > 0
      invariant SplitOnto(zip, b) == whole
      decreases |b|
    {
      if |b| < 3 || NameOf(b[0]).None? { return None; }
      zip, b := zip + [FirstEntry(b)], Drop(b, 3 + Size(b));
    }
    r := Some(zip);
  }

  function Flatten(entries: seq<Entry>): seq<byte> {
    if entries == [] then [] else entries[0].data + Flatten(entries[1..])
  }

  /** Whatever the input, the entries it is split into are the whole of it. */
  lemma {:induction false} SplitLosesNothing(b: seq<byte>)
    requires Split(b).Some?
    ensures Flatten(Split(b).value) == b
    decreases |b|
  {
    if b != [] {
      var size := Size(b);
      TakeAndDrop(b, 3 + size);
      SplitLosesNothing(Drop(b, 3 + size));
      FlattenCons(Split(b).value[0], Split(Drop(b, 3 + size)).value);
    }
  }

  // ---------- CapFile ----------

  const LOADED: nat := 11

  /** The order of section 6.3, in which a load file carries the components; Debug is not loaded. */
  function LoadOrder(k: nat): Component
    requires k < LOADED
  {
    match k
    case 0 => HEADER case 1 => DIRECTORY case 2 => IMPORT case 3 => APPLET case 4 => CLASS case 5 => METHOD
    case 6 => STATIC_FIELD case 7 => EXPORT case 8 => CONSTANT_POOL case 9 => REF_LOCATION case _ => DESCRIPTOR
  }

  /** By name, and that a load file cannot do without any but three of them. */
  lemma LoadOrderNames()
    ensures seq(LOADED, k requires 0 <= k < LOADED => FileName(LoadOrder(k))) ==
            ["Header", "Directory", "Import", "Applet", "Class", "Method", "StaticField", "Export", "ConstantPool",
             "RefLocation", "Descriptor"]
    ensures forall n: Component :: n in REQUIRED <==> FileName(n) !in ["Applet", "Export", "Debug"]
  {
    forall n: Component ensures n in REQUIRED <==> FileName(n) !in ["Applet", "Export", "Debug"] { RequiredName(n); }
  }

  lemma RequiredName(n: Component)
    ensures n in REQUIRED <==> FileName(n) !in ["Applet", "Export", "Debug"]
  {
    assert |FileName(n)| == |TAGS[n - 1]|;
    assert TAGS[0][0] == 'H' && TAGS[1][2] == 'r' && TAGS[3][0] == 'I' && TAGS[4][0] == 'C' && TAGS[5][0] == 'C' &&
           TAGS[6][0] == 'M' && TAGS[7][0] == 'S' && TAGS[8][0] == 'R' && TAGS[10][2] == 's';
  }

  const REQUIRED: set<Component> :=
    {HEADER, DIRECTORY, IMPORT, CONSTANT_POOL, CLASS, METHOD, STATIC_FIELD, REF_LOCATION, DESCRIPTOR}

  /** The dictionary of `CapFile`: of entries with the same name the last counts. */
  function Components(entries: seq<Entry>): map<Component, seq<byte>> {
    if entries == [] then map[]
    else Components(entries[..|entries| - 1])[entries[|entries| - 1].name := entries[|entries| - 1].data]
  }

  /** The components present among the first `k` of the load order. */
  function InOrder(c: map<Component, seq<byte>>, k: nat): seq<Entry>
    requires k <= LOADED
  {
    if k == 0 then [] else InOrder(c, k - 1) + Present(c, LoadOrder(k - 1))
  }

  function Present(c: map<Component, seq<byte>>, n: Component): seq<Entry> {
    if n in c then [Entry(n, c[n])] else []
  }

  lemma {:induction false} FlattenAppend(a: seq<Entry>, b: seq<Entry>)
    ensures Flatten(a + b) == Flatten(a) + Flatten(b)
  {
    if a == [] {
      assert a + b == b;
    } else {
      FlattenAppend(a[1..], b);
      FlattenCons(a[0], a[1..] + b);
      assert a + b == [a[0]] + (a[1..] + b);
      Regroup(a[0].data, Flatten(a[1..]), Flatten(b));
    }
  }

  lemma FlattenCons(e: Entry, entries: seq<Entry>)
    ensures Flatten([e] + entries) == e.data + Flatten(entries)
  {
    assert ([e] + entries)[1..] == entries;
  }

  function Part(c: map<Component, seq<byte>>, n: Component): seq<byte> {
    if n in c then c[n] else []
  }

  lemma OnePart(c: map<Component, seq<byte>>, n: Component)
    ensures Flatten(Present(c, n)) == Part(c, n)
  {
    if n in c { assert Flatten([]) == []; }
  }

  lemma {:induction false} AllParts(c: map<Component, seq<byte>>, k: nat)
    requires k <= LOADED
    ensures Flatten(InOrder(c, k)) == Parts(c, k)
  {
    if k > 0 {
      AllParts(c, k - 1);
      OnePart(c, LoadOrder(k - 1));
      FlattenAppend(InOrder(c, k - 1), Present(c, LoadOrder(k - 1)));
    }
  }

  function Parts(c: map<Component, seq<byte>>, k: nat): seq<byte>
    requires k <= LOADED
  {
    if k == 0 then [] else Parts(c, k - 1) + Part(c, LoadOrder(k - 1))
  }

  lemma LoadfileParts(c: map<Component, seq<byte>>)
    ensures Flatten(InOrder(c, LOADED)) ==
            Part(c, HEADER) + Part(c, DIRECTORY) + Part(c, IMPORT) + Part(c, APPLET) + Part(c, CLASS) +
            Part(c, METHOD) + Part(c, STATIC_FIELD) + Part(c, EXPORT) + Part(c, CONSTANT_POOL) +
            Part(c, REF_LOCATION) + Part(c, DESCRIPTOR)
  {
    AllParts(c, LOADED);
    assert Parts(c, 1) == [] + Part(c, HEADER) == Part(c, HEADER);
    assert Parts(c, 3) == Parts(c, 1) + Part(c, DIRECTORY) + Part(c, IMPORT);
    assert Parts(c, 5) == Parts(c, 3) + Part(c, APPLET) + Part(c, CLASS);
    assert Parts(c, 7) == Parts(c, 5) + Part(c, METHOD) + Part(c, STATIC_FIELD);
    assert Parts(c, 9) == Parts(c, 7) + Part(c, EXPORT) + Part(c, CONSTANT_POOL);
    assert Parts(c, 11) == Parts(c, 9) + Part(c, REF_LOCATION) + Part(c, DESCRIPTOR);
  }

  class CapFile {
    var component: map<Component, seq<byte>>

    constructor (entries: seq<Entry>)
      ensures component == Components(entries)
    {
      var c: map<Component, seq<byte>> := map[];
      for i := 0 to |entries|
        invariant c == Components(entries[..i])
      {
        assert entries[..i + 1][..i] == entries[..i];
        c := c[entries[i].name := entries[i].data];
      }
      assert entries[..|entries|] == entries;
      component := c;
    }

    /** The check at the end of the source's constructor. */
    predicate Complete()
      reads this
    {
      REQUIRED <= component.Keys
    }

    /** `get_loadfile` */
    method GetLoadfile() returns (loadfile: seq<byte>)
      requires Complete()
      ensures loadfile == Flatten(InOrder(component, LOADED))
    {
      loadfile := component[HEADER];
      loadfile := loadfile + component[DIRECTORY];
      loadfile := loadfile + component[IMPORT];
      if APPLET in component { loadfile := loadfile + component[APPLET]; } else { assert loadfile + [] == loadfile; }
      loadfile := loadfile + component[CLASS];
      loadfile := loadfile + component[METHOD];
      loadfile := loadfile + component[STATIC_FIELD];
      if EXPORT in component { loadfile := loadfile + component[EXPORT]; } else { assert loadfile + [] == loadfile; }
      loadfile := loadfile + component[CONSTANT_POOL];
      loadfile := loadfile + component[REF_LOCATION];
      if DESCRIPTOR in component { loadfile := loadfile + component[DESCRIPTOR]; }
      LoadfileParts(component);
    }
  }

  // ---------- when splitting and joining give the load file back ----------

  /** An entry is named after its tag and holds at most the octets its size announces, the high octet of the size
      first; Debug also goes by tag 0. */
  predicate Shaped(e: Entry) {
    && |e.data| >= 3 && |e.data| <= Announced(e.data) && (e.data[0] == e.name || (e.data[0] == 0 && e.name == 12))
  }

  function Announced(data: seq<byte>): nat
    requires |data| >= 3
  {
    var high: int, low: int := data[1], data[2];
    3 + 256 * high + low
  }

  /** An entry holds one whole component. */
  predicate Whole(e: Entry) {
    Shaped(e) && |e.data| == Announced(e.data)
  }

  lemma WholeMeans(e: Entry)
    ensures |e.data| >= 3 ==> Announced(e.data) == 3 + Size(e.data)
    ensures Whole(e) <==> |e.data| >= 3 && |e.data| == 3 + Size(e.data) && NameOf(e.data[0]) == Some(e.name)
  {
    if |e.data| >= 3 { TwoOctets(e.data[1..3]); }
  }

  /** All that a load file is split into is whole, but the last of it may break off. */
  lemma {:induction false} EntriesAreShaped(b: seq<byte>)
    requires Split(b).Some?
    ensures var entries := Split(b).value;
            forall i | 0 <= i < |entries| :: Shaped(entries[i]) && (i < |entries| - 1 ==> Whole(entries[i]))
    decreases |b|
  {
    if b != [] {
      var first, rest := FirstEntry(b), Drop(b, 3 + Size(b));
      TwoOctets(b[1..3]);
      assert first.data[1..3] == b[1..3] && first.data[0] == b[0];
      EntriesAreShaped(rest);
      assert Split(b).value == [first] + Split(rest).value;
    }
  }

  /** And splitting fails exactly if what follows some whole components is a tag that does not exist, or less than
      a tag and a size. */
  lemma SplitFails(b: seq<byte>)
    ensures Split(b).None? <==> exists entries: seq<Entry>, rest: seq<byte> :: BreaksAt(b, entries, rest)
  {
    if Split(b).None? {
      var entries, rest := WhereItBreaks(b);
    }
    forall entries, rest | BreaksAt(b, entries, rest) ensures Split(b).None? {
      SplitAfterWhole(entries, rest);
    }
  }

  lemma {:induction false} WhereItBreaks(b: seq<byte>) returns (entries: seq<Entry>, rest: seq<byte>)
    requires Split(b).None?
    ensures BreaksAt(b, entries, rest)
    decreases |b|
  {
    if |b| < 3 || NameOf(b[0]).None? {
      entries, rest := [], b;
      assert [] + b == b;
    } else {
      var first, tail := FirstEntry(b), Drop(b, 3 + Size(b));
      TakeAndDrop(b, 3 + Size(b));
      entries, rest := WhereItBreaks(tail);
      FirstIsWhole(b);
      FlattenCons(first, entries);
      Regroup(first.data, Flatten(entries), rest);
      entries := [first] + entries;
    }
  }

  lemma FirstIsWhole(b: seq<byte>)
    requires |b| >= 3 && NameOf(b[0]).Some? && Drop(b, 3 + Size(b)) != []
    ensures Whole(FirstEntry(b))
  {
    var first := FirstEntry(b);
    assert first.data[1..3] == b[1..3] && first.data[0] == b[0];
    WholeMeans(first);
  }

  lemma {:induction false} SplitAfterWhole(entries: seq<Entry>, rest: seq<byte>)
    requires forall e <- entries :: Whole(e)
    ensures Split(Flatten(entries) + rest) == Prepended(entries, Split(rest))
  {
    if entries == [] {
      PrependNothing(rest, Split(rest));
    } else {
      SplitAfterWhole(entries[1..], rest);
      SplitAfterOne(entries[0], Flatten(entries[1..]) + rest);
      Regroup(entries[0].data, Flatten(entries[1..]), rest);
      PrependFirst(entries, Split(rest));
    }
  }

  lemma PrependFirst(entries: seq<Entry>, r: Option<seq<Entry>>)
    requires entries != []
    ensures Prepended([entries[0]], Prepended(entries[1..], r)) == Prepended(entries, r)
  {
    if r.Some? { assert [entries[0]] + (entries[1..] + r.value) == entries + r.value; }
  }

  lemma PrependNothing(rest: seq<byte>, r: Option<seq<Entry>>)
    ensures [] + rest == rest && Prepended([], r) == r
  {
    if r.Some? { assert [] + r.value == r.value; }
  }

  lemma SplitAfterOne(e: Entry, rest: seq<byte>)
    requires Whole(e)
    ensures Split(e.data + rest) == Prepended([e], Split(rest))
  {
    WholeMeans(e);
    var d := e.data;
    assert (d + rest)[1..3] == d[1..3] && (d + rest)[0] == d[0];
    assert Take(d + rest, |d|) == d && Drop(d + rest, |d|) == rest;
  }

  ghost predicate BreaksAt(b: seq<byte>, entries: seq<Entry>, rest: seq<byte>) {
    && (forall e <- entries :: Whole(e)) && b == Flatten(entries) + rest
    && rest != [] && (|rest| < 3 || rest[0] > 12)
  }

  lemma SplitOfFlatten(entries: seq<Entry>)
    requires forall e <- entries :: Whole(e)
    ensures Split(Flatten(entries)) == Some(entries)
  {
    SplitAfterWhole(entries, []);
    assert Flatten(entries) + [] == Flatten(entries) && entries + [] == entries;
  }

  lemma {:induction false} ComponentsAreEntries(entries: seq<Entry>)
    ensures forall n <- Components(entries) :: Entry(n, Components(entries)[n]) in entries
    ensures forall e <- entries :: e.name in Components(entries)
    ensures (forall i, j | 0 <= i < j < |entries| :: entries[i].name != entries[j].name) ==>
              forall e <- entries :: Components(entries)[e.name] == e.data
  {
    if entries != [] {
      ComponentsAreEntries(entries[..|entries| - 1]);
      assert entries == entries[..|entries| - 1] + [entries[|entries| - 1]];
    }
  }

  /** Position in the load order; Debug comes after all. */
  function Rank(n: Component): (r: nat)
    ensures if n == DEBUG then r == LOADED else r < LOADED && LoadOrder(r) == n
  {
    match n
    case 1 => 0 case 2 => 1 case 3 => 3 case 4 => 2 case 5 => 8 case 6 => 4 case 7 => 5 case 8 => 6 case 9 => 9
    case 10 => 7 case 11 => 10 case _ => 11
  }

  /** Each component once, in load order, and no Debug. */
  predicate InLoadOrder(entries: seq<Entry>) {
    && (forall e <- entries :: e.name != DEBUG)
    && (forall i, j | 0 <= i < j < |entries| :: Rank(entries[i].name) < Rank(entries[j].name))
  }

  lemma {:induction false} InOrderIsOrdered(c: map<Component, seq<byte>>, k: nat)
    requires k <= LOADED
    ensures var s := InOrder(c, k);
            && (forall e <- s :: e.name in c && e.data == c[e.name] && Rank(e.name) < k)
            && InLoadOrder(s)
  {
    if k > 0 {
      var n := LoadOrder(k - 1);
      InOrderIsOrdered(c, k - 1);
      RankOfNext(k - 1);
      AppendInOrder(InOrder(c, k - 1), Present(c, n), k - 1);
    }
  }

  lemma AppendInOrder(s: seq<Entry>, last: seq<Entry>, k: nat)
    requires k < LOADED && InLoadOrder(s) && (forall e <- s :: Rank(e.name) < k)
    requires |last| <= 1 && forall e <- last :: Rank(e.name) == k
    ensures InLoadOrder(s + last)
  {
  }

  lemma RankOfNext(k: nat)
    requires k < LOADED
    ensures Rank(LoadOrder(k)) == k
  {
  }

  /** Entries in load order are what reading the components in load order gives. */
  lemma {:induction false} OrderedPrefix(entries: seq<Entry>, c: map<Component, seq<byte>>, k: nat) returns (m: nat)
    requires InLoadOrder(entries) && k <= LOADED
    requires forall e <- entries :: e.name in c && c[e.name] == e.data
    requires forall n <- c :: Entry(n, c[n]) in entries
    ensures m <= |entries| && InOrder(c, k) == entries[..m]
    ensures forall i | 0 <= i < |entries| :: i < m <==> Rank(entries[i].name) < k
  {
    m := 0;
    if k > 0 {
      m := OrderedPrefix(entries, c, k - 1);
      var n := LoadOrder(k - 1);
      RankOfNext(k - 1);
      if n in c {
        NextEntry(entries, Entry(n, c[n]), m);
        PrefixGrows(entries, m);
        m := m + 1;
      } else {
        assert InOrder(c, k) == InOrder(c, k - 1) + [];
      }
    }
  }

  lemma PrefixGrows<T>(s: seq<T>, m: nat)
    requires m < |s|
    ensures s[..m + 1] == s[..m] + [s[m]]
  {
  }

  /** In load order, the entry that ranks next after the first `m` follows them directly. */
  lemma NextEntry(entries: seq<Entry>, e: Entry, m: nat)
    requires InLoadOrder(entries) && e in entries && m <= |entries|
    requires forall i | 0 <= i < |entries| :: i < m <==> Rank(entries[i].name) < Rank(e.name)
    ensures m < |entries| && entries[m] == e
    ensures forall i | 0 <= i < |entries| :: i < m + 1 <==> Rank(entries[i].name) < Rank(e.name) + 1
  {
    var i :| 0 <= i < |entries| && entries[i] == e;
    assert m <= i;
    assert Rank(entries[m].name) <= Rank(entries[i].name);
    assert i == m;
  }

  /** `get_loadfile` over the split reproduces a load file byte for byte exactly if the file carries each of
      its components once, in load order, and no Debug component. */
  lemma LoadfileRoundTrip(b: seq<byte>)
    requires Split(b).Some? && forall e <- Split(b).value :: Whole(e)
    ensures Flatten(InOrder(Components(Split(b).value), LOADED)) == b <==> InLoadOrder(Split(b).value)
  {
    var entries := Split(b).value;
    var c := Components(entries);
    var joined := InOrder(c, LOADED);
    if InLoadOrder(entries) {
      OrderedIsJoined(entries);
      SplitLosesNothing(b);
    }
    JoinedIsOrdered(entries);
    if Flatten(joined) == b { SplitOfFlatten(joined); }
  }

  lemma OrderedIsJoined(entries: seq<Entry>)
    requires InLoadOrder(entries)
    ensures InOrder(Components(entries), LOADED) == entries
  {
    ComponentsAreEntries(entries);
    var m := OrderedPrefix(entries, Components(entries), LOADED);
    assert forall i | 0 <= i < |entries| :: Rank(entries[i].name) < LOADED;
    assert m == |entries|;
  }

  lemma JoinedIsOrdered(entries: seq<Entry>)
    ensures var joined := InOrder(Components(entries), LOADED);
            InLoadOrder(joined) && forall e <- joined :: e in entries
  {
    ComponentsAreEntries(entries);
    InOrderIsOrdered(Components(entries), LOADED);
  }
}
