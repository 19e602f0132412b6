/** Installed packages as a directory holds them, and the plain filter that a query stands for. */
module TreeQuery {
  import opened CStrings
  import opened Atom
  import opened AtomCompare
  import opened AtomOrder
  import opened Arrays
  import AtomRoundTrip
  import AtomPms
  import AtomPadded

  // ----- the directory -----

  datatype Entry = Entry(name: string, dir: bool)

  /** A VDB directory: what readdir lists, which names stat as directories, and what the
      ones that can be opened contain. `readable` says that the top can be opened. */
  datatype Vdb = Vdb(readable: bool, listing: seq<string>, dirs: set<string>, content: map<string, seq<Entry>>)

  /** What every file system gives. */
  ghost predicate FileSystem(d: Vdb) {
    && NoRepeats(d.listing)
    && d.content.Keys <= d.dirs
    && forall c :: c in d.dirs && CategoryName(c) ==> c in d.listing
  }

  predicate CategoryChar(c: char) {
    IsDigit(c) || IsLower(c) || IsUpper(c) || c == '_' || c == '-' || c == '+' || c == '.'
  }

  /** Section 3.1.1 of the Package Manager Specification, and a hyphen in every category but virtual. */
  predicate CategoryName(s: string) {
    && s != [] && (forall c :: c in s ==> CategoryChar(c))
    && s[0] != '-' && s[0] != '+' && s[0] != '.'
    && ('-' in s || s == "virtual")
  }

  // ----- packages -----

  /** A package of the cache. `file` is the last component of its path; atom None stands for NULL. */
  datatype Pkg = Pkg(name: string, cat: string, file: string, atom: Option<AtomCtx>)

  /** tree_pkg_atom, without the metadata. */
  function PkgAtom(p: Pkg): AtomCtx {
    if p.atom.Some? then p.atom.value else Explode(p.file, Some(p.cat))
  }

  /** tree_pkg_compar. */
  function PkgCompar(data: Pkg, query: Pkg): int {
    var c := Strcmp(data.name, query.name);
    if c != 0 then c
    else
      match Compare(PkgAtom(data), PkgAtom(query), DEFAULT)
      case Equal => 0
      case Newer => -1
      case Older => 1
      case NotEqual => -1
  }

  function LoadEntry(c: string, file: string): Pkg {
    var a := Explode(file, Some(c));
    Pkg(if a.pn.Some? then a.pn.value else "", c, file, Some(a))
  }

  predicate PackageDir(e: Entry) {
    e.dir && e.name != "." && e.name != ".."
  }

  function Loaded(c: string, es: seq<Entry>): seq<Pkg> {
    if es == [] then []
    else Loaded(c, es[..|es| - 1]) + if PackageDir(es[|es| - 1]) then [LoadEntry(c, es[|es| - 1].name)] else []
  }

  function CatPkgs(d: Vdb, c: string): seq<Pkg> {
    if c in d.content then Loaded(c, d.content[c]) else []
  }

  /** The package directories of a category have versions, and the versions of each package are compared
      transitively. Packages of different names have nothing to do with each other. */
  ghost predicate CategoryOrdered(c: string, es: seq<Entry>) {
    && (forall i :: 0 <= i < |es| && PackageDir(es[i]) ==> Plain(Explode(es[i].name, Some(c))))
    && (forall i, j, m :: 0 <= i < |es| && 0 <= j < |es| && 0 <= m < |es|
                          && PackageDir(es[i]) && PackageDir(es[j]) && PackageDir(es[m]) ==>
          Transitive(Explode(es[i].name, Some(c)), Explode(es[j].name, Some(c)), Explode(es[m].name, Some(c))))
  }

  ghost predicate Ordered(d: Vdb) {
    forall c :: c in d.content ==> CategoryOrdered(c, d.content[c])
  }

  // ----- the plain filter -----

  predicate Hit(q: Option<AtomCtx>, p: Pkg) {
    q.Some? && q.value.pn.Some? ==> p.name == q.value.pn.value && Compare(PkgAtom(p), q.value, DEFAULT) == Equal
  }

  function Hits(q: Option<AtomCtx>): Pkg -> bool {
    p => Hit(q, p)
  }

  function QueryCategories(d: Vdb, q: Option<AtomCtx>): seq<string> {
    if q.Some? && q.value.category.Some? then [q.value.category.value]
    else if d.readable then Keep(CategoryName, d.listing) else []
  }

  function WantedIn(d: Vdb, q: Option<AtomCtx>, cs: seq<string>): seq<Pkg> {
    if cs == [] then []
    else WantedIn(d, q, cs[..|cs| - 1]) + Keep(Hits(q), CatPkgs(d, cs[|cs| - 1]))
  }

  /** The packages a query stands for. */
  function Wanted(d: Vdb, q: Option<AtomCtx>): seq<Pkg> {
    WantedIn(d, q, QueryCategories(d, q))
  }

  /** The name, exploded as a package, is only a name. */
  predicate VersionlessName(pn: string) {
    var a := Explode(pn, None);
    a.pn == Some(pn) && a.pv.None? && a.slot.None? && a.repo.None? && a.blocker == NoBlocker && a.pfxOp == OpNone
  }

  /** The name, exploded as a package, is another name: for a package name, the one in front of what
      looks like a version. */
  predicate MisreadName(pn: string) {
    var a := Explode(pn, None);
    a.pn.Some? && a.pn != Some(pn) && a.blocker == NoBlocker
  }

  /** The queries: the directories of categories have category names, and no slot or repository is asked for. */
  predicate QueryOk(d: Vdb, q: Option<AtomCtx>) {
    q.Some? ==>
      && (q.value.category.Some? && q.value.category.value in d.dirs ==> CategoryName(q.value.category.value))
      && (q.value.pn.Some? ==> VersionlessName(q.value.pn.value) || MisreadName(q.value.pn.value))
      && q.value.slot.None? && q.value.repo.None?
  }

  /** The search of a cached category can find the name. */
  predicate Findable(q: Option<AtomCtx>) {
    q.Some? && q.value.pn.Some? ==> VersionlessName(q.value.pn.value)
  }

  // ----- what the cache answers -----

  /** A query, whether its answer is sorted, and the categories that are cached when it is asked. */
  datatype Asking = Asking(q: Option<AtomCtx>, sorted: bool, known: set<string>)

  /** The category is searched in the cache; a sorted query fills the cache first. */
  predicate Searched(a: Asking, c: string) {
    a.sorted || c in a.known
  }

  /** What one category answers: the filter's packages, but none to a search for a misread name. */
  function CatAnswer(d: Vdb, a: Asking, c: string): seq<Pkg> {
    if Findable(a.q) || !Searched(a, c) then Keep(Hits(a.q), CatPkgs(d, c)) else []
  }

  function AnswerIn(d: Vdb, a: Asking, cs: seq<string>): seq<Pkg> {
    if cs == [] then [] else AnswerIn(d, a, cs[..|cs| - 1]) + CatAnswer(d, a, cs[|cs| - 1])
  }

  function Answer(d: Vdb, a: Asking): seq<Pkg> {
    AnswerIn(d, a, QueryCategories(d, a.q))
  }

  /** The categories that a query adds to the cached ones. */
  function Touched(d: Vdb, q: Option<AtomCtx>): set<string> {
    Present(d, QueryCategories(d, q))
  }

  function Present(d: Vdb, cs: seq<string>): set<string> {
    set c | c in cs && c in d.content
  }

  /** By category, then by name, then newest first. */
  function Listed(a: Pkg, b: Pkg): int {
    Then(Strcmp(a.cat, b.cat), PkgCompar(a, b))
  }

  // ----- names that are only names -----

  lemma ExplodeCategory(input: string, c: string)
    ensures Explode(input, Some(c)) == Explode(input, None).(category := Some(c))
  {
    hide SplitBlocker, SplitPfxOp, CutExtension, SplitRepo, SplitUse, SplitSlot, CutLast, SplitCategory, SplitBuildId;
    hide VersionScan, RevisionScan, Suffixes, Atoi;
  }

  function NameOnly(pn: string): AtomCtx {
    AtomCtx(NoBlocker, OpNone, OpNone, None, Some(pn), None, Some(pn), 0, None, [], None, Some(pn), [],
            None, None, SdNone, None, 0)
  }

  /** The characters of section 3.1.2 of the Package Manager Specification. */
  predicate PackageName(pn: string) {
    pn != [] && forall c :: c in pn ==> IsDigit(c) || IsLower(c) || IsUpper(c) || c == '_' || c == '-' || c == '+'
  }

  lemma NoDot(pn: string, e: string)
    requires PackageName(pn) && e != [] && e[0] == '.'
    ensures !Contains(pn, e)
  {
    forall i: nat ensures !OccursAt(pn, e, i) {
      if i + |e| <= |pn| {
        assert pn[i..i + |e|][0] == pn[i] && pn[i] in pn;
      }
    }
  }

  /** A package name is only a name to the parser exactly when the scan for a version finds none in it:
      a name like font-100dpi qualifies, foo-1-2 and foo-2-bar do not and are misread. */
  lemma NamesAreVersionless(pn: string)
    requires PackageName(pn)
    ensures VersionlessName(pn) <==> AtomRoundTrip.NoVersionIn(pn)
    ensures MisreadName(pn) <==> !AtomRoundTrip.NoVersionIn(pn)
  {
    hide Explode, Contains, AtomRoundTrip.IsName, AtomRoundTrip.NoVersionIn, FillVersion;
    var a := NameOnly(pn);
    assert PfStr(a) == pn;
    assert BodyStr(a) == pn;
    assert ToString(a) == pn;
    NoDot(pn, ".ebuild");
    NoDot(pn, ".tbz2");
    NoDot(pn, ".xpak");
    NoDot(pn, ".gpkg.tar");
    NamesAreNames(pn);
    AtomRoundTrip.ExplodeOfPrinted(a);
    AtomRoundTrip.FillNameOnly(AtomRoundTrip.Blank(a), pn);
    FillKeeps(AtomRoundTrip.Blank(a), pn);
  }

  lemma NamesAreNames(pn: string)
    requires PackageName(pn)
    ensures AtomRoundTrip.IsName(pn)
  {
  }

  lemma FillKeeps(a: AtomCtx, pf: string)
    ensures FillVersion(a, pf).blocker == a.blocker
  {
    hide VersionScan, RevisionScan, Suffixes, Strtoll;
  }

  // ----- the order inside a category -----

  /** A package as the cache of category `c` holds it. */
  predicate PkgOk(p: Pkg, c: string) {
    && p.cat == c && p.atom.Some? && Plain(p.atom.value)
    && p.atom.value.category == Some(c) && p.atom.value.pn == Some(p.name)
  }

  predicate PkgTransitive(a: Pkg, b: Pkg, e: Pkg) {
    a.atom.Some? && b.atom.Some? && e.atom.Some? ==> Transitive(a.atom.value, b.atom.value, e.atom.value)
  }

  ghost predicate AllOk(s: seq<Pkg>, c: string) {
    && (forall p :: p in s ==> PkgOk(p, c))
    && (forall a, b, e :: a in s && b in s && e in s ==> PkgTransitive(a, b, e))
  }

  predicate LoadedFrom(p: Pkg, c: string, es: seq<Entry>) {
    exists i :: 0 <= i < |es| && PackageDir(es[i]) && p == LoadEntry(c, es[i].name)
  }

  lemma {:induction false} LoadedEntries(c: string, es: seq<Entry>)
    ensures forall p :: p in Loaded(c, es) ==> LoadedFrom(p, c, es)
  {
    hide LoadEntry;
    if es != [] {
      var n := |es| - 1;
      LoadedEntries(c, es[..n]);
      forall p | p in Loaded(c, es[..n]) ensures LoadedFrom(p, c, es) {
        var i :| 0 <= i < n && PackageDir(es[..n][i]) && p == LoadEntry(c, es[..n][i].name);
        assert es[i] == es[..n][i];
      }
    }
  }

  lemma LoadEntryOk(c: string, file: string)
    requires Plain(Explode(file, Some(c)))
    ensures PkgOk(LoadEntry(c, file), c) && LoadEntry(c, file).atom == Some(Explode(file, Some(c)))
  {
    hide Explode;
    ExplodeCategory(file, c);
  }

  lemma CatPkgsOk(d: Vdb, c: string)
    requires Ordered(d)
    ensures AllOk(CatPkgs(d, c), c)
  {
    hide Explode, Plain, Transitive, Loaded, LoadEntry, PkgOk;
    if c in d.content {
      var es := d.content[c];
      LoadedEntries(c, es);
      forall p | p in CatPkgs(d, c) ensures PkgOk(p, c) {
        assert LoadedFrom(p, c, es);
        var i :| 0 <= i < |es| && PackageDir(es[i]) && p == LoadEntry(c, es[i].name);
        LoadEntryOk(c, es[i].name);
      }
      forall a, b, e | a in CatPkgs(d, c) && b in CatPkgs(d, c) && e in CatPkgs(d, c) ensures PkgTransitive(a, b, e) {
        LoadedTransitive(a, b, e, c, es);
      }
    }
  }

  lemma LoadedTransitive(a: Pkg, b: Pkg, e: Pkg, c: string, es: seq<Entry>)
    requires CategoryOrdered(c, es) && LoadedFrom(a, c, es) && LoadedFrom(b, c, es) && LoadedFrom(e, c, es)
    ensures PkgTransitive(a, b, e)
  {
    hide Explode, Plain, Transitive, LoadEntry;
    var i :| 0 <= i < |es| && PackageDir(es[i]) && a == LoadEntry(c, es[i].name);
    var j :| 0 <= j < |es| && PackageDir(es[j]) && b == LoadEntry(c, es[j].name);
    var m :| 0 <= m < |es| && PackageDir(es[m]) && e == LoadEntry(c, es[m].name);
    LoadEntryOk(c, es[i].name);
    LoadEntryOk(c, es[j].name);
    LoadEntryOk(c, es[m].name);
  }

  /** Inside a category tree_pkg_compar is the callback order of AtomOrder. */
  lemma PkgComparIsCallback(a: Pkg, b: Pkg, c: string)
    requires PkgOk(a, c) && PkgOk(b, c)
    ensures PkgCompar(a, b) == CompareCb(a.atom.value, b.atom.value)
  {
    CallbackIsSortSign(a.atom.value, b.atom.value);
    CompareSwap(a.atom.value, b.atom.value);
    hide Compare;
  }

  /** Three packages are compared consistently exactly when they are of one name and their versions are
      compared transitively, or not all of one name. */
  lemma PkgComparChained(a: Pkg, b: Pkg, e: Pkg, c: string)
    requires PkgOk(a, c) && PkgOk(b, c) && PkgOk(e, c)
    ensures PkgCompar(b, a) == -PkgCompar(a, b)
    ensures Chained(PkgCompar(a, b), PkgCompar(b, e), PkgCompar(a, e)) <==> PkgTransitive(a, b, e)
  {
    PkgComparIsCallback(a, b, c);
    PkgComparIsCallback(b, a, c);
    PkgComparIsCallback(b, e, c);
    PkgComparIsCallback(a, e, c);
    CallbackConsistent(a.atom.value, b.atom.value, e.atom.value);
    hide CompareCb, Plain, PkgCompar, Transitive;
  }

  lemma PkgConsistent(s: seq<Pkg>, c: string)
    requires AllOk(s, c)
    ensures Consistent(PkgCompar, s)
  {
    hide PkgCompar, PkgOk, PkgTransitive;
    forall i, j | 0 <= i < |s| && 0 <= j < |s| ensures PkgCompar(s[i], s[j]) <= 0 || PkgCompar(s[j], s[i]) <= 0 {
      PkgComparChained(s[i], s[j], s[i], c);
    }
    forall i, j, m | 0 <= i < |s| && 0 <= j < |s| && 0 <= m < |s| && PkgCompar(s[i], s[j]) <= 0 && PkgCompar(s[j], s[m]) <= 0
      ensures PkgCompar(s[i], s[m]) <= 0
    {
      assert s[i] in s && s[j] in s && s[m] in s;
      PkgComparChained(s[i], s[j], s[m], c);
    }
  }

  /** The version class of each package. */
  type Classes = (string, string) -> VersionClass

  /** The atom of the entry is of its package's class, and has a build-id exactly when its package has. */
  ghost predicate EntryRanked(c: string, e: Entry, classes: Classes, built: (string, string) -> bool) {
    var a := Explode(e.name, Some(c));
    a.pn.Some? && Comparable(a, classes(c, a.pn.value), built(c, a.pn.value))
  }

  /** So a directory is ordered when each package keeps to a version class of its own, and its versions all
      have build-ids or none has. */
  lemma RankedIsOrdered(d: Vdb, classes: Classes, built: (string, string) -> bool)
    requires forall c, e :: c in d.content && e in d.content[c] && PackageDir(e) ==> EntryRanked(c, e, classes, built)
    ensures Ordered(d)
  {
    hide Explode, VersionInClass, PackageDir, Transitive;
    forall c | c in d.content ensures CategoryOrdered(c, d.content[c]) {
      var es := d.content[c];
      forall i | 0 <= i < |es| && PackageDir(es[i]) ensures EntryRanked(c, es[i], classes, built) {
        assert es[i] in es;
      }
      forall i, j, m | 0 <= i < |es| && 0 <= j < |es| && 0 <= m < |es|
                       && PackageDir(es[i]) && PackageDir(es[j]) && PackageDir(es[m])
        ensures Transitive(Explode(es[i].name, Some(c)), Explode(es[j].name, Some(c)), Explode(es[m].name, Some(c)))
      {
        RankedTransitive(c, es[i], es[j], es[m], classes, built);
      }
    }
  }

  lemma RankedTransitive(c: string, x: Entry, y: Entry, z: Entry, classes: Classes, built: (string, string) -> bool)
    requires EntryRanked(c, x, classes, built) && EntryRanked(c, y, classes, built) && EntryRanked(c, z, classes, built)
    ensures Transitive(Explode(x.name, Some(c)), Explode(y.name, Some(c)), Explode(z.name, Some(c)))
  {
    hide Explode, VersionInClass, Transitive, ReleaseSign;
    var a := Explode(x.name, Some(c));
    TransitiveInClass(a, Explode(y.name, Some(c)), Explode(z.name, Some(c)), classes(c, a.pn.value));
  }

  /** The entry is a version of a package, and `v` are its parts. */
  ghost predicate EntryReads(c: string, e: Entry, v: AtomPms.PmsVersion) {
    var a := Explode(e.name, Some(c));
    AtomPms.Valid(v) && a.pn.Some? && a == AtomPms.AtomOf(c, a.pn.value, v)
  }

  ghost predicate NumbersAgree(a: AtomPms.PmsVersion, b: AtomPms.PmsVersion) {
    AtomPms.Valid(a) && AtomPms.Valid(b)
    && AtomPadded.NumbersAgree(a.numbers, AtomPms.RestStr(a), b.numbers, AtomPms.RestStr(b))
  }

  /** Or when the numbers of any two versions of a package are compared as the specification says,
      however many leading zeros they have. */
  lemma AgreeingIsOrdered(d: Vdb, version: (string, Entry) -> AtomPms.PmsVersion)
    requires forall c, e :: c in d.content && e in d.content[c] && PackageDir(e) ==> EntryReads(c, e, version(c, e))
    requires forall c, e, f :: c in d.content && e in d.content[c] && f in d.content[c] && PackageDir(e) && PackageDir(f)
                               && Explode(e.name, Some(c)).pn == Explode(f.name, Some(c)).pn ==>
      NumbersAgree(version(c, e), version(c, f))
    ensures Ordered(d)
  {
    hide Explode, AtomPms.AtomOf, AtomPms.Valid, AtomPadded.NumbersAgree, PackageDir, Transitive, NumbersAgree;
    forall c | c in d.content ensures CategoryOrdered(c, d.content[c]) {
      var es := d.content[c];
      forall i | 0 <= i < |es| && PackageDir(es[i]) ensures Plain(Explode(es[i].name, Some(c))) {
        assert es[i] in es;
        ReadsPlain(c, es[i], version(c, es[i]));
      }
      forall i, j, m | 0 <= i < |es| && 0 <= j < |es| && 0 <= m < |es|
                       && PackageDir(es[i]) && PackageDir(es[j]) && PackageDir(es[m])
        ensures Transitive(Explode(es[i].name, Some(c)), Explode(es[j].name, Some(c)), Explode(es[m].name, Some(c)))
      {
        assert es[i] in es && es[j] in es && es[m] in es;
        ReadsTransitive(c, es[i], es[j], es[m], version(c, es[i]), version(c, es[j]), version(c, es[m]));
      }
    }
  }

  lemma ReadsPlain(c: string, e: Entry, v: AtomPms.PmsVersion)
    requires EntryReads(c, e, v)
    ensures Plain(Explode(e.name, Some(c)))
  {
    hide Explode, AtomPms.Valid, AtomPms.PvStr;
  }

  lemma ReadsTransitive(c: string, e: Entry, f: Entry, g: Entry, u: AtomPms.PmsVersion, v: AtomPms.PmsVersion, w: AtomPms.PmsVersion)
    requires EntryReads(c, e, u) && EntryReads(c, f, v) && EntryReads(c, g, w)
    requires Explode(e.name, Some(c)).pn == Explode(f.name, Some(c)).pn ==> NumbersAgree(u, v)
    requires Explode(f.name, Some(c)).pn == Explode(g.name, Some(c)).pn ==> NumbersAgree(v, w)
    requires Explode(e.name, Some(c)).pn == Explode(g.name, Some(c)).pn ==> NumbersAgree(u, w)
    ensures Transitive(Explode(e.name, Some(c)), Explode(f.name, Some(c)), Explode(g.name, Some(c)))
  {
    hide Explode, AtomPms.AtomOf, AtomPms.Valid, AtomPadded.NumbersAgree, Compare;
    var x, y, z := Explode(e.name, Some(c)), Explode(f.name, Some(c)), Explode(g.name, Some(c));
    if SamePackage(x, y) && SamePackage(y, z) {
      AtomPadded.AgreeingTransitive(c, x.pn.value, u, v, w);
    }
  }

  /** What tree_cat_foreach_pkg searches the cache with. */
  function Needle(pn: string, c: string): Pkg {
    Pkg(pn, c, pn, None)
  }

  /** A needle whose name is only a name compares by name; any other never compares equal, and a cached
      package of that very name comes before it. */
  lemma NeedleCompares(p: Pkg, pn: string, c: string)
    requires PkgOk(p, c) && (VersionlessName(pn) || MisreadName(pn))
    ensures PkgCompar(p, Needle(pn, c)) == Then(Strcmp(p.name, pn), if VersionlessName(pn) then 0 else -1)
  {
    ExplodeCategory(pn, c);
    hide Explode, FullVersionCompare;
  }

  lemma NeedleFits(s: seq<Pkg>, pn: string, c: string)
    requires AllOk(s, c) && (VersionlessName(pn) || MisreadName(pn))
    ensures Fits(PkgCompar, s, Needle(pn, c))
  {
    hide PkgCompar, PkgOk, VersionlessName, MisreadName;
    var needle := Needle(pn, c);
    forall i, j | 0 <= i < |s| && 0 <= j < |s| && PkgCompar(s[i], s[j]) <= 0
      ensures PkgCompar(s[j], needle) <= 0 ==> PkgCompar(s[i], needle) <= 0
      ensures PkgCompar(s[j], needle) < 0 ==> PkgCompar(s[i], needle) < 0
    {
      NeedleCompares(s[i], pn, c);
      NeedleCompares(s[j], pn, c);
      NameFirst(s[i], s[j]);
      StrcmpChained(s[i].name, s[j].name, pn);
    }
  }

  lemma NameFirst(a: Pkg, b: Pkg)
    requires PkgCompar(a, b) <= 0
    ensures Strcmp(a.name, b.name) <= 0
  {
    hide Compare, PkgAtom;
  }

  /** Whether the search for its own name finds a cached package. */
  lemma FoundByNameIff(p: Pkg, c: string)
    requires PkgOk(p, c) && PackageName(p.name)
    ensures PkgCompar(p, Needle(p.name, c)) == if AtomRoundTrip.NoVersionIn(p.name) then 0 else -1
  {
    hide PkgCompar, PkgOk, VersionlessName, MisreadName, AtomRoundTrip.NoVersionIn;
    NamesAreVersionless(p.name);
    NeedleCompares(p, p.name, c);
  }

  // ----- categories -----

  lemma {:induction false} AnswerAppend(d: Vdb, asked: Asking, a: seq<string>, b: seq<string>)
    ensures AnswerIn(d, asked, a + b) == AnswerIn(d, asked, a) + AnswerIn(d, asked, b)
  {
    hide CatAnswer;
    if b == [] {
      assert a + b == a;
    } else {
      assert (a + b)[..|a + b| - 1] == a + b[..|b| - 1];
      AnswerAppend(d, asked, a, b[..|b| - 1]);
    }
  }

  lemma AnswerOne(d: Vdb, asked: Asking, c: string)
    ensures AnswerIn(d, asked, [c]) == CatAnswer(d, asked, c)
  {
    hide CatAnswer;
    assert [c][..0] == [];
    assert AnswerIn(d, asked, []) == [];
  }

  /** The order in which the categories are visited does not matter to what is reported. */
  lemma {:induction false} AnswerPermuted(d: Vdb, asked: Asking, a: seq<string>, b: seq<string>)
    requires multiset(a) == multiset(b)
    ensures multiset(AnswerIn(d, asked, a)) == multiset(AnswerIn(d, asked, b))
  {
    hide AnswerIn;
    PermutationWithin(a, b);
    if a == [] {
      assert b == [];
    } else {
      var i :| 0 <= i < |b| && b[i] == a[0];
      RemoveOne(a, b, i);
      AnswerPermuted(d, asked, a[1..], b[..i] + b[i + 1..]);
      AnswerTaken(d, asked, a, 0);
      AnswerTaken(d, asked, b, i);
      assert a[..0] + a[1..] == a[1..];
    }
  }

  lemma AnswerTaken(d: Vdb, asked: Asking, a: seq<string>, i: nat)
    requires i < |a|
    ensures multiset(AnswerIn(d, asked, a)) == multiset(AnswerIn(d, asked, [a[i]])) + multiset(AnswerIn(d, asked, a[..i] + a[i + 1..]))
  {
    hide AnswerIn;
    var x, y, z := a[..i], [a[i]], a[i + 1..];
    assert a == x + (y + z);
    AnswerAppend(d, asked, x, y + z);
    AnswerAppend(d, asked, y, z);
    AnswerAppend(d, asked, x, z);
  }

  predicate NoHit(d: Vdb, q: Option<AtomCtx>, c: string) {
    Keep(Hits(q), CatPkgs(d, c)) == []
  }

  /** The name can be found, or no category that is searched holds a package of the query. */
  ghost predicate MissesNothing(d: Vdb, asked: Asking, cs: seq<string>) {
    Findable(asked.q) || forall i :: 0 <= i < |cs| && Searched(asked, cs[i]) ==> NoHit(d, asked.q, cs[i])
  }

  lemma MissesNext(d: Vdb, asked: Asking, r: seq<string>, c: string)
    ensures MissesNothing(d, asked, r + [c]) <==>
      MissesNothing(d, asked, r) && CatAnswer(d, asked, c) == Keep(Hits(asked.q), CatPkgs(d, c))
  {
    hide Keep, CatPkgs, Findable, Searched, CatAnswer;
    var cs := r + [c];
    assert forall i :: 0 <= i < |r| ==> r[i] == cs[i];
    assert cs[|r|] == c;
    CatAnswerIff(d, asked, c);
  }

  lemma CatAnswerIff(d: Vdb, asked: Asking, c: string)
    ensures CatAnswer(d, asked, c) == Keep(Hits(asked.q), CatPkgs(d, c)) <==>
      (Findable(asked.q) || !Searched(asked, c) || NoHit(d, asked.q, c))
    ensures CatAnswer(d, asked, c) == Keep(Hits(asked.q), CatPkgs(d, c)) || CatAnswer(d, asked, c) == []
  {
    hide Keep, CatPkgs, Findable, Searched;
  }

  /** Exactly when the answer is the plain filter's. */
  lemma {:induction false} AnswerIsWantedIff(d: Vdb, asked: Asking, cs: seq<string>)
    ensures |AnswerIn(d, asked, cs)| <= |WantedIn(d, asked.q, cs)|
    ensures multiset(AnswerIn(d, asked, cs)) == multiset(WantedIn(d, asked.q, cs)) <==> MissesNothing(d, asked, cs)
  {
    hide Keep, CatPkgs, Findable, Searched, CatAnswer;
    if cs != [] {
      var r, c := cs[..|cs| - 1], cs[|cs| - 1];
      assert cs == r + [c];
      AnswerIsWantedIff(d, asked, r);
      MissesNext(d, asked, r, c);
      CatAnswerIff(d, asked, c);
      hide MissesNothing;
      MissedCounts(AnswerIn(d, asked, r), WantedIn(d, asked.q, r), CatAnswer(d, asked, c), Keep(Hits(asked.q), CatPkgs(d, c)));
    }
  }

  lemma MissedCounts<T>(a: seq<T>, w: seq<T>, b: seq<T>, v: seq<T>)
    requires |a| <= |w| && (b == v || b == [])
    ensures |a + b| <= |w + v|
    ensures multiset(a + b) == multiset(w + v) <==> multiset(a) == multiset(w) && b == v
  {
    assert |multiset(a + b)| == |a + b| && |multiset(w + v)| == |w + v|;
    assert multiset(a + b) == multiset(a) + multiset(b) && multiset(w + v) == multiset(w) + multiset(v);
    if multiset(a + b) == multiset(w + v) {
      assert |b| == |v| && b == v;
      assert multiset(a) == multiset(a + b) - multiset(b);
      assert multiset(w) == multiset(w + v) - multiset(v);
    }
  }
}
