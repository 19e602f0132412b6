/** The lazily filled package cache of `tree.c`, for a tree of installed packages. */
module TreeCache {
  import opened CStrings
  import opened Atom
  import opened AtomCompare
  import opened AtomOrder
  import opened Arrays
  import opened TreeQuery

  // ----- one category -----

  lemma NoneLoaded(q: Option<AtomCtx>, c: string, es: seq<Entry>)
    ensures Loaded(c, es[..0]) == [] && Keep(Hits(q), []) == []
  {
  }

  lemma LoadedNext(q: Option<AtomCtx>, c: string, es: seq<Entry>, n: nat)
    requires n < |es|
    ensures PackageDir(es[n]) ==>
      var pkg := LoadEntry(c, es[n].name);
      && Loaded(c, es[..n + 1]) == Loaded(c, es[..n]) + [pkg]
      && Keep(Hits(q), Loaded(c, es[..n + 1])) == Keep(Hits(q), Loaded(c, es[..n])) + if Hit(q, pkg) then [pkg] else []
    ensures !PackageDir(es[n]) ==> Loaded(c, es[..n + 1]) == Loaded(c, es[..n])
  {
    hide LoadEntry, Hit;
    assert es[..n + 1][..n] == es[..n];
    var l := Loaded(c, es[..n]);
    assert l + [] == l;
    assert forall p :: (l + [p])[..|l|] == l;
  }

  /** tree_cat_ctx. */
  class TreeCat {
    const name: string
    var pkgs: Array?<Pkg>
    var complete: bool

    constructor (name: string)
      ensures this.name == name && pkgs == null && !complete
    {
      this.name := name;
      pkgs, complete := null, false;
    }

    /** Nothing is cached, or the whole category is. */
    ghost predicate Valid(d: Vdb)
      reads this, pkgs
    {
      && (complete <==> pkgs != null)
      && (pkgs != null ==> multiset(pkgs.eles) == multiset(CatPkgs(d, name)) && pkgs.InOrder(PkgCompar))
    }

    /** The directory walk; what is reported on the way is what matches. */
    method Load(d: Vdb, sorted: bool, q: Option<AtomCtx>) returns (found: seq<Pkg>)
      requires Valid(d) && pkgs == null && name in d.content
      modifies this
      ensures Valid(d) && fresh(pkgs) && complete
      ensures found == if sorted then [] else Keep(Hits(q), CatPkgs(d, name))
    {
      hide LoadEntry, Hit, Loaded, Keep, PkgCompar;
      var es := d.content[name];
      pkgs := new Array<Pkg>();
      found := [];
      var n := 0;
      NoneLoaded(q, name, es);
      while n < |es|
        invariant n <= |es| && fresh(pkgs)
        invariant pkgs.eles == Loaded(name, es[..n]) && !pkgs.sorted
        invariant found == if sorted then [] else Keep(Hits(q), Loaded(name, es[..n]))
      {
        LoadedNext(q, name, es, n);
        if PackageDir(es[n]) {
          var pkg := LoadEntry(name, es[n].name);
          pkgs.Append(pkg);
          if !sorted && Hit(q, pkg) {
            found := found + [pkg];
          }
        }
        n := n + 1;
      }
      assert es[..n] == es;
      complete := true;
    }

    /** The directed query on the cache: binary search for the name, then a walk along it. A name that is
        misread is not found. */
    method Directed(d: Vdb, q: AtomCtx) returns (found: seq<Pkg>)
      requires Valid(d) && pkgs != null && Ordered(d)
      requires q.pn.Some? && (VersionlessName(q.pn.value) || MisreadName(q.pn.value))
      modifies pkgs
      ensures Valid(d) && unchanged(this)
      ensures multiset(found) == multiset(if VersionlessName(q.pn.value) then Keep(Hits(Some(q)), CatPkgs(d, name)) else [])
      ensures SortedBy(PkgCompar, found)
    {
      hide PkgCompar, Hit, VersionlessName, MisreadName, Ordered, CatPkgs, Keep, AllOk, PkgOk, Fits, Consistent;
      var pn := q.pn.value;
      Contents(d);
      NeedleFits(pkgs.eles, pn, name);
      PkgConsistent(pkgs.eles, name);
      var at := pkgs.BinSearch(Needle(pn, name), PkgCompar);
      Contents(d);
      var elem := if at.Some? then at.value else |pkgs.eles|;
      if at.Some? {
        OkAt(pkgs.eles, name, elem);
        NeedleCompares(pkgs.eles[elem], pn, name);
      }
      found := [];
      assert pkgs.eles[elem..elem] == [];
      KeepNone(Hits(Some(q)), []);
      ghost var start, s := elem, pkgs.eles;
      while elem < |pkgs.eles| && pkgs.eles[elem].name == pn
        invariant start <= elem <= |pkgs.eles|
        invariant pkgs.eles == s && pkgs.sorted
        invariant found == Keep(Hits(Some(q)), pkgs.eles[start..elem])
      {
        KeepNext(Hits(Some(q)), pkgs.eles, start, elem);
        if Hit(Some(q), pkgs.eles[elem]) {
          found := found + [pkgs.eles[elem]];
        }
        elem := elem + 1;
      }
      if VersionlessName(pn) {
        WalkedAll(d, q, pkgs.eles, start, elem);
      }
    }

    lemma WalkedAll(d: Vdb, q: AtomCtx, s: seq<Pkg>, start: nat, elem: nat)
      requires multiset(s) == multiset(CatPkgs(d, name)) && AllOk(s, name) && SortedBy(PkgCompar, s)
      requires q.pn.Some? && VersionlessName(q.pn.value) && start <= elem <= |s|
      requires forall i :: 0 <= i < start ==> PkgCompar(s[i], Needle(q.pn.value, name)) != 0
      requires start < |s| ==> s[start].name == q.pn.value
      requires elem < |s| ==> s[elem].name != q.pn.value
      ensures var found := Keep(Hits(Some(q)), s[start..elem]);
        multiset(found) == multiset(Keep(Hits(Some(q)), CatPkgs(d, name))) && SortedBy(PkgCompar, found)
    {
      hide PkgCompar, Hit, VersionlessName, CatPkgs, Keep, AllOk;
      KeepPermuted(Hits(Some(q)), s, CatPkgs(d, name));
      KeepSorted(Hits(Some(q)), s, PkgCompar);
      NotBefore(s, q, start, name);
      NotAfter(s, q, elem, start, name);
      KeepParts(Hits(Some(q)), s, start, elem);
    }

    /** tree_cat_foreach_pkg: reports the matching packages of the category, in order when asked to; but
        none to a misread name once the category is cached. */
    method Foreach(d: Vdb, sorted: bool, q: Option<AtomCtx>) returns (found: seq<Pkg>)
      requires Valid(d) && Ordered(d) && QueryOk(d, q)
      modifies this, pkgs
      ensures Valid(d) && (pkgs == old(pkgs) || fresh(pkgs))
      ensures pkgs != null <==> old(pkgs) != null || name in d.content
      ensures var missed := !Findable(q) && (sorted || old(pkgs) != null);
        multiset(found) == multiset(if missed then [] else Keep(Hits(q), CatPkgs(d, name)))
      ensures sorted ==> SortedBy(PkgCompar, found)
      decreases if complete then 0 else 1
    {
      hide PkgCompar, VersionlessName, MisreadName, Ordered, Keep, CatPkgs, AllOk, Consistent, CategoryName, Hit;
      if q.Some? && q.value.pn.Some? && pkgs != null {
        found := Directed(d, q.value);
        return;
      }
      if complete {
        if sorted {
          Contents(d);
          PkgConsistent(pkgs.eles, name);
          pkgs.Sort(PkgCompar);
        }
        AllHit(q, CatPkgs(d, name));
        return pkgs.eles;
      }
      if name !in d.content {
        NothingThere(d, q);
        return [];
      }
      found := Load(d, sorted, q);
      if sorted {
        found := Foreach(d, sorted, q);
      }
    }

    lemma AllHit(q: Option<AtomCtx>, s: seq<Pkg>)
      requires q.None? || q.value.pn.None?
      ensures Keep(Hits(q), s) == s
    {
      hide Keep;
      KeepAll(Hits(q), s);
    }

    lemma NothingThere(d: Vdb, q: Option<AtomCtx>)
      requires name !in d.content
      ensures Keep(Hits(q), CatPkgs(d, name)) == []
    {
      KeepNone(Hits(q), []);
    }

    lemma Contents(d: Vdb)
      requires Valid(d) && pkgs != null && Ordered(d)
      ensures AllOk(pkgs.eles, name)
    {
      hide PkgCompar, Ordered, CatPkgs, PkgOk;
      CatPkgsOk(d, name);
      PermutationWithin(pkgs.eles, CatPkgs(d, name));
    }
  }

  lemma OkAt(s: seq<Pkg>, c: string, i: nat)
    requires AllOk(s, c) && i < |s|
    ensures PkgOk(s[i], c)
  {
    hide PkgOk, PkgTransitive;
    assert s[i] in s;
  }

  /** Elements before the first one with the searched name do not match. */
  lemma NotBefore(s: seq<Pkg>, q: AtomCtx, elem: nat, c: string)
    requires elem <= |s| && q.pn.Some? && VersionlessName(q.pn.value) && AllOk(s, c)
    requires forall i :: 0 <= i < elem ==> PkgCompar(s[i], Needle(q.pn.value, c)) != 0
    ensures Keep(Hits(Some(q)), s[..elem]) == []
  {
    hide PkgCompar, VersionlessName, PkgOk, Keep, Compare;
    forall i | 0 <= i < elem ensures !Hit(Some(q), s[..elem][i]) {
      NeedleCompares(s[i], q.pn.value, c);
    }
    KeepNone(Hits(Some(q)), s[..elem]);
  }

  /** Once the walk has left the searched name it does not come back. */
  lemma NotAfter(s: seq<Pkg>, q: AtomCtx, elem: nat, start: nat, c: string)
    requires start <= elem <= |s| && q.pn.Some? && SortedBy(PkgCompar, s)
    requires start < |s| ==> s[start].name == q.pn.value
    requires elem < |s| ==> s[elem].name != q.pn.value
    ensures Keep(Hits(Some(q)), s[elem..]) == []
  {
    hide PkgCompar, Keep, Compare;
    forall i | 0 <= i < |s| - elem ensures !Hit(Some(q), s[elem..][i]) {
      NameFirst(s[start], s[elem]);
      if i > 0 {
        NameFirst(s[elem], s[elem + i]);
        StrcmpChained(s[start].name, s[elem].name, s[elem + i].name);
      }
    }
    KeepNone(Hits(Some(q)), s[elem..]);
  }

  // ----- the tree -----

  /** tree_cat_compar. */
  function CatCompar(l: TreeCat, r: TreeCat): int {
    Strcmp(l.name, r.name)
  }

  function Names(cs: seq<TreeCat>): (r: seq<string>)
    ensures |r| == |cs| && forall i :: 0 <= i < |cs| ==> r[i] == cs[i].name
  {
    if cs == [] then [] else Names(cs[..|cs| - 1]) + [cs[|cs| - 1].name]
  }

  lemma {:induction false} NamesAppend(a: seq<TreeCat>, b: seq<TreeCat>)
    ensures Names(a + b) == Names(a) + Names(b)
  {
    if b == [] {
      assert a + b == a;
    } else {
      assert (a + b)[..|a + b| - 1] == a + b[..|b| - 1];
      NamesAppend(a, b[..|b| - 1]);
    }
  }

  lemma CatsConsistent(cs: seq<TreeCat>)
    ensures Consistent(CatCompar, cs)
  {
    forall i, j | 0 <= i < |cs| && 0 <= j < |cs| ensures CatCompar(cs[i], cs[j]) <= 0 || CatCompar(cs[j], cs[i]) <= 0 {
      StrcmpSwap(cs[i].name, cs[j].name);
    }
    forall i, j, k | 0 <= i < |cs| && 0 <= j < |cs| && 0 <= k < |cs| && CatCompar(cs[i], cs[j]) <= 0 && CatCompar(cs[j], cs[k]) <= 0
      ensures CatCompar(cs[i], cs[k]) <= 0
    {
      StrcmpTransitive(cs[i].name, cs[j].name, cs[k].name);
    }
  }

  lemma CatsFit(cs: seq<TreeCat>, needle: TreeCat)
    ensures Fits(CatCompar, cs, needle)
  {
    forall i, j | 0 <= i < |cs| && 0 <= j < |cs| && CatCompar(cs[i], cs[j]) <= 0
      ensures CatCompar(cs[j], needle) <= 0 ==> CatCompar(cs[i], needle) <= 0
      ensures CatCompar(cs[j], needle) < 0 ==> CatCompar(cs[i], needle) < 0
    {
      StrcmpChained(cs[i].name, cs[j].name, needle.name);
    }
  }

  lemma Permuted(a: seq<TreeCat>, b: seq<TreeCat>)
    requires multiset(a) == multiset(b) && NoRepeats(Names(a))
    ensures NoRepeats(Names(b)) && (forall c :: c in a <==> c in b)
    ensures forall n :: n in Names(a) <==> n in Names(b)
  {
    PermutationWithin(a, b);
    PermutationWithin(b, a);
    forall i, j | 0 <= i < j < |a| ensures a[i] != a[j] {
      assert Names(a)[i] != Names(a)[j];
    }
    RepeatsPermuted(a, b);
    DistinctNames(a, b);
    NamesWithin(a, b);
    NamesWithin(b, a);
  }

  /** Distinct categories among ones with distinct names have distinct names. */
  lemma DistinctNames(a: seq<TreeCat>, b: seq<TreeCat>)
    requires NoRepeats(Names(a)) && NoRepeats(b) && Within(b, a)
    ensures NoRepeats(Names(b))
  {
    forall i, j | 0 <= i < j < |b| ensures Names(b)[i] != Names(b)[j] {
      assert b[i] in a && b[j] in a;
      var m :| 0 <= m < |a| && a[m] == b[i];
      var n :| 0 <= n < |a| && a[n] == b[j];
      assert Names(a)[m] == b[i].name && Names(a)[n] == b[j].name;
    }
  }

  lemma NamesWithin(a: seq<TreeCat>, b: seq<TreeCat>)
    requires Within(a, b)
    ensures forall n :: n in Names(a) ==> n in Names(b)
  {
    forall i | 0 <= i < |a| ensures Names(a)[i] in Names(b) {
      NameOf(b, a[i]);
    }
  }

  ghost predicate Covers(d: Vdb, names: seq<string>) {
    CoversAll(d.listing, names)
  }

  ghost predicate CoversAll(listing: seq<string>, names: seq<string>) {
    forall n :: n in listing && CategoryName(n) ==> n in names
  }

  ghost predicate OnlyFrom(names: seq<string>, listing: seq<string>) {
    forall n :: n in names ==> n in listing
  }

  lemma OnlyBefore(names: seq<string>, listing: seq<string>, n: nat)
    requires n < |listing|
    ensures OnlyFrom(names, listing[..n]) && listing[n] !in listing[..n] ==> listing[n] !in names
  {
  }

  lemma CoversNext(listing: seq<string>, n: nat, before: seq<string>, after: seq<string>)
    requires n < |listing| && CoversAll(listing[..n], before)
    requires forall x :: x in after <==> x in before || (x == listing[n] && CategoryName(x))
    ensures CoversAll(listing[..n + 1], after)
    ensures OnlyFrom(before, listing[..n]) ==> OnlyFrom(after, listing[..n + 1])
  {
    hide CategoryName;
    assert listing[..n + 1] == listing[..n] + [listing[n]];
  }

  /** tree_filter_cat. */
  method FilterCat(name: string) returns (i: nat)
    ensures i != 0 <==> CategoryName(name)
    ensures i != 0 ==> i == |name|
  {
    var founddash := false;
    i := 0;
    while i < |name|
      invariant i <= |name|
      invariant forall c :: c in name[..i] ==> CategoryChar(c)
      invariant founddash <==> '-' in name[..i]
      invariant i > 0 ==> name[0] != '-' && name[0] != '+' && name[0] != '.'
    {
      assert name[..i + 1] == name[..i] + [name[i]] && name[i] in name;
      if name[i] == '-' || name[i] == '+' || name[i] == '.' {
        founddash := founddash || name[i] == '-';
        if i == 0 {
          return 0;
        }
      } else if name[i] != '_' && !IsUpper(name[i]) && !IsLower(name[i]) && !IsDigit(name[i]) {
        return 0;
      }
      i := i + 1;
    }
    assert name[..i] == name;
    if !founddash && name != "virtual" {
      return 0;
    }
  }

  /** The names of the categories whose packages are cached. */
  ghost function KnownOf(cs: seq<TreeCat>): set<string>
    reads cs
  {
    set c | c in cs && c.pkgs != null :: c.name
  }

  lemma KnownPermuted(a: seq<TreeCat>, b: seq<TreeCat>)
    requires multiset(a) == multiset(b)
    ensures KnownOf(a) == KnownOf(b)
  {
    assert forall c :: c in a <==> c in multiset(a);
    assert forall c :: c in b <==> c in multiset(b);
  }

  /** tree_ctx of a VDB. */
  class Tree {
    const d: Vdb
    var cats: Array?<TreeCat>
    var complete: bool
    ghost var repr: set<object>

    constructor (d: Vdb)
      ensures Valid() && fresh(repr) && this.d == d
      ensures cats == null && !complete
    {
      this.d := d;
      cats, complete := null, false;
      repr := {this};
    }

    ghost predicate Valid()
      reads this, repr
    {
      && this in repr
      && (complete ==> cats != null && d.readable)
      && (cats != null ==>
            && cats in repr && cats.InOrder(CatCompar)
            && NoRepeats(Names(cats.eles))
            && (forall c :: c in cats.eles ==> Cached(c))
            && (forall b, c :: b in cats.eles && c in cats.eles && b != c && b.pkgs != null ==> b.pkgs != c.pkgs)
            && (complete ==> Covers(d, Names(cats.eles))))
    }

    ghost predicate Cached(c: TreeCat)
      reads this, repr
    {
      && c in repr && c.name in d.listing && CategoryName(c.name)
      && (c.pkgs != null ==> c.pkgs in repr)
      && c.Valid(d)
    }

    ghost function Known(): set<string>
      reads this, repr
      requires Valid()
    {
      if cats == null then {}
      else
        assert forall i :: 0 <= i < |cats.eles| ==> Cached(cats.eles[i]);
        assert forall i :: 0 <= i < |cats.eles| ==> cats.eles[i] in repr;
        KnownOf(cats.eles)
    }

    lemma Shape()
      requires Valid()
      ensures this in repr && (complete ==> cats != null && d.readable && Covers(d, Names(cats.eles)))
      ensures cats != null ==> cats in repr && NoRepeats(Names(cats.eles))
      ensures cats != null ==> forall c :: c in cats.eles ==> c.name in d.listing && CategoryName(c.name)
    {
      hide CategoryName, NoRepeats, Names, CatCompar, Covers, TreeCat.Valid;
    }

    lemma KnownIff(c: TreeCat)
      requires Valid() && cats != null && c in cats.eles
      ensures c.pkgs != null <==> c.name in Known()
    {
      hide CategoryName, PkgCompar, CatPkgs;
      var i :| 0 <= i < |cats.eles| && cats.eles[i] == c;
      forall j | 0 <= j < |cats.eles| && cats.eles[j].name == c.name ensures cats.eles[j] == c {
        assert Names(cats.eles)[i] == Names(cats.eles)[j];
      }
    }

    /** Reports from one category of the tree. */
    method Visit(c: TreeCat, sorted: bool, q: Option<AtomCtx>) returns (found: seq<Pkg>)
      requires Valid() && cats != null && c in cats.eles
      requires Ordered(d) && QueryOk(d, q)
      modifies repr
      ensures Valid() && fresh(repr - old(repr))
      ensures cats == old(cats) && cats.eles == old(cats.eles) && cats.sorted == old(cats.sorted) && complete == old(complete)
      ensures multiset(found) == multiset(CatAnswer(d, Asking(q, sorted, old(Known())), c.name))
      ensures Known() == old(Known()) + Present(d, [c.name])
      ensures sorted ==> SortedBy(PkgCompar, found)
    {
      hide PkgCompar, QueryOk, Ordered, Keep, CatPkgs, Findable, Valid;
      KnownIff(c);
      ghost var was := cats.eles;
      found := Ask(c, sorted, q);
      KnownIs();
      KnownIff(c);
    }

    lemma KnownIs()
      requires Valid() && cats != null
      ensures forall n :: n in Known() <==> exists c :: c in cats.eles && c.pkgs != null && c.name == n
    {
      hide CategoryName, PkgCompar, CatPkgs;
    }

    /** The category is asked, and the others stay as they are. */
    method Ask(c: TreeCat, sorted: bool, q: Option<AtomCtx>) returns (found: seq<Pkg>)
      requires Valid() && cats != null && c in cats.eles
      requires Ordered(d) && QueryOk(d, q)
      modifies repr
      ensures Valid() && fresh(repr - old(repr))
      ensures cats == old(cats) && cats.eles == old(cats.eles) && cats.sorted == old(cats.sorted) && complete == old(complete)
      ensures forall o :: o in cats.eles && o != c ==> o.pkgs == old(o.pkgs)
      ensures c.pkgs != null <==> old(c.pkgs) != null || c.name in d.content
      ensures var missed := !Findable(q) && (sorted || old(c.pkgs) != null);
        multiset(found) == multiset(if missed then [] else Keep(Hits(q), CatPkgs(d, c.name)))
      ensures sorted ==> SortedBy(PkgCompar, found)
    {
      hide PkgCompar, QueryOk, Ordered, Keep, CatPkgs, Findable, NoRepeats, Names, CategoryName, CatCompar, Covers,
        TreeCat.Valid;
      found := c.Foreach(d, sorted, q);
      if c.pkgs != null {
        repr := repr + {c.pkgs};
      }
    }

    /** Looks the category up in the cache; the search sorts it. */
    method FindCat(name: string) returns (r: TreeCat?)
      requires Valid() && cats != null
      modifies cats
      ensures Valid() && cats.sorted && multiset(cats.eles) == multiset(old(cats.eles)) && Known() == old(Known())
      ensures r != null ==> r in cats.eles && r.name == name
      ensures r == null ==> name !in Names(cats.eles)
    {
      hide CategoryName, Strcmp, NoRepeats, Names, KnownOf, CatCompar, TreeCat.Valid;
      var needle := new TreeCat(name);
      ghost var was := cats.eles;
      var at := Search(cats, needle);
      Permuted(was, cats.eles);
      KnownPermuted(was, cats.eles);
      r := if at.Some? then cats.eles[at.value] else null;
    }

    /** A category that is not cached yet. */
    method AddCat(name: string) returns (c: TreeCat)
      requires Valid() && cats != null && !complete && name in d.listing && CategoryName(name)
      requires name !in Names(cats.eles)
      modifies this`repr, cats
      ensures Valid() && fresh(repr - old(repr)) && fresh(c) && c.name == name
      ensures cats.eles == old(cats.eles) + [c] && Known() == old(Known())
    {
      hide CategoryName, Strcmp, PkgCompar, CatPkgs, Names, NoRepeats, Covers;
      c := new TreeCat(name);
      NamesSnoc(cats.eles, c);
      cats.Append(c);
      repr := repr + {c};
    }

    /** The category of that name, added when it is not there; the cache is searched only if asked to. */
    method Provide(name: string, search: bool) returns (c: TreeCat)
      requires Valid() && cats != null && !complete && name in d.listing && CategoryName(name)
      requires !search ==> name !in Names(cats.eles)
      modifies this`repr, cats
      ensures Valid() && fresh(repr - old(repr)) && Known() == old(Known())
      ensures c in cats.eles && c.name == name
      ensures forall n :: n in Names(cats.eles) <==> n in old(Names(cats.eles)) || n == name
    {
      hide CategoryName, Strcmp, PkgCompar, CatPkgs, Names, NoRepeats, Covers, Cached;
      if search {
        ghost var was := cats.eles;
        var found := FindCat(name);
        Permuted(was, cats.eles);
        if found != null {
          NameOf(cats.eles, found);
          return found;
        }
      }
      ghost var was := cats.eles;
      c := AddCat(name);
      NamesSnoc(was, c);
    }

    method Start()
      requires Valid() && cats == null
      modifies this
      ensures Valid() && fresh(repr - old(repr)) && complete == old(complete)
      ensures cats != null && cats.eles == [] && Known() == {}
    {
      cats := new Array<TreeCat>();
      repr := repr + {cats};
    }

    /** The traversal once all categories are known. */
    method FromCache(sorted: bool, q: Option<AtomCtx>) returns (found: seq<Pkg>)
      requires Valid() && complete && FileSystem(d) && Ordered(d) && QueryOk(d, q)
      requires q.Some? ==> q.value.category.None?
      modifies repr
      ensures Valid() && fresh(repr - old(repr)) && complete
      ensures multiset(found) == multiset(Answer(d, Asking(q, sorted, old(Known()))))
      ensures Known() == old(Known()) + Touched(d, q)
      ensures sorted ==> SortedBy(Listed, found)
    {
      hide PkgCompar, QueryOk, Ordered, CatAnswer, NoRepeats, Names, CategoryName, CatCompar, Listed, AnswerIn, Present,
        QueryCategories, Known, Covers, Valid;
      Shape();
      ghost var asked := Asking(q, sorted, Known());
      if sorted {
        SortCats();
      }
      ghost var cs := cats.eles;
      found := [];
      var n := 0;
      AnswerNone(d, asked, cs);
      while n < |cats.eles|
        invariant cats != null && Valid() && complete && fresh(repr - old(repr)) && cats.eles == cs && n <= |cs|
        invariant sorted ==> SortedBy(CatCompar, cs)
        invariant multiset(found) == multiset(AnswerIn(d, asked, Names(cs[..n])))
        invariant Known() == asked.known + Present(d, Names(cs[..n]))
        invariant sorted ==> SortedBy(Listed, found)
      {
        var c := cats.eles[n];
        Shape();
        AnswerNext(d, asked, Known(), cs, n);
        var more := Visit(c, sorted, q);
        if sorted {
          SortedNext(d, asked, cs, n, found, more);
        }
        found := found + more;
        n := n + 1;
      }
      assert cs[..n] == cs;
      Shape();
      Everywhere(d, asked, cs);
    }

    /** One entry of the directory: a category is provided, and asked unless the order matters. */
    method Meet(name: string, search: bool, sorted: bool, q: Option<AtomCtx>)
      returns (found: seq<Pkg>)
      requires Valid() && cats != null && !complete && name in d.listing && Ordered(d) && QueryOk(d, q)
      requires !search ==> name !in Names(cats.eles)
      modifies repr
      ensures Valid() && fresh(repr - old(repr)) && cats != null && !complete
      ensures forall x :: x in Names(cats.eles) <==> x in old(Names(cats.eles)) || (x == name && CategoryName(name))
      ensures var asked := CategoryName(name) && !sorted;
        && multiset(found) == multiset(if asked then CatAnswer(d, Asking(q, sorted, old(Known())), name) else [])
        && Known() == old(Known()) + if asked then Present(d, [name]) else {}
    {
      hide PkgCompar, QueryOk, Ordered, CatAnswer, NoRepeats, Names, CategoryName, Valid, Present, Covers, Known;
      found := [];
      Shape();
      var valid := FilterCat(name);
      if valid != 0 {
        var c := Provide(name, search);
        if !sorted {
          found := Visit(c, sorted, q);
        }
      }
    }

    /** The walk over the directory: makes every category known, and reports on the way unless
        the order matters. */
    method Populate(sorted: bool, q: Option<AtomCtx>) returns (found: seq<Pkg>)
      requires Valid() && !complete && d.readable && FileSystem(d) && Ordered(d) && QueryOk(d, q)
      requires q.Some? ==> q.value.category.None?
      modifies repr
      ensures Valid() && fresh(repr - old(repr)) && complete
      ensures !sorted ==> multiset(found) == multiset(Answer(d, Asking(q, sorted, old(Known()))))
      ensures Known() == if sorted then old(Known()) else old(Known()) + Touched(d, q)
    {
      hide PkgCompar, QueryOk, Ordered, CatAnswer, NoRepeats, Names, CategoryName, CatCompar, Listed, AnswerIn, Valid,
        Keep, Present, Known, CoversAll, OnlyFrom, FileSystem;
      Shape();
      ghost var asked := Asking(q, sorted, Known());
      var domatch := cats != null;
      if cats == null {
        KnownNone();
        Start();
      }
      found := [];
      var n := 0;
      NoneYet(d, asked, cats.eles);
      while n < |d.listing|
        invariant Valid() && !complete && fresh(repr - old(repr)) && cats != null && n <= |d.listing|
        invariant CoversAll(d.listing[..n], Names(cats.eles))
        invariant !domatch ==> OnlyFrom(Names(cats.eles), d.listing[..n])
        invariant !sorted ==> multiset(found) == multiset(AnswerIn(d, asked, Keep(CategoryName, d.listing[..n])))
        invariant Known() == if sorted then asked.known else asked.known + Present(d, Keep(CategoryName, d.listing[..n]))
      {
        ghost var names := Names(cats.eles);
        ListingNext(d, asked, n);
        OnlyBefore(names, d.listing, n);
        var more := Meet(d.listing[n], domatch, sorted, q);
        CoversNext(d.listing, n, names, Names(cats.eles));
        found := found + more;
        n := n + 1;
      }
      assert d.listing[..n] == d.listing;
      Finish();
    }

    method Finish()
      requires Valid() && d.readable && cats != null && Covers(d, Names(cats.eles))
      modifies this`complete
      ensures Valid() && complete && Known() == old(Known())
    {
      hide CategoryName, NoRepeats, Names, CatCompar, KnownOf, Covers, TreeCat.Valid;
      complete := true;
    }

    /** tree_foreach_pkg. Whatever was asked before, the query reports what the plain filter finds, except
        that a misread name is not found in the categories that are searched in the cache. */
    method Foreach(sorted: bool, q: Option<AtomCtx>) returns (found: seq<Pkg>)
      requires Valid() && FileSystem(d) && Ordered(d) && QueryOk(d, q)
      modifies repr
      ensures Valid() && fresh(repr - old(repr))
      ensures multiset(found) == multiset(Answer(d, Asking(q, sorted, old(Known()))))
      ensures Known() == old(Known()) + Touched(d, q)
      ensures sorted ==> SortedBy(Listed, found)
      decreases if complete then 0 else 1
    {
      hide Ordered, Keep, CatAnswer, NoRepeats, Names, CategoryName, CatCompar, Listed, AnswerIn, Present, Known,
        VersionlessName, MisreadName;
      ghost var asked := Asking(q, sorted, Known());
      var filtercat := q.Some? && q.value.category.Some?;
      if filtercat && cats != null {
        var c := FindCat(q.value.category.value);
        if c != null {
          found := VisitOne(c, sorted, q);
          return;
        } else if complete {
          NotThere(d, asked);
          return [];
        }
      }
      if complete {
        found := FromCache(sorted, q);
        return;
      }
      if filtercat {
        if q.value.category.value !in d.dirs {
          NotThere(d, asked);
          return [];
        }
        if cats == null {
          KnownNone();
          Start();
          NoneYet(d, asked, cats.eles);
        }
        var c := AddCat(q.value.category.value);
        found := VisitOne(c, sorted, q);
      } else {
        if !d.readable {
          NotThere(d, asked);
          return [];
        }
        found := Populate(sorted, q);
        if sorted {
          found := Foreach(sorted, q);
        }
      }
    }

    lemma KnownNone()
      requires Valid() && cats == null
      ensures Known() == {}
    {
    }

    method VisitOne(c: TreeCat, sorted: bool, q: Option<AtomCtx>) returns (found: seq<Pkg>)
      requires Valid() && cats != null && c in cats.eles && q.Some? && q.value.category == Some(c.name)
      requires Ordered(d) && QueryOk(d, q)
      modifies repr
      ensures Valid() && fresh(repr - old(repr))
      ensures multiset(found) == multiset(Answer(d, Asking(q, sorted, old(Known()))))
      ensures Known() == old(Known()) + Touched(d, q)
      ensures sorted ==> SortedBy(Listed, found)
    {
      hide PkgCompar, QueryOk, Ordered, CatAnswer, AnswerIn, Present, Known;
      ghost var asked := Asking(q, sorted, Known());
      found := Visit(c, sorted, q);
      AnswerOne(d, asked, c.name);
      if sorted {
        FilterCats(d, asked, c.name);
        PermutationWithin(found, CatAnswer(d, asked, c.name));
        Joined([], found, c.name);
        assert [] + found == found;
      }
    }

    method SortCats()
      requires Valid() && complete
      modifies cats
      ensures Valid() && complete && SortedBy(CatCompar, cats.eles) && Known() == old(Known())
    {
      hide CategoryName, Strcmp, NoRepeats, Names, CatCompar, KnownOf, TreeCat.Valid;
      ghost var was := cats.eles;
      CatsConsistent(cats.eles);
      cats.Sort(CatCompar);
      Permuted(was, cats.eles);
      KnownPermuted(was, cats.eles);
    }
  }

  lemma NoneYet(d: Vdb, asked: Asking, cs: seq<TreeCat>)
    ensures AnswerIn(d, asked, Keep(CategoryName, d.listing[..0])) == []
    ensures Present(d, Keep(CategoryName, d.listing[..0])) == {}
    ensures CoversAll(d.listing[..0], Names(cs)) && (cs == [] ==> OnlyFrom(Names(cs), d.listing[..0]))
  {
  }

  lemma NamesSnoc(cs: seq<TreeCat>, c: TreeCat)
    ensures Names(cs + [c]) == Names(cs) + [c.name]
    ensures NoRepeats(Names(cs)) && c.name !in Names(cs) ==> NoRepeats(Names(cs + [c]))
  {
    NamesAppend(cs, [c]);
    assert Names([c]) == [c.name];
  }

  lemma NameOf(cs: seq<TreeCat>, c: TreeCat)
    requires c in cs
    ensures c.name in Names(cs)
  {
    var i :| 0 <= i < |cs| && cs[i] == c;
    assert Names(cs)[i] == c.name;
  }

  /** A category is asked once in a traversal: the others do not change what is known of it. */
  lemma AskedOnce(d: Vdb, asked: Asking, known: set<string>, before: seq<string>, c: string)
    requires c !in before && known == asked.known + Present(d, before)
    ensures CatAnswer(d, asked.(known := known), c) == CatAnswer(d, asked, c)
  {
    hide Keep, CatPkgs, Findable;
  }

  lemma PresentAppend(d: Vdb, cs: seq<string>, c: string)
    ensures Present(d, cs + [c]) == Present(d, cs) + Present(d, [c])
  {
  }

  lemma ListingNext(d: Vdb, asked: Asking, n: nat)
    requires n < |d.listing| && FileSystem(d)
    ensures d.listing[n] !in d.listing[..n]
    ensures var kept, name := Keep(CategoryName, d.listing[..n]), d.listing[n];
      var next := Keep(CategoryName, d.listing[..n + 1]);
      && AnswerIn(d, asked, next) == AnswerIn(d, asked, kept) + (if CategoryName(name) then CatAnswer(d, asked, name) else [])
      && Present(d, next) == Present(d, kept) + (if CategoryName(name) then Present(d, [name]) else {})
      && CatAnswer(d, asked.(known := asked.known + Present(d, kept)), name) == CatAnswer(d, asked, name)
  {
    hide AnswerIn, Keep, CatAnswer, CategoryName;
    var name := d.listing[n];
    var kept := Keep(CategoryName, d.listing[..n]);
    assert d.listing[0..n] == d.listing[..n] && d.listing[0..n + 1] == d.listing[..n + 1];
    KeepNext(CategoryName, d.listing, 0, n);
    KeepElements(CategoryName, d.listing[..n]);
    AskedOnce(d, asked, asked.known + Present(d, kept), kept, name);
    if CategoryName(name) {
      AnswerAppend(d, asked, kept, [name]);
      AnswerOne(d, asked, name);
      PresentAppend(d, kept, name);
    } else {
      assert kept + [] == kept;
    }
  }

  lemma NotThere(d: Vdb, asked: Asking)
    requires FileSystem(d)
    requires var q := asked.q; if q.Some? && q.value.category.Some? then q.value.category.value !in d.dirs else !d.readable
    ensures Answer(d, asked) == [] && Touched(d, asked.q) == {}
  {
    hide Keep;
    if asked.q.Some? && asked.q.value.category.Some? {
      AnswerOne(d, asked, asked.q.value.category.value);
      KeepNone(Hits(asked.q), []);
    }
  }

  lemma AnswerNone(d: Vdb, asked: Asking, cs: seq<TreeCat>)
    ensures AnswerIn(d, asked, Names(cs[..0])) == [] && Present(d, Names(cs[..0])) == {}
  {
  }

  lemma AnswerNext(d: Vdb, asked: Asking, known: set<string>, cs: seq<TreeCat>, n: nat)
    requires n < |cs| && NoRepeats(Names(cs)) && known == asked.known + Present(d, Names(cs[..n]))
    ensures AnswerIn(d, asked, Names(cs[..n + 1])) == AnswerIn(d, asked, Names(cs[..n])) + CatAnswer(d, asked, cs[n].name)
    ensures Present(d, Names(cs[..n + 1])) == Present(d, Names(cs[..n])) + Present(d, [cs[n].name])
    ensures CatAnswer(d, asked.(known := known), cs[n].name) == CatAnswer(d, asked, cs[n].name)
  {
    hide AnswerIn, CatAnswer;
    assert cs[..n + 1][..n] == cs[..n];
    forall i | 0 <= i < n ensures Names(cs[..n])[i] != cs[n].name {
      assert Names(cs)[i] != Names(cs)[n];
    }
    AskedOnce(d, asked, known, Names(cs[..n]), cs[n].name);
    AnswerAppend(d, asked, Names(cs[..n]), [cs[n].name]);
    AnswerOne(d, asked, cs[n].name);
    PresentAppend(d, Names(cs[..n]), cs[n].name);
  }

  /** A sorted query does not depend on what is cached. */
  lemma {:induction false} SortedAnswer(d: Vdb, a: Asking, b: Asking, cs: seq<string>)
    requires a.q == b.q && a.sorted && b.sorted
    ensures AnswerIn(d, a, cs) == AnswerIn(d, b, cs)
  {
    hide Keep, CatPkgs, Findable;
    if cs != [] {
      SortedAnswer(d, a, b, cs[..|cs| - 1]);
    }
  }

  /** Visiting the categories in order lists the packages in order. */
  lemma SortedNext(d: Vdb, asked: Asking, cs: seq<TreeCat>, n: nat, found: seq<Pkg>, more: seq<Pkg>)
    requires n < |cs| && SortedBy(CatCompar, cs) && NoRepeats(Names(cs)) && Ordered(d)
    requires multiset(found) == multiset(AnswerIn(d, asked, Names(cs[..n]))) && SortedBy(Listed, found)
    requires multiset(more) == multiset(CatAnswer(d, asked, cs[n].name)) && SortedBy(PkgCompar, more)
    ensures SortedBy(Listed, found + more)
  {
    hide PkgCompar, Ordered, CatAnswer, AnswerIn;
    var c := cs[n].name;
    PermutationWithin(found, AnswerIn(d, asked, Names(cs[..n])));
    PermutationWithin(more, CatAnswer(d, asked, c));
    AnswerCats(d, asked, Names(cs[..n]));
    FilterCats(d, asked, c);
    forall i | 0 <= i < |found| ensures Strcmp(found[i].cat, c) < 0 {
      var m :| 0 <= m < n && Names(cs[..n])[m] == found[i].cat;
      assert CatCompar(cs[m], cs[n]) <= 0 && Names(cs)[m] != Names(cs)[n];
    }
    Joined(found, more, c);
  }

  lemma Joined(found: seq<Pkg>, more: seq<Pkg>, c: string)
    requires SortedBy(Listed, found) && SortedBy(PkgCompar, more)
    requires forall i :: 0 <= i < |found| ==> Strcmp(found[i].cat, c) < 0
    requires forall i :: 0 <= i < |more| ==> more[i].cat == c
    ensures SortedBy(Listed, found + more)
  {
    hide PkgCompar, Strcmp;
  }

  lemma FilterCats(d: Vdb, asked: Asking, c: string)
    requires Ordered(d)
    ensures forall p :: p in CatAnswer(d, asked, c) ==> PkgOk(p, c)
  {
    hide PkgOk, Ordered, CatPkgs, Keep, Findable;
    CatPkgsOk(d, c);
    KeepElements(Hits(asked.q), CatPkgs(d, c));
  }

  lemma {:induction false} AnswerCats(d: Vdb, asked: Asking, names: seq<string>)
    requires Ordered(d)
    ensures forall p :: p in AnswerIn(d, asked, names) ==> p.cat in names
    ensures forall p :: p in AnswerIn(d, asked, names) ==> PkgOk(p, p.cat)
  {
    hide Ordered, CatAnswer;
    if names != [] {
      AnswerCats(d, asked, names[..|names| - 1]);
      FilterCats(d, asked, names[|names| - 1]);
    }
  }

  /** All categories of a complete cache are the categories of the directory. */
  lemma Everywhere(d: Vdb, asked: Asking, cs: seq<TreeCat>)
    requires FileSystem(d) && d.readable && (asked.q.Some? ==> asked.q.value.category.None?)
    requires NoRepeats(Names(cs)) && forall c :: c in cs ==> c.name in d.listing && CategoryName(c.name)
    requires Covers(d, Names(cs))
    ensures multiset(AnswerIn(d, asked, Names(cs))) == multiset(Answer(d, asked))
    ensures Present(d, Names(cs)) == Touched(d, asked.q)
  {
    hide AnswerIn, CategoryName, NoRepeats;
    KeepElements(CategoryName, d.listing);
    KeepDistinct(CategoryName, d.listing);
    forall n ensures n in Names(cs) <==> n in Keep(CategoryName, d.listing) {
      if n in Names(cs) {
        var i :| 0 <= i < |cs| && Names(cs)[i] == n;
        assert cs[i] in cs;
      }
    }
    SameNames(Names(cs), Keep(CategoryName, d.listing));
    AnswerPermuted(d, asked, Names(cs), Keep(CategoryName, d.listing));
  }

  method Search(cats: Array<TreeCat>, needle: TreeCat) returns (r: Option<nat>)
    requires cats.InOrder(CatCompar)
    modifies cats
    ensures cats.sorted && cats.InOrder(CatCompar) && multiset(cats.eles) == multiset(old(cats.eles))
    ensures r.Some? ==> r.value < |cats.eles| && cats.eles[r.value].name == needle.name
    ensures r.None? ==> needle.name !in Names(cats.eles)
  {
    CatsConsistent(cats.eles);
    CatsFit(cats.eles, needle);
    r := cats.BinSearch(needle, CatCompar);
  }

  // ----- histories -----

  datatype Query = Query(sorted: bool, atom: Option<AtomCtx>)

  /** The categories cached after a history of queries. */
  function KnownAfter(d: Vdb, history: seq<Query>): set<string> {
    if history == [] then {}
    else KnownAfter(d, history[..|history| - 1]) + Touched(d, history[|history| - 1].atom)
  }

  /** Cache transparency: after any history of queries the next one reports what a fresh tree would
      report, in the same order as far as an order was asked for, exactly when the answer is sorted, or
      misses nothing in the categories that the history has cached. */
  method Transparent(d: Vdb, history: seq<Query>, next: Query)
    returns (cached: seq<Pkg>, direct: seq<Pkg>)
    requires FileSystem(d) && Ordered(d)
    requires forall i :: 0 <= i < |history| ==> QueryOk(d, history[i].atom)
    requires QueryOk(d, next.atom)
    ensures var before := Asking(next.atom, next.sorted, KnownAfter(d, history));
      && multiset(cached) == multiset(Answer(d, before))
      && (multiset(cached) == multiset(direct) <==> next.sorted || MissesNothing(d, before, QueryCategories(d, next.atom)))
    ensures !next.sorted || Findable(next.atom) ==> multiset(direct) == multiset(Wanted(d, next.atom))
    ensures next.sorted ==> SortedBy(Listed, cached) && SortedBy(Listed, direct)
  {
    hide QueryOk, Ordered, Wanted, Listed, Touched, Answer, MissesNothing, Findable;
    var tree := new Tree(d);
    var i := 0;
    while i < |history|
      invariant i <= |history| && tree.Valid() && fresh(tree.repr) && tree.d == d
      invariant tree.Known() == KnownAfter(d, history[..i])
    {
      assert history[..i + 1][..i] == history[..i];
      var _ := tree.Foreach(history[i].sorted, history[i].atom);
      i := i + 1;
    }
    assert history[..i] == history;
    cached := tree.Foreach(next.sorted, next.atom);
    var other := new Tree(d);
    direct := other.Foreach(next.sorted, next.atom);
    CachedIff(d, Asking(next.atom, next.sorted, KnownAfter(d, history)));
  }

  /** What a query answers with and without categories cached before. */
  lemma CachedIff(d: Vdb, asked: Asking)
    ensures multiset(Answer(d, asked)) == multiset(Answer(d, asked.(known := {}))) <==>
      asked.sorted || MissesNothing(d, asked, QueryCategories(d, asked.q))
    ensures !asked.sorted || Findable(asked.q) ==> multiset(Answer(d, asked.(known := {}))) == multiset(Wanted(d, asked.q))
  {
    hide AnswerIn, WantedIn, NoHit, QueryCategories, Findable;
    var cs := QueryCategories(d, asked.q);
    AnswerIsWantedIff(d, asked, cs);
    AnswerIsWantedIff(d, asked.(known := {}), cs);
    if asked.sorted {
      SortedAnswer(d, asked, asked.(known := {}), cs);
    }
  }
}
