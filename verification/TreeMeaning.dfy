/** What a query of a tree of installed packages stands for: the packages of a directory that have the name,
    and whose version the operator asks for. */
module TreeMeaning {
  import opened CStrings
  import opened Atom
  import opened AtomCompare
  import opened AtomOrder
  import opened AtomMatch
  import opened Arrays
  import opened TreeQuery

  // ----- packages of a directory -----

  /** The package that a directory of that name in category `c` is. */
  predicate PackageOf(p: Pkg, c: string, file: string) {
    && p.cat == c && p.file == file && p.atom == Some(Explode(file, Some(c)))
    && p.name == (if Explode(file, Some(c)).pn.Some? then Explode(file, Some(c)).pn.value else "")
  }

  /** The directories among the entries of a category, "." and ".." apart, are its packages, in order. */
  lemma {:induction false} LoadedAre(c: string, es: seq<Entry>)
    ensures var files := Keep((e: Entry) => e.dir && e.name != "." && e.name != "..", es);
      && |Loaded(c, es)| == |files|
      && forall i :: 0 <= i < |files| ==> PackageOf(Loaded(c, es)[i], c, files[i].name)
  {
    hide Explode;
    if es != [] {
      LoadedAre(c, es[..|es| - 1]);
    }
  }

  // ----- what a query asks of a package -----

  /** A query for a version with an operator, in a category or in any, hits exactly the packages of that name
      whose version stands to the query's as the operator says. */
  lemma VersionHits(p: Pkg, c: string, q: AtomCtx, op: Operator, anywhere: bool)
    requires PkgOk(p, c) && Plain(q) && (IsOrderOp(op) || op == OpEqual || op == OpPvEqual)
    ensures var asked := if anywhere then Query(q, op, NoBlocker).(category := None) else Query(q, op, NoBlocker);
      Hit(Some(asked), p) <==>
        p.name == q.pn.value && (anywhere || q.category == Some(c)) && Holds(op, Compared(p.atom.value, q, op, false))
  {
    hide Compare, AtomSign, PvSign, Explode;
    var d := p.atom.value;
    var asked := Query(q, op, NoBlocker);
    if p.name == q.pn.value {
      var here := q.(category := Some(c));
      OperatorMatches(d, here, op, false);
      AnyCategoryOp(d, q, op);
      SignOfCategory(d, q, here);
      if q.category == Some(c) {
        assert here == q;
      } else {
        OtherCategory(d, asked);
      }
    }
  }

  lemma AnyCategoryOp(d: AtomCtx, q: AtomCtx, op: Operator)
    requires Plain(d) && Plain(q)
    ensures Compare(d, Query(q, op, NoBlocker).(category := None), DEFAULT)
         == Compare(d, Query(q.(category := d.category), op, NoBlocker), DEFAULT)
  {
    hide CompareMatch, NumbersCompare, SuffixStop, SuffixGet, LetterCode;
  }

  lemma SignOfCategory(d: AtomCtx, q: AtomCtx, r: AtomCtx)
    requires r == q.(category := r.category)
    ensures AtomSign(d, r) == AtomSign(d, q) && PvSign(d, r) == PvSign(d, q)
  {
    hide NumbersCompare, SuffixSignFrom, LetterCode;
  }

  lemma OtherCategory(d: AtomCtx, q: AtomCtx)
    requires q.category.Some? && d.category != q.category && q.blocker == NoBlocker
    ensures Compare(d, q, DEFAULT) == NotEqual
  {
    hide FullVersionCompare, CompareMatch;
  }

  /** A query without a version hits all versions of the name, in its category or in any; one without a name all
      packages. */
  lemma NameHits(p: Pkg, c: string, q: AtomCtx)
    requires PkgOk(p, c) && q.blocker == NoBlocker && q.pv.None? && q.slot.None? && q.repo.None?
    ensures Hit(Some(q), p) <==> (q.pn.Some? ==> q.pn == Some(p.name) && (q.category.Some? ==> q.category == Some(c)))
    ensures Hit(None, p)
  {
    hide Compare, Explode;
    NameMatches(p.atom.value, q);
  }

  // ----- the report -----

  /** The filter's report has every package that is hit, of the queried category or of all that have a category's
      name, as often as the directory lists it. */
  lemma {:induction false} WantedCounts(d: Vdb, q: Option<AtomCtx>, cs: seq<string>, p: Pkg)
    requires NoRepeats(cs)
    ensures multiset(WantedIn(d, q, cs))[p] == (if Hit(q, p) && p.cat in cs && p.cat in d.content then multiset(Loaded(p.cat, d.content[p.cat]))[p] else 0)
  {
    hide Hit, Loaded;
    if cs != [] {
      var r, c := cs[..|cs| - 1], cs[|cs| - 1];
      WantedCounts(d, q, r, p);
      assert cs == r + [c];
      CategoryCounts(d, q, c, p);
    }
  }

  lemma CategoryCounts(d: Vdb, q: Option<AtomCtx>, c: string, p: Pkg)
    ensures multiset(Keep(Hits(q), CatPkgs(d, c)))[p]
         == if Hit(q, p) && p.cat == c && c in d.content then multiset(Loaded(c, d.content[c]))[p] else 0
  {
    hide Hit, Keep, Loaded;
    KeepCounts(Hits(q), CatPkgs(d, c));
    if c in d.content {
      LoadedCat(c, d.content[c]);
      assert p in multiset(Loaded(c, d.content[c])) ==> p in Loaded(c, d.content[c]);
    }
  }

  lemma {:induction false} LoadedCat(c: string, es: seq<Entry>)
    ensures forall p :: p in Loaded(c, es) ==> p.cat == c
  {
    hide Explode;
    if es != [] {
      LoadedCat(c, es[..|es| - 1]);
    }
  }

  // ----- category names -----

  predicate Alphanumeric(s: string) {
    s != [] && forall c :: c in s ==> IsDigit(c) || IsLower(c) || IsUpper(c)
  }

  /** Words joined by a hyphen name a category, and may hold more of the characters allowed; a word alone does
      not, apart from `virtual`; nor what starts with a hyphen, a plus or a dot, or holds any other character. */
  lemma CategoryNames(a: string, b: string, c: char)
    requires Alphanumeric(a) && Alphanumeric(b)
    ensures CategoryName(a + "-" + b) && CategoryName(a + "_" + b + "-" + a) && CategoryName(a + "+" + b + "." + a + "-" + b)
    ensures CategoryName("_" + a + "-" + b)
    ensures CategoryName(a) <==> a == "virtual"
    ensures !CategoryName("-" + a) && !CategoryName("+" + a + "-" + b) && !CategoryName("." + a + "-" + b)
    ensures !CategoryName("") && !CategoryName(a + "_" + b)
    ensures !(IsDigit(c) || IsLower(c) || IsUpper(c) || c in "_-+.") ==> !CategoryName(a + "-" + b + [c])
  {
    assert a[0] in a && 'v' in "virtual";
    assert '_' in a + "_" + b && '_' !in "virtual";
    assert c in a + "-" + b + [c];
  }
}
