/** `tree_match_atom` on a tree of installed packages. */
module TreeMatch {
  import opened CStrings
  import opened Atom
  import opened AtomCompare
  import opened AtomOrder
  import opened Arrays
  import opened TreeQuery
  import opened TreeCache

  datatype MatchFlags = MatchFlags(latest: bool, first: bool, withVirtual: bool, withAcct: bool, sort: bool)

  /** Packages that the flags leave out by their category. */
  predicate NotVirtual(p: Pkg) {
    p.cat != "virtual"
  }

  predicate NotAcct(p: Pkg) {
    !("acct-" <= p.cat)
  }

  function Candidates(s: seq<Pkg>, f: MatchFlags): seq<Pkg> {
    var t := if f.withVirtual then s else Keep(NotVirtual, s);
    if f.withAcct then t else Keep(NotAcct, t)
  }

  /** What the flags leave: the packages outside `virtual`, unless virtual ones are asked for, and outside the
      categories acct-..., unless those are asked for, each as often as it was there. */
  lemma CandidatesLeft(s: seq<Pkg>, f: MatchFlags)
    ensures forall p :: (
      multiset(Candidates(s, f))[p]
        == if (f.withVirtual || p.cat != "virtual") && (f.withAcct || !("acct-" <= p.cat)) then multiset(s)[p] else 0)
  {
    KeepCounts(NotVirtual, s);
    KeepCounts(NotAcct, if f.withVirtual then s else Keep(NotVirtual, s));
    hide Keep;
  }

  predicate SameName(a: Pkg, b: Pkg) {
    a.cat == b.cat && PkgAtom(a).pn == PkgAtom(b).pn
  }

  /** Each element that is not of the same package as the one before it. */
  function Firsts(s: seq<Pkg>): seq<Pkg> {
    if s == [] then []
    else Firsts(s[..|s| - 1]) + if |s| > 1 && SameName(s[|s| - 2], s[|s| - 1]) then [] else [s[|s| - 1]]
  }

  /** One package for each category and name that occurs in `s`, and no other of that name is newer. */
  ghost predicate Best(r: seq<Pkg>, s: seq<Pkg>) {
    Within(r, s) && OnePerName(r) && forall i :: 0 <= i < |s| ==> Represented(s[i], r)
  }

  ghost predicate OnePerName(r: seq<Pkg>) {
    forall i, j :: 0 <= i < j < |r| ==> !SameName(r[i], r[j])
  }

  ghost predicate Represented(p: Pkg, r: seq<Pkg>) {
    exists i :: 0 <= i < |r| && Represents(r[i], p)
  }

  ghost predicate Represents(best: Pkg, p: Pkg) {
    SameName(best, p) && NotNewer(Compare(PkgAtom(p), PkgAtom(best), DEFAULT))
  }

  predicate AllListed(s: seq<Pkg>) {
    forall i :: 0 <= i < |s| ==> PkgOk(s[i], s[i].cat)
  }

  /** In order, the earlier of two packages of one name is not older. */
  lemma EarlierNotOlder(a: Pkg, b: Pkg)
    requires PkgOk(a, a.cat) && PkgOk(b, b.cat)
    requires Listed(a, b) <= 0 && SameName(a, b)
    ensures Represents(a, b)
  {
    CompareSwap(a.atom.value, b.atom.value);
    hide Compare;
  }

  /** What stands between two packages of one name has that name. */
  lemma Between(a: Pkg, b: Pkg, c: Pkg)
    requires PkgOk(a, a.cat) && PkgOk(b, b.cat) && PkgOk(c, c.cat)
    requires Listed(a, b) <= 0 && Listed(b, c) <= 0 && SameName(a, c)
    ensures SameName(b, c)
  {
    hide Compare;
    StrcmpSwap(a.cat, b.cat);
    NotAfterBoth(a.cat, b.cat);
    NotAfterBoth(a.name, b.name);
  }

  lemma NotAfterBoth(x: string, y: string)
    ensures Strcmp(x, y) <= 0 && Strcmp(y, x) <= 0 ==> x == y
  {
    StrcmpSwap(x, y);
  }

  /** Keeping the first of each run of an ordered list keeps the best of each package. */
  lemma {:induction false} FirstsAreBest(s: seq<Pkg>)
    requires SortedBy(Listed, s) && AllListed(s)
    ensures Best(Firsts(s), s) && (s == [] ==> Firsts(s) == [])
    ensures s != [] ==> Firsts(s) != [] && SameName(Firsts(s)[|Firsts(s)| - 1], s[|s| - 1])
  {
    hide PkgOk, Listed, SameName, Represents, Firsts, Represented;
    FirstsNext(s);
    if s == [] {
      assert OnePerName([]);
    } else {
      var r, x, f := s[..|s| - 1], s[|s| - 1], Firsts(s[..|s| - 1]);
      FirstsAreBest(r);
      if |s| > 1 && SameName(s[|s| - 2], x) {
        LastRepresents(s, f);
        assert f + [] == f;
        Represent(s, f, f);
      } else {
        NewName(s, f);
        Reflexive(x);
        assert (f + [x])[|f|] == x;
        Represent(s, f, f + [x]);
      }
    }
  }

  lemma FirstsNext(s: seq<Pkg>)
    ensures s == [] ==> Firsts(s) == []
    ensures s != [] ==> Firsts(s) == Firsts(s[..|s| - 1])
                                   + if |s| > 1 && SameName(s[|s| - 2], s[|s| - 1]) then [] else [s[|s| - 1]]
    ensures |s| > 1 ==> s[..|s| - 1] != [] && s[..|s| - 1][|s| - 2] == s[|s| - 2]
  {
  }

  /** The run goes on: its first element represents the new one too. */
  lemma LastRepresents(s: seq<Pkg>, f: seq<Pkg>)
    requires |s| > 1 && SortedBy(Listed, s) && AllListed(s)
    requires f != [] && Within(f, s[..|s| - 1])
    requires SameName(f[|f| - 1], s[|s| - 2]) && SameName(s[|s| - 2], s[|s| - 1])
    ensures Represents(f[|f| - 1], s[|s| - 1]) && SameName(f[|f| - 1], s[|s| - 1])
  {
    hide PkgOk, Listed, Represents, PkgAtom;
    var b, x := f[|f| - 1], s[|s| - 1];
    var m :| 0 <= m < |s| - 1 && s[m] == b;
    EarlierNotOlder(b, x);
  }

  /** A new run: its name has not been kept yet. */
  lemma NewName(s: seq<Pkg>, f: seq<Pkg>)
    requires s != [] && SortedBy(Listed, s) && AllListed(s)
    requires Within(f, s[..|s| - 1]) && OnePerName(f)
    requires |s| > 1 ==> !SameName(s[|s| - 2], s[|s| - 1])
    ensures OnePerName(f + [s[|s| - 1]])
  {
    hide PkgOk, Listed, SameName;
    var r, x := s[..|s| - 1], s[|s| - 1];
    forall i | 0 <= i < |f| ensures !SameName(f[i], x) {
      assert f[i] in r;
      var m :| 0 <= m < |r| && r[m] == f[i];
      if SameName(s[m], x) && m < |s| - 2 {
        Between(s[m], s[|s| - 2], x);
      }
    }
  }

  /** `f` is best for all but the last of `s`; with `g` the last is represented too. */
  lemma Represent(s: seq<Pkg>, f: seq<Pkg>, g: seq<Pkg>)
    requires s != [] && Best(f, s[..|s| - 1]) && OnePerName(g)
    requires g == f || g == f + [s[|s| - 1]]
    requires g != [] && Represents(g[|g| - 1], s[|s| - 1])
    ensures Best(g, s)
  {
    hide Represents, OnePerName;
    assert s == s[..|s| - 1] + [s[|s| - 1]];
    forall i | 0 <= i < |s| ensures Represented(s[i], g) {
      if i < |s| - 1 {
        assert Represented(s[..|s| - 1][i], f);
        var m :| 0 <= m < |f| && Represents(f[m], s[i]);
        assert g[m] == f[m];
      }
    }
  }

  lemma Reflexive(x: Pkg)
    requires PkgOk(x, x.cat)
    ensures Represents(x, x) && SameName(x, x)
  {
    CompareSwap(x.atom.value, x.atom.value);
    hide Compare;
  }

  // ----- the removals -----

  /** The reverse loop that leaves out what a flag does not ask for. */
  method RemoveOthers(arr: Array<Pkg>, keep: Pkg -> bool)
    modifies arr
    ensures arr.eles == Keep(keep, old(arr.eles)) && arr.sorted == old(arr.sorted)
  {
    var n := |arr.eles|;
    assert arr.eles[n..] == [];
    while n > 0
      invariant 0 <= n <= |old(arr.eles)| && arr.sorted == old(arr.sorted)
      invariant arr.eles == old(arr.eles)[..n] + Keep(keep, old(arr.eles)[n..])
    {
      n := n - 1;
      KeepHead(keep, old(arr.eles), n);
      if !keep(arr.eles[n]) {
        var _ := arr.Remove(n);
      }
    }
    assert old(arr.eles)[0..] == old(arr.eles);
  }

  lemma KeepHead<T>(keep: T -> bool, s: seq<T>, n: nat)
    requires n < |s|
    ensures Keep(keep, s[n..]) == (if keep(s[n]) then [s[n]] else []) + Keep(keep, s[n + 1..])
  {
    assert s[n..] == [s[n]] + s[n + 1..];
    assert [s[n]][..0] == [];
    assert Keep(keep, [s[n]]) == if keep(s[n]) then [s[n]] else [];
    hide Keep;
    KeepAppend(keep, [s[n]], s[n + 1..]);
  }

  /** The reverse loop of LATEST: an element goes when the one before it is of the same package. */
  method RemoveOlder(arr: Array<Pkg>)
    modifies arr
    ensures arr.eles == Firsts(old(arr.eles))
  {
    hide SameName;
    var n := |arr.eles|;
    ghost var s := arr.eles;
    assert s[..n] == s && s == s + [] && Firsts(s) == Firsts(s) + [];
    while n > 1
      invariant 0 <= n <= |s| && (s != [] ==> n > 0)
      invariant exists t :: arr.eles == s[..n] + t && Firsts(s) == Firsts(s[..n]) + t
      decreases n
    {
      ghost var t :| arr.eles == s[..n] + t && Firsts(s) == Firsts(s[..n]) + t;
      n := n - 1;
      var w, suc := arr.eles[n], arr.eles[n - 1];
      assert s[..n + 1][..n] == s[..n];
      if SameName(suc, w) {
        var _ := arr.Remove(n);
        assert arr.eles == s[..n] + t;
      } else {
        assert arr.eles == s[..n] + ([w] + t);
        assert Firsts(s) == Firsts(s[..n]) + ([w] + t);
      }
    }
    assert n == 1 ==> s[..1][..0] == [];
    assert Firsts(s[..n]) == s[..n];
  }

  lemma {:induction false} FirstsSorted(s: seq<Pkg>)
    requires SortedBy(Listed, s)
    ensures SortedBy(Listed, Firsts(s)) && Within(Firsts(s), s)
  {
    hide Listed, SameName, Firsts;
    FirstsNext(s);
    if s != [] {
      var r := s[..|s| - 1];
      FirstsSorted(r);
      assert s == r + [s[|s| - 1]];
      forall i | 0 <= i < |Firsts(r)| ensures Listed(Firsts(r)[i], s[|s| - 1]) <= 0 {
        assert Firsts(r)[i] in r;
        var m :| 0 <= m < |r| && r[m] == Firsts(r)[i];
      }
    }
  }

  // ----- tree_match_atom -----

  ghost predicate Leads(p: Pkg, s: seq<Pkg>) {
    p in s && forall i :: 0 <= i < |s| ==> Listed(p, s[i]) <= 0
  }

  lemma CandidatesPermuted(a: seq<Pkg>, b: seq<Pkg>, f: MatchFlags)
    requires multiset(a) == multiset(b)
    ensures multiset(Candidates(a, f)) == multiset(Candidates(b, f))
    ensures SortedBy(Listed, a) ==> SortedBy(Listed, Candidates(a, f))
    ensures Within(Candidates(a, f), a)
  {
    hide Keep, Listed;
    KeepPermuted(NotVirtual, a, b);
    KeepPermuted(NotAcct, a, b);
    KeepPermuted(NotAcct, Keep(NotVirtual, a), Keep(NotVirtual, b));
    KeepElements(NotVirtual, a);
    KeepElements(NotAcct, if f.withVirtual then a else Keep(NotVirtual, a));
    if SortedBy(Listed, a) {
      KeepSorted(NotVirtual, a, Listed);
      KeepSorted(NotAcct, a, Listed);
      KeepSorted(NotAcct, Keep(NotVirtual, a), Listed);
    }
  }

  /** What is left of an ordered report, and its best, do not depend on the report's order. */
  lemma BestOfReport(d: Vdb, asked: Asking, found: seq<Pkg>, f: MatchFlags)
    requires Ordered(d) && multiset(found) == multiset(Answer(d, asked)) && SortedBy(Listed, found)
    ensures var c, w := Candidates(found, f), Candidates(Answer(d, asked), f);
            && multiset(c) == multiset(w)
            && SortedBy(Listed, c) && SortedBy(Listed, Firsts(c))
            && Best(Firsts(c), w)
            && (c != [] ==> Leads(c[0], w))
  {
    hide Keep, Listed, Ordered, PkgOk, Answer, Candidates, Firsts, Represented, OnePerName;
    var c, w := Candidates(found, f), Candidates(Answer(d, asked), f);
    CandidatesPermuted(found, Answer(d, asked), f);
    PermutationWithin(c, w);
    PermutationWithin(w, c);
    Reported(d, asked, found);
    assert AllListed(c) by {
      forall i | 0 <= i < |c| ensures PkgOk(c[i], c[i].cat) {
        var m :| 0 <= m < |found| && found[m] == c[i];
      }
    }
    FirstsSorted(c);
    FirstsAreBest(c);
    BestPermuted(Firsts(c), c, w);
    if c != [] {
      LeadsAll(c, w);
    }
  }

  lemma Reported(d: Vdb, asked: Asking, found: seq<Pkg>)
    requires Ordered(d) && multiset(found) == multiset(Answer(d, asked))
    ensures AllListed(found)
  {
    hide Listed, Ordered, PkgOk, AnswerIn;
    AnswerCats(d, asked, QueryCategories(d, asked.q));
    PermutationWithin(found, Answer(d, asked));
  }

  lemma BestPermuted(r: seq<Pkg>, s: seq<Pkg>, t: seq<Pkg>)
    requires Best(r, s) && Within(s, t) && Within(t, s)
    ensures Best(r, t)
  {
    hide Represented, OnePerName;
    forall i | 0 <= i < |r| ensures r[i] in t {
      assert r[i] in s;
      var m :| 0 <= m < |s| && s[m] == r[i];
    }
    forall i | 0 <= i < |t| ensures Represented(t[i], r) {
      assert t[i] in s;
      var m :| 0 <= m < |s| && s[m] == t[i];
    }
  }

  lemma LeadsAll(c: seq<Pkg>, w: seq<Pkg>)
    requires c != [] && SortedBy(Listed, c) && AllListed(c)
    requires Within(c, w) && Within(w, c)
    ensures Leads(c[0], w)
  {
    forall i | 0 <= i < |w| ensures Listed(c[0], w[i]) <= 0 {
      assert w[i] in c;
      var m :| 0 <= m < |c| && c[m] == w[i];
      if m == 0 {
        CompareSwap(c[0].atom.value, c[0].atom.value);
        hide Compare;
      }
    }
    assert c[0] in w;
  }

  /** The fixups after the traversal: the flags applied to what the callback collected. */
  method Restrict(found: seq<Pkg>, f: MatchFlags) returns (ret: Array<Pkg>)
    ensures fresh(ret)
    ensures var c := Candidates(found, f);
            var one := if f.first && |c| > 1 then [c[0]] else c;
            ret.eles == if f.latest then Firsts(one) else one
  {
    hide Keep, Firsts;
    ret := new Array<Pkg>();
    var n := 0;
    while n < |found|
      invariant n <= |found| && ret.eles == found[..n] && fresh(ret)
    {
      ret.Append(found[n]);
      n := n + 1;
    }
    assert found[..n] == found;
    if !f.withVirtual {
      RemoveOthers(ret, NotVirtual);
    }
    if !f.withAcct {
      RemoveOthers(ret, NotAcct);
    }
    assert ret.eles == Candidates(found, f);
    if f.first && |ret.eles| > 1 {
      var one := new Array<Pkg>();
      one.Append(ret.eles[0]);
      assert one.eles == [ret.eles[0]];
      ret := one;
    }
    if f.latest {
      RemoveOlder(ret);
    }
  }

  lemma FirstsShort(s: seq<Pkg>)
    requires |s| <= 1
    ensures Firsts(s) == s
  {
    hide Firsts, SameName;
    FirstsNext(s);
    if s != [] {
      assert s[..0] == [];
      FirstsNext(s[..0]);
    }
  }

  /** What the flags make of the tree's answer: without FIRST and LATEST all of it, with LATEST the best
      of each package, with FIRST at most the first. */
  ghost predicate Serves(r: seq<Pkg>, w: seq<Pkg>, f: MatchFlags) {
    if f.first then |r| <= 1 && (r == [] <==> w == []) && (r != [] ==> Leads(r[0], w))
    else if f.latest then Best(r, w)
    else multiset(r) == multiset(w)
  }

  /** What the caller gets of what the tree answers, in order when asked; for a name that the cache can
      find, of all matches. `from` is what the flags VIRTUAL and ACCT leave to choose from: the packages of
      category `virtual` only if asked for, and those of categories acct-... only if asked for. */
  method MatchAtom(tree: Tree, q: Option<AtomCtx>, f: MatchFlags)
    returns (ret: Array<Pkg>, ghost from: seq<Pkg>)
    requires tree.Valid() && FileSystem(tree.d) && Ordered(tree.d) && QueryOk(tree.d, q)
    modifies tree.repr
    ensures tree.Valid() && fresh(tree.repr - old(tree.repr)) && fresh(ret)
    ensures var asked := Asking(q, f.first || f.latest || f.sort, old(tree.Known()));
      && Serves(ret.eles, from, f)
      && (forall p :: multiset(from)[p]
            == if (f.withVirtual || p.cat != "virtual") && (f.withAcct || !("acct-" <= p.cat))
               then multiset(Answer(tree.d, asked))[p] else 0)
      && (Findable(q) ==> multiset(Answer(tree.d, asked)) == multiset(Wanted(tree.d, q)))
    ensures f.first || f.latest || f.sort ==> SortedBy(Listed, ret.eles)
  {
    hide QueryOk, Ordered, Wanted, Answer, Listed, Firsts, Best, Candidates, Leads, Findable;
    var sorted := f.first || f.latest || f.sort;
    ghost var asked := Asking(q, sorted, tree.Known());
    var found := tree.Foreach(sorted, q);
    ret := Restrict(found, f);
    AllWanted(tree.d, asked);
    from := Candidates(Answer(tree.d, asked), f);
    CandidatesLeft(Answer(tree.d, asked), f);
    CandidatesPermuted(found, Answer(tree.d, asked), f);
    ghost var c := Candidates(found, f);
    PermutationWithin(c, Candidates(Answer(tree.d, asked), f));
    if sorted {
      BestOfReport(tree.d, asked, found, f);
    }
    if |c| > 0 {
      FirstsShort([c[0]]);
    }
    if |c| <= 1 {
      FirstsShort(c);
    }
  }

  lemma AllWanted(d: Vdb, asked: Asking)
    ensures Findable(asked.q) ==> multiset(Answer(d, asked)) == multiset(Wanted(d, asked.q))
  {
    hide AnswerIn, WantedIn, Findable;
    AnswerIsWantedIff(d, asked, QueryCategories(d, asked.q));
  }
}
