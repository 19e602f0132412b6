/** What a query with a glob, or with a blocker, matches. */
module AtomQuery {
  import opened CStrings
  import opened Atom
  import opened AtomCompare
  import opened AtomOrder
  import opened AtomRoundTrip

  // ----- globs -----

  /** A query =PN-V* whose version is numbers only. */
  predicate NumericGlob(q: AtomCtx) {
    && q.blocker == NoBlocker && q.pfxOp == OpEqual && q.sfxOp == OpStar
    && q.pn.Some? && q.pv.Some? && q.slot.None? && q.repo.None?
    && q.letter.None? && q.suffixes == [] && q.pr == 0
  }

  predicate Names(d: AtomCtx, q: AtomCtx) {
    (q.category.Some? ==> d.category == q.category) && d.pn == q.pn
  }

  /** With an open glob the walk ends without a difference exactly on a prefix. */
  lemma {:induction false} OpenNumbers(t1: Option<string>, t2: Option<string>, first: bool, k: VersionClass)
    requires first ==> t1.Some? && t2.Some?
    requires if first then InClass(NextComponent(t1.value), k) && InClass(NextComponent(t2.value), k)
             else InClass(t1, k) && InClass(t2, k)
    ensures var r := NumbersCompare(t1, t2, first, true);
      (r == None || r == Some(Equal)) <==> Values(t2) <= Values(t1)
    decreases TailSize(t1) + TailSize(t2)
  {
    if t1.Some? && t2.Some? {
      var v1, v2 := ComponentValue(t1.value), ComponentValue(t2.value);
      assert ComponentSign(t1.value, t2.value, first) == Sign(v1 - v2);
      var n1, n2 := NextComponent(t1.value), NextComponent(t2.value);
      PrefixStep(v1, Values(n1), v2, Values(n2));
      if v1 == v2 {
        OpenNumbers(n1, n2, false, k);
      }
    }
  }

  lemma PrefixStep(x: int, xs: seq<int>, y: int, ys: seq<int>)
    ensures [y] + ys <= [x] + xs <==> x == y && ys <= xs
  {
    var s, t := [y] + ys, [x] + xs;
    assert s[1..] == ys && t[1..] == xs;
    if s <= t {
      assert s[0] == t[0];
      assert forall i :: 0 <= i < |ys| ==> s[i + 1] == ys[i];
      assert forall i :: 0 <= i < |xs| ==> t[i + 1] == xs[i];
      assert |ys| <= |xs| && forall i :: 0 <= i < |ys| ==> ys[i] == xs[i];
    }
  }

  /** =PN-V* matches exactly the versions of PN whose numbers start with those of V. */
  lemma GlobMatchesPrefixes(d: AtomCtx, q: AtomCtx, k: VersionClass)
    requires NumericGlob(q) && Names(d, q) && d.pv.Some?
    requires VersionInClass(d.pv.value, k) && VersionInClass(q.pv.value, k)
    ensures Compare(d, q, DEFAULT) == Equal <==> Values(q.pv) <= Values(d.pv)
  {
    hide NumbersCompare, Values, InClass, VersionCompare;
    OpenNumbers(d.pv, q.pv, true, k);
    GlobVersion(d, q);
  }

  lemma GlobVersion(d: AtomCtx, q: AtomCtx)
    requires NumericGlob(q) && d.pv.Some?
    ensures var n := NumbersCompare(d.pv, q.pv, true, true);
      VersionCompare(d, q) == if n.Some? then n else Some(Equal)
  {
    hide NumbersCompare, SuffixStop;
  }

  // ----- blockers -----

  /** A query with an ordering operator and neither slot nor repository. */
  predicate OrderQuery(q: AtomCtx) {
    && (q.pfxOp == OpNewer || q.pfxOp == OpNewerEqual || q.pfxOp == OpOlder || q.pfxOp == OpOlderEqual)
    && q.category.Some? && q.pn.Some? && q.pv.Some? && q.slot.None? && q.repo.None?
  }

  function Blocked(q: AtomCtx, b: Blocker): AtomCtx {
    q.(blocker := b)
  }

  lemma {:induction false} NumbersDecided(t1: Option<string>, t2: Option<string>, first: bool, open: bool)
    ensures NumbersCompare(t1, t2, first, open) != Some(NotEqual)
    decreases TailSize(t1) + TailSize(t2)
  {
    if t1.Some? && t2.Some? {
      NumbersDecided(NextComponent(t1.value), NextComponent(t2.value), false, open);
    }
  }

  lemma VersionUnblocked(d: AtomCtx, q: AtomCtx, b: Blocker)
    requires d.pv.Some? && q.pv.Some?
    ensures VersionCompare(d, Blocked(q, b)) == VersionCompare(d, q) != Some(NotEqual)
  {
    hide NumbersCompare, SuffixStop, SuffixGet, LetterCode;
    NumbersDecided(d.pv, q.pv, true, true);
    NumbersDecided(d.pv, q.pv, true, false);
  }

  /** The version relation does not depend on the blocker. */
  lemma RelationUnblocked(d: AtomCtx, q: AtomCtx, b: Blocker)
    requires OrderQuery(q)
    ensures FullVersionCompare(d, Blocked(q, b), DEFAULT) == FullVersionCompare(d, Blocked(q, NoBlocker), DEFAULT)
    ensures FullVersionCompare(d, q, DEFAULT) != NotEqual
  {
    hide VersionCompare;
    if d.pv.Some? {
      VersionUnblocked(d, q, b);
      VersionUnblocked(d, q, NoBlocker);
    }
  }

  /** Of one package, the blocked query matches exactly the versions the plain one rejects. */
  lemma BlockedComplement(d: AtomCtx, q: AtomCtx, b: Blocker)
    requires OrderQuery(q) && (b == Block || b == BlockHard)
    requires SamePackage(d, q) && d.pv.Some?
    ensures Compare(d, Blocked(q, b), DEFAULT) == Equal <==> Compare(d, Blocked(q, NoBlocker), DEFAULT) != Equal
  {
    RelationUnblocked(d, q, b);
    RelationUnblocked(d, q, q.blocker);
    assert Blocked(q, q.blocker) == q;
    hide FullVersionCompare;
  }

  /** Of another package the plain query matches nothing, but the blocked one still compares the
      versions. So the two are complementary exactly inside the package, and outside it on the versions
      that the inverted operator accepts. */
  lemma BlockedComplementIff(d: AtomCtx, q: AtomCtx, b: Blocker)
    requires OrderQuery(q) && (b == Block || b == BlockHard)
    requires d.category.Some? && d.pn.Some? && d.pv.Some?
    ensures !SamePackage(d, q) ==> Compare(d, Blocked(q, NoBlocker), DEFAULT) == NotEqual
    ensures var complementary := Compare(d, Blocked(q, b), DEFAULT) == Equal <==> Compare(d, Blocked(q, NoBlocker), DEFAULT) != Equal;
      complementary <==>
        SamePackage(d, q) || CompareMatch(FullVersionCompare(d, q, DEFAULT), InvertedOp(q.pfxOp)) == Equal
  {
    RelationUnblocked(d, q, b);
    RelationUnblocked(d, q, q.blocker);
    assert Blocked(q, q.blocker) == q;
    hide FullVersionCompare;
  }

  // ----- exact comparison -----

  /** PF determines the name, the version and all that is derived from them. */
  ghost predicate FromPf(a: AtomCtx) {
    var bare := a.(pn := None, pv := None, pf := None, pr := 0, letter := None, suffixes := [], pvr := None, p := None);
    a == if a.pf.Some? then FillVersion(bare, a.pf.value) else bare
  }

  lemma ExplodedFromPf(input: string, cat: Option<string>)
    ensures FromPf(Explode(input, cat))
  {
    hide SplitBlocker, SplitPfxOp, CutExtension, SplitRepo, SplitUse, SplitSlot, CutLast, SplitCategory, SplitBuildId;
    hide VersionScan, RevisionScan, Suffixes, Atoi;
  }

  /** The record with the sub-slot it stands for written out, and without its USE dependencies. */
  function Plainly(a: AtomCtx): AtomCtx {
    a.(subslot := Subslot(a), usedeps := [])
  }

  /** The exact comparison of two parsed atoms decides their equality in everything but the USE
      dependencies, a sub-slot that is the slot being the same whether written or not. */
  lemma ExactIsEquality(s: string, sc: Option<string>, t: string, tc: Option<string>)
    ensures var l, r := Explode(s, sc), Explode(t, tc);
      Compare(l, r, DEFAULT.(exact := true)) == Equal <==> Plainly(l) == Plainly(r)
  {
    hide Explode;
    ExplodedFromPf(s, sc);
    ExplodedFromPf(t, tc);
    var l, r := Explode(s, sc), Explode(t, tc);
    if Same(l, r, DEFAULT) && l.pf.Some? {
      SameFill(l, r, l.pf.value);
    }
    hide FillVersion;
  }

  lemma SameFill(a: AtomCtx, b: AtomCtx, pf: string)
    requires FromPf(a) && FromPf(b) && a.pf == b.pf == Some(pf)
    ensures a.pn == b.pn && a.pv == b.pv && a.pr == b.pr && a.letter == b.letter && a.suffixes == b.suffixes
    ensures a.pvr == b.pvr && a.p == b.p
  {
    hide VersionScan, RevisionScan, Suffixes, Atoi;
  }

  function SlotExample(sub: Option<string>): AtomCtx {
    AtomCtx(NoBlocker, OpNone, OpNone, Some("a"), Some("b"), None, Some("b"), 0, None, [], None, Some("b"), [],
            Some("0"), sub, SdNone, None, 0)
  }

  lemma SlotExampleRead(sub: Option<string>, text: string)
    requires (sub.None? && text == "a/b:0") || (sub == Some("0") && text == "a/b:0/0")
    ensures Explode(text, None) == SlotExample(sub)
  {
    hide Explode, NoExtension;
    var a := SlotExample(sub);
    assert PfStr(a) == "b";
    assert BodyStr(a) == text && ToString(a) == text;
    assert NoVersionIn("b");
    NoDot(a);
    ReadUsesIdentity(a.usedeps);
    ExplodeOfToString(a);
  }

  lemma NoDot(a: AtomCtx)
    requires '.' !in BodyStr(a)
    ensures NoExtension(a)
  {
    hide BodyStr;
    forall e: string, i: nat | e != [] && e[0] == '.' ensures !OccursAt(BodyStr(a), e, i) {
      if i + |e| <= |BodyStr(a)| {
        assert BodyStr(a)[i..i + |e|][0] == BodyStr(a)[i];
      }
    }
  }

  /** a/b:0 and a/b:0/0 are two records, and the same to the exact comparison. */
  lemma ImpliedSubslot()
    ensures var l, r := Explode("a/b:0", None), Explode("a/b:0/0", None);
      l != r && Compare(l, r, DEFAULT.(exact := true)) == Equal
  {
    SlotExampleRead(None, "a/b:0");
    SlotExampleRead(Some("0"), "a/b:0/0");
    hide Explode;
  }
}
