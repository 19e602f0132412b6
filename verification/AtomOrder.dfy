/** The order that `atom_compare` and `atom_compar_cb` put on atoms. */
module AtomOrder {
  import opened CStrings
  import opened Atom
  import opened AtomCompare

  // ----- signs -----

  /** What transitivity asks of the signs of (a,b), (b,c) and (a,c). */
  predicate Chained(ab: int, bc: int, ac: int) {
    && (ab <= 0 && bc <= 0 ==> ac <= 0)
    && (ab <= 0 && bc <= 0 && (ab < 0 || bc < 0) ==> ac < 0)
    && (ab >= 0 && bc >= 0 ==> ac >= 0)
    && (ab >= 0 && bc >= 0 && (ab > 0 || bc > 0) ==> ac > 0)
  }

  /** Comparing by `x` first and by `y` second. */
  function Then(x: int, y: int): int {
    if x != 0 then x else y
  }

  // ----- the classes of versions on which components compare as numbers -----

  /** No component has a leading zero. */
  predicate NoZeroLed(t: Option<string>)
    decreases TailSize(t)
  {
    t.Some? ==> !ZeroLed(t.value) && NoZeroLed(NextComponent(t.value))
  }

  /** Every component, with the letter after it, has at most two characters. */
  predicate ShortComponents(t: Option<string>)
    decreases TailSize(t)
  {
    t.Some? ==> ComponentLast(t.value) <= 1 && ShortComponents(NextComponent(t.value))
  }

  /** The version classes: the restriction is on the components after the first. */
  datatype VersionClass = Unpadded | Short

  predicate InClass(t: Option<string>, k: VersionClass) {
    if k == Unpadded then NoZeroLed(t) else ShortComponents(t)
  }

  predicate VersionInClass(pv: string, k: VersionClass) {
    InClass(NextComponent(pv), k)
  }

  /** The components as numbers. */
  function Values(t: Option<string>): seq<int>
    decreases TailSize(t)
  {
    if t.None? then [] else [ComponentValue(t.value)] + Values(NextComponent(t.value))
  }

  /** Lexicographic comparison, a proper prefix first. */
  function LexSign(a: seq<int>, b: seq<int>): (r: int)
    ensures -1 <= r <= 1
  {
    if a == [] then (if b == [] then 0 else -1)
    else if b == [] then 1
    else if a[0] != b[0] then Sign(a[0] - b[0])
    else LexSign(a[1..], b[1..])
  }

  function Verdict(sign: int): Option<Equality> {
    if sign == 0 then None else Some(OrderOf(sign))
  }

  /** Within a class the walk over the components is the lexicographic order of their values. */
  lemma {:induction false} NumbersAreLex(t1: Option<string>, t2: Option<string>, first: bool, k: VersionClass)
    requires first ==> t1.Some? && t2.Some?
    requires if first then InClass(NextComponent(t1.value), k) && InClass(NextComponent(t2.value), k)
             else InClass(t1, k) && InClass(t2, k)
    ensures NumbersCompare(t1, t2, first, false) == Verdict(LexSign(Values(t1), Values(t2)))
    decreases TailSize(t1) + TailSize(t2)
  {
    if t1.Some? && t2.Some? {
      assert ComponentSign(t1.value, t2.value, first) == Sign(ComponentValue(t1.value) - ComponentValue(t2.value));
      var n1, n2 := NextComponent(t1.value), NextComponent(t2.value);
      assert Values(t1)[1..] == Values(n1) && Values(t2)[1..] == Values(n2);
      if ComponentValue(t1.value) == ComponentValue(t2.value) {
        NumbersAreLex(n1, n2, false, k);
      }
    }
  }

  lemma {:induction false} LexSwap(a: seq<int>, b: seq<int>)
    ensures LexSign(b, a) == -LexSign(a, b)
  {
    if a != [] && b != [] {
      LexSwap(a[1..], b[1..]);
    }
  }

  lemma {:induction false} LexTransitive(a: seq<int>, b: seq<int>, c: seq<int>)
    ensures Chained(LexSign(a, b), LexSign(b, c), LexSign(a, c))
  {
    if a != [] && b != [] && c != [] {
      LexTransitive(a[1..], b[1..], c[1..]);
    }
  }

  // ----- suffixes: an order on all lists, as stored -----

  function SuffixSignFrom(a: seq<Suffix>, b: seq<Suffix>, i: nat): (r: int)
    ensures -1 <= r <= 1
    decreases |a| - i
  {
    var x, y := SuffixGet(a, i), SuffixGet(b, i);
    if x.kind != y.kind then Sign(x.kind - y.kind)
    else if x.sint != y.sint then Sign(x.sint - y.sint)
    else if x.kind == VER_NORM then 0
    else SuffixSignFrom(a, b, i + 1)
  }

  lemma {:induction false} SuffixStopSign(a: seq<Suffix>, b: seq<Suffix>, i: nat)
    ensures var k := SuffixStop(a, b, i); var x, y := SuffixGet(a, k), SuffixGet(b, k);
      SuffixSignFrom(a, b, i) == Then(Sign(x.kind - y.kind), Sign(x.sint - y.sint))
    decreases |a| - i
  {
    var x, y := SuffixGet(a, i), SuffixGet(b, i);
    if x.kind == y.kind && x.kind != VER_NORM && x.sint == y.sint {
      SuffixStopSign(a, b, i + 1);
    }
  }

  lemma {:induction false} SuffixSwap(a: seq<Suffix>, b: seq<Suffix>, i: nat)
    ensures SuffixSignFrom(b, a, i) == -SuffixSignFrom(a, b, i)
    decreases |a| - i
  {
    var x, y := SuffixGet(a, i), SuffixGet(b, i);
    if x == y && x.kind != VER_NORM {
      SuffixSwap(a, b, i + 1);
    }
  }

  lemma {:induction false} SuffixTransitive(a: seq<Suffix>, b: seq<Suffix>, c: seq<Suffix>, i: nat)
    ensures Chained(SuffixSignFrom(a, b, i), SuffixSignFrom(b, c, i), SuffixSignFrom(a, c, i))
    decreases |a| - i
  {
    var x, y, z := SuffixGet(a, i), SuffixGet(b, i), SuffixGet(c, i);
    if x == y == z && x.kind != VER_NORM {
      SuffixTransitive(a, b, c, i + 1);
    }
  }

  // ----- the order of atoms -----

  /** An atom as the trees hold it: category, name and version, no operator, slot or repository. */
  predicate Plain(a: AtomCtx) {
    && a.blocker == NoBlocker && a.pfxOp == OpNone && a.sfxOp == OpNone
    && a.category.Some? && a.pn.Some? && a.pv.Some?
    && a.slot.None? && a.repo.None?
  }

  /** A component without a number is older than any with one, and the same as any other without. */
  lemma NoNumberFirst(s1: string, s2: string, first: bool)
    requires Strtoll(s1).1 == 0 && (first || !AsStrings(s1, s2))
    ensures Strtoll(s2).1 == 0 ==> ComponentSign(s1, s2, first) == 0
    ensures Strtoll(s2).1 > 0 && Strtoll(s2).0 >= 0 ==> ComponentSign(s1, s2, first) == -1
  {
    hide Strtoll, Strncmp, StripZeros;
  }

  /** A plain atom of a version class. */
  predicate Ranked(a: AtomCtx, k: VersionClass) {
    Plain(a) && VersionInClass(a.pv.value, k)
  }

  /** A plain atom of a version class, with or without a build-id. */
  predicate Comparable(a: AtomCtx, k: VersionClass, built: bool) {
    Ranked(a, k) && built == (a.buildId > 0)
  }

  predicate SamePackage(a: AtomCtx, b: AtomCtx) {
    a.category == b.category && a.pn == b.pn
  }

  /** Letter, suffixes and revision. */
  function TailSign(a: AtomCtx, b: AtomCtx): (r: int)
    ensures -1 <= r <= 1
  {
    Then(Sign(LetterCode(a.letter) - LetterCode(b.letter)),
         Then(SuffixSignFrom(a.suffixes, b.suffixes, 0), Sign(a.pr - b.pr)))
  }

  /** Numbers, letter, suffixes and revision. */
  function ReleaseSign(a: AtomCtx, b: AtomCtx): (r: int)
    ensures -1 <= r <= 1
  {
    Then(LexSign(Values(a.pv), Values(b.pv)), TailSign(a, b))
  }

  /** Build-ids count only where both atoms have one. */
  function IdSign(x: int, y: int): (r: int)
    ensures -1 <= r <= 1
  {
    if x > 0 && y > 0 then Sign(x - y) else 0
  }

  /** The version order: numbers, letter, suffixes, revision, build-id. */
  function VersionSign(a: AtomCtx, b: AtomCtx): (r: int)
    ensures -1 <= r <= 1
  {
    Then(ReleaseSign(a, b), IdSign(a.buildId, b.buildId))
  }

  lemma TailAsSigns(d: AtomCtx, q: AtomCtx)
    requires d.sfxOp == OpNone && q.sfxOp == OpNone
    ensures TailCompare(d, q) == Verdict(Then(Sign(LetterCode(d.letter) - LetterCode(q.letter)),
                                              SuffixSignFrom(d.suffixes, q.suffixes, 0)))
  {
    SuffixStopSign(d.suffixes, q.suffixes, 0);
  }

  /** Inside a package atom_compare is decided by the numbers and then by letter, suffixes, revision
      and build-id. */
  lemma CompareAsSigns(d: AtomCtx, q: AtomCtx)
    requires Plain(d) && Plain(q) && SamePackage(d, q)
    ensures var n := NumbersCompare(d.pv, q.pv, true, false);
      Compare(d, q, DEFAULT) == if n.Some? then n.value else OrderOf(Then(TailSign(d, q), IdSign(d.buildId, q.buildId)))
  {
    TailAsSigns(d, q);
    hide NumbersCompare, TailCompare, SuffixSignFrom;
  }

  /** For ranked atoms atom_compare is the version order inside a package, and NOT_EQUAL across packages. */
  lemma CompareIsVersionSign(d: AtomCtx, q: AtomCtx, k: VersionClass)
    requires Ranked(d, k) && Ranked(q, k)
    ensures Compare(d, q, DEFAULT) == if SamePackage(d, q) then OrderOf(VersionSign(d, q)) else NotEqual
  {
    if SamePackage(d, q) {
      NumbersAreLex(d.pv, q.pv, true, k);
      CompareAsSigns(d, q);
      hide Compare, NumbersCompare, TailSign, LexSign, Values, VersionInClass;
    }
  }

  lemma TailChained(a: AtomCtx, b: AtomCtx, c: AtomCtx)
    ensures TailSign(b, a) == -TailSign(a, b)
    ensures Chained(TailSign(a, b), TailSign(b, c), TailSign(a, c))
  {
    SuffixSwap(a.suffixes, b.suffixes, 0);
    SuffixTransitive(a.suffixes, b.suffixes, c.suffixes, 0);
    hide SuffixSignFrom, LetterCode;
  }

  lemma ReleaseChained(a: AtomCtx, b: AtomCtx, c: AtomCtx)
    ensures ReleaseSign(b, a) == -ReleaseSign(a, b)
    ensures Chained(ReleaseSign(a, b), ReleaseSign(b, c), ReleaseSign(a, c))
  {
    LexSwap(Values(a.pv), Values(b.pv));
    LexTransitive(Values(a.pv), Values(b.pv), Values(c.pv));
    TailChained(a, b, c);
    hide LexSign, TailSign, Values;
  }

  /** Exactly two of the three have a build-id, and not the same one. */
  predicate TwoIdsDiffer(x: int, y: int, z: int) {
    || (x > 0 && y > 0 && z <= 0 && x != y)
    || (x > 0 && z > 0 && y <= 0 && x != z)
    || (y > 0 && z > 0 && x <= 0 && y != z)
  }

  /** The version order is transitive on three atoms, whatever their build-ids, unless they are of one
      release, two of them have different build-ids and the third has none. */
  lemma VersionSignChainedIff(a: AtomCtx, b: AtomCtx, c: AtomCtx)
    ensures Chained(VersionSign(a, b), VersionSign(b, c), VersionSign(a, c)) <==>
      !(ReleaseSign(a, b) == 0 && ReleaseSign(b, c) == 0 && TwoIdsDiffer(a.buildId, b.buildId, c.buildId))
  {
    ReleaseChained(a, b, c);
    hide ReleaseSign;
  }

  function SignOf(e: Equality): int {
    if e == Older then -1 else if e == Newer then 1 else 0
  }

  /** The same of atom_compare, for any three plain atoms of one package. */
  lemma CompareChainedIff(a: AtomCtx, b: AtomCtx, c: AtomCtx, k: VersionClass)
    requires Ranked(a, k) && Ranked(b, k) && Ranked(c, k) && SamePackage(a, b) && SamePackage(b, c)
    ensures Chained(SignOf(Compare(a, b, DEFAULT)), SignOf(Compare(b, c, DEFAULT)), SignOf(Compare(a, c, DEFAULT))) <==>
      !(ReleaseSign(a, b) == 0 && ReleaseSign(b, c) == 0 && TwoIdsDiffer(a.buildId, b.buildId, c.buildId))
  {
    CompareIsVersionSign(a, b, k);
    CompareIsVersionSign(b, c, k);
    CompareIsVersionSign(a, c, k);
    VersionSignChainedIff(a, b, c);
    hide Compare, VersionSign, ReleaseSign, Ranked;
  }

  lemma VersionSignTransitive(a: AtomCtx, b: AtomCtx, c: AtomCtx)
    requires (a.buildId > 0) == (b.buildId > 0) == (c.buildId > 0)
    ensures Chained(VersionSign(a, b), VersionSign(b, c), VersionSign(a, c))
  {
    VersionSignChainedIff(a, b, c);
    hide VersionSign, ReleaseSign;
  }

  lemma ThenChained(ab1: int, bc1: int, ac1: int, ab2: int, bc2: int, ac2: int)
    requires Chained(ab1, bc1, ac1) && Chained(ab2, bc2, ac2)
    ensures Chained(Then(ab1, ab2), Then(bc1, bc2), Then(ac1, ac2))
  {
  }

  function Flip(e: Equality): Equality {
    match e
    case Newer => Older
    case Older => Newer
    case _ => e
  }

  lemma {:induction false} StrncmpSwap(a: string, b: string, n: nat)
    ensures Strncmp(b, a, n) == -Strncmp(a, b, n)
  {
    if n > 0 && a != [] && b != [] {
      StrncmpSwap(a[1..], b[1..], n - 1);
    }
  }

  lemma ComponentSwap(s1: string, s2: string, first: bool)
    ensures ComponentSign(s2, s1, first) == -ComponentSign(s1, s2, first)
  {
    hide Strncmp, StripZeros, ComponentLength, ComponentValue;
    var n := Max(StripZeros(s1, ComponentLast(s1)), StripZeros(s2, ComponentLast(s2)));
    StrncmpSwap(s1, s2, n);
    assert n == Max(StripZeros(s2, ComponentLast(s2)), StripZeros(s1, ComponentLast(s1)));
  }

  /** The walk over any two versions gives the opposite verdict when they are exchanged. */
  lemma {:induction false} NumbersSwap(t1: Option<string>, t2: Option<string>, first: bool)
    ensures var n, m := NumbersCompare(t1, t2, first, false), NumbersCompare(t2, t1, first, false);
      m == (if n.Some? then Some(Flip(n.value)) else None) && n != Some(NotEqual) && n != Some(Equal)
    decreases TailSize(t1) + TailSize(t2)
  {
    hide ComponentSign, NextComponent;
    if t1.Some? && t2.Some? {
      ComponentSwap(t1.value, t2.value, first);
      NumbersSwap(NextComponent(t1.value), NextComponent(t2.value), false);
    }
  }

  /** Antisymmetry and totality, for any two plain atoms. */
  lemma CompareSwap(a: AtomCtx, b: AtomCtx)
    requires Plain(a) && Plain(b)
    ensures Compare(b, a, DEFAULT) == Flip(Compare(a, b, DEFAULT))
    ensures SamePackage(a, b) <==> Compare(a, b, DEFAULT) != NotEqual
  {
    if SamePackage(a, b) {
      CompareAsSigns(a, b);
      CompareAsSigns(b, a);
      NumbersSwap(a.pv, b.pv, true);
      TailChained(a, b, a);
      hide Compare, NumbersCompare, TailSign;
    }
  }

  predicate NotNewer(e: Equality) {
    e == Older || e == Equal
  }

  /** Transitivity, strict when one of the steps is. */
  lemma CompareTransitive(a: AtomCtx, b: AtomCtx, c: AtomCtx, k: VersionClass, built: bool)
    requires Comparable(a, k, built) && Comparable(b, k, built) && Comparable(c, k, built)
    requires NotNewer(Compare(a, b, DEFAULT)) && NotNewer(Compare(b, c, DEFAULT))
    ensures Compare(a, c, DEFAULT)
         == if Compare(a, b, DEFAULT) == Equal && Compare(b, c, DEFAULT) == Equal then Equal else Older
  {
    CompareIsVersionSign(a, b, k);
    CompareIsVersionSign(b, c, k);
    CompareIsVersionSign(a, c, k);
    VersionSignTransitive(a, b, c);
    hide Compare, VersionSign, Ranked;
  }

  // ----- the sort callback -----

  /** The verdicts on three atoms of one package are transitive. */
  predicate Transitive(a: AtomCtx, b: AtomCtx, c: AtomCtx) {
    SamePackage(a, b) && SamePackage(b, c) ==>
      Chained(SignOf(Compare(a, b, DEFAULT)), SignOf(Compare(b, c, DEFAULT)), SignOf(Compare(a, c, DEFAULT)))
  }

  /** Which they are within a version class, unless build-ids differ where not all have one. */
  lemma TransitiveInClass(a: AtomCtx, b: AtomCtx, c: AtomCtx, k: VersionClass)
    requires SamePackage(a, b) && SamePackage(b, c) ==> Ranked(a, k) && Ranked(b, k) && Ranked(c, k)
    ensures Transitive(a, b, c) <==> !(SamePackage(a, b) && SamePackage(b, c) && ReleaseSign(a, b) == 0 && ReleaseSign(b, c) == 0
                                       && TwoIdsDiffer(a.buildId, b.buildId, c.buildId))
  {
    hide Compare, ReleaseSign, Ranked, Chained, TwoIdsDiffer;
    if SamePackage(a, b) && SamePackage(b, c) {
      CompareChainedIff(a, b, c, k);
    }
  }

  /** By category, then by name, then newest first. */
  function SortSign(l: AtomCtx, r: AtomCtx): int
    requires Plain(l) && Plain(r)
  {
    Then(PackageSign(l, r), -SignOf(Compare(l, r, DEFAULT)))
  }

  function PackageSign(l: AtomCtx, r: AtomCtx): int
    requires Plain(l) && Plain(r)
  {
    Then(Strcmp(l.category.value, r.category.value), Strcmp(l.pn.value, r.pn.value))
  }

  lemma CallbackIsSortSign(l: AtomCtx, r: AtomCtx)
    requires Plain(l) && Plain(r)
    ensures CompareCb(l, r) == SortSign(l, r)
  {
    CompareSwap(l, r);
    hide Compare, Strcmp;
  }

  lemma StrcmpChained(a: string, b: string, c: string)
    ensures Chained(Strcmp(a, b), Strcmp(b, c), Strcmp(a, c))
  {
    StrcmpSwap(a, b);
    StrcmpSwap(b, c);
    StrcmpSwap(a, c);
    if Strcmp(a, b) <= 0 && Strcmp(b, c) <= 0 {
      StrcmpTransitive(a, b, c);
    }
    if Strcmp(a, b) >= 0 && Strcmp(b, c) >= 0 {
      StrcmpTransitive(c, b, a);
    }
  }

  lemma PackagesChained(a: AtomCtx, b: AtomCtx, c: AtomCtx)
    requires Plain(a) && Plain(b) && Plain(c)
    ensures PackageSign(b, a) == -PackageSign(a, b) && (PackageSign(a, b) == 0 <==> SamePackage(a, b))
    ensures Chained(PackageSign(a, b), PackageSign(b, c), PackageSign(a, c))
  {
    StrcmpSwap(a.category.value, b.category.value);
    StrcmpSwap(a.pn.value, b.pn.value);
    StrcmpChained(a.category.value, b.category.value, c.category.value);
    StrcmpChained(a.pn.value, b.pn.value, c.pn.value);
    hide Strcmp;
  }

  /** The second key matters to transitivity only where the first is equal throughout. */
  lemma ThenChainedIff(ab1: int, bc1: int, ac1: int, ab2: int, bc2: int, ac2: int)
    requires Chained(ab1, bc1, ac1)
    ensures Chained(Then(ab1, ab2), Then(bc1, bc2), Then(ac1, ac2)) <==> (ab1 == 0 && bc1 == 0 ==> Chained(ab2, bc2, ac2))
  {
  }

  /** The callback is a consistent total preorder, as qsort and the binary search ask for, exactly when
      the verdicts inside each package are transitive. */
  lemma CallbackConsistent(a: AtomCtx, b: AtomCtx, c: AtomCtx)
    requires Plain(a) && Plain(b) && Plain(c)
    ensures CompareCb(b, a) == -CompareCb(a, b)
    ensures Chained(CompareCb(a, b), CompareCb(b, c), CompareCb(a, c)) <==> Transitive(a, b, c)
  {
    hide CompareCb, Compare, PackageSign;
    CallbackIsSortSign(a, b);
    CallbackIsSortSign(b, a);
    CallbackIsSortSign(b, c);
    CallbackIsSortSign(a, c);
    CompareSwap(a, b);
    PackagesChained(a, b, c);
    PackagesChained(b, c, a);
    ThenChainedIff(PackageSign(a, b), PackageSign(b, c), PackageSign(a, c),
                   -SignOf(Compare(a, b, DEFAULT)), -SignOf(Compare(b, c, DEFAULT)), -SignOf(Compare(a, c, DEFAULT)));
  }

  /** Atoms without a category: two of them sort by name and version; but one sorts before every atom with a
      category, while such an atom compares with it by name and version, so that the callback is not
      antisymmetric there. */
  lemma NoCategory(l: AtomCtx, r: AtomCtx)
    requires Plain(l) && Plain(r)
    ensures var l0, r0 := l.(category := None), r.(category := None);
      var version := -SignOf(Compare(l, r.(category := l.category), DEFAULT));
      && CompareCb(l0, r) == -1
      && CompareCb(l, r0) == (if l.pn == r.pn then version else 1)
      && CompareCb(l0, r0) == Then(Strcmp(l.pn.value, r.pn.value), version)
  {
    var s := r.(category := l.category);
    CompareSwap(l, s);
    SameVerdict(l, r);
    hide Strcmp, FullVersionCompare, CompareMatch;
  }

  lemma SameVerdict(l: AtomCtx, r: AtomCtx)
    requires Plain(l) && Plain(r)
    ensures var l0, r0, s := l.(category := None), r.(category := None), r.(category := l.category);
      && (l.pn == r.pn ==> Compare(l, r0, DEFAULT) == Compare(l, s, DEFAULT) == Compare(l0, r0, DEFAULT))
      && Compare(l0, r, DEFAULT) == NotEqual
      && (l.pn != r.pn ==> Compare(l, r0, DEFAULT) == NotEqual && Compare(l0, r0, DEFAULT) == NotEqual)
  {
    hide CompareMatch, NumbersCompare, SuffixStop, SuffixGet, LetterCode;
  }

  // ----- outside the classes -----

  /** The version is "1." and digits. */
  predicate OneAnd(s: string) {
    |s| > 2 && s[0] == '1' && s[1] == '.' && AllDigits(s[2..])
  }

  lemma {:induction false} LastOf(s: string)
    requires AllDigits(s)
    ensures ComponentLength(s) == |s| && NextComponent(s) == None
  {
    if s != [] {
      LastOf(s[1..]);
    }
  }

  lemma OneDot(s: string)
    requires OneAnd(s)
    ensures ComponentValue(s) == 1 && NextComponent(s) == Some(s[2..])
  {
    assert s == "1" + s[1..];
    StrtollOfDigits("1", s[1..]);
    assert StrchrFrom(s, '.', 0) == Some(1);
    assert DecValue("1") == 1 by {
      assert "1"[..0] == "";
    }
  }

  /** The last components of two versions decide by themselves. */
  lemma LastComponents(t1: string, t2: string)
    requires t1 != [] && t2 != [] && AllDigits(t1) && AllDigits(t2)
    ensures ComponentLast(t1) == |t1| - 1 && ComponentLast(t2) == |t2| - 1
    ensures NumbersCompare(Some(t1), Some(t2), false, false) == Verdict(ComponentSign(t1, t2, false))
  {
    LastOf(t1);
    LastOf(t2);
    hide ComponentSign, NextComponent;
    assert NumbersCompare(None, None, false, false) == None;
  }

  /** Two such versions compare as the strings after the dot do. */
  lemma OneAndCompare(s1: string, s2: string)
    requires OneAnd(s1) && OneAnd(s2) && AsStrings(s1[2..], s2[2..])
    ensures var t1, t2 := s1[2..], s2[2..];
      NumbersCompare(Some(s1), Some(s2), true, false)
        == Verdict(Strncmp(t1, t2, Max(StripZeros(t1, |t1| - 1), StripZeros(t2, |t2| - 1))))
  {
    var t1, t2 := s1[2..], s2[2..];
    OneDot(s1);
    OneDot(s2);
    LastComponents(t1, t2);
    hide Strncmp, Strtoll, StripZeros, NextComponent, ComponentLast;
    assert ComponentSign(s1, s2, true) == 0;
    assert NumbersCompare(Some(s1), Some(s2), true, false) == NumbersCompare(Some(t1), Some(t2), false, false);
    hide NumbersCompare;
  }

  lemma {:induction false} StrncmpPrefix(p: string, a: string, b: string)
    ensures Strncmp(p + a, p + b, |p|) == 0
  {
    if p != [] {
      assert (p + a)[1..] == p[1..] + a && (p + b)[1..] == p[1..] + b;
      StrncmpPrefix(p[1..], a, b);
    }
  }

  /** Two zero-led components that no zero ends and that differ at most in their last place are equal. */
  lemma LastPlaceIgnored(s1: string, s2: string, p: string, a: string, b: string)
    requires s1 == "1." + (p + a) && s2 == "1." + (p + b)
    requires AllDigits(p) && AllDigits(a) && AllDigits(b) && |p| > 1 && p[0] == '0'
    requires |b| == 1 && b[0] != '0' && |a| <= 1 && (p + a)[|p + a| - 1] != '0'
    ensures NumbersCompare(Some(s1), Some(s2), true, false) == None
  {
    var t1, t2 := p + a, p + b;
    assert s1[2..] == t1 && s2[2..] == t2;
    assert t1[0] == '0' && t2[0] == '0';
    LastOf(t1);
    LastOf(t2);
    hide Strncmp, NumbersCompare, NextComponent;
    OneAndCompare(s1, s2);
    StrncmpPrefix(p, a, b);
  }

  lemma {:induction false} StrncmpDiffers(p: string, a: string, b: string, n: nat)
    requires n > |p| && a != [] && b != [] && a[0] < b[0]
    ensures Strncmp(p + a, p + b, n) == -1
  {
    if p == [] {
      assert p + a == a && p + b == b;
    } else {
      assert (p + a)[1..] == p[1..] + a && (p + b)[1..] == p[1..] + b;
      StrncmpDiffers(p[1..], a, b, n - 1);
    }
  }

  lemma OlderPair()
    ensures NumbersCompare(Some("1.011"), Some("1.0121"), true, false) == Some(Older)
  {
    hide NumbersCompare, NextComponent, Strncmp, ComponentLength, StripZeros;
    OlderParts();
    var t1, t2 := "01" + "1", "01" + "21";
    LastOf(t1);
    LastOf(t2);
    OneAndCompare("1.011", "1.0121");
    StrncmpDiffers("01", "1", "21", 3);
  }

  lemma OlderParts()
    ensures var t1, t2 := "01" + "1", "01" + "21";
      && OneAnd("1.011") && OneAnd("1.0121") && "1.011"[2..] == t1 && "1.0121"[2..] == t2
      && t1[0] == '0' && t2[0] == '0' && |t1| == 3 && |t2| == 4 && AllDigits(t1) && AllDigits(t2)
      && StripZeros(t1, 2) == 2 && StripZeros(t2, 3) == 3
  {
    assert "1.011"[2..] == "011" && "1.0121"[2..] == "0121";
  }

  /** With longer zero-led components the numbers are not ordered transitively:
      1.011 and 1.012 are equal, so are 1.012 and 1.0121, but 1.011 is older than 1.0121. */
  lemma PaddedNumbers()
    ensures NumbersCompare(Some("1.011"), Some("1.012"), true, false) == None
    ensures NumbersCompare(Some("1.012"), Some("1.0121"), true, false) == None
    ensures NumbersCompare(Some("1.011"), Some("1.0121"), true, false) == Some(Older)
  {
    hide NumbersCompare;
    LastPlaceIgnored("1.011", "1.012", "01", "1", "2");
    LastPlaceIgnored("1.012", "1.0121", "012", "", "1");
    OlderPair();
  }

  /** Two atoms that can differ in version numbers and build-id only. */
  predicate SameButNumbers(a: AtomCtx, b: AtomCtx) {
    Plain(a) && Plain(b) && SamePackage(a, b) && a.letter == b.letter && a.suffixes == b.suffixes && a.pr == b.pr
  }

  lemma NumbersDecide(a: AtomCtx, b: AtomCtx)
    requires SameButNumbers(a, b)
    ensures var n := NumbersCompare(a.pv, b.pv, true, false);
      Compare(a, b, DEFAULT) == if n.Some? then n.value else OrderOf(IdSign(a.buildId, b.buildId))
  {
    CompareAsSigns(a, b);
    SuffixSwap(a.suffixes, b.suffixes, 0);
    hide Compare, NumbersCompare, SuffixSignFrom;
  }

  /** So atom_compare is not transitive on such versions. */
  lemma PaddedNotTransitive(a: AtomCtx, b: AtomCtx, c: AtomCtx)
    requires SameButNumbers(a, b) && SameButNumbers(b, c) && a.buildId == b.buildId == c.buildId
    requires a.pv == Some("1.011") && b.pv == Some("1.012") && c.pv == Some("1.0121")
    ensures Compare(a, b, DEFAULT) == Equal && Compare(b, c, DEFAULT) == Equal && Compare(a, c, DEFAULT) == Older
  {
    PaddedNumbers();
    NumbersDecide(a, b);
    NumbersDecide(b, c);
    NumbersDecide(a, c);
    hide Compare, NumbersCompare;
  }

  /** Nor is it when only some of the atoms carry a build-id. */
  lemma MixedBuildIdsNotTransitive(a: AtomCtx, b: AtomCtx, c: AtomCtx)
    requires SameButNumbers(a, b) && SameButNumbers(b, c) && a.pv == b.pv == c.pv && VersionInClass(a.pv.value, Unpadded)
    requires 0 < a.buildId < c.buildId && b.buildId == 0
    ensures Compare(a, b, DEFAULT) == Equal && Compare(b, c, DEFAULT) == Equal && Compare(a, c, DEFAULT) == Older
  {
    NumbersAreLex(a.pv, a.pv, true, Unpadded);
    LexSwap(Values(a.pv), Values(a.pv));
    NumbersDecide(a, b);
    NumbersDecide(b, c);
    NumbersDecide(a, c);
    hide Compare, NumbersCompare, Values, LexSign;
  }
}
