/** What a query matches: its operator, its slot and its repository, stated on the versions and the
    slots themselves. */
module AtomMatch {
  import opened CStrings
  import opened Atom
  import opened AtomCompare
  import opened AtomOrder
  import opened AtomPms
  import opened AtomPadded

  // ----- operators -----

  function VerdictSign(v: Option<Equality>): int {
    if v.Some? then SignOf(v.value) else 0
  }

  /** Numbers, letter and suffixes. */
  function PvSign(d: AtomCtx, q: AtomCtx): int {
    Then(VerdictSign(NumbersCompare(d.pv, q.pv, true, false)),
         Then(Sign(LetterCode(d.letter) - LetterCode(q.letter)), SuffixSignFrom(d.suffixes, q.suffixes, 0)))
  }

  /** And then revision and build-id: how the version of `d` compares with that of `q`. */
  function AtomSign(d: AtomCtx, q: AtomCtx): int {
    Then(PvSign(d, q), Then(Sign(d.pr - q.pr), IdSign(d.buildId, q.buildId)))
  }

  predicate IsOrderOp(op: Operator) {
    op == OpNewer || op == OpNewerEqual || op == OpOlderEqual || op == OpOlder
  }

  /** What the operator asks of the sign. */
  predicate Holds(op: Operator, sign: int) {
    match op
    case OpNewer => sign > 0
    case OpNewerEqual => sign >= 0
    case OpEqual => sign == 0
    case OpPvEqual => sign == 0
    case OpOlderEqual => sign <= 0
    case OpOlder => sign < 0
    case _ => false
  }

  function Query(q: AtomCtx, op: Operator, b: Blocker): AtomCtx {
    q.(pfxOp := op, blocker := b)
  }

  /** What the versions are compared by: without revision and build-id for ~, or when they are left out. */
  function Compared(d: AtomCtx, q: AtomCtx, op: Operator, norev: bool): int {
    if op == OpPvEqual || norev then PvSign(d, q) else AtomSign(d, q)
  }

  /** Of one package, >, >=, =, <=, < and ~ match exactly the versions that are newer, not older, the same,
      not newer, older, and the same but for the revision; without an operator the verdict says which. */
  lemma OperatorMatches(d: AtomCtx, q: AtomCtx, op: Operator, norev: bool)
    requires Plain(d) && Plain(q) && SamePackage(d, q)
    requires IsOrderOp(op) || op == OpEqual || op == OpPvEqual
    ensures Compare(d, Query(q, op, NoBlocker), DEFAULT.(norev := norev))
         == if Holds(op, Compared(d, q, op, norev)) then Equal else NotEqual
    ensures var r, s := Compare(d, q, DEFAULT.(norev := norev)), Compared(d, q, OpNone, norev);
      (r == Newer <==> s > 0) && (r == Older <==> s < 0) && (r == Equal <==> s == 0)
  {
    hide NumbersCompare, TailCompare, SuffixSignFrom, LetterCode;
    NumbersSwap(d.pv, q.pv, true);
    TailAsSigns(d, Query(q, op, NoBlocker));
    TailAsSigns(d, q);
  }

  /** A blocker turns the order operators round; = and ~ match nothing then. */
  lemma BlockedMatches(d: AtomCtx, q: AtomCtx, op: Operator, b: Blocker, norev: bool)
    requires Plain(d) && Plain(q) && SamePackage(d, q) && (b == Block || b == BlockHard)
    requires IsOrderOp(op) || op == OpEqual || op == OpPvEqual
    ensures Compare(d, Query(q, op, b), DEFAULT.(norev := norev))
         == if IsOrderOp(op) && !Holds(op, Compared(d, q, op, norev)) then Equal else NotEqual
  {
    hide NumbersCompare, TailCompare, SuffixSignFrom, LetterCode;
    NumbersSwap(d.pv, q.pv, true);
    TailAsSigns(d, Query(q, op, b));
  }

  /** Within a version class that is the order of the components. */
  lemma SignInClass(d: AtomCtx, q: AtomCtx, k: VersionClass)
    requires Ranked(d, k) && Ranked(q, k)
    ensures AtomSign(d, q) == VersionSign(d, q)
  {
    NumbersAreLex(d.pv, q.pv, true, k);
    hide NumbersCompare, SuffixSignFrom, LetterCode, LexSign, Values, VersionInClass;
  }

  /** And on versions that are compared as the specification says, it is the order of Algorithm 3.1. */
  lemma OperatorsArePms(cat: string, pn: string, a: PmsVersion, b: PmsVersion, op: Operator)
    requires Valid(a) && Valid(b) && VersionsAgree(a, b) && Nameable(cat, pn, a) && Nameable(cat, pn, b)
    requires IsOrderOp(op) || op == OpEqual
    ensures var d, q := AtomOf(cat, pn, a), AtomOf(cat, pn, b);
      Compare(d, Query(q, op, NoBlocker), DEFAULT) == Equal <==> Holds(op, PmsCompare(a, b))
  {
    hide Compare, AtomOf, PmsCompare, VersionsAgree, Nameable, AtomSign, Explode, ToString, Plain;
    var d, q := AtomOf(cat, pn, a), AtomOf(cat, pn, b);
    AtomOfExploded(cat, pn, a);
    AtomOfExploded(cat, pn, b);
    AllCompareIsPms(cat, pn, a, b);
    RecordParts(cat, pn, a, b);
    OperatorMatches(d, q, op, false);
    SameSign(AtomSign(d, q), PmsCompare(a, b), op);
  }

  lemma SameSign(s: int, t: int, op: Operator)
    requires (s > 0 <==> t > 0) && (s < 0 <==> t < 0)
    ensures Holds(op, s) <==> Holds(op, t)
  {
  }

  // ----- slots -----

  function Slotted(a: AtomCtx, slot: Option<string>, sub: Option<string>): AtomCtx {
    a.(slot := slot, subslot := sub)
  }

  /** The verdict on the two atoms with these slots and sub-slots. */
  function SlotVerdict(d: AtomCtx, ds: Option<string>, du: Option<string>,
                       q: AtomCtx, b: Blocker, qs: Option<string>, qu: Option<string>, f: Flags): Equality {
    Compare(Slotted(d, ds, du), Slotted(q.(blocker := b), qs, qu), f)
  }

  /** A query :s matches the slot with any sub-slot, :s/u the sub-slot only, and no slot matches all. `s` and
      `t` are different slots, `u` and `v` different sub-slots; what matches compares as without slots. */
  lemma SlotMatches(d: AtomCtx, q: AtomCtx, s: string, t: string, u: string, v: string)
    requires Plain(d) && Plain(q) && s != t && u != v
    ensures var verdict := Compare(d, q, DEFAULT);
      var on := (ds, du, qs, qu) => SlotVerdict(d, ds, du, q, NoBlocker, qs, qu, DEFAULT);
      && on(None, None, None, None) == on(Some(s), None, None, None) == on(Some(s), Some(u), None, None) == verdict
      && on(None, None, Some(s), None) == NotEqual && on(Some(s), None, Some(s), None) == verdict
      && on(Some(s), Some(u), Some(s), None) == verdict && on(Some(t), Some(u), Some(s), None) == NotEqual
      && on(None, None, Some(s), Some(u)) == NotEqual && on(Some(s), None, Some(s), Some(u)) == NotEqual
      && on(Some(s), Some(u), Some(s), Some(u)) == verdict && on(Some(s), Some(v), Some(s), Some(u)) == NotEqual
      && on(Some(t), Some(u), Some(s), Some(u)) == NotEqual
  {
    hide Compare, SlotVerdict;
    forall ds, du, qs, qu
      ensures SlotVerdict(d, ds, du, q, NoBlocker, qs, qu, DEFAULT)
           == if SlotRejects(Slotted(d, ds, du), Slotted(q.(blocker := NoBlocker), qs, qu), DEFAULT) then NotEqual else Compare(d, q, DEFAULT)
    {
      SlotDecides(d, ds, du, q, NoBlocker, qs, qu, DEFAULT);
    }
  }

  /** An antislot ^ matches whatever has a slot, ^:s the other slots, ^:s/u the other sub-slots of the slot. */
  lemma AntiSlotMatches(d: AtomCtx, q: AtomCtx, s: string, t: string, u: string, v: string)
    requires Plain(d) && Plain(q) && s != t && u != v
    ensures var verdict := Compare(d, q, DEFAULT);
      var on := (ds, du, qs, qu) => SlotVerdict(d, ds, du, q, AntiSlot, qs, qu, DEFAULT);
      && on(None, None, None, None) == NotEqual
      && on(Some(s), None, None, None) == on(Some(s), Some(u), None, None) == verdict
      && on(None, None, Some(s), None) == on(Some(s), None, Some(s), None) == on(Some(s), Some(u), Some(s), None) == NotEqual
      && on(Some(t), None, Some(s), None) == on(Some(t), Some(u), Some(s), None) == verdict
      && on(None, None, Some(s), Some(u)) == on(Some(s), Some(u), Some(s), Some(u)) == NotEqual
      && on(Some(t), Some(u), Some(s), Some(v)) == NotEqual && on(Some(s), Some(u), Some(s), Some(v)) == verdict
      && on(Some(s), None, Some(s), Some(u)) == (if u == s then NotEqual else verdict)
  {
    hide Compare, SlotVerdict;
    forall ds, du, qs, qu
      ensures SlotVerdict(d, ds, du, q, AntiSlot, qs, qu, DEFAULT)
           == if SlotRejects(Slotted(d, ds, du), Slotted(q.(blocker := AntiSlot), qs, qu), DEFAULT) then NotEqual else Compare(d, q, DEFAULT)
    {
      SlotDecides(d, ds, du, q, AntiSlot, qs, qu, DEFAULT);
    }
  }

  /** Apart from the slot rules, neither the slots nor an antislot change how two atoms compare. */
  lemma SlotDecides(d: AtomCtx, ds: Option<string>, du: Option<string>,
                    q: AtomCtx, b: Blocker, qs: Option<string>, qu: Option<string>, f: Flags)
    requires Plain(d) && Plain(q) && (b == NoBlocker || b == AntiSlot) && !f.exact
    ensures SlotVerdict(d, ds, du, q, b, qs, qu, f)
         == if SlotRejects(Slotted(d, ds, du), Slotted(q.(blocker := b), qs, qu), f) then NotEqual else Compare(d, q, f)
  {
    hide NameCheck, FullVersionCompare, CompareMatch;
    SlotIgnored(d, q, ds, du, qs, qu, b, f);
  }

  lemma SlotIgnored(d: AtomCtx, q: AtomCtx, ds: Option<string>, du: Option<string>, qs: Option<string>, qu: Option<string>,
                    b: Blocker, f: Flags)
    requires !Blocking(q) && (b == NoBlocker || b == AntiSlot)
    ensures FullVersionCompare(Slotted(d, ds, du), Slotted(q.(blocker := b), qs, qu), f) == FullVersionCompare(d, q, f)
  {
    hide NumbersCompare, SuffixStop, SuffixGet, LetterCode;
  }

  /** Told to leave out the slot, the comparison is that without slots; told to leave out the sub-slot, that
      without sub-slots. */
  lemma SlotFlags(d: AtomCtx, ds: Option<string>, du: Option<string>,
                  q: AtomCtx, b: Blocker, qs: Option<string>, qu: Option<string>, f: Flags)
    requires Plain(d) && Plain(q) && (b == NoBlocker || b == AntiSlot) && !f.exact
    ensures f.noslot ==> SlotVerdict(d, ds, du, q, b, qs, qu, f) == Compare(d, q, f)
    ensures f.nosubslot ==> SlotVerdict(d, ds, du, q, b, qs, qu, f) == SlotVerdict(d, ds, None, q, b, qs, None, f)
  {
    hide Compare, SlotVerdict;
    SlotDecides(d, ds, du, q, b, qs, qu, f);
    SlotDecides(d, ds, None, q, b, qs, None, f);
  }

  /** A blocked query does not look at slots. */
  lemma BlockedSlots(d: AtomCtx, ds: Option<string>, du: Option<string>,
                     q: AtomCtx, b: Blocker, qs: Option<string>, qu: Option<string>, f: Flags)
    requires Plain(d) && Plain(q) && (b == Block || b == BlockHard) && !f.exact
    ensures SlotVerdict(d, ds, du, q, b, qs, qu, f) == Compare(d, q.(blocker := b), f)
  {
    hide NameCheck, CompareMatch, NumbersCompare, SuffixStop, SuffixGet, LetterCode;
  }

  // ----- repository, category and name -----

  /** A query for a repository matches only there, blocked or not, unless told to leave it out. */
  lemma RepoMatches(d: AtomCtx, q: AtomCtx, from: Option<string>, wanted: Option<string>, f: Flags)
    requires d.repo.None? && q.repo.None? && !f.exact
    ensures Compare(d.(repo := from), q.(repo := wanted), f)
         == if wanted.Some? && !f.norepo && from != wanted then NotEqual else Compare(d, q, f)
  {
    hide NameCheck, CompareMatch, NumbersCompare, SuffixStop, SuffixGet, LetterCode;
  }

  /** A query without a version matches every version of what it names: a package, all packages of that name,
      or all of a category. */
  lemma NameMatches(d: AtomCtx, q: AtomCtx)
    requires d.pv.Some? && q.blocker == NoBlocker && q.pv.None? && q.slot.None? && q.repo.None?
    ensures Compare(d, q, DEFAULT)
         == if (q.category.Some? ==> q.category == d.category) && (q.pn.Some? ==> q.pn == d.pn) then Equal else NotEqual
  {
    hide FullVersionCompare, CompareMatch;
  }

  /** A query for a name in any category compares as one in the category of the package. */
  lemma AnyCategory(d: AtomCtx, q: AtomCtx)
    requires Plain(d) && Plain(q)
    ensures Compare(d, q.(category := None), DEFAULT) == Compare(d, q.(category := d.category), DEFAULT)
  {
    hide CompareMatch, NumbersCompare, SuffixStop, SuffixGet, LetterCode;
  }

  /** A blocked query without a version matches everything that has the parts it names. */
  lemma BlockedNameMatches(d: AtomCtx, q: AtomCtx)
    requires d.pv.Some? && (q.blocker == Block || q.blocker == BlockHard) && q.pv.None? && q.repo.None?
    requires q.pn.None? ==> q.category.Some? && q.category == d.category
    ensures Compare(d, q, DEFAULT)
         == if (q.category.Some? ==> d.category.Some?) && (q.pn.Some? ==> d.pn.Some?) then Equal else NotEqual
  {
    hide FullVersionCompare, CompareMatch;
  }

  // ----- globs behind the numbers -----

  /** A query =...* with the version parts of `q`. */
  function Glob(q: AtomCtx): AtomCtx {
    q.(pfxOp := OpEqual, sfxOp := OpStar)
  }

  predicate SameNumbers(d: AtomCtx, q: AtomCtx) {
    NumbersCompare(d.pv, q.pv, true, false) == None
  }

  predicate PlainSuffixes(s: seq<Suffix>) {
    forall i :: 0 <= i < |s| ==> s[i].kind < VER_NORM
  }

  /** Length of the common part of two suffix lists. */
  function CommonPart(a: seq<Suffix>, b: seq<Suffix>): (n: nat)
    ensures n <= |a| && n <= |b| && a[..n] == b[..n]
    ensures n < |a| && n < |b| ==> a[n] != b[n]
  {
    if a == [] || b == [] || a[0] != b[0] then 0
    else
      var n := CommonPart(a[1..], b[1..]);
      assert a[..n + 1] == [a[0]] + a[1..][..n] && b[..n + 1] == [b[0]] + b[1..][..n];
      n + 1
  }

  /** The query's suffixes are matched to their end, or up to one without a number against the same suffix
      with one. */
  predicate SuffixesGlob(a: seq<Suffix>, b: seq<Suffix>) {
    var n := CommonPart(a, b);
    n == |b| || (n < |a| && a[n].kind == b[n].kind && b[n].sint == 0)
  }

  /** Where the walk over two lists stops is the end of their common part. */
  lemma {:induction false} StopIsCommon(a: seq<Suffix>, b: seq<Suffix>, i: nat)
    requires PlainSuffixes(a) && PlainSuffixes(b) && i <= |a| && i <= |b|
    ensures SuffixStop(a, b, i) == i + CommonPart(a[i..], b[i..])
    decreases |a| - i
  {
    if i < |a| && i < |b| {
      assert a[i..][0] == a[i] && b[i..][0] == b[i];
      assert a[i..][1..] == a[i + 1..] && b[i..][1..] == b[i + 1..];
      if a[i] == b[i] {
        StopIsCommon(a, b, i + 1);
      }
    }
  }

  /** A glob behind a letter matches the versions with these numbers and this letter; behind suffixes, those
      whose suffixes go on from there; behind a revision, that release. */
  lemma GlobMatches(d: AtomCtx, q: AtomCtx)
    requires Plain(d) && Plain(q) && SamePackage(d, q) && PlainSuffixes(d.suffixes) && PlainSuffixes(q.suffixes)
    requires q.letter.Some? || q.suffixes != [] || q.pr != 0
    requires (d.letter.Some? ==> IsLower(d.letter.value)) && (q.letter.Some? ==> IsLower(q.letter.value))
    ensures Compare(d, Glob(q), DEFAULT) == Equal <==>
      && SameNumbers(d, q) && d.letter == q.letter
      && (if q.pr == 0 then SuffixesGlob(d.suffixes, q.suffixes)
          else d.suffixes == q.suffixes && d.pr == q.pr && IdSign(d.buildId, q.buildId) == 0)
  {
    hide NumbersCompare, SuffixStop, CommonPart;
    NumbersSwap(d.pv, q.pv, true);
    StopIsCommon(d.suffixes, q.suffixes, 0);
    assert d.suffixes[0..] == d.suffixes && q.suffixes[0..] == q.suffixes;
    AllCommon(d.suffixes, q.suffixes);
    assert q.suffixes != [] ==> q.suffixes[0].kind < VER_NORM;
  }

  lemma AllCommon(a: seq<Suffix>, b: seq<Suffix>)
    ensures CommonPart(a, b) == |a| == |b| <==> a == b
  {
    hide CommonPart;
    if CommonPart(a, b) == |a| == |b| {
      assert a == a[..|a|] && b == b[..|b|];
    }
  }
}
