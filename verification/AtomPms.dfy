/** Section 3.3 of the Package Manager Specification, Algorithms 3.1 to 3.7, written
    down on parsed versions, and its relation to the comparison that walks over the strings. */
module AtomPms {
  import opened CStrings
  import opened Atom
  import opened AtomCompare
  import opened AtomOrder
  import opened AtomRoundTrip

  // ----- parsed versions -----

  /** A suffix: its type as an index into the suffix table, and its digits, if any. */
  datatype PmsSuffix = PmsSuffix(kind: nat, digits: string)

  datatype PmsVersion = PmsVersion(numbers: seq<string>, letter: Option<char>, suffixes: seq<PmsSuffix>, revision: nat)

  predicate IsNumber(s: string) {
    s != [] && AllDigits(s)
  }

  /** _alpha, _beta, _pre, _rc and _p, in this order. */
  predicate IsSuffixKind(k: nat) {
    k < 6 && k != 4
  }

  predicate ValidSuffixes(s: seq<PmsSuffix>) {
    forall i :: 0 <= i < |s| ==> IsSuffixKind(s[i].kind) && AllDigits(s[i].digits)
  }

  predicate ValidNumbers(s: seq<string>) {
    s != [] && forall i :: 0 <= i < |s| ==> IsNumber(s[i])
  }

  predicate Valid(v: PmsVersion) {
    ValidNumbers(v.numbers) && ValidSuffixes(v.suffixes) && (v.letter.Some? ==> IsLower(v.letter.value))
  }

  // ----- the algorithms -----

  /** A number with any trailing zeros removed. */
  function Stripped(s: string): (r: string)
    ensures |r| <= |s| && r == s[..|r|]
    ensures r != [] ==> r[|r| - 1] != '0'
  {
    if s != [] && s[|s| - 1] == '0' then Stripped(s[..|s| - 1]) else s
  }

  /** Algorithm 3.3: numeric components after the first. */
  function PmsComponent(a: string, b: string): (r: int)
    requires AllDigits(a) && AllDigits(b)
    ensures -1 <= r <= 1
  {
    if ZeroLed(a) || ZeroLed(b) then Strcmp(Stripped(a), Stripped(b)) else Sign(DecValue(a) - DecValue(b))
  }

  /** Algorithm 3.2, lines 9 to 16. */
  function PmsLater(a: seq<string>, b: seq<string>): (r: int)
    requires forall i :: 0 <= i < |a| ==> IsNumber(a[i])
    requires forall i :: 0 <= i < |b| ==> IsNumber(b[i])
    ensures -1 <= r <= 1
  {
    if a == [] then (if b == [] then 0 else -1)
    else if b == [] then 1
    else
      assert IsNumber(a[0]) && IsNumber(b[0]);
      var c := PmsComponent(a[0], b[0]);
      if c != 0 then c else PmsLater(a[1..], b[1..])
  }

  /** Algorithm 3.2. */
  function PmsNumbers(a: seq<string>, b: seq<string>): (r: int)
    requires ValidNumbers(a) && ValidNumbers(b)
    ensures -1 <= r <= 1
  {
    Then(Sign(DecValue(a[0]) - DecValue(b[0])), PmsLater(a[1..], b[1..]))
  }

  /** Algorithm 3.6. */
  function PmsSuffixPair(a: PmsSuffix, b: PmsSuffix): int
    requires AllDigits(a.digits) && AllDigits(b.digits)
  {
    if a.kind == b.kind then Sign(DecValue(a.digits) - DecValue(b.digits)) else Sign(a.kind - b.kind)
  }

  const PATCH: nat := 5

  /** Algorithm 3.5. */
  function PmsSuffixes(a: seq<PmsSuffix>, b: seq<PmsSuffix>): (r: int)
    requires ValidSuffixes(a) && ValidSuffixes(b)
    ensures -1 <= r <= 1
  {
    if a == [] && b == [] then 0
    else if b == [] then (if a[0].kind == PATCH then 1 else -1)
    else if a == [] then (if b[0].kind == PATCH then -1 else 1)
    else
      var c := PmsSuffixPair(a[0], b[0]);
      if c != 0 then c else PmsSuffixes(a[1..], b[1..])
  }

  /** Algorithm 3.1. */
  function PmsCompare(a: PmsVersion, b: PmsVersion): int
    requires Valid(a) && Valid(b)
  {
    Then(PmsNumbers(a.numbers, b.numbers),
         Then(Sign(LetterCode(a.letter) - LetterCode(b.letter)),
              Then(PmsSuffixes(a.suffixes, b.suffixes), Sign(a.revision - b.revision))))
  }

  // ----- versions as strings -----

  function NumbersStr(s: seq<string>): string
    requires s != []
  {
    if |s| == 1 then s[0] else s[0] + "." + NumbersStr(s[1..])
  }

  function SuffixStr(s: PmsSuffix): string
    requires IsSuffixKind(s.kind)
  {
    SuffixName(s.kind) + s.digits
  }

  function SuffixesStr(s: seq<PmsSuffix>): string
    requires ValidSuffixes(s)
  {
    if s == [] then "" else SuffixStr(s[0]) + SuffixesStr(s[1..])
  }

  function LetterStr(l: Option<char>): string {
    if l.Some? then [l.value] else ""
  }

  /** What follows the numbers. */
  function RestStr(v: PmsVersion): string
    requires Valid(v)
  {
    LetterStr(v.letter) + SuffixesStr(v.suffixes)
  }

  /** PV. */
  function PvStr(v: PmsVersion): string
    requires Valid(v)
  {
    NumbersStr(v.numbers) + RestStr(v)
  }

  // ----- the numbers, read back -----

  function DecValues(s: seq<string>): seq<int>
    requires forall i :: 0 <= i < |s| ==> IsNumber(s[i])
  {
    if s == [] then [] else assert IsNumber(s[0]); [DecValue(s[0])] + DecValues(s[1..])
  }

  /** Text that ends a number without starting another component. */
  predicate EndsNumbers(t: string) {
    '.' !in t && (t == [] || !IsDigit(t[0]))
  }

  lemma {:induction false} ValuesRead(s: seq<string>, t: string)
    requires ValidNumbers(s) && EndsNumbers(t)
    ensures Values(Some(NumbersStr(s) + t)) == DecValues(s)
  {
    var u := NumbersStr(s) + t;
    if |s| == 1 {
      StrtollOfDigits(s[0], t);
      NoNext(s[0] + t);
      assert DecValues(s[1..]) == [];
      assert Values(None) == [];
    } else {
      var rest := NumbersStr(s[1..]) + t;
      assert u == s[0] + ("." + rest);
      StrtollOfDigits(s[0], "." + rest);
      NextAfter(s[0], rest);
      ValuesRead(s[1..], t);
    }
  }

  lemma NoNext(s: string)
    requires '.' !in s
    ensures NextComponent(s) == None
  {
  }

  lemma NextAfter(n: string, rest: string)
    requires AllDigits(n)
    ensures NextComponent(n + ("." + rest)) == Some(rest)
  {
    assert '.' !in n;
    StrchrSplit(n, '.', rest);
    assert n + ("." + rest) == n + ['.'] + rest;
  }

  predicate Unzeroed(s: seq<string>) {
    forall i :: 0 <= i < |s| ==> !ZeroLed(s[i])
  }

  lemma {:induction false} UnzeroedRead(s: seq<string>, t: string)
    requires ValidNumbers(s) && EndsNumbers(t) && Unzeroed(s)
    ensures NoZeroLed(Some(NumbersStr(s) + t))
  {
    var u := NumbersStr(s) + t;
    assert u[0] == s[0][0];
    if |s| == 1 {
      NoNext(s[0] + t);
    } else {
      var rest := NumbersStr(s[1..]) + t;
      assert u == s[0] + ("." + rest);
      NextAfter(s[0], rest);
      UnzeroedRead(s[1..], t);
    }
  }

  lemma LaterUnzeroed(s: seq<string>, t: string)
    requires ValidNumbers(s) && EndsNumbers(t) && Unzeroed(s[1..])
    ensures VersionInClass(NumbersStr(s) + t, Unpadded)
  {
    if |s| == 1 {
      NoNext(s[0] + t);
    } else {
      var rest := NumbersStr(s[1..]) + t;
      assert NumbersStr(s) + t == s[0] + ("." + rest);
      NextAfter(s[0], rest);
      UnzeroedRead(s[1..], t);
    }
  }

  lemma {:induction false} LaterIsLex(a: seq<string>, b: seq<string>)
    requires forall i :: 0 <= i < |a| ==> IsNumber(a[i])
    requires forall i :: 0 <= i < |b| ==> IsNumber(b[i])
    requires Unzeroed(a) && Unzeroed(b)
    ensures LexSign(DecValues(a), DecValues(b)) == PmsLater(a, b)
  {
    if a != [] && b != [] {
      assert DecValues(a)[1..] == DecValues(a[1..]) && DecValues(b)[1..] == DecValues(b[1..]);
      LaterIsLex(a[1..], b[1..]);
    }
  }

  /** Without zero-led later components, Algorithm 3.2 is the lexicographic order of the values. */
  lemma NumbersIsLex(a: seq<string>, b: seq<string>)
    requires ValidNumbers(a) && ValidNumbers(b) && Unzeroed(a[1..]) && Unzeroed(b[1..])
    ensures LexSign(DecValues(a), DecValues(b)) == PmsNumbers(a, b)
  {
    assert DecValues(a)[1..] == DecValues(a[1..]) && DecValues(b)[1..] == DecValues(b[1..]);
    LaterIsLex(a[1..], b[1..]);
  }

  // ----- the suffixes, read back -----

  function Stored(s: PmsSuffix): Suffix
    requires AllDigits(s.digits)
  {
    Suffix(s.kind, DecValue(s.digits))
  }

  function StoredAll(s: seq<PmsSuffix>): (r: seq<Suffix>)
    requires ValidSuffixes(s)
    ensures |r| == |s| && forall i :: 0 <= i < |s| ==> r[i] == Stored(s[i])
  {
    if s == [] then [] else [Stored(s[0])] + StoredAll(s[1..])
  }

  lemma NoSuffixStep(pv: string, j: nat)
    requires 0 < j <= |pv| && pv[j - 1] != '_'
    ensures SuffixesBefore(pv, j) == SuffixesBefore(pv, j - 1)
  {
    hide SuffixIndex, Strtoll;
    assert SuffixAt(pv, j - 1) == [];
  }

  /** A stretch without underscores adds no suffix. */
  lemma {:induction false} NoSuffixIn(pv: string, i: nat, j: nat)
    requires i <= j <= |pv| && forall k :: i <= k < j ==> pv[k] != '_'
    ensures SuffixesBefore(pv, j) == SuffixesBefore(pv, i)
    decreases j - i
  {
    hide SuffixesBefore;
    if i < j {
      NoSuffixStep(pv, j);
      NoSuffixIn(pv, i, j - 1);
    }
  }

  /** The text at `i` is one suffix and then either the end or another one. */
  predicate SuffixText(pv: string, i: nat, s: PmsSuffix, t: string) {
    i <= |pv| && IsSuffixKind(s.kind) && AllDigits(s.digits) && (t == [] || t[0] == '_') && pv[i..] == SuffixStr(s) + t
  }

  lemma SuffixIndexRead(pv: string, i: nat, s: PmsSuffix, t: string)
    requires SuffixText(pv, i, s, t)
    ensures SuffixIndex(pv, i, 0) == Some(s.kind)
  {
    var w := SuffixName(s.kind);
    assert |w| >= 2;
    assert forall k :: 0 <= k < |w| ==> pv[i + k] == pv[i..][k] == w[k];
    assert pv[i..i + |w|] == w;
    assert OccursAt(pv, w, i);
    forall j | 0 <= j < s.kind ensures !OccursAt(pv, SuffixName(j), i) {
      NameDiffers(pv, i, s, t, j);
    }
    FirstIndex(pv, i, s.kind, 0);
  }

  lemma {:induction false} FirstIndex(pv: string, i: nat, k: nat, from: nat)
    requires from <= k < SUFFIX_COUNT && OccursAt(pv, SuffixName(k), i)
    requires forall j :: from <= j < k ==> !OccursAt(pv, SuffixName(j), i)
    ensures SuffixIndex(pv, i, from) == Some(k)
    decreases k - from
  {
    hide OccursAt;
    if from < k {
      FirstIndex(pv, i, k, from + 1);
    }
  }

  /** No earlier entry of the table stands where a suffix does. */
  lemma NameDiffers(pv: string, i: nat, s: PmsSuffix, t: string, j: nat)
    requires SuffixText(pv, i, s, t) && j < s.kind
    ensures !OccursAt(pv, SuffixName(j), i)
  {
    var u := SuffixStr(s) + t;
    var w := SuffixName(j);
    assert |u| >= 2 && u[1] == SuffixName(s.kind)[1];
    if i + |w| <= |pv| {
      assert forall k :: 0 <= k < |w| ==> pv[i..i + |w|][k] == pv[i..][k];
      assert w[1] == pv[i..i + |w|][1] ==> w[1] == u[1];
      if s.kind == PATCH && j == 2 {
        assert u[2] != 'r';
        assert pv[i..i + |w|][2] == u[2];
      }
    }
  }

  lemma SuffixNumberRead(digits: string, t: string)
    requires AllDigits(digits) && (t == [] || t[0] == '_')
    ensures Atoi(digits + t) == DecValue(digits)
  {
    if digits == [] {
      assert digits + t == t;
      assert t[0..] == t;
      assert SpaceRun(t) == 0 && DigitRun(t) == 0;
    } else {
      StrtollOfDigits(digits, t);
    }
  }

  lemma SuffixAtRead(pv: string, i: nat, s: PmsSuffix, t: string)
    requires SuffixText(pv, i, s, t)
    ensures i < |pv| && SuffixAt(pv, i) == [Stored(s)]
  {
    hide SuffixIndex, Strtoll, DecValue, SuffixName;
    var w := SuffixName(s.kind);
    SuffixIndexRead(pv, i, s, t);
    SuffixRest(pv, i, w, s.digits, t);
    SuffixNumberRead(s.digits, t);
    assert pv[i + 0] == (w + s.digits)[0] == '_';
  }

  lemma SuffixRest(pv: string, i: nat, w: string, digits: string, t: string)
    requires i <= |pv| && pv[i..] == w + digits + t
    ensures i + |w| <= |pv| && pv[i + |w|..] == digits + t
    ensures i + |w + digits| <= |pv| && pv[i + |w + digits|..] == t
    ensures forall k :: 0 <= k < |w + digits| ==> pv[i + k] == (w + digits)[k]
  {
    assert pv[i..][|w|..] == digits + t;
    assert pv[i..][|w + digits|..] == t;
    assert forall k :: 0 <= k < |w + digits| ==> pv[i + k] == pv[i..][k];
  }

  lemma SuffixRead(pv: string, i: nat, s: PmsSuffix, t: string)
    requires SuffixText(pv, i, s, t)
    ensures i + |SuffixStr(s)| <= |pv| && pv[i + |SuffixStr(s)|..] == t
    ensures SuffixesBefore(pv, i + |SuffixStr(s)|) == SuffixesBefore(pv, i) + [Stored(s)]
  {
    hide SuffixAt, SuffixName, DecValue, SuffixesBefore;
    SuffixAtRead(pv, i, s, t);
    SuffixRest(pv, i, SuffixName(s.kind), s.digits, t);
    var n := |SuffixStr(s)|;
    forall k | i + 1 <= k < i + n ensures pv[k] != '_' {
      NoInnerUnderscore(s, k - i);
      assert pv[i + (k - i)] == SuffixStr(s)[k - i];
    }
    SuffixesOneMore(pv, i);
    NoSuffixIn(pv, i + 1, i + n);
  }

  lemma SuffixesOneMore(pv: string, i: nat)
    requires i < |pv|
    ensures SuffixesBefore(pv, i + 1) == SuffixesBefore(pv, i) + SuffixAt(pv, i)
  {
  }

  lemma NoInnerUnderscore(s: PmsSuffix, k: nat)
    requires IsSuffixKind(s.kind) && AllDigits(s.digits) && 0 < k < |SuffixStr(s)|
    ensures SuffixStr(s)[k] != '_'
  {
    var w := SuffixName(s.kind);
    assert SuffixStr(s)[k] == if k < |w| then w[k] else s.digits[k - |w|];
  }

  lemma {:induction false} SuffixesRead(pv: string, i: nat, s: seq<PmsSuffix>)
    requires i <= |pv| && ValidSuffixes(s) && pv[i..] == SuffixesStr(s)
    ensures SuffixesBefore(pv, |pv|) == SuffixesBefore(pv, i) + StoredAll(s)
    decreases |s|
  {
    hide SuffixesBefore, SuffixName, SuffixesStr, SuffixText, SuffixStr, DecValue;
    if s == [] {
      NoSuffixText(s);
      assert i == |pv|;
    } else {
      SuffixesHeadText(pv, i, s);
      SuffixRead(pv, i, s[0], SuffixesStr(s[1..]));
      SuffixesRead(pv, i + |SuffixStr(s[0])|, s[1..]);
      Assoc(SuffixesBefore(pv, i), [Stored(s[0])], StoredAll(s[1..]));
    }
  }

  lemma NoSuffixText(s: seq<PmsSuffix>)
    requires s == []
    ensures SuffixesStr(s) == []
  {
  }

  lemma SuffixesHeadText(pv: string, i: nat, s: seq<PmsSuffix>)
    requires i <= |pv| && ValidSuffixes(s) && s != [] && pv[i..] == SuffixesStr(s)
    ensures SuffixText(pv, i, s[0], SuffixesStr(s[1..]))
  {
    hide SuffixName;
    SuffixesHead(s[1..]);
  }

  lemma SuffixesHead(s: seq<PmsSuffix>)
    requires ValidSuffixes(s)
    ensures SuffixesStr(s) == [] || SuffixesStr(s)[0] == '_'
  {
    if s != [] {
      assert SuffixesStr(s)[0] == SuffixStr(s[0])[0] == SuffixName(s[0].kind)[0];
    }
  }

  /** The suffixes collected from PV are those of the version. */
  lemma StoredSuffixes(base: string, s: seq<PmsSuffix>)
    requires base != [] && '_' !in base && ValidSuffixes(s)
    ensures Suffixes(base + SuffixesStr(s)) == StoredAll(s)
  {
    hide SuffixesBefore, SuffixesStr, SuffixName;
    var t := SuffixesStr(s);
    var pv := base + t;
    LastNotUnderscore(s);
    assert pv[|pv| - 1] == if t == [] then base[|base| - 1] else t[|t| - 1];
    assert forall k :: 0 <= k < |base| ==> pv[k] == base[k];
    assert pv[|base|..] == t;
    NothingBefore(pv);
    NoSuffixIn(pv, 0, |base|);
    SuffixesRead(pv, |base|, s);
    NoSuffixStep(pv, |pv|);
  }

  lemma NothingBefore(pv: string)
    ensures SuffixesBefore(pv, 0) == []
  {
  }

  lemma {:induction false} LastNotUnderscore(s: seq<PmsSuffix>)
    requires ValidSuffixes(s)
    ensures SuffixesStr(s) == [] || SuffixesStr(s)[|SuffixesStr(s)| - 1] != '_'
  {
    if s != [] {
      var w := SuffixStr(s[0]);
      NoInnerUnderscore(s[0], |w| - 1);
      LastNotUnderscore(s[1..]);
    }
  }

  // ----- the suffix order as stored against Algorithm 3.5 -----

  /** The part of a list that the stored order looks at: up to the first _p, which
      itself does not count when its number is 0. */
  function Visible(s: seq<PmsSuffix>): seq<Suffix>
    requires ValidSuffixes(s)
  {
    if s == [] then []
    else if s[0].kind == PATCH then (if DecValue(s[0].digits) == 0 then [] else [Stored(s[0])])
    else [Stored(s[0])] + Visible(s[1..])
  }

  lemma {:induction false} SignFromShift(a: seq<Suffix>, b: seq<Suffix>, i: nat)
    requires a != [] && b != []
    ensures SuffixSignFrom(a, b, i + 1) == SuffixSignFrom(a[1..], b[1..], i)
    decreases |a| - i
  {
    var x, y := SuffixGet(a, i + 1), SuffixGet(b, i + 1);
    assert x == SuffixGet(a[1..], i) && y == SuffixGet(b[1..], i);
    if x == y && x.kind != VER_NORM {
      SignFromShift(a, b, i + 1);
    }
  }

  /** The stored order gives the verdict of Algorithm 3.5 exactly on the lists that
      are equal or differ in the part it looks at. */
  lemma {:induction false} SuffixesAgreeIff(a: seq<PmsSuffix>, b: seq<PmsSuffix>)
    requires ValidSuffixes(a) && ValidSuffixes(b)
    ensures SuffixSignFrom(StoredAll(a), StoredAll(b), 0) == PmsSuffixes(a, b)
       <==> (Visible(a) == Visible(b) ==> StoredAll(a) == StoredAll(b))
    ensures SuffixSignFrom(StoredAll(a), StoredAll(b), 0) == 0 <==> Visible(a) == Visible(b)
    ensures PmsSuffixes(a, b) == 0 <==> StoredAll(a) == StoredAll(b)
  {
    if a != [] && b != [] {
      var x, y := Stored(a[0]), Stored(b[0]);
      var sa, sb := StoredAll(a[1..]), StoredAll(b[1..]);
      assert StoredAll(a) == [x] + sa && StoredAll(b) == [y] + sb;
      assert ([x] + sa)[1..] == sa && ([y] + sb)[1..] == sb;
      SignFromShift(StoredAll(a), StoredAll(b), 0);
      SuffixesAgreeIff(a[1..], b[1..]);
      ConsEqual(x, sa, y, sb);
      ConsEqual(x, Visible(a[1..]), y, Visible(b[1..]));
    }
  }

  lemma ConsEqual<T>(x: T, s: seq<T>, y: T, t: seq<T>)
    ensures [x] + s == [y] + t <==> x == y && s == t
  {
    assert ([x] + s)[1..] == s && ([y] + t)[1..] == t;
    assert ([x] + s)[0] == x && ([y] + t)[0] == y;
  }

  /** Without _p there is nothing the stored order misses. */
  lemma {:induction false} NoPatchVisible(s: seq<PmsSuffix>)
    requires ValidSuffixes(s) && forall i :: 0 <= i < |s| ==> s[i].kind != PATCH
    ensures Visible(s) == StoredAll(s)
  {
    if s != [] {
      NoPatchVisible(s[1..]);
    }
  }

  /** Two concrete failures: _p0 is equal to nothing at all, and what follows a shared _p1 is not compared. */
  lemma PatchMissed()
    ensures var p0 := [PmsSuffix(PATCH, "")];
      SuffixSignFrom(StoredAll(p0), StoredAll([]), 0) == 0 && PmsSuffixes(p0, []) == 1
    ensures var pa, pb := [PmsSuffix(PATCH, "1"), PmsSuffix(0, "")], [PmsSuffix(PATCH, "1"), PmsSuffix(1, "")];
      SuffixSignFrom(StoredAll(pa), StoredAll(pb), 0) == 0 && PmsSuffixes(pa, pb) == -1
  {
    SuffixesAgreeIff([PmsSuffix(PATCH, "")], []);
    var pa, pb := [PmsSuffix(PATCH, "1"), PmsSuffix(0, "")], [PmsSuffix(PATCH, "1"), PmsSuffix(1, "")];
    SuffixesAgreeIff(pa, pb);
    assert pa[1..] == [PmsSuffix(0, "")] && pb[1..] == [PmsSuffix(1, "")];
  }

  // ----- the whole comparison -----

  /** The record of an atom cat/pn with version `v`. */
  function AtomOf(cat: string, pn: string, v: PmsVersion): AtomCtx
    requires Valid(v)
  {
    var pv := PvStr(v);
    AtomCtx(NoBlocker, OpNone, OpNone, Some(cat), Some(pn), Some(pv), Some(pn + "-" + pv + RevStr(v.revision)),
            v.revision, v.letter, StoredAll(v.suffixes), Some(pv + RevStr(v.revision)), Some(pn + "-" + pv),
            [], None, None, SdNone, None, 0)
  }

  /** The names can be part of an atom, no letter of the name is taken for the version's, and the atom
      does not look like a file name. */
  ghost predicate Nameable(cat: string, pn: string, v: PmsVersion)
    requires Valid(v)
  {
    && IsName(cat) && pn != [] && IsName(pn) && NoExtension(AtomOf(cat, pn, v))
    && (VersionScan(pn, 0, None, None).1.None? || v.letter.Some?)
  }

  predicate IsNumbersText(s: string) {
    forall i :: 0 <= i < |s| ==> s[i] == '.' || IsDigit(s[i])
  }

  lemma {:induction false} NumbersText(s: seq<string>)
    requires ValidNumbers(s)
    ensures IsNumbersText(NumbersStr(s)) && DigitAt(NumbersStr(s), 0)
  {
    assert IsNumber(s[0]);
    var u := NumbersStr(s);
    assert u[0] == s[0][0];
    if |s| > 1 {
      NumbersText(s[1..]);
      var w := NumbersStr(s[1..]);
      assert forall i :: 0 <= i < |u| ==>
        u[i] == if i < |s[0]| then s[0][i] else if i == |s[0]| then '.' else w[i - |s[0]| - 1];
    }
  }

  lemma {:induction false} NumbersEndOf(n: string, t: string, i: nat)
    requires IsNumbersText(n) && i <= |n| && (t == [] || (t[0] != '.' && !IsDigit(t[0])))
    ensures NumbersEnd(n + t, i) == |n|
    decreases |n| - i
  {
    if i < |n| {
      assert (n + t)[i] == n[i];
      NumbersEndOf(n, t, i + 1);
    } else if t != [] {
      assert (n + t)[i] == t[0];
    }
  }

  lemma {:induction false} SuffixesChars(s: seq<PmsSuffix>)
    requires ValidSuffixes(s)
    ensures forall c :: c in SuffixesStr(s) ==> IsDigit(c) || IsLower(c) || c == '_'
  {
    if s != [] {
      SuffixChars(s[0]);
      hide SuffixStr;
      SuffixesChars(s[1..]);
    }
  }

  lemma SuffixChars(s: PmsSuffix)
    requires IsSuffixKind(s.kind) && AllDigits(s.digits)
    ensures forall c :: c in SuffixStr(s) ==> IsDigit(c) || IsLower(c) || c == '_'
  {
    assert forall c :: c in SuffixName(s.kind) ==> IsLower(c) || c == '_';
  }

  /** The text after the numbers: a letter or not, then suffixes or nothing. */
  lemma RestShape(v: PmsVersion)
    requires Valid(v)
    ensures EndsNumbers(RestStr(v)) && IsName(RestStr(v)) && '-' !in RestStr(v)
    ensures RestStr(v) != [] ==> RestStr(v)[0] != '.'
    ensures v.letter.Some? ==> RestStr(v)[..1] == [v.letter.value] && RestStr(v)[1..] == SuffixesStr(v.suffixes)
    ensures v.letter.None? ==> RestStr(v) == SuffixesStr(v.suffixes)
    ensures SuffixesStr(v.suffixes) == [] || SuffixesStr(v.suffixes)[0] == '_'
  {
    SuffixesChars(v.suffixes);
    SuffixesHead(v.suffixes);
    hide SuffixesStr;
    if v.letter.Some? {
      assert RestStr(v) == [v.letter.value] + SuffixesStr(v.suffixes);
    } else {
      assert RestStr(v) == SuffixesStr(v.suffixes);
    }
  }

  lemma VersionText(n: string, rest: string, letter: Option<char>, sufs: string)
    requires IsNumbersText(n) && DigitAt(n, 0) && rest == LetterStr(letter) + sufs
    requires (letter.Some? ==> IsLower(letter.value)) && (sufs == [] || sufs[0] == '_')
    ensures n + rest != [] && LetterOf(n + rest) == letter
    ensures var e := LetterEnd(n + rest); e == |n + rest| || (n + rest)[e] == '_'
  {
    var pv := n + rest;
    assert rest != [] ==> rest[0] == if letter.Some? then letter.value else sufs[0];
    NumbersEndOf(n, rest, 1);
    hide NumbersEnd;
    assert rest != [] ==> pv[|n|] == rest[0];
    assert letter.Some? && sufs != [] ==> pv[|n| + 1] == sufs[0];
  }

  lemma PvIsVersion(v: PmsVersion)
    requires Valid(v)
    ensures IsVersion(PvStr(v)) && LetterOf(PvStr(v)) == v.letter
  {
    NumbersText(v.numbers);
    RestShape(v);
    var n, rest := NumbersStr(v.numbers), RestStr(v);
    VersionText(n, rest, v.letter, SuffixesStr(v.suffixes));
    hide NumbersStr, RestStr, LetterOf, LetterEnd, EndsNumbers;
    assert DigitAt(n + rest, 0) by { assert (n + rest)[0] == n[0]; }
    assert IsName(n) && '-' !in n;
  }

  lemma PvSuffixes(v: PmsVersion)
    requires Valid(v)
    ensures Suffixes(PvStr(v)) == StoredAll(v.suffixes)
  {
    NumbersText(v.numbers);
    var base := NumbersStr(v.numbers) + LetterStr(v.letter);
    hide NumbersStr, SuffixesStr, Suffixes;
    assert base != [] && '_' !in base;
    assert PvStr(v) == base + SuffixesStr(v.suffixes);
    StoredSuffixes(base, v.suffixes);
  }

  lemma AtomOfDerived(cat: string, pn: string, v: PmsVersion)
    requires Valid(v)
    ensures Derived(AtomOf(cat, pn, v))
  {
    PvIsVersion(v);
    PvSuffixes(v);
    VersionNonempty(PvStr(v));
    hide PvStr, IsVersion, LetterOf, Suffixes, Dec;
    assert pn + ("-" + PvStr(v)) == pn + "-" + PvStr(v);
  }

  /** Exploding the printed atom gives this record: the suffixes are found from the back and reversed. */
  lemma AtomOfExploded(cat: string, pn: string, v: PmsVersion)
    requires Valid(v) && Nameable(cat, pn, v)
    ensures Explode(ToString(AtomOf(cat, pn, v)), None) == AtomOf(cat, pn, v)
  {
    var a := AtomOf(cat, pn, v);
    AtomOfDerived(cat, pn, v);
    PvIsVersion(v);
    VersionNonempty(PvStr(v));
    hide PvStr, IsVersion, LetterOf, Suffixes, Dec, Derived, Explode, ToString, VersionScan;
    assert PrintableParts(a) && NameRead(a);
    ExplodeOfToString(a);
  }

  lemma AtomOfComparable(cat: string, pn: string, v: PmsVersion)
    requires Valid(v) && Unzeroed(v.numbers[1..])
    ensures Comparable(AtomOf(cat, pn, v), Unpadded, false)
    ensures Values(Some(PvStr(v))) == DecValues(v.numbers)
  {
    RestShape(v);
    LaterUnzeroed(v.numbers, RestStr(v));
    ValuesRead(v.numbers, RestStr(v));
    hide NumbersStr, RestStr, Values, VersionInClass;
  }

  /** The suffix lists are equal or differ where the stored order looks. */
  predicate SuffixesVisible(a: PmsVersion, b: PmsVersion)
    requires Valid(a) && Valid(b)
  {
    Visible(a.suffixes) == Visible(b.suffixes) ==> StoredAll(a.suffixes) == StoredAll(b.suffixes)
  }

  /** atom_compare on two records, in terms of the components of the algorithms. */
  lemma RecordsCompare(cat: string, pn: string, a: PmsVersion, b: PmsVersion)
    requires Valid(a) && Valid(b) && Unzeroed(a.numbers[1..]) && Unzeroed(b.numbers[1..])
    ensures Compare(AtomOf(cat, pn, a), AtomOf(cat, pn, b), DEFAULT)
         == OrderOf(Then(PmsNumbers(a.numbers, b.numbers),
                         Then(Sign(LetterCode(a.letter) - LetterCode(b.letter)),
                              Then(SuffixSignFrom(StoredAll(a.suffixes), StoredAll(b.suffixes), 0),
                                   Sign(a.revision - b.revision)))))
  {
    AtomOfComparable(cat, pn, a);
    AtomOfComparable(cat, pn, b);
    CompareIsVersionSign(AtomOf(cat, pn, a), AtomOf(cat, pn, b), Unpadded);
    NumbersIsLex(a.numbers, b.numbers);
    hide Compare, Comparable, Values, PmsNumbers, SuffixSignFrom, PvStr, LexSign;
  }

  /** Versions without zero-led later components, exploded from their strings, compare as
      Algorithm 3.1 says exactly when an earlier step decides, the suffixes are visible, or the
      revisions happen to give the verdict that the suffixes give in the algorithm. */
  lemma ExplodedCompareIsPms(cat: string, pn: string, a: PmsVersion, b: PmsVersion)
    requires Valid(a) && Valid(b) && Unzeroed(a.numbers[1..]) && Unzeroed(b.numbers[1..])
    requires Nameable(cat, pn, a) && Nameable(cat, pn, b)
    ensures var r := Compare(Explode(ToString(AtomOf(cat, pn, a)), None), Explode(ToString(AtomOf(cat, pn, b)), None), DEFAULT);
      r == OrderOf(PmsCompare(a, b)) <==>
        (PmsNumbers(a.numbers, b.numbers) != 0 || a.letter != b.letter || SuffixesVisible(a, b)
         || Sign(a.revision - b.revision) == PmsSuffixes(a.suffixes, b.suffixes))
  {
    hide Compare, Explode, ToString, AtomOf, PmsNumbers, SuffixSignFrom, PmsSuffixes, Visible, StoredAll, Nameable,
      Unzeroed, Then, OrderOf;
    AtomOfExploded(cat, pn, a);
    AtomOfExploded(cat, pn, b);
    RecordsCompare(cat, pn, a, b);
    SuffixesAgreeIff(a.suffixes, b.suffixes);
    LetterCodes(a, b);
    SignsAgree(PmsNumbers(a.numbers, b.numbers), Sign(LetterCode(a.letter) - LetterCode(b.letter)),
               SuffixSignFrom(StoredAll(a.suffixes), StoredAll(b.suffixes), 0), PmsSuffixes(a.suffixes, b.suffixes),
               Sign(a.revision - b.revision));
  }

  /** Stored suffixes show the algorithm's verdict or none. */
  lemma SignsAgree(number: int, letter: int, stored: int, pms: int, revision: int)
    requires -1 <= revision <= 1
    requires -1 <= pms <= 1 && (stored == pms || stored == 0)
    ensures var c, p := Then(number, Then(letter, Then(stored, revision))), Then(number, Then(letter, Then(pms, revision)));
      OrderOf(c) == OrderOf(p) <==> (number != 0 || letter != 0 || stored == pms || revision == pms)
  {
  }

  lemma LetterCodes(a: PmsVersion, b: PmsVersion)
    requires Valid(a) && Valid(b)
    ensures a.letter == b.letter <==> LetterCode(a.letter) == LetterCode(b.letter)
  {
  }

  /** In particular on versions whose suffixes are _alpha, _beta, _pre and _rc. */
  lemma ExplodedCompareWithoutPatch(cat: string, pn: string, a: PmsVersion, b: PmsVersion)
    requires Valid(a) && Valid(b) && Unzeroed(a.numbers[1..]) && Unzeroed(b.numbers[1..])
    requires Nameable(cat, pn, a) && Nameable(cat, pn, b)
    requires forall i :: 0 <= i < |a.suffixes| ==> a.suffixes[i].kind != PATCH
    requires forall i :: 0 <= i < |b.suffixes| ==> b.suffixes[i].kind != PATCH
    ensures Compare(Explode(ToString(AtomOf(cat, pn, a)), None), Explode(ToString(AtomOf(cat, pn, b)), None), DEFAULT)
         == OrderOf(PmsCompare(a, b))
  {
    NoPatchVisible(a.suffixes);
    NoPatchVisible(b.suffixes);
    hide Compare, Explode, ToString, AtomOf, PmsCompare, Visible, StoredAll, Nameable, Unzeroed;
    ExplodedCompareIsPms(cat, pn, a, b);
  }
}
