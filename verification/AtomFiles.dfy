/** Package file names: what the parser makes of a name and a version in front of a file extension. */
module AtomFiles {
  import opened CStrings
  import opened Atom
  import opened AtomRoundTrip

  /** A record of a name and a version only, which its text gives back. */
  ghost predicate Stem(a: AtomCtx) {
    && Printable(a) && NameRead(a) && NoExtension(a) && a.pn.Some?
    && a.blocker == NoBlocker && a.pfxOp == OpNone && a.sfxOp == OpNone && a.category == None && a.usedeps == []
    && a.slot == None && a.subslot == None && a.slotdep == SdNone && a.repo == None && a.buildId == 0
  }

  predicate IsExtension(e: string) {
    e == ".ebuild" || e == ".tbz2" || e == ".xpak" || e == ".gpkg.tar"
  }

  /** Binary package files that may carry a build-id. */
  predicate IsInstance(e: string) {
    e == ".xpak" || e == ".gpkg.tar"
  }

  predicate HasNoExtension(s: string) {
    FindExtension(s).None?
  }

  // ----- finding the extension -----

  lemma ExtensionChars(e: string)
    requires IsExtension(e)
    ensures |e| >= 5 && e[0] == '.' && '-' !in e
    ensures e[1] == (if e == ".ebuild" then 'e' else if e == ".tbz2" then 't' else if e == ".xpak" then 'x' else 'g')
    ensures forall k :: 1 <= k < |e| && e[k] == '.' ==> e == ".gpkg.tar" && k == 5
    ensures e == ".gpkg.tar" ==> |e| == 9 && e[6] == 't'
  {
  }

  /** What is not in `s` does not stand in `s + x` within `s`. */
  lemma NotWithin(s: string, x: string, e: string, i: nat)
    requires !Contains(s, e) && i + |e| <= |s|
    ensures !OccursAt(s + x, e, i)
  {
    assert !OccursAt(s, e, i);
    assert (s + x)[i..i + |e|] == s[i..i + |e|];
  }

  /** Nor beyond it, when one of its characters is not the one there. */
  lemma NotAcross(s: string, x: string, e: string, i: nat, k: nat)
    requires k < |e| && |s| <= i + k && (i + k - |s| < |x| ==> e[k] != x[i + k - |s|])
    ensures !OccursAt(s + x, e, i)
  {
    var t := s + x;
    if i + |e| <= |t| {
      assert t[i..i + |e|][k] == t[i + k] == x[i + k - |s|];
    }
  }

  /** Behind a text without extensions there is no other than the one that was appended. */
  lemma OtherAbsent(s: string, ext: string, e: string)
    requires IsExtension(ext) && IsExtension(e) && e != ext && e != ".gpkg.tar" && !Contains(s, e)
    ensures !Contains(s + ext, e)
  {
    DistinctExtensions(e, ext);
    hide OccursAt, IsExtension;
    ExtensionChars(ext);
    ExtensionChars(e);
    forall i: nat ensures !OccursAt(s + ext, e, i) {
      if i + |e| <= |s| {
        NotWithin(s, ext, e, i);
      } else {
        NotAcross(s, ext, e, i, if i < |s| then |s| - i else if i == |s| then 1 else if i == |s| + 5 then 4 else 0);
      }
    }
  }

  lemma DistinctExtensions(e: string, f: string)
    requires IsExtension(e) && IsExtension(f) && e != f
    ensures e[1] != f[1]
  {
  }

  lemma OwnFirst(s: string, ext: string)
    requires IsExtension(ext) && !Contains(s, ext)
    ensures Strstr(s + ext, ext) == Some(|s|)
  {
    ExtensionChars(ext);
    var t := s + ext;
    assert t[|s|..|s| + |ext|] == ext;
    assert OccursAt(t, ext, |s|);
    hide OccursAt, IsExtension;
    forall i: nat | i < |s| ensures !OccursAt(t, ext, i) {
      if i + |ext| <= |s| {
        NotWithin(s, ext, ext, i);
      } else {
        NotAcross(s, ext, ext, i, if ext == ".gpkg.tar" && i + 5 == |s| then 6 else |s| - i);
      }
    }
  }

  lemma ExtensionFound(s: string, ext: string)
    requires IsExtension(ext) && HasNoExtension(s)
    ensures FindExtension(s + ext) == Some(|s|)
  {
    hide Contains, Strstr;
    OwnFirst(s, ext);
    if ext != ".ebuild" {
      OtherAbsent(s, ext, ".ebuild");
      if ext != ".tbz2" {
        OtherAbsent(s, ext, ".tbz2");
        if ext != ".xpak" {
          OtherAbsent(s, ext, ".xpak");
        }
      }
    }
  }

  /** A build-id adds no extension. */
  lemma StillAbsent(s: string, digits: string, e: string)
    requires IsExtension(e) && AllDigits(digits) && !Contains(s, e)
    ensures !Contains(s + ("-" + digits), e)
  {
    hide OccursAt, IsExtension;
    ExtensionChars(e);
    var x := "-" + digits;
    assert x[0] == '-' && forall k :: 1 <= k < |x| ==> x[k] == digits[k - 1];
    forall i: nat ensures !OccursAt(s + x, e, i) {
      if i + |e| <= |s| {
        NotWithin(s, x, e, i);
      } else {
        NotAcross(s, x, e, i, if i <= |s| then |s| - i else 0);
      }
    }
  }

  lemma IdHasNoExtension(s: string, digits: string)
    requires HasNoExtension(s) && AllDigits(digits)
    ensures HasNoExtension(s + ("-" + digits))
  {
    hide Contains, Strstr;
    StillAbsent(s, digits, ".ebuild");
    StillAbsent(s, digits, ".tbz2");
    StillAbsent(s, digits, ".xpak");
    StillAbsent(s, digits, ".gpkg.tar");
  }

  // ----- the build-id in front of it -----

  lemma {:induction false} DigitsBackAt(s: string, i: nat, d: nat)
    requires 1 < d <= i <= |s| && (forall k :: d <= k < i ==> IsDigit(s[k])) && !IsDigit(s[d - 1])
    ensures DigitsBack(s, i) == d
  {
    if d < i {
      DigitsBackAt(s, i - 1, d);
    }
  }

  /** Where the walk back over the digits stops. */
  lemma {:induction false} DigitsBackIs(s: string, i: nat)
    requires i <= |s|
    ensures var d := DigitsBack(s, i); (forall k :: d <= k < i ==> IsDigit(s[k])) && (d > 1 ==> !IsDigit(s[d - 1]))
  {
    if i > 1 && IsDigit(s[i - 1]) {
      DigitsBackIs(s, i - 1);
    }
  }

  lemma {:induction false} HyphenBefore(s: string, i: nat, j: nat)
    requires i <= j && HyphenDigitAt(s, j)
    ensures HyphenDigit(s, i).Some? && HyphenDigit(s, i).value <= j
    decreases j - i
  {
    if i < j && !(s[i] == '-' && DigitAt(s, i + 1)) {
      HyphenBefore(s, i + 1, j);
    }
  }

  /** The name holds a hyphen in front of a digit, whether or not a version starts there. */
  ghost predicate HyphenDigitIn(n: string) {
    exists k: nat :: HyphenDigitAt(n, k)
  }

  /** The version is one number without a revision, and the name holds a hyphen before a digit: the number is
      taken for a build-id. */
  ghost predicate Mistaken(a: AtomCtx) {
    a.pn.Some? && a.pv.Some? && a.pr == 0 && AllDigits(a.pv.value) && HyphenDigitIn(a.pn.value)
  }

  lemma CutWithId(s: string, id: nat, ext: string)
    requires IsInstance(ext) && HasNoExtension(s) && (exists k: nat :: HyphenDigitAt(s, k)) && s != []
    ensures CutExtension(s + ("-" + Dec(id)) + ext) == (s, id)
  {
    hide FindExtension, Dec, Atoi, DigitsBack, HyphenDigit, HyphenDigitAt;
    var digits := Dec(id);
    var u := s + ("-" + digits);
    IdHasNoExtension(s, digits);
    ExtensionFound(u, ext);
    IdSlices(s, digits, ext);
    DigitsBackAt(u + ext, |u|, |s| + 1);
    var k: nat :| HyphenDigitAt(s, k);
    HyphenKept(s, "-" + digits, k);
    HyphenBefore(u, 0, k);
    AtoiOfDec(id);
  }

  lemma HyphenKept(s: string, x: string, k: nat)
    requires HyphenDigitAt(s, k)
    ensures HyphenDigitAt(s + x, k) && k < |s|
  {
    assert (s + x)[k] == s[k] && (s + x)[k + 1] == s[k + 1];
  }

  lemma IdSlices(s: string, digits: string, ext: string)
    requires IsInstance(ext) && digits != [] && AllDigits(digits)
    ensures var u := s + ("-" + digits); var t := u + ext;
      && t[|s|] == '-' && (t[|u| + 1] == 'x' || t[|u| + 1] == 'g')
      && (forall k :: |s| + 1 <= k < |u| ==> IsDigit(t[k]))
      && t[..|u|] == u && t[..|s|] == s && t[|s| + 1..|u|] == digits
  {
    var u := s + ("-" + digits);
    var t := u + ext;
    assert forall k :: |s| + 1 <= k < |u| ==> t[k] == digits[k - |s| - 1];
  }

  lemma CutPlain(s: string, ext: string)
    requires IsExtension(ext) && !IsInstance(ext) && HasNoExtension(s)
    ensures CutExtension(s + ext) == (s, 0)
  {
    hide FindExtension;
    ExtensionFound(s, ext);
    var t := s + ext;
    assert t[|s| + 1] == ext[1] && t[..|s|] == s;
  }

  /** Without a build-id nothing but the extension is cut, unless digits behind a hyphen that is not the first
      one before a digit end the text. */
  lemma CutWithoutId(s: string, ext: string)
    requires IsInstance(ext) && HasNoExtension(s)
    ensures var d := DigitsBack(s, |s|);
      CutExtension(s + ext) ==
        if 0 < d < |s| && s[d - 1] == '-' && HyphenDigit(s, 0) != Some(d - 1) then (s[..d - 1], Atoi(s[d..])) else (s, 0)
  {
    hide FindExtension, Atoi, DigitsBack, HyphenDigit;
    ExtensionFound(s, ext);
    var t := s + ext;
    var d := DigitsBack(s, |s|);
    SamePrefixDigits(s, ext, |s|);
    CutSlices(s, ext, d);
  }

  lemma CutSlices(s: string, ext: string, d: nat)
    requires IsInstance(ext) && d <= |s|
    ensures var t := s + ext;
      && (t[|s| + 1] == 'x' || t[|s| + 1] == 'g') && t[..|s|] == s && t[d..|s|] == s[d..]
      && (d > 0 ==> t[..d - 1] == s[..d - 1] && (d < |s| ==> t[d - 1] == s[d - 1]))
  {
  }

  lemma {:induction false} SamePrefixDigits(s: string, ext: string, i: nat)
    requires i <= |s|
    ensures DigitsBack(s + ext, i) == DigitsBack(s, i)
  {
    if i > 1 {
      assert (s + ext)[i - 1] == s[i - 1];
      SamePrefixDigits(s, ext, i - 1);
    }
  }

  // ----- the rest of the parser -----

  predicate StartsName(s: string) {
    s != [] && !IsOperatorChar(s[0])
  }

  lemma FillBuildId(a: AtomCtx, pf: string, id: int)
    ensures FillVersion(a.(buildId := id), pf) == FillVersion(a, pf).(buildId := id)
  {
    hide VersionScan, RevisionScan, Suffixes, Strtoll;
  }

  lemma NoTilde(s: string)
    requires '~' !in s
    ensures var s7 := CutLast(SplitSlot(SplitUse(SplitRepo(s).0).0).0, '*').0;
      var pf := SplitCategory(s7).1; pf.Some? ==> SplitBuildId(pf.value) == (pf.value, None)
  {
    hide Strstr, UseList, Strchr;
    var s4 := SplitRepo(s).0;
    RepoPrefix(s);
    UsePrefix4(s4);
    var s5 := SplitUse(s4).0;
    SlotPrefix(s5);
    var s6 := SplitSlot(s5).0;
    var s7 := CutLast(s6, '*').0;
    CategorySuffix(s7);
    var pf := SplitCategory(s7).1;
    if pf.Some? {
      TildeAbsent(pf.value);
    }
  }

  lemma TildeAbsent(pf: string)
    requires '~' !in pf
    ensures SplitBuildId(pf) == (pf, None)
  {
  }

  lemma RepoPrefix(s: string)
    ensures SplitRepo(s).0 <= s
  {
    hide Strstr;
    var i := Strstr(s, "::");
    assert i.Some? ==> OccursAt(s, "::", i.value);
  }

  lemma UsePrefix4(s: string)
    ensures SplitUse(s).0 <= s
  {
    hide UseList;
  }

  lemma SlotPrefix(s: string)
    ensures SplitSlot(s).0 <= s
  {
    hide CutLast, Strchr;
  }

  lemma CategorySuffix(s: string)
    ensures var pf := SplitCategory(s).1; pf.Some? ==> forall c :: c in pf.value ==> c in s
  {
  }

  /** A text from which the extension and perhaps a build-id are cut reads as what is left, with that build-id. */
  lemma CutRead(text: string, s: string, id: int, cat: Option<string>)
    requires StartsName(text) && StartsName(s) && CutExtension(text) == (s, id) && HasNoExtension(s) && '~' !in s
    ensures Explode(text, cat) == Explode(s, cat).(buildId := id)
  {
    hide FillVersion, SplitRepo, SplitUse, SplitSlot, CutLast, SplitCategory, SplitBuildId, CutExtension, FindExtension;
    assert SplitBlocker(text) == (NoBlocker, text) && SplitBlocker(s) == (NoBlocker, s);
    assert SplitPfxOp(text) == (OpNone, text) && SplitPfxOp(s) == (OpNone, s);
    NothingCut(s);
    NoTilde(s);
    var (s4, repo) := SplitRepo(s);
    var (s5, use) := SplitUse(s4);
    var (s6, slot, sub, sd) := SplitSlot(s5);
    var (s7, star) := CutLast(s6, '*');
    var (own, pf) := SplitCategory(s7);
    var a := AtomCtx(NoBlocker, OpNone, if star then OpStar else OpNone, if cat.Some? then cat else own,
                     None, None, None, 0, None, [], None, None, use, slot, sub, sd, repo, 0);
    if pf.Some? {
      FillBuildId(a, pf.value, id);
    }
  }

  lemma NothingCut(s: string)
    requires HasNoExtension(s)
    ensures CutExtension(s) == (s, 0)
  {
    hide FindExtension;
  }

  // ----- file names of packages -----

  /** The text of a stem is that of its name and version. */
  lemma StemText(a: AtomCtx)
    requires Stem(a)
    ensures ToString(a) == PfStr(a) && BodyStr(a) == PfStr(a) && HasNoExtension(PfStr(a))
    ensures StartsName(PfStr(a)) && '~' !in PfStr(a)
    ensures Explode(PfStr(a), None) == a
  {
    hide PfStr, Derived, PrintableParts, NameRead, Explode, BodyStr, ToString, CoreStr, FindExtension, Contains;
    StemBody(a);
    CoreChars(a);
    PfEmpty(a);
    NoneFound(PfStr(a));
    RoundTripIff(a);
  }

  lemma StemBody(a: AtomCtx)
    requires Stem(a)
    ensures ToString(a) == PfStr(a) && BodyStr(a) == PfStr(a) && CoreStr(a) == PfStr(a)
  {
    hide PfStr, Derived, PrintableParts, NameRead, NoExtension;
    assert "" + PfStr(a) + "" == PfStr(a);
  }

  lemma NoneFound(s: string)
    requires !Contains(s, ".ebuild") && !Contains(s, ".tbz2") && !Contains(s, ".xpak") && !Contains(s, ".gpkg.tar")
    ensures HasNoExtension(s)
  {
    hide Contains, Strstr;
  }

  lemma WithCategory(s: string, a: AtomCtx, cat: Option<string>)
    requires Explode(s, None) == a && a.category == None
    ensures Explode(s, cat) == a.(category := cat)
  {
    hide SplitBlocker, SplitPfxOp, CutExtension, SplitRepo, SplitUse, SplitSlot, CutLast, SplitCategory, SplitBuildId;
    hide VersionScan, RevisionScan, Suffixes, Atoi;
  }

  /** name-version-revision.ebuild and .tbz2 read as the record of the text in front, in the given category. */
  lemma PlainFileRead(a: AtomCtx, ext: string, cat: Option<string>)
    requires Stem(a) && (ext == ".ebuild" || ext == ".tbz2")
    ensures Explode(PfStr(a) + ext, cat) == a.(category := cat)
  {
    hide Stem, PfStr, Explode, CutExtension, HasNoExtension;
    StemText(a);
    StemFields(a);
    CutPlain(PfStr(a), ext);
    CutRead(PfStr(a) + ext, PfStr(a), 0, cat);
    WithCategory(PfStr(a), a, cat);
  }

  lemma StemFields(a: AtomCtx)
    requires Stem(a)
    ensures a.category == None && a.buildId == 0 && a.pn.Some? && a.pn.value != []
    ensures a.pv.Some? ==> IsVersion(a.pv.value) && a.pv.value != [] && a.pr >= 0
                           && PfStr(a) == a.pn.value + "-" + a.pv.value + RevStr(a.pr)
  {
    hide IsVersion;
    if a.pv.Some? {
      VersionNonempty(a.pv.value);
    }
  }

  /** name-version-revision-id.xpak and .gpkg.tar read as the record with that build-id. */
  lemma InstanceRead(a: AtomCtx, id: nat, ext: string, cat: Option<string>)
    requires Stem(a) && a.pv.Some? && IsInstance(ext)
    ensures Explode(PfStr(a) + ("-" + Dec(id)) + ext, cat) == a.(category := cat, buildId := id)
  {
    hide Stem, PfStr, Explode, CutExtension, HasNoExtension, Dec;
    StemText(a);
    StemFields(a);
    VersionHyphen(a.pn.value, a.pv.value, RevStr(a.pr));
    CutWithId(PfStr(a), id, ext);
    CutRead(PfStr(a) + ("-" + Dec(id)) + ext, PfStr(a), id, cat);
    WithCategory(PfStr(a), a, cat);
  }

  lemma VersionHyphen(n: string, v: string, rev: string)
    requires IsVersion(v)
    ensures HyphenDigitAt(n + "-" + v + rev, |n|)
  {
    var s := n + "-" + v + rev;
    assert s[|n|] == '-' && s[|n| + 1] == v[0];
  }

  /** Without a build-id they read as the record with none, unless the version is mistaken for one: then it is
      gone, and what is left is read. */
  lemma InstanceWithoutId(a: AtomCtx, ext: string, cat: Option<string>)
    requires Stem(a) && a.pv.Some? && IsInstance(ext)
    ensures Explode(PfStr(a) + ext, cat) ==
      if Mistaken(a) then Explode(a.pn.value, cat).(buildId := Atoi(a.pv.value)) else a.(category := cat)
  {
    hide Stem, PfStr, Explode, CutExtension, HasNoExtension, Mistaken, RevStr, Atoi, IsVersion, StartsName;
    StemText(a);
    StemFields(a);
    CutOfStem(a, ext);
    StillStarts(PfStr(a), ext);
    if Mistaken(a) {
      NameLeft(a);
      CutRead(PfStr(a) + ext, a.pn.value, Atoi(a.pv.value), cat);
    } else {
      CutRead(PfStr(a) + ext, PfStr(a), 0, cat);
      WithCategory(PfStr(a), a, cat);
    }
  }

  lemma CutOfStem(a: AtomCtx, ext: string)
    requires Stem(a) && a.pv.Some? && IsInstance(ext)
    ensures CutExtension(PfStr(a) + ext) == if Mistaken(a) then (a.pn.value, Atoi(a.pv.value)) else (PfStr(a), 0)
  {
    hide Stem, PfStr, Explode, CutExtension, HasNoExtension, Mistaken, Atoi, DigitsBack, HyphenDigit, StartsName, ToString,
      BodyStr;
    StemText(a);
    CutWithoutId(PfStr(a), ext);
    VersionEnd(a);
  }

  lemma StillStarts(s: string, x: string)
    requires StartsName(s)
    ensures StartsName(s + x)
  {
  }

  /** Whether the digits at the end of the text stand behind a hyphen that is not the first one before a digit. */
  lemma VersionEnd(a: AtomCtx)
    requires Stem(a) && a.pv.Some?
    ensures var s := PfStr(a); var d := DigitsBack(s, |s|);
      && (Mistaken(a) <==> 0 < d < |s| && s[d - 1] == '-' && HyphenDigit(s, 0) != Some(d - 1))
      && (Mistaken(a) ==> s[..d - 1] == a.pn.value && s[d..] == a.pv.value)
  {
    hide Stem, PfStr, IsVersion, HyphenDigit;
    StemFields(a);
    var n, v, rev := a.pn.value, a.pv.value, RevStr(a.pr);
    VersionPlain(v);
    VersionFirst(v);
    VersionHyphen(n, v, rev);
    var s := PfStr(a);
    if a.pr > 0 {
      EndsInRevision(n + "-" + v, a.pr);
    } else {
      assert s == n + "-" + v;
      EndsInVersion(n, v);
    }
  }

  lemma VersionFirst(v: string)
    requires IsVersion(v)
    ensures v != [] && IsDigit(v[0])
  {
  }

  /** Digits behind "-r" are no build-id. */
  lemma EndsInRevision(x: string, pr: int)
    requires pr > 0 && x != []
    ensures var s := x + RevStr(pr); var d := DigitsBack(s, |s|); d > 0 && s[d - 1] == 'r'
  {
    hide Dec;
    var s := x + RevStr(pr);
    assert s == x + ("-r" + Dec(pr));
    assert s[|x| + 1] == 'r';
    assert forall k :: 0 <= k < |Dec(pr)| ==> s[|x| + 2 + k] == Dec(pr)[k];
    DigitsBackAt(s, |s|, |x| + 2);
  }

  lemma EndsInVersion(n: string, v: string)
    requires v != [] && IsDigit(v[0]) && '-' !in v && n != []
    ensures var s := n + "-" + v; var d := DigitsBack(s, |s|);
      && (0 < d < |s| && s[d - 1] == '-' <==> AllDigits(v))
      && (AllDigits(v) ==> d == |n| + 1 && s[..d - 1] == n && s[d..] == v)
      && (HyphenDigit(s, 0) != Some(|n|) <==> HyphenDigitIn(n))
  {
    var s := n + "-" + v;
    var d := DigitsBack(s, |s|);
    assert s[|n|] == '-' && s[|n| + 1] == v[0];
    assert forall k :: 0 <= k < |v| ==> s[|n| + 1 + k] == v[k];
    DigitsBackIs(s, |s|);
    assert !IsDigit(s[|n|]);
    assert d > |n|;
    assert d == |n| + 1 ==> AllDigits(v);
    if AllDigits(v) {
      DigitsBackAt(s, |s|, |n| + 1);
    } else if d < |s| {
      assert d > |n| + 1;
      assert s[d - 1] == v[d - 2 - |n|] && v[d - 2 - |n|] in v;
    }
    FirstHyphen(n, v);
  }

  lemma FirstHyphen(n: string, v: string)
    requires v != [] && IsDigit(v[0])
    ensures HyphenDigit(n + "-" + v, 0) != Some(|n|) <==> HyphenDigitIn(n)
  {
    var s := n + "-" + v;
    assert s[|n|] == '-' && s[|n| + 1] == v[0];
    assert forall k :: 0 <= k < |n| ==> s[k] == n[k];
    HyphenBefore(s, 0, |n|);
    if HyphenDigitIn(n) {
      var k: nat :| HyphenDigitAt(n, k);
      HyphenBefore(s, 0, k);
    } else {
      var k := HyphenDigit(s, 0).value;
      if k < |n| {
        assert k + 1 < |n| ==> HyphenDigitAt(n, k);
      }
    }
  }

  lemma NameLeft(a: AtomCtx)
    requires Stem(a) && a.pv.Some?
    ensures StartsName(a.pn.value) && HasNoExtension(a.pn.value) && '~' !in a.pn.value
  {
    hide Contains;
    StemText(a);
    StemFields(a);
    var n, s := a.pn.value, PfStr(a);
    hide PfStr, Stem, Derived, NameRead, IsVersion, Explode;
    assert s[0] == n[0] && n <= s;
    PartHasNone(n, s);
  }

  lemma PartHasNone(n: string, s: string)
    requires n <= s && HasNoExtension(s)
    ensures HasNoExtension(n)
  {
    hide Contains, Strstr;
    PartLacks(n, s, ".ebuild");
    PartLacks(n, s, ".tbz2");
    PartLacks(n, s, ".xpak");
    PartLacks(n, s, ".gpkg.tar");
  }

  lemma PartLacks(n: string, s: string, e: string)
    requires n <= s
    ensures Contains(n, e) ==> Contains(s, e)
  {
    if Contains(n, e) {
      var i: nat :| OccursAt(n, e, i);
      assert s[i..i + |e|] == n[i..i + |e|];
      assert OccursAt(s, e, i);
    }
  }
}
