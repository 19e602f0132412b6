/** No atom prints longer than the text it was parsed from, and one whose text held a file
    extension prints shorter. */
module AtomWidth {
  import opened CStrings
  import opened Atom

  // ----- numbers -----

  lemma {:induction false} DecWidth(s: string)
    requires s != [] && AllDigits(s)
    ensures |Dec(DecValue(s))| <= |s|
  {
    var p := s[..|s| - 1];
    if p != [] {
      DecWidth(p);
    }
  }

  lemma AtoiWidth(s: string)
    requires s == [] || IsDigit(s[0])
    ensures Atoi(s) >= 0 && (Atoi(s) > 0 ==> |Dec(Atoi(s))| <= |s|)
  {
    if s != [] {
      assert SpaceRun(s) == 0 && s[0..] == s;
      DecWidth(s[..DigitRun(s)]);
    }
  }

  // ----- the stages after the operators -----

  lemma ExtensionWidth(s: string)
    ensures var (t, id) := CutExtension(s);
      && |t| + |IdStr(id)| <= |s|
      && (FindExtension(s).Some? ==> |t| + |IdStr(id)| < |s|)
      && (FindExtension(s).None? ==> (t, id) == (s, 0))
  {
    hide Strtoll, Dec, FindExtension;
    var f := FindExtension(s);
    if f.Some? {
      var e := f.value;
      var d := DigitsBack(s, e);
      DigitsBackDigit(s, e);
      if 0 < d < e {
        AtoiWidth(s[d..e]);
      }
    }
  }

  lemma {:induction false} DigitsBackDigit(s: string, i: nat)
    requires i <= |s|
    ensures DigitsBack(s, i) < i ==> IsDigit(s[DigitsBack(s, i)])
  {
    if i > 1 && IsDigit(s[i - 1]) {
      DigitsBackDigit(s, i - 1);
    }
  }

  function RepoWidth(repo: Option<string>): nat {
    if repo.Some? then 2 + |repo.value| else 0
  }

  lemma RepoStage(s: string)
    ensures var (t, repo) := SplitRepo(s); |t| + RepoWidth(repo) <= |s|
  {
    hide Strstr;
    var i := Strstr(s, "::");
    assert i.Some? ==> OccursAt(s, "::", i.value);
  }

  /** The name up to its cut and the last condition fit into what the scan has passed. */
  predicate ScanFits(i: nat, cut: Option<nat>, sfx: UseCond) {
    && (cut.None? ==> sfx == UcNone)
    && (cut.Some? ==> cut.value + |UseCondStr(sfx)| <= i)
  }

  lemma {:induction false} ScanWidth(s: string, i: nat, cut: Option<nat>, sfx: UseCond)
    requires i <= |s| && ScanFits(i, cut, sfx)
    ensures var (e, c, x) := UseScan(s, i, cut, sfx); ScanFits(e, c, x)
    decreases |s| - i
  {
    if i < |s| {
      var here := if cut.Some? then cut else Some(i);
      if s[i] == '?' {
        ScanWidth(s, i + 1, here, UcCond);
      } else if s[i] == '=' {
        ScanWidth(s, i + 1, here, UcEqual);
      } else if s[i] == '(' && (OccursAt(s, "(+)", i) || OccursAt(s, "(-)", i)) {
        assert i + 3 <= |s|;
        ScanWidth(s, i + 3, here, UcPrevEnabled);
      } else if s[i] != ',' && s[i] != ']' {
        ScanWidth(s, i + 1, cut, sfx);
      }
    }
  }

  lemma UseOneWidth(s: string)
    requires s != [] && s[|s| - 1] == ']'
    ensures var (u, e) := UseOne(s); |UseDepStr(u)| <= e < |s|
  {
    hide UseScan;
    ScanWidth(s, if UsePrefix(s) == UcNone then 0 else 1, None, UcNone);
  }

  lemma {:induction false} UseListWidth(s: string)
    requires s != [] && s[|s| - 1] == ']'
    ensures |UseListStr(UseList(s))| <= |s|
    decreases |s|
  {
    hide UseOne, UseDepStr;
    UseOneWidth(s);
    var (u, e) := UseOne(s);
    if e + 1 < |s| {
      UseListWidth(s[e + 1..]);
      assert UseList(s)[1..] == UseList(s[e + 1..]);
    }
  }

  lemma UseStage(s: string)
    ensures var (t, us) := SplitUse(s); |t| + |UseStr(us)| <= |s|
  {
    hide UseList, UseListStr;
    if s != [] && s[|s| - 1] == ']' && Strrchr(s, '[').Some? {
      UseListWidth(s[Strrchr(s, '[').value + 1..]);
    }
  }

  function SlotWidth(slot: Option<string>, sub: Option<string>, sd: SlotDep): nat {
    if slot.Some? || sd != SdNone then
      1 + (if slot.Some? then |slot.value| else 0) + (if sub.Some? then 1 + |sub.value| else 0) + |SlotDepStr(sd)|
    else 0
  }

  lemma SlotStage(s: string)
    ensures var (t, slot, sub, sd) := SplitSlot(s); |t| + SlotWidth(slot, sub, sd) <= |s|
  {
    hide Strrchr, Strchr;
    assert Strrchr(s, ':').Some? ==> Strrchr(s, ':').value < |s| by { LastIn(s, ':'); }
    var i := Strrchr(s, ':');
    if i.Some? {
      var (t1, rebuild) := CutLast(s[i.value + 1..], '=');
      var (t2, ignored) := CutLast(t1, '*');
      FirstIn(t2, '/');
    }
  }

  lemma LastIn(s: string, c: char)
    ensures Strrchr(s, c).Some? ==> Strrchr(s, c).value < |s|
  {
  }

  lemma FirstIn(s: string, c: char)
    ensures Strchr(s, c).Some? ==> Strchr(s, c).value < |s|
  {
  }

  lemma CategoryStage(s: string)
    ensures var (cat, pf) := SplitCategory(s); |CategoryStr(cat)| + (if pf.Some? then |pf.value| else 0) <= |s|
  {
  }

  lemma BuildIdStage(pf: string)
    ensures var (t, id) := SplitBuildId(pf); |t| + (if id.Some? then |IdStr(id.value)| else 0) <= |pf|
  {
    hide Strtoll, Dec;
    FirstIn(pf, '~');
    hide Strchr;
    var i := Strchr(pf, '~');
    if i.Some? && DigitAt(pf, i.value + 1) {
      AtoiWidth(pf[i.value + 1..]);
    }
  }

  lemma {:induction false} RevisionDigits(s: string, i: nat)
    requires i < |s|
    ensures var r := RevisionScan(s, i); r.Some? ==> forall k :: r.value + 2 <= k <= i ==> IsDigit(s[k])
  {
    if i > 0 && IsDigit(s[i]) {
      RevisionDigits(s, i - 1);
    }
  }

  lemma VersionStage(a: AtomCtx, pf: string)
    requires a.pn == None && a.pv == None && a.pr == 0
    ensures |PfStr(FillVersion(a, pf))| <= |pf|
  {
    hide VersionScan, RevisionScan, Suffixes, Strtoll, Dec;
    var last := VersionScan(pf, 0, None, None).0;
    if last.Some? {
      var pvr := pf[last.value..];
      var rev := RevisionScan(pvr, |pvr| - 1);
      if rev.Some? {
        RevisionDigits(pvr, |pvr| - 1);
        AtoiWidth(pvr[rev.value + 2..]);
      }
    }
  }

  // ----- the whole text -----

  lemma BodyWidth(a: AtomCtx)
    ensures |BodyStr(a)| == |CategoryStr(a.category)| + |PfStr(a)| + |IdStr(a.buildId)| + |OpStr(a.sfxOp)|
                            + SlotWidth(a.slot, a.subslot, a.slotdep) + |UseStr(a.usedeps)| + RepoWidth(a.repo)
  {
    hide CategoryStr, PfStr, IdStr, OpStr, UseStr;
  }

  /** The body of any text's atom is no longer than the text after the operators, and shorter when a
      file extension was found in it. */
  lemma ExplodedWidth(input: string)
    ensures var s := SplitPfxOp(SplitBlocker(input).1).1;
      && |BodyStr(Explode(input, None))| <= |s|
      && (FindExtension(s).Some? ==> |BodyStr(Explode(input, None))| < |s|)
  {
    hide SplitBlocker, SplitPfxOp, CutExtension, SplitRepo, SplitUse, SplitSlot, CutLast, SplitCategory, SplitBuildId,
      FillVersion, PfStr, IdStr, UseStr, CategoryStr, BodyStr, FindExtension, SlotWidth, RepoWidth;
    var r := Explode(input, None);
    var s2 := SplitPfxOp(SplitBlocker(input).1).1;
    var (s3, ext) := CutExtension(s2);
    ExtensionWidth(s2);
    RepoStage(s3);
    var (s4, repo) := SplitRepo(s3);
    UseStage(s4);
    var (s5, us) := SplitUse(s4);
    SlotStage(s5);
    var s6 := SplitSlot(s5).0;
    GlobStage(s6);
    var (s7, star) := CutLast(s6, '*');
    CategoryStage(s7);
    var (cat, pf) := SplitCategory(s7);
    BodyWidth(r);
    ExplodedParts(input, s2, s3, ext, s4, s5, s6, s7);
    if pf.Some? {
      BuildIdStage(pf.value);
    }
  }

  lemma GlobStage(s: string)
    ensures var (t, star) := CutLast(s, '*'); |t| + |OpStr(if star then OpStar else OpNone)| == |s|
  {
  }

  /** Where the printed parts of an exploded atom come from. */
  lemma ExplodedParts(input: string, s2: string, s3: string, ext: int, s4: string, s5: string, s6: string, s7: string)
    requires s2 == SplitPfxOp(SplitBlocker(input).1).1 && (s3, ext) == CutExtension(s2)
    requires s4 == SplitRepo(s3).0 && s5 == SplitUse(s4).0 && s6 == SplitSlot(s5).0 && s7 == CutLast(s6, '*').0
    ensures var r := Explode(input, None);
      var (cat, pf) := SplitCategory(s7);
      && r.repo == SplitRepo(s3).1 && r.usedeps == SplitUse(s4).1
      && (r.slot, r.subslot, r.slotdep) == (SplitSlot(s5).1, SplitSlot(s5).2, SplitSlot(s5).3)
      && r.sfxOp == (if CutLast(s6, '*').1 then OpStar else OpNone) && r.category == cat
      && if pf.None? then PfStr(r) == "" && r.buildId == ext
         else
           var (t, id) := SplitBuildId(pf.value);
           |PfStr(r)| <= |t| && r.buildId == if id.Some? then id.value else ext
  {
    hide SplitBlocker, SplitPfxOp, CutExtension, SplitRepo, SplitUse, SplitSlot, CutLast, SplitCategory, SplitBuildId;
    var (repo, us, slot) := (SplitRepo(s3).1, SplitUse(s4).1, SplitSlot(s5));
    var (cat, pf) := SplitCategory(s7);
    var a := AtomCtx(SplitBlocker(input).0, SplitPfxOp(SplitBlocker(input).1).0,
                     if CutLast(s6, '*').1 then OpStar else OpNone, cat, None, None, None, 0, None, [], None, None,
                     us, slot.1, slot.2, slot.3, repo, ext);
    if pf.Some? {
      var (t, id) := SplitBuildId(pf.value);
      var b := if id.Some? then a.(buildId := id.value) else a;
      FillKeeps(b, t);
      VersionStage(b, t);
      assert Explode(input, None) == FillVersion(b, t) by { hide FillVersion; }
    } else {
      assert Explode(input, None) == a;
    }
    hide FillVersion, Explode;
  }

  lemma FillKeeps(a: AtomCtx, pf: string)
    ensures var r := FillVersion(a, pf);
      && r.repo == a.repo && r.usedeps == a.usedeps && r.slot == a.slot && r.subslot == a.subslot
      && r.slotdep == a.slotdep && r.sfxOp == a.sfxOp && r.category == a.category && r.buildId == a.buildId
  {
    hide VersionScan, RevisionScan, Suffixes, Strtoll;
  }
}
