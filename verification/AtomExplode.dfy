/** `atom_explode_cat` as the program runs it: a buffer that is cut shorter and
    shorter while the fields are filled in, with its scanning loops. */
module AtomExplode {
  import opened CStrings
  import opened Atom

  function Reversed<T>(s: seq<T>): (r: seq<T>) {
    if s == [] then [] else [s[|s| - 1]] + Reversed(s[..|s| - 1])
  }

  lemma {:induction false} ReversedAt<T>(s: seq<T>, k: nat)
    requires k < |s|
    ensures |Reversed(s)| == |s| && Reversed(s)[k] == s[|s| - 1 - k]
  {
    if |s| > 1 {
      ReversedAt(s[..|s| - 1], if k > 0 then k - 1 else 0);
    }
  }

  /** The swapping loop that puts the suffixes, collected from the back, in order. */
  method ReverseSuffixes(a: array<Suffix>)
    modifies a
    ensures a[..] == Reversed(old(a[..]))
  {
    var n := a.Length;
    var idx, sidx := 0, n;
    if sidx > 0 {
      sidx := sidx - 1;
    }
    while idx < sidx
      invariant 0 <= idx && idx + sidx == if n > 0 then n - 1 else 0
      invariant idx <= sidx + 1
      invariant forall k :: 0 <= k < n && (k < idx || k > sidx) ==> a[k] == old(a[n - 1 - k])
      invariant forall k :: 0 <= k < n && idx <= k <= sidx ==> a[k] == old(a[k])
    {
      var t := a[sidx];
      a[sidx] := a[idx];
      a[idx] := t;
      idx, sidx := idx + 1, sidx - 1;
    }
    ghost var was := old(a[..]);
    assert n == 0 ==> was == [];
    forall k | 0 <= k < n ensures |Reversed(was)| == n && a[..][k] == Reversed(was)[k] {
      ReversedAt(was, k);
    }
  }

  /** The suffixes of PV: found from the back, then reversed. */
  method CollectSuffixes(pv: string) returns (suffixes: seq<Suffix>)
    ensures suffixes == Suffixes(pv)
  {
    hide Reversed, SuffixesBefore, SuffixAt;
    var found: seq<Suffix> := [];
    if pv == [] {
      return found;
    }
    ReversedEmpty<Suffix>();
    var ptr := |pv| - 1;
    assert Suffixes(pv) == SuffixesBefore(pv, ptr) + [];
    while ptr > 0
      invariant 0 <= ptr < |pv|
      invariant Suffixes(pv) == SuffixesBefore(pv, ptr) + Reversed(found)
    {
      hide Suffixes;
      SuffixesStep(pv, ptr, found);
      ptr := ptr - 1;
      var s := SuffixOf(pv, ptr);
      found := found + if s.Some? then [s.value] else [];
    }
    SuffixesBeforeStart(pv);
    suffixes := InOrder(found);
  }

  method InOrder(found: seq<Suffix>) returns (r: seq<Suffix>)
    ensures r == Reversed(found)
  {
    var a := new Suffix[|found|](i requires 0 <= i < |found| => found[i]);
    assert a[..] == found;
    ReverseSuffixes(a);
    r := a[..];
  }

  lemma ReversedEmpty<T>()
    ensures Reversed<T>([]) == []
  {
  }

  lemma SuffixesBeforeStart(pv: string)
    ensures forall s: seq<Suffix> :: SuffixesBefore(pv, 0) + s == s
  {
  }

  /** Moving one position back moves one suffix, if there is one, to the list found so far. */
  lemma SuffixesStep(pv: string, ptr: nat, found: seq<Suffix>)
    requires 0 < ptr <= |pv|
    ensures SuffixesBefore(pv, ptr) + Reversed(found)
         == SuffixesBefore(pv, ptr - 1) + Reversed(found + SuffixAt(pv, ptr - 1))
  {
    hide Reversed, SuffixAt, SuffixesBefore;
    var s := SuffixAt(pv, ptr - 1);
    SuffixAtShort(pv, ptr - 1);
    ReversedAppend(found, s);
    SuffixesUnfold(pv, ptr);
    Assoc(SuffixesBefore(pv, ptr - 1), s, Reversed(found));
  }

  lemma SuffixesUnfold(pv: string, ptr: nat)
    requires 0 < ptr <= |pv|
    ensures SuffixesBefore(pv, ptr) == SuffixesBefore(pv, ptr - 1) + SuffixAt(pv, ptr - 1)
  {
  }

  lemma ReversedAppend<T>(found: seq<T>, s: seq<T>)
    requires |s| <= 1
    ensures Reversed(found + s) == s + Reversed(found)
  {
    if s == [] {
      assert found + s == found;
    } else {
      assert (found + s)[..|found|] == found;
      assert s == [s[0]];
    }
  }

  lemma SuffixAtShort(pv: string, i: nat)
    requires i < |pv|
    ensures |SuffixAt(pv, i)| <= 1
  {
  }

  /** The search of the suffix table at one position. */
  method SuffixOf(pv: string, ptr: nat) returns (s: Option<Suffix>)
    requires ptr < |pv|
    ensures SuffixAt(pv, ptr) == if s.Some? then [s.value] else []
  {
    hide Strtoll, OccursAt;
    s := None;
    if pv[ptr] == '_' {
      var idx := 0;
      while idx < SUFFIX_COUNT && !OccursAt(pv, SuffixName(idx), ptr)
        invariant idx <= SUFFIX_COUNT
        invariant SuffixIndex(pv, ptr, 0) == SuffixIndex(pv, ptr, idx)
      {
        idx := idx + 1;
      }
      if idx < SUFFIX_COUNT {
        NameFits(pv, ptr, SuffixName(idx));
        s := Some(Suffix(idx, Atoi(pv[ptr + |SuffixName(idx)|..])));
      }
    }
  }

  lemma NameFits(pv: string, ptr: nat, name: string)
    requires OccursAt(pv, name, ptr)
    ensures ptr + |name| <= |pv|
  {
  }

  lemma UseScanStep(s: string, i: nat, cut: Option<nat>, sfx: UseCond)
    requires i < |s| && (cut.Some? ==> cut.value <= i)
    ensures var here := if cut.Some? then cut else Some(i);
      UseScan(s, i, cut, sfx) ==
        if s[i] == '?' then UseScan(s, i + 1, here, UcCond)
        else if s[i] == '=' then UseScan(s, i + 1, here, UcEqual)
        else if s[i] == '(' && i + 3 <= |s| && (OccursAt(s, "(+)", i) || OccursAt(s, "(-)", i)) then
          UseScan(s, i + 3, here, UcPrevEnabled)
        else if s[i] == ',' || s[i] == ']' then (i, cut, sfx)
        else UseScan(s, i + 1, cut, sfx)
  {
  }

  /** One USE dependency: its prefix, its name up to the first cut, its last condition. */
  method ParseUseOne(s: string) returns (u: UseDep, e: nat)
    requires s != [] && s[|s| - 1] == ']'
    ensures (u, e) == UseOne(s) && e < |s|
  {
    hide UseScan;
    var pfx := UcNone;
    var start := 0;
    if s[0] == '-' {
      pfx, start := UcNeg, 1;
    } else if s[0] == '!' {
      pfx, start := UcNot, 1;
    }
    var cut, sfx := None, UcNone;
    e := start;
    while s[e] != ',' && s[e] != ']'
      invariant start <= e < |s|
      invariant cut.Some? ==> start <= cut.value <= e
      invariant UseScan(s, start, None, UcNone) == UseScan(s, e, cut, sfx)
      decreases |s| - e
    {
      UseScanStep(s, e, cut, sfx);
      if s[e] == '?' || s[e] == '=' {
        cut := if cut.Some? then cut else Some(e);
        sfx := if s[e] == '?' then UcCond else UcEqual;
        e := e + 1;
      } else if s[e] == '(' && (OccursAt(s, "(+)", e) || OccursAt(s, "(-)", e)) {
        assert s[e..e + 3][2] == s[e + 2];
        cut := if cut.Some? then cut else Some(e);
        sfx := UcPrevEnabled;
        e := e + 3;
      } else {
        e := e + 1;
      }
    }
    UseScanStep(s, e, cut, sfx);
    u := UseDep(pfx, s[start..if cut.Some? then cut.value else e], sfx);
  }

  /** The list of USE dependencies after the opening bracket. */
  method ParseUse(s: string) returns (us: seq<UseDep>)
    requires s != [] && s[|s| - 1] == ']'
    ensures us == UseList(s)
  {
    hide UseOne;
    us := [];
    var rest := s;
    while true
      invariant rest != [] && rest[|rest| - 1] == ']'
      invariant UseList(s) == us + UseList(rest)
      decreases |rest|
    {
      var u, e := ParseUseOne(rest);
      us := us + [u];
      if e + 1 == |rest| {
        return;
      }
      rest := rest[e + 1..];
    }
  }

  method SkipNumbers(s: string, i: nat) returns (e: nat)
    requires i <= |s|
    ensures e == NumbersEnd(s, i)
  {
    e := i;
    while e < |s| && (s[e] == '.' || IsDigit(s[e]))
      invariant i <= e <= |s|
      invariant NumbersEnd(s, i) == NumbersEnd(s, e)
    {
      e := e + 1;
    }
  }

  /** The search for the last version-shaped stretch of PF. */
  method FindVersion(pf: string) returns (lastpv: Option<nat>, letter: Option<char>)
    ensures (lastpv, letter) == VersionScan(pf, 0, None, None)
  {
    hide NumbersEnd, VersionScan;
    lastpv, letter := None, None;
    var ptr := 0;
    while true
      invariant ptr <= |pf|
      invariant lastpv.Some? ==> 0 < lastpv.value < |pf|
      invariant VersionScan(pf, 0, None, None) == VersionScan(pf, ptr, lastpv, letter)
      decreases |pf| - ptr
    {
      ScanOnce(pf, ptr, lastpv, letter);
      var hyphen := StrchrFrom(pf, '-', ptr);
      if hyphen.None? {
        break;
      }
      ptr := hyphen.value + 1;
      if DigitAt(pf, ptr) {
        var pv := ptr;
        ptr := SkipNumbers(pf, pv + 1);
        if ptr < |pf| && IsLower(pf[ptr]) {
          letter := Some(pf[ptr]);
          ptr := ptr + 1;
        }
        if ptr == |pf| || pf[ptr] == '_' || pf[ptr] == '-' {
          lastpv := Some(pv);
        } else {
          letter := None;
        }
      }
    }
  }

  /** One round of the search. */
  lemma ScanOnce(pf: string, ptr: nat, last: Option<nat>, letter: Option<char>)
    requires ptr <= |pf|
    requires last.Some? ==> 0 < last.value < |pf|
    ensures VersionScan(pf, ptr, last, letter) ==
      match StrchrFrom(pf, '-', ptr)
      case None => (last, letter)
      case Some(k) =>
        if !DigitAt(pf, k + 1) then VersionScan(pf, k + 1, last, letter)
        else
          var e := NumbersEnd(pf, k + 2);
          var lettered := e < |pf| && IsLower(pf[e]);
          var e' := if lettered then e + 1 else e;
          if e' == |pf| || pf[e'] == '_' || pf[e'] == '-'
          then VersionScan(pf, e', Some(k + 1), if lettered then Some(pf[e]) else letter)
          else VersionScan(pf, e', last, None)
  {
    hide NumbersEnd;
  }

  /** The walk back over the digits of PVR to the "-r" of a revision. */
  method FindRevision(pvr: string) returns (pos: Option<nat>)
    requires pvr != []
    ensures pos == RevisionScan(pvr, |pvr| - 1)
  {
    pos := None;
    var ptr := |pvr| - 1;
    while ptr > 0
      invariant 0 <= ptr < |pvr|
      invariant RevisionScan(pvr, |pvr| - 1) == RevisionScan(pvr, ptr)
      invariant pos.None?
    {
      if !IsDigit(pvr[ptr]) {
        if pvr[ptr] == 'r' && pvr[ptr - 1] == '-' {
          pos := Some(ptr - 1);
        }
        break;
      }
      ptr := ptr - 1;
    }
  }

  /** The file extension and the build-id before it. */
  method StripExtension(buf: string) returns (cut: string, buildId: int)
    ensures (cut, buildId) == CutExtension(buf)
  {
    hide FindExtension, Strtoll;
    var ext := FindExtension(buf);
    if ext.None? {
      return buf, 0;
    }
    cut, buildId := buf[..ext.value], 0;
    if buf[ext.value + 1] == 'x' || buf[ext.value + 1] == 'g' {
      var ptr := ext.value;
      while ptr > 1 && IsDigit(buf[ptr - 1])
        invariant 0 <= ptr <= ext.value
        invariant DigitsBack(buf, ext.value) == DigitsBack(buf, ptr)
      {
        ptr := ptr - 1;
      }
      if 0 < ptr < ext.value && buf[ptr - 1] == '-' {
        var pv := 0;
        while pv < |cut| && !(cut[pv] == '-' && DigitAt(cut, pv + 1))
          invariant pv <= |cut|
          invariant HyphenDigit(cut, 0) == HyphenDigit(cut, pv)
        {
          pv := pv + 1;
        }
        if pv != ptr - 1 {
          cut, buildId := buf[..ptr - 1], Atoi(buf[ptr..ext.value]);
        }
      }
    }
  }

  /** The whole of atom_explode_cat. */
  method ExplodeCat(input: string, cat: Option<string>) returns (a: AtomCtx)
    ensures a == Explode(input, cat)
  {
    hide CutExtension, SplitRepo, SplitSlot, CutLast, SplitCategory, SplitBuildId, FillVersion, UseList;
    var (blocker, s1) := SplitBlocker(input);
    var (pfxOp, s2) := SplitPfxOp(s1);
    var buf, buildId := StripExtension(s2);
    var (s4, repo) := SplitRepo(buf);
    buf := s4;
    var usedeps: seq<UseDep> := [];
    if buf != [] && buf[|buf| - 1] == ']' {
      var open := Strrchr(buf, '[');
      if open.Some? {
        usedeps := ParseUse(buf[open.value + 1..]);
        buf := buf[..open.value];
      }
    }
    var (s6, slot, subslot, slotdep) := SplitSlot(buf);
    var (s7, star) := CutLast(s6, '*');
    var (ownCat, pfOpt) := SplitCategory(s7);
    a := AtomCtx(blocker, pfxOp, if star then OpStar else OpNone, if cat.Some? then cat else ownCat,
                 None, None, None, 0, None, [], None, None, usedeps, slot, subslot, slotdep, repo, buildId);
    if pfOpt.None? {
      return;
    }
    var (pf, id) := SplitBuildId(pfOpt.value);
    if id.Some? {
      a := a.(buildId := id.value);
    }
    a := FillFromPf(a, pf);
  }

  method FillFromPf(base: AtomCtx, pf: string) returns (a: AtomCtx)
    ensures a == FillVersion(base, pf)
  {
    hide VersionScan, RevisionScan, Suffixes, Strtoll;
    var lastpv, letter := FindVersion(pf);
    a := base.(pf := Some(pf), letter := letter);
    if lastpv.None? {
      a := a.(p := Some(pf), pn := Some(pf));
      return;
    }
    var v := lastpv.value;
    var pvr := pf[v..];
    var rev := FindRevision(pvr);
    var cut := |pf|;
    var pr := 0;
    if rev.Some? {
      pr := Atoi(pvr[rev.value + 2..]);
      cut := v + rev.value;
    }
    var suffixes := CollectSuffixes(pf[v..cut]);
    a := a.(pn := Some(pf[..v - 1]), pvr := Some(pvr), p := Some(pf[..cut]), pv := Some(pf[v..cut]), pr := pr,
            suffixes := suffixes);
  }
}
