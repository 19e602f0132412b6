/** Exploding a printed atom gives the atom back. */
module AtomRoundTrip {
  import opened CStrings
  import opened Atom
  import opened AtomWidth

  // ----- the records that can be printed and read back -----

  /** The characters PMS allows in category, package, version, slot, flag and repository names. */
  predicate IsNameChar(c: char) {
    IsDigit(c) || IsLower(c) || IsUpper(c) || c == '+' || c == '_' || c == '.' || c == '-'
  }

  predicate IsName(s: string) {
    forall c :: c in s ==> IsNameChar(c)
  }

  predicate IsFlag(s: string) {
    forall c :: c in s ==> IsNameChar(c) || c == '@'
  }

  /** A hyphen before a digit, the way a version starts. */
  predicate HyphenDigitAt(s: string, i: nat) {
    i < |s| && s[i] == '-' && DigitAt(s, i + 1)
  }

  /** The scan for a version finds none; a hyphen may stand before a digit that starts no version. */
  predicate NoVersionIn(s: string) {
    VersionScan(s, 0, None, None).0.None?
  }

  /** Digits and dots, an optional letter, then nothing or an underscore and the suffixes. */
  predicate IsVersion(pv: string) {
    && IsName(pv) && '-' !in pv
    && DigitAt(pv, 0)
    && var e := LetterEnd(pv);
       e == |pv| || pv[e] == '_'
  }

  function LetterOf(pv: string): Option<char>
    requires pv != []
  {
    var e := NumbersEnd(pv, 1);
    if e < |pv| && IsLower(pv[e]) then Some(pv[e]) else None
  }

  function LetterEnd(pv: string): (e: nat)
    requires pv != []
    ensures 0 < e <= |pv|
  {
    NumbersEnd(pv, 1) + if LetterOf(pv).Some? then 1 else 0
  }

  /** The derived fields are the ones the name and version determine. */
  predicate Derived(a: AtomCtx) {
    match (a.pn, a.pv)
    case (None, _) => a.pv == a.pf == a.p == a.pvr == None && a.pr == 0 && a.letter == None && a.suffixes == []
    case (Some(n), None) => a.pf == a.p == a.pn && a.pvr == None && a.pr == 0 && a.letter == None && a.suffixes == []
    case (Some(n), Some(v)) =>
      && v != []
      && a.pf == Some(PfStr(a)) && a.p == Some(n + "-" + v) && a.pvr == Some(PvrStr(v, a.pr))
      && a.pr >= 0 && a.letter == LetterOf(v) && a.suffixes == Suffixes(v)
  }

  predicate PrintableUse(u: UseDep) {
    && IsFlag(u.use)
    && (u.pfx == UcNone || u.pfx == UcNot || u.pfx == UcNeg)
    && (u.pfx == UcNone && u.use != [] ==> u.use[0] != '-')
    && u.sfx != UcNot && u.sfx != UcNeg
  }

  predicate PrintableParts(a: AtomCtx) {
    && a.pfxOp != OpStar && a.pfxOp != OpNotEqual
    && (a.sfxOp == OpNone || a.sfxOp == OpStar)
    && (a.category.Some? ==> IsName(a.category.value))
    && (a.pn.Some? ==> a.pn.value != [] && IsName(a.pn.value))
    && (a.pn.None? ==> a.category.Some? && a.buildId == 0)
    && (a.pv.Some? ==> IsVersion(a.pv.value))
    && a.buildId >= 0
    && (a.slot.Some? ==> a.slot.value != [] && IsName(a.slot.value))
    && (a.subslot.Some? ==> a.subslot.value != [] && IsName(a.subslot.value) && (a.slot.Some? || a.slotdep != SdNone))
    && (forall u :: u in a.usedeps ==> PrintableUse(u))
    && (a.repo.Some? ==> a.repo.value != [] && IsName(a.repo.value))
  }

  /** The letter the parser stores: without one of its own, a version gets the letter that the last
      candidate inside the name has left. */
  function ReadLetter(n: string, v: string): Option<char>
    requires v != []
  {
    if LetterOf(v).Some? then LetterOf(v) else VersionScan(n, 0, None, None).1
  }

  /** The name does not mislead the scan for the version behind it. */
  predicate NameReads(n: string, pv: Option<string>) {
    match pv
    case None => NoVersionIn(n)
    case Some(v) => VersionScan(n, 0, None, None).1.None? || (v != [] && LetterOf(v).Some?)
  }

  predicate NameRead(a: AtomCtx) {
    a.pn.Some? ==> NameReads(a.pn.value, a.pv)
  }

  /** No name in the atom looks like a package file name. */
  ghost predicate NoExtension(a: AtomCtx) {
    && !Contains(BodyStr(a), ".ebuild") && !Contains(BodyStr(a), ".tbz2")
    && !Contains(BodyStr(a), ".xpak") && !Contains(BodyStr(a), ".gpkg.tar")
  }

  predicate Printable(a: AtomCtx) {
    Derived(a) && PrintableParts(a)
  }

  /** `(-)` is read as `(+)`. */
  function ReadUse(u: UseDep): UseDep {
    if u.sfx == UcPrevDisabled then u.(sfx := UcPrevEnabled) else u
  }

  function ReadUses(us: seq<UseDep>): (r: seq<UseDep>)
    ensures |r| == |us| && forall i :: 0 <= i < |us| ==> r[i] == ReadUse(us[i])
  {
    if us == [] then [] else [ReadUse(us[0])] + ReadUses(us[1..])
  }

  // ----- operators -----

  predicate IsOperatorChar(c: char) {
    c == '!' || c == '^' || c == '>' || c == '<' || c == '~' || c == '='
  }

  lemma BlockerRead(b: Blocker, t: string)
    requires t != [] && t[0] != '!' && t[0] != '^'
    ensures SplitBlocker(BlockerStr(b) + t) == (b, t)
  {
    var s := BlockerStr(b) + t;
    assert s[|BlockerStr(b)|..] == t;
    assert b == NoBlocker ==> s == t;
  }

  lemma PfxOpRead(op: Operator, t: string)
    requires op != OpStar && op != OpNotEqual
    requires t != [] && !IsOperatorChar(t[0])
    ensures SplitPfxOp(OpStr(op) + t) == (op, t)
  {
    var s := OpStr(op) + t;
    assert s[|OpStr(op)|..] == t;
    assert op == OpNone ==> s == t;
    if op == OpNewerEqual || op == OpOlderEqual {
      assert s[1..][1..] == t;
    }
  }

  /** The operators as they are written; "~=" is none of them and is stored as a star. */
  lemma OperatorTable(t: string)
    requires t != [] && !IsOperatorChar(t[0])
    ensures SplitPfxOp(t) == (OpNone, t)
    ensures SplitPfxOp("=" + t) == (OpEqual, t)
    ensures SplitPfxOp("~" + t) == (OpPvEqual, t)
    ensures SplitPfxOp(">" + t) == (OpNewer, t)
    ensures SplitPfxOp(">=" + t) == (OpNewerEqual, t)
    ensures SplitPfxOp("<" + t) == (OpOlder, t)
    ensures SplitPfxOp("<=" + t) == (OpOlderEqual, t)
    ensures SplitPfxOp("~=" + t) == (OpStar, t)
  {
    hide SplitPfxOp;
    assert "" + t == t;
    PfxOpRead(OpNone, t);
    PfxOpRead(OpEqual, t);
    PfxOpRead(OpPvEqual, t);
    PfxOpRead(OpNewer, t);
    PfxOpRead(OpNewerEqual, t);
    PfxOpRead(OpOlder, t);
    PfxOpRead(OpOlderEqual, t);
    TildeEqual(t);
  }

  lemma TildeEqual(t: string)
    ensures SplitPfxOp("~=" + t) == (OpStar, t)
  {
    var s := "~=" + t;
    assert s[1..] == "=" + t && s[1..][1..] == t;
  }

  // ----- repository -----

  ghost predicate LoneColonAt(x: string, k: nat)
    requires k < |x|
  {
    x[k] == ':' ==> k + 1 < |x| && x[k + 1] != ':'
  }

  ghost predicate SingleColons(x: string) {
    forall k: nat :: k < |x| ==> LoneColonAt(x, k)
  }

  lemma RepoRead(x: string, repo: Option<string>)
    requires SingleColons(x)
    requires repo.Some? ==> repo.value != []
    ensures SplitRepo(x + (if repo.Some? then "::" + repo.value else "")) == (x, repo)
  {
    var tail := if repo.Some? then "::" + repo.value else "";
    var s := x + tail;
    forall k: nat | k < |x| ensures !OccursAt(s, "::", k) {
      assert LoneColonAt(x, k);
      if k + 2 <= |s| {
        assert s[k..k + 2][0] == s[k] && s[k..k + 2][1] == s[k + 1];
      }
    }
    if repo.Some? {
      assert OccursAt(s, "::", |x|);
      assert s[..|x|] == x && s[|x| + 2..] == repo.value;
    } else {
      assert s == x;
      assert !Contains(s, "::");
    }
  }

  // ----- USE dependencies -----

  ghost predicate ScansPast(c: char) {
    c != '?' && c != '=' && c != '(' && c != ',' && c != ']'
  }

  lemma {:induction false} UseScanSkips(s: string, i: nat, j: nat, cut: Option<nat>, sfx: UseCond)
    requires i <= j <= |s|
    requires cut.Some? ==> cut.value <= i
    requires forall k :: i <= k < j ==> ScansPast(s[k])
    ensures UseScan(s, i, cut, sfx) == UseScan(s, j, cut, sfx)
    decreases j - i
  {
    if i < j {
      UseScanSkips(s, i + 1, j, cut, sfx);
    }
  }

  /** The scan over the name and the condition after it, up to the separator. */
  lemma UseScanRead(s: string, i: nat, u: UseDep)
    requires PrintableUse(u)
    requires var j := i + |u.use|; var e := j + |UseCondStr(u.sfx)|;
      e < |s| && s[i..j] == u.use && s[j..e] == UseCondStr(u.sfx) && (s[e] == ',' || s[e] == ']')
    ensures UseScan(s, i, None, UcNone)
         == (i + |u.use| + |UseCondStr(u.sfx)|, if u.sfx == UcNone then None else Some(i + |u.use|), ReadUse(u).sfx)
  {
    hide UseScan, UseCondStr, ScansPast, IsFlag;
    var j := i + |u.use|;
    forall k | i <= k < j ensures ScansPast(s[k]) {
      FlagScans(u.use, k - i);
      assert s[i..j][k - i] == s[k];
    }
    UseScanSkips(s, i, j, None, UcNone);
    UseCondRead(s, j, u.sfx);
  }

  lemma FlagScans(flag: string, k: nat)
    requires IsFlag(flag) && k < |flag|
    ensures ScansPast(flag[k])
  {
    assert flag[k] in flag;
  }

  lemma UseCondRead(s: string, j: nat, c: UseCond)
    requires c != UcNot && c != UcNeg
    requires var e := j + |UseCondStr(c)|; e < |s| && s[j..e] == UseCondStr(c) && (s[e] == ',' || s[e] == ']')
    ensures UseScan(s, j, None, UcNone)
         == (j + |UseCondStr(c)|, if c == UcNone then None else Some(j), if c == UcPrevDisabled then UcPrevEnabled else c)
  {
    var w := UseCondStr(c);
    if w != [] {
      assert s[j] == s[j..j + |w|][0] == w[0];
    }
    if |w| == 3 {
      assert OccursAt(s, w, j);
      assert UseScan(s, j, None, UcNone) == UseScan(s, j + 3, Some(j), UcPrevEnabled);
    }
  }

  lemma UseOneRead(u: UseDep, d: char, t: string)
    requires PrintableUse(u) && (d == ',' || d == ']')
    ensures UseOne(UseDepStr(u) + [d] + t) == (ReadUse(u), |UseDepStr(u)|)
  {
    var s := UseDepStr(u) + [d] + t;
    var i := |UseCondStr(u.pfx)|;
    UseDepSlices(u, d, t);
    UseScanRead(s, i, u);
    UsePrefixRead(u, s);
    hide UseScan, UsePrefix, UseDepStr;
  }

  lemma UseDepSlices(u: UseDep, d: char, t: string)
    ensures var s := UseDepStr(u) + [d] + t;
      var i := |UseCondStr(u.pfx)|; var j := i + |u.use|; var e := j + |UseCondStr(u.sfx)|;
      && e == |UseDepStr(u)| && s[..e] == UseDepStr(u) && s[e] == d
      && s[i..j] == u.use && s[j..e] == UseCondStr(u.sfx)
  {
    hide UseCondStr;
  }

  lemma UsePrefixRead(u: UseDep, s: string)
    requires PrintableUse(u) && |s| > |UseDepStr(u)| && s[..|UseDepStr(u)|] == UseDepStr(u)
    requires s[|UseDepStr(u)|] == ',' || s[|UseDepStr(u)|] == ']'
    ensures UsePrefix(s) == u.pfx
  {
    var w := UseDepStr(u);
    if w != [] {
      assert s[0] == s[..|w|][0] == w[0];
    }
    if u.pfx == UcNone && u.use != [] {
      assert w[0] == u.use[0];
      assert u.use[0] in u.use;
    }
  }

  lemma {:induction false} UseListRead(us: seq<UseDep>)
    requires us != [] && forall u :: u in us ==> PrintableUse(u)
    ensures UseListStr(us)[|UseListStr(us)| - 1] == ']'
    ensures UseList(UseListStr(us)) == ReadUses(us)
  {
    var u := us[0];
    assert u in us;
    var s := UseListStr(us);
    if |us| == 1 {
      assert s == UseDepStr(u) + [']'] + "";
      UseOneRead(u, ']', "");
      assert ReadUses(us) == [ReadUse(u)] + ReadUses(us[1..]);
    } else {
      var rest := UseListStr(us[1..]);
      assert s == UseDepStr(u) + [','] + rest;
      UseListRead(us[1..]);
      UseOneRead(u, ',', rest);
      assert s[|UseDepStr(u)| + 1..] == rest;
      assert s[|s| - 1] == rest[|rest| - 1];
    }
  }

  /** No bracket opens inside the list, and no colon stands in it. */
  lemma {:induction false} UseListChars(us: seq<UseDep>)
    requires us != [] && forall u :: u in us ==> PrintableUse(u)
    ensures '[' !in UseListStr(us) && ':' !in UseListStr(us)
  {
    var u := us[0];
    assert u in us;
    assert '[' !in UseDepStr(u) && ':' !in UseDepStr(u);
    if |us| > 1 {
      UseListChars(us[1..]);
    }
  }

  lemma UseRead(y: string, us: seq<UseDep>)
    requires us != [] && forall u :: u in us ==> PrintableUse(u)
    ensures SplitUse(y + "[" + UseListStr(us)) == (y, ReadUses(us))
  {
    var t := UseListStr(us);
    var s := y + ['['] + t;
    UseListRead(us);
    UseListChars(us);
    StrrchrSplit(y, '[', t);
    assert s[|s| - 1] == t[|t| - 1];
  }

  // ----- slot -----

  /** The slot text after its colon. */
  function SlotText(a: AtomCtx): string {
    (if a.slot.Some? then a.slot.value else "") + (if a.subslot.Some? then "/" + a.subslot.value else "")
  }

  lemma SlotTextChars(a: AtomCtx)
    requires PrintableParts(a)
    ensures forall c :: c in SlotText(a) ==> IsNameChar(c) || c == '/'
  {
  }

  lemma SlotOperatorRead(t: string, sd: SlotDep)
    requires forall c :: c in t ==> IsNameChar(c) || c == '/'
    ensures var (t1, rebuild) := CutLast(t + SlotDepStr(sd), '=');
      var (t2, ignored) := CutLast(t1, '*');
      t2 == t && rebuild == (sd == SdAnyRebuild) && ignored == (sd == SdAnyIgnore)
  {
    if t != [] {
      assert t[|t| - 1] in t;
    }
    var s := t + SlotDepStr(sd);
    assert sd == SdNone ==> s == t;
    assert sd != SdNone ==> s[..|s| - 1] == t;
  }

  lemma SubslotRead(slot: string, sub: Option<string>)
    requires IsName(slot) && (sub.Some? ==> sub.value != [])
    ensures var t := slot + (if sub.Some? then "/" + sub.value else "");
      match Strchr(t, '/')
      case None => sub.None? && t == slot
      case Some(k) => t[..k] == slot && k + 1 < |t| && sub == Some(t[k + 1..])
  {
    assert '/' !in slot;
    if sub.Some? {
      assert slot + ("/" + sub.value) == slot + ['/'] + sub.value;
      StrchrSplit(slot, '/', sub.value);
    } else {
      assert slot + "" == slot;
    }
  }

  lemma SlotRead(y: string, a: AtomCtx)
    requires PrintableParts(a)
    requires ':' !in y
    ensures SplitSlot(y + SlotStr(a)) == (y, a.slot, a.subslot, a.slotdep)
  {
    hide Strchr, Strrchr, CutLast, IsName;
    if a.slot.None? && a.slotdep == SdNone {
      assert y + SlotStr(a) == y;
      NoColon(y);
    } else {
      SlotTextChars(a);
      SlotTextRead(y, SlotText(a), a.slotdep);
      SubslotRead(if a.slot.Some? then a.slot.value else "", a.subslot);
      SlotStrSplit(y, a);
    }
  }

  lemma NoColon(y: string)
    requires ':' !in y
    ensures Strrchr(y, ':').None?
  {
  }

  lemma SlotStrSplit(y: string, a: AtomCtx)
    requires a.slot.Some? || a.slotdep != SdNone
    ensures SlotStr(a) == [':'] + (SlotText(a) + SlotDepStr(a.slotdep))
    ensures y + SlotStr(a) == y + [':'] + (SlotText(a) + SlotDepStr(a.slotdep))
  {
    hide SlotDepStr;
    assert SlotStr(a) == [':'] + (SlotText(a) + SlotDepStr(a.slotdep));
  }

  lemma SlotTextRead(y: string, text: string, sd: SlotDep)
    requires forall c :: c in text ==> IsNameChar(c) || c == '/'
    ensures var t := text + SlotDepStr(sd); var s := y + [':'] + t;
      && Strrchr(s, ':') == Some(|y|) && s[..|y|] == y && s[|y| + 1..] == t
      && var (t1, rebuild) := CutLast(t, '=');
         var (t2, ignored) := CutLast(t1, '*');
         t2 == text && rebuild == (sd == SdAnyRebuild) && ignored == (sd == SdAnyIgnore)
  {
    var t := text + SlotDepStr(sd);
    assert ':' !in t;
    StrrchrSplit(y, ':', t);
    SlotOperatorRead(text, sd);
  }

  // ----- category, build-id, version -----

  lemma CategoryRead(cat: Option<string>, t: string)
    requires cat.Some? ==> '/' !in cat.value
    requires '/' !in t
    requires cat.None? ==> t != []
    ensures SplitCategory(CategoryStr(cat) + t)
         == (cat, if t == [] then None else Some(t))
  {
    if cat.Some? {
      var c := cat.value;
      assert c + "/" + t == c + ['/'] + t;
      StrrchrSplit(c, '/', t);
    } else {
      assert "" + t == t;
    }
  }

  lemma BuildIdRead(pf: string, id: int)
    requires '~' !in pf && id >= 0
    ensures SplitBuildId(pf + IdStr(id)) == (pf, if id > 0 then Some(id) else None)
  {
    if id > 0 {
      var s := pf + ['~'] + Dec(id);
      assert pf + ("~" + Dec(id)) == s;
      StrchrSplit(pf, '~', Dec(id));
      assert s[|pf| + 1] == Dec(id)[0];
      AtoiOfDec(id);
    } else {
      assert pf + "" == pf;
    }
  }

  /** No hyphen from `i` up to `j` stands before a digit. */
  ghost predicate NoVersionStart(s: string, i: nat, j: nat) {
    forall k: nat :: i <= k < j ==> !HyphenDigitAt(s, k)
  }

  /** The scan moves past a hyphen that no digit follows. */
  lemma VersionScanStep(pf: string, ptr: nat, k: nat, last: Option<nat>, letter: Option<char>)
    requires ptr <= |pf|
    requires last.Some? ==> 0 < last.value < |pf|
    requires StrchrFrom(pf, '-', ptr) == Some(k) && !HyphenDigitAt(pf, k)
    ensures VersionScan(pf, ptr, last, letter) == VersionScan(pf, k + 1, last, letter)
  {
    hide NumbersEnd;
  }

  /** From a position where no hyphen stands before a digit, the scan finds nothing more. */
  lemma {:induction false} VersionScanEnds(pf: string, ptr: nat, last: Option<nat>, letter: Option<char>)
    requires ptr <= |pf|
    requires last.Some? ==> 0 < last.value < |pf|
    requires NoVersionStart(pf, ptr, |pf|)
    ensures VersionScan(pf, ptr, last, letter) == (last, letter)
    decreases |pf| - ptr
  {
    var k := StrchrFrom(pf, '-', ptr);
    if k.Some? {
      hide VersionScan;
      VersionScanStep(pf, ptr, k.value, last, letter);
      VersionScanEnds(pf, k.value + 1, last, letter);
    }
  }

  /** The version candidate behind the hyphen at `k`: where the scan goes on, and what it has found so far. */
  function ScanStep(pf: string, k: nat, last: Option<nat>, letter: Option<char>): (r: (nat, Option<nat>, Option<char>))
    requires k < |pf| && (last.Some? ==> 0 < last.value < |pf|)
    ensures k < r.0 <= |pf|
    ensures r.1.Some? ==> 0 < r.1.value < |pf|
    ensures last.Some? ==> r.1.Some?
    ensures r.1.None? && letter.None? ==> r.2.None?
  {
    var q := k + 1;
    if !DigitAt(pf, q) then (q, last, letter)
    else
      var e := NumbersEnd(pf, q + 1);
      var lettered := e < |pf| && IsLower(pf[e]);
      var e' := if lettered then e + 1 else e;
      if e' == |pf| || pf[e'] == '_' || pf[e'] == '-' then (e', Some(q), if lettered then Some(pf[e]) else letter)
      else (e', last, None)
  }

  lemma ScanUnfold(pf: string, ptr: nat, last: Option<nat>, letter: Option<char>)
    requires ptr <= |pf| && (last.Some? ==> 0 < last.value < |pf|)
    ensures VersionScan(pf, ptr, last, letter) ==
      match StrchrFrom(pf, '-', ptr)
      case None => (last, letter)
      case Some(k) => var r := ScanStep(pf, k, last, letter); VersionScan(pf, r.0, r.1, r.2)
  {
    hide NumbersEnd, StrchrFrom;
  }

  /** Once a version has been found the scan ends with one. */
  lemma {:induction false} VersionScanKeeps(pf: string, ptr: nat, last: Option<nat>, letter: Option<char>)
    requires ptr <= |pf| && last.Some? && 0 < last.value < |pf|
    ensures VersionScan(pf, ptr, last, letter).0.Some?
    decreases |pf| - ptr
  {
    hide VersionScan, ScanStep;
    ScanUnfold(pf, ptr, last, letter);
    var k := StrchrFrom(pf, '-', ptr);
    if k.Some? {
      var r := ScanStep(pf, k.value, last, letter);
      VersionScanKeeps(pf, r.0, r.1, r.2);
    }
  }

  /** A scan that finds no version leaves no letter behind. */
  lemma {:induction false} VersionScanNoLetter(pf: string, ptr: nat)
    requires ptr <= |pf| && VersionScan(pf, ptr, None, None).0.None?
    ensures VersionScan(pf, ptr, None, None) == (None, None)
    decreases |pf| - ptr
  {
    hide VersionScan, ScanStep;
    ScanUnfold(pf, ptr, None, None);
    var k := StrchrFrom(pf, '-', ptr);
    if k.Some? {
      var r := ScanStep(pf, k.value, None, None);
      if r.1.Some? {
        VersionScanKeeps(pf, r.0, r.1, r.2);
      } else {
        VersionScanNoLetter(pf, r.0);
      }
    }
  }

  /** Inside a name the scan decides the same with and without a hyphen and more behind the name. */
  lemma ScanStepInside(n: string, t: string, k: nat, last: Option<nat>, letter: Option<char>)
    requires k < |n| && n[k] == '-' && (last.Some? ==> 0 < last.value < |n|)
    ensures ScanStep(n + ("-" + t), k, last, letter) == ScanStep(n, k, last, letter)
  {
    hide NumbersEnd;
    var pf := n + ("-" + t);
    assert forall i :: 0 <= i < |n| ==> pf[i] == n[i];
    assert pf[|n|] == '-';
    if DigitAt(n, k + 1) {
      NumbersEndInside(n, t, k + 2);
    }
  }

  lemma {:induction false} NumbersEndInside(n: string, t: string, i: nat)
    requires i <= |n|
    ensures NumbersEnd(n + ("-" + t), i) == NumbersEnd(n, i)
    decreases |n| - i
  {
    var pf := n + ("-" + t);
    assert i < |n| ==> pf[i] == n[i];
    assert pf[|n|] == '-';
    if i < |n| && (n[i] == '.' || IsDigit(n[i])) {
      NumbersEndInside(n, t, i + 1);
    }
  }

  /** The scan of NAME-REST is the scan of NAME, continued at the hyphen. */
  lemma {:induction false} NameScanned(n: string, t: string, ptr: nat, last: Option<nat>, letter: Option<char>)
    requires ptr <= |n| && (last.Some? ==> 0 < last.value < |n|)
    ensures var pf := n + ("-" + t); var r := VersionScan(n, ptr, last, letter);
      VersionScan(pf, ptr, last, letter) == VersionScan(pf, |n|, r.0, r.1)
    decreases |n| - ptr
  {
    hide VersionScan, ScanStep, StrchrFrom;
    var pf := n + ("-" + t);
    ScanUnfold(n, ptr, last, letter);
    ScanUnfold(pf, ptr, last, letter);
    var k := StrchrFrom(n, '-', ptr);
    FirstInside(n, t, ptr);
    if k.Some? {
      var r := ScanStep(n, k.value, last, letter);
      ScanStepInside(n, t, k.value, last, letter);
      NameScanned(n, t, r.0, r.1, r.2);
    } else {
      FirstInside(n, t, |n|);
      ScanUnfold(pf, |n|, last, letter);
    }
  }

  lemma FirstInside(n: string, t: string, ptr: nat)
    requires ptr <= |n|
    ensures var k := StrchrFrom(n, '-', ptr);
      StrchrFrom(n + ("-" + t), '-', ptr) == Some(if k.Some? then k.value else |n|)
  {
    var pf := n + ("-" + t);
    assert forall i :: 0 <= i < |n| ==> pf[i] == n[i];
    assert pf[|n|] == '-';
    var k := StrchrFrom(n, '-', ptr);
    FirstFrom(pf, '-', ptr, if k.Some? then k.value else |n|);
  }

  lemma {:induction false} FirstFrom(s: string, c: char, i: nat, k: nat)
    requires i <= k < |s| && s[k] == c && forall m :: i <= m < k ==> s[m] != c
    ensures StrchrFrom(s, c, i) == Some(k)
    decreases k - i
  {
    if i < k {
      FirstFrom(s, c, i + 1, k);
    }
  }

  lemma {:induction false} NumbersEndShift(x: string, v: string, t: string, i: nat)
    requires i <= |v|
    requires t == [] || (t[0] != '.' && !IsDigit(t[0]))
    ensures NumbersEnd(x + v + t, |x| + i) == |x| + NumbersEnd(v, i)
    decreases |v| - i
  {
    var s := x + v + t;
    if i < |v| {
      assert s[|x| + i] == v[i];
      if v[i] == '.' || IsDigit(v[i]) {
        NumbersEndShift(x, v, t, i + 1);
      }
    } else if t != [] {
      assert s[|x| + i] == t[0];
    }
  }

  ghost predicate IsRevision(rev: string) {
    rev == [] || (|rev| > 2 && rev[0] == '-' && rev[1] == 'r' && AllDigits(rev[2..]))
  }

  /** After the numbers and the letter only a revision can follow. */
  lemma RestHasNoVersion(x: string, v: string, rev: string)
    requires '-' !in v && IsRevision(rev)
    ensures NoVersionStart(x + v + rev, |x|, |x + v + rev|)
  {
    var pf := x + v + rev;
    assert forall i :: |x| <= i < |x| + |v| ==> pf[i] == v[i - |x|];
    assert forall i :: |x| + |v| <= i < |pf| ==> pf[i] == rev[i - |x| - |v|];
    assert forall i :: 2 <= i < |rev| ==> rev[2..][i - 2] == rev[i];
    forall i: nat | |x| <= i < |pf| ensures !HyphenDigitAt(pf, i) {
      assert pf[i] == '-' ==> i == |x| + |v| && pf[i + 1] == 'r';
    }
  }

  /** The version is found behind any name; its letter is right unless the name has left another. */
  lemma VersionFound(n: string, v: string, rev: string)
    requires IsVersion(v) && IsRevision(rev)
    ensures v != [] && VersionScan(n + "-" + v + rev, 0, None, None) == (Some(|n| + 1), ReadLetter(n, v))
  {
    hide VersionScan, IsVersion, LetterOf, IsRevision;
    var r := VersionScan(n, 0, None, None);
    NameScanned(n, v + rev, 0, None, None);
    VersionAccepted(n + "-", v, rev, r.0, r.1);
    NameAndRest(n, v, rev);
  }

  lemma NameAndRest(n: string, v: string, rev: string)
    ensures n + "-" + v + rev == n + ("-" + (v + rev))
  {
  }

  /** The version itself is shaped like one, and is the last such stretch. */
  lemma VersionAccepted(x: string, v: string, rev: string, last: Option<nat>, letter: Option<char>)
    requires x != [] && x[|x| - 1] == '-' && IsVersion(v) && IsRevision(rev)
    requires last.Some? ==> 0 < last.value < |x|
    ensures v != [] && VersionScan(x + v + rev, |x| - 1, last, letter)
                    == (Some(|x|), if LetterOf(v).Some? then LetterOf(v) else letter)
  {
    hide VersionScan, LetterOf, LetterEnd, NumbersEnd, IsVersion, IsName, IsRevision, NoVersionStart;
    VersionPlain(v);
    RestHasNoVersion(x, v, rev);
    VersionShape(x, v, rev);
    var pf, q := x + v + rev, |x|;
    var read := if LetterOf(v).Some? then LetterOf(v) else letter;
    assert NoVersionStart(pf, q + LetterEnd(v), |pf|) by {
      NoVersionStartFrom(pf, q, q + LetterEnd(v));
    }
    VersionScanEnds(pf, q + LetterEnd(v), Some(q), read);
    VersionStep(pf, q, q + LetterEnd(v), LetterOf(v), last, letter);
  }

  lemma NoVersionStartFrom(pf: string, i: nat, k: nat)
    requires i <= k && NoVersionStart(pf, i, |pf|)
    ensures NoVersionStart(pf, k, |pf|)
  {
  }

  lemma VersionPlain(v: string)
    requires IsVersion(v)
    ensures v != [] && '-' !in v && IsName(v)
  {
  }

  lemma VersionShape(x: string, v: string, rev: string)
    requires x != [] && x[|x| - 1] == '-' && IsVersion(v) && IsRevision(rev)
    ensures var pf := x + v + rev; var e := NumbersEnd(pf, |x| + 1); var e' := |x| + LetterEnd(v);
      && pf[|x| - 1] == '-' && DigitAt(pf, |x|)
      && LetterOf(v) == (if e < |pf| && IsLower(pf[e]) then Some(pf[e]) else None)
      && e' == (if LetterOf(v).Some? then e + 1 else e)
      && (e' == |pf| || pf[e'] == '_' || pf[e'] == '-')
  {
    NumbersEndShift(x, v, rev, 1);
    hide NumbersEnd;
    var pf := x + v + rev;
    assert forall k :: 0 <= k < |v| ==> pf[|x| + k] == v[k];
    assert rev != [] ==> pf[|x| + |v|] == rev[0];
  }

  /** One accepting step of the scan, at a hyphen. */
  lemma VersionStep(pf: string, q: nat, e': nat, own: Option<char>, last: Option<nat>, letter: Option<char>)
    requires 0 < q < |pf| && pf[q - 1] == '-' && DigitAt(pf, q) && (last.Some? ==> 0 < last.value < |pf|)
    requires var e := NumbersEnd(pf, q + 1);
      && own == (if e < |pf| && IsLower(pf[e]) then Some(pf[e]) else None)
      && e' == (if own.Some? then e + 1 else e)
      && (e' == |pf| || pf[e'] == '_' || pf[e'] == '-')
    ensures VersionScan(pf, q - 1, last, letter) == VersionScan(pf, e', Some(q), if own.Some? then own else letter)
  {
    hide NumbersEnd, VersionScan;
    ScanUnfold(pf, q - 1, last, letter);
    assert StrchrFrom(pf, '-', q - 1) == Some(q - 1);
  }

  lemma {:induction false} RevisionScanSkips(s: string, i: nat, j: nat)
    requires j <= i < |s| && j > 0
    requires forall k :: j < k <= i ==> IsDigit(s[k])
    ensures RevisionScan(s, i) == RevisionScan(s, j)
    decreases i
  {
    if i > j {
      RevisionScanSkips(s, i - 1, j);
    }
  }

  lemma {:induction false} RevisionAbsent(s: string, i: nat)
    requires i < |s| && '-' !in s
    ensures RevisionScan(s, i).None?
  {
    if i > 0 && IsDigit(s[i]) {
      RevisionAbsent(s, i - 1);
    }
  }

  lemma RevisionBehind(v: string, d: string)
    requires v != [] && d != [] && AllDigits(d)
    ensures var s := v + ("-r" + d); RevisionScan(s, |s| - 1) == Some(|v|) && s[|v| + 2..] == d
  {
    var s := v + ("-r" + d);
    assert s[|v|] == '-' && s[|v| + 1] == 'r';
    assert forall k :: |v| + 1 < k < |s| ==> s[k] == d[k - |v| - 2];
    RevisionScanSkips(s, |s| - 1, |v| + 1);
  }

  lemma RevisionRead(v: string, pr: int)
    requires IsVersion(v) && pr >= 0
    ensures var s := PvrStr(v, pr);
      && RevisionScan(s, |s| - 1) == (if pr > 0 then Some(|v|) else None)
      && (pr > 0 ==> Atoi(s[|v| + 2..]) == pr)
  {
    hide IsVersion, RevisionScan, IsName, Atoi, PvrStr;
    VersionPlain(v);
    PvrIs(v, pr);
    if pr > 0 {
      AtoiOfDec(pr);
      RevisionBehind(v, Dec(pr));
    } else {
      RevisionAbsent(v, |v| - 1);
    }
  }

  lemma PvrIs(v: string, pr: int)
    ensures PvrStr(v, pr) == if pr > 0 then v + ("-r" + Dec(pr)) else v
  {
    hide Dec;
    assert v + "" == v;
  }

  /** The record before the fields that depend on PF are filled in. */
  function Blank(a: AtomCtx): AtomCtx {
    a.(pn := None, pv := None, pf := None, pr := 0, letter := None, suffixes := [], pvr := None, p := None,
       usedeps := ReadUses(a.usedeps))
  }

  /** What the parser makes of the printed record. */
  function ReadBack(a: AtomCtx): AtomCtx {
    if a.pn.None? then a.(usedeps := ReadUses(a.usedeps)) else FillVersion(Blank(a), PfStr(a))
  }

  lemma FillRead(a: AtomCtx)
    requires Derived(a) && PrintableParts(a)
    ensures ReadBack(a) == a.(usedeps := ReadUses(a.usedeps)) <==> NameRead(a)
  {
    hide FillVersion, Suffixes, IsVersion, IsName, LetterOf, ReadUses, VersionScan;
    if a.pn.Some? {
      var n := a.pn.value;
      if a.pv.None? {
        assert PfStr(a) == n;
        FillNameOnly(Blank(a), n);
      } else {
        var v := a.pv.value;
        assert PfStr(a) == n + "-" + v + RevStr(a.pr);
        FillVersioned(Blank(a), n, v, a.pr);
      }
    }
  }

  /** A name alone is read as a name exactly when the scan finds no version in it; otherwise the name
      that is read is shorter. */
  lemma FillNameOnly(base: AtomCtx, n: string)
    ensures var r := FillVersion(base, n);
      if NoVersionIn(n) then r == base.(pf := Some(n), p := Some(n), pn := Some(n), letter := None)
      else r.pv.Some? && r.pn.Some? && |r.pn.value| < |n|
  {
    if NoVersionIn(n) {
      VersionScanNoLetter(n, 0);
    }
    hide VersionScan, RevisionScan, Suffixes, Strtoll;
  }

  function RevStr(pr: int): string {
    if pr > 0 then "-r" + Dec(pr) else ""
  }

  lemma FillVersioned(base: AtomCtx, n: string, v: string, pr: int)
    requires base.pv == base.pf == base.p == base.pvr == None && base.pr == 0 && base.suffixes == []
    requires IsVersion(v) && pr >= 0
    ensures v != []
    ensures var pf := n + "-" + v + RevStr(pr);
      FillVersion(base, pf)
        == base.(pn := Some(n), pv := Some(v), pf := Some(pf), pr := pr, letter := ReadLetter(n, v),
                 suffixes := Suffixes(v), pvr := Some(PvrStr(v, pr)), p := Some(n + "-" + v))
  {
    hide Suffixes, VersionScan, RevisionScan, LetterOf, Dec, IsVersion, Strtoll, FillVersion;
    var rev := RevStr(pr);
    assert IsRevision(rev) by {
      assert pr > 0 ==> rev[2..] == Dec(pr);
    }
    VersionFound(n, v, rev);
    RevisionRead(v, pr);
    assert PvrStr(v, pr) == v + rev;
    VersionNonempty(v);
    FillFields(base, n, v, rev, pr, ReadLetter(n, v));
  }

  lemma VersionNonempty(v: string)
    requires IsVersion(v)
    ensures v != []
  {
  }

  /** The fields filled in once the version and the revision are found. */
  lemma FillFields(base: AtomCtx, n: string, v: string, rev: string, pr: int, letter: Option<char>)
    requires v != [] && base.pr == 0
    requires var pf := n + "-" + v + rev; var q := |n| + 1;
      && VersionScan(pf, 0, None, None) == (Some(q), letter)
      && RevisionScan(v + rev, |v + rev| - 1) == (if pr > 0 then Some(|v|) else None)
      && (pr > 0 ==> Atoi((v + rev)[|v| + 2..]) == pr) && pr >= 0 && (pr == 0 ==> rev == [])
    ensures var pf := n + "-" + v + rev;
      FillVersion(base, pf)
        == base.(pn := Some(n), pv := Some(v), pf := Some(pf), pr := pr, letter := letter,
                 suffixes := Suffixes(v), pvr := Some(v + rev), p := Some(n + "-" + v))
  {
    PfSlices(n, v, rev);
    hide Suffixes, VersionScan, RevisionScan, Strtoll;
  }

  lemma PfSlices(n: string, v: string, rev: string)
    ensures var pf := n + "-" + v + rev; var q := |n| + 1;
      && pf[..|n|] == n && pf[q..] == v + rev
      && pf[q..q + |v|] == v && pf[..q + |v|] == n + "-" + v
  {
  }

  // ----- the whole string -----

  lemma PfChars(a: AtomCtx)
    requires Derived(a) && PrintableParts(a)
    ensures IsName(PfStr(a))
  {
    assert AllDigits(Dec(if a.pr > 0 then a.pr else 0));
    assert forall c :: c in Dec(if a.pr > 0 then a.pr else 0) ==> IsDigit(c);
  }

  lemma CoreChars(a: AtomCtx)
    requires Derived(a) && PrintableParts(a)
    ensures forall c :: c in CoreStr(a) ==> IsNameChar(c) || c == '/' || c == '~'
    ensures CoreStr(a) != [] && !IsOperatorChar(CoreStr(a)[0])
  {
    PfChars(a);
    var id := Dec(if a.buildId > 0 then a.buildId else 0);
    assert forall c :: c in id ==> IsDigit(c);
    if a.category.Some? {
      var c := a.category.value;
      assert CoreStr(a)[0] == if c != [] then c[0] else '/';
      assert c != [] ==> c[0] in c;
    } else {
      var n := a.pn.value;
      assert PfStr(a)[0] == n[0];
      assert CoreStr(a)[0] == n[0];
      assert n[0] in n;
    }
  }

  lemma SingleColonsOf(c: string, t: string, u: string)
    requires ':' !in c && ':' !in u
    requires t == [] || (|t| > 1 && ':' !in t[1..])
    ensures SingleColons(c + t + u)
  {
    var s := c + t + u;
    assert forall k :: 0 <= k < |c| ==> s[k] == c[k];
    assert forall k :: |c| < k < |c| + |t| ==> s[k] == t[1..][k - |c| - 1];
    assert forall k :: |c| + |t| <= k < |s| ==> s[k] == u[k - |c| - |t|];
    forall k: nat | k < |s| ensures LoneColonAt(s, k) {
      assert s[k] == ':' ==> k == |c|;
    }
  }

  /** Colons in the text before the repository stand alone. */
  lemma HeadColons(a: AtomCtx)
    requires Derived(a) && PrintableParts(a)
    ensures SingleColons(ConditionedStr(a))
  {
    CoreChars(a);
    if a.usedeps != [] {
      UseListChars(a.usedeps);
    }
    SlotShape(a);
    hide CoreStr, SlotStr, UseListStr;
    SingleColonsOf(GlobbedStr(a), SlotStr(a), UseStr(a.usedeps));
  }

  lemma SlotShape(a: AtomCtx)
    requires PrintableParts(a)
    ensures SlotStr(a) == [] || (|SlotStr(a)| > 1 && ':' !in SlotStr(a)[1..])
  {
    hide IsName;
    if a.slot.Some? || a.slotdep != SdNone {
      var text := SlotText(a);
      assert text != [] || SlotDepStr(a.slotdep) != [];
      SlotTextChars(a);
      SlotStrSplit("", a);
      hide SlotStr, SlotText;
      assert ':' !in text + SlotDepStr(a.slotdep);
      assert ([':'] + (text + SlotDepStr(a.slotdep)))[1..] == text + SlotDepStr(a.slotdep);
    }
  }

  lemma NoBracket(a: AtomCtx)
    requires Derived(a) && PrintableParts(a)
    ensures SlottedStr(a) != [] && ']' !in SlottedStr(a)
  {
    CoreChars(a);
    SlotStrChars(a);
    hide CoreStr, SlotStr, Derived, PrintableParts;
    assert ']' !in OpStr(a.sfxOp);
  }

  lemma SlotStrChars(a: AtomCtx)
    requires PrintableParts(a)
    ensures ']' !in SlotStr(a)
  {
    SlotTextChars(a);
    assert ']' !in SlotText(a) && ']' !in SlotDepStr(a.slotdep);
    assert SlotStr(a) != [] ==> SlotStr(a) == [':'] + SlotText(a) + SlotDepStr(a.slotdep);
    hide SlotText, SlotDepStr, SlotStr;
  }

  lemma HeadUse(a: AtomCtx)
    requires Derived(a) && PrintableParts(a)
    ensures SplitUse(ConditionedStr(a)) == (SlottedStr(a), ReadUses(a.usedeps))
  {
    NoBracket(a);
    hide SlottedStr, Derived, IsName, SplitUse, UseStr, UseList;
    UsesRead(SlottedStr(a), a.usedeps);
  }

  lemma UsesRead(t: string, us: seq<UseDep>)
    requires forall u :: u in us ==> PrintableUse(u)
    requires t != [] && ']' !in t
    ensures SplitUse(t + UseStr(us)) == (t, ReadUses(us))
  {
    hide UseList, UseListStr, SplitUse, PrintableUse, IsFlag;
    if us == [] {
      assert t + UseStr(us) == t;
      NoUse(t);
    } else {
      UseRead(t, us);
      assert t + UseStr(us) == t + "[" + UseListStr(us);
    }
  }

  lemma NoUse(t: string)
    requires t != [] && ']' !in t
    ensures SplitUse(t) == (t, [])
  {
    assert t[|t| - 1] in t;
  }

  lemma HeadGlob(a: AtomCtx)
    requires Derived(a) && PrintableParts(a)
    ensures CutLast(GlobbedStr(a), '*') == (CoreStr(a), a.sfxOp == OpStar)
    ensures ':' !in GlobbedStr(a)
  {
    CoreChars(a);
    hide CoreStr, CutLast;
    GlobRead(CoreStr(a), a.sfxOp);
  }

  lemma GlobRead(c: string, op: Operator)
    requires c != [] && forall x :: x in c ==> IsNameChar(x) || x == '/' || x == '~'
    requires op == OpNone || op == OpStar
    ensures CutLast(c + OpStr(op), '*') == (c, op == OpStar)
  {
    var g := c + OpStr(op);
    assert op == OpStar ==> g[..|g| - 1] == c;
    assert op == OpNone ==> g == c;
    assert c[|c| - 1] in c;
  }

  lemma CoreSplit(a: AtomCtx)
    requires Derived(a) && PrintableParts(a)
    ensures SplitCategory(CoreStr(a)) == (a.category, if a.pn.None? then None else Some(PfStr(a) + IdStr(a.buildId)))
    ensures SplitBuildId(PfStr(a) + IdStr(a.buildId)) == (PfStr(a), if a.buildId > 0 then Some(a.buildId) else None)
  {
    PfChars(a);
    IdChars(a.buildId);
    PfEmpty(a);
    CategoryPlain(a);
    hide PfStr, IdStr, Derived, IsName, SplitCategory, SplitBuildId, CategoryStr;
    var t := PfStr(a) + IdStr(a.buildId);
    Assoc(CategoryStr(a.category), PfStr(a), IdStr(a.buildId));
    assert '/' !in t;
    CategoryRead(a.category, t);
    BuildIdRead(PfStr(a), a.buildId);
  }

  lemma CategoryPlain(a: AtomCtx)
    requires PrintableParts(a)
    ensures a.category.Some? ==> '/' !in a.category.value
  {
  }

  lemma IdChars(id: int)
    ensures '/' !in IdStr(id)
  {
    assert id > 0 ==> forall c :: c in Dec(id) ==> IsDigit(c);
  }

  lemma PfEmpty(a: AtomCtx)
    requires Derived(a) && PrintableParts(a)
    ensures PfStr(a) + IdStr(a.buildId) == [] <==> a.pn.None?
    ensures '~' !in PfStr(a) && '/' !in PfStr(a)
  {
    PfChars(a);
    if a.pn.Some? {
      assert PfStr(a)[0] == a.pn.value[0];
    }
  }

  /** The stages of the parser, put together. */
  lemma StagesRead(a: AtomCtx, input: string, s1: string, s2: string, s4: string, s5: string, s6: string, s7: string)
    requires SplitBlocker(input) == (a.blocker, s1) && SplitPfxOp(s1) == (a.pfxOp, s2) && CutExtension(s2) == (s2, 0)
    requires SplitRepo(s2) == (s4, a.repo) && SplitUse(s4) == (s5, ReadUses(a.usedeps))
    requires SplitSlot(s5) == (s6, a.slot, a.subslot, a.slotdep) && CutLast(s6, '*') == (s7, a.sfxOp == OpStar)
    requires PrintableParts(a) && Derived(a)
    requires SplitCategory(s7) == (a.category, if a.pn.None? then None else Some(PfStr(a) + IdStr(a.buildId)))
    requires SplitBuildId(PfStr(a) + IdStr(a.buildId)) == (PfStr(a), if a.buildId > 0 then Some(a.buildId) else None)
    ensures Explode(input, None) == ReadBack(a)
  {
    hide SplitBlocker, SplitPfxOp, CutExtension, SplitRepo, SplitUse, SplitSlot, CutLast, SplitCategory, SplitBuildId,
      FillVersion, PfStr, IdStr, ReadUses;
  }

  /** The parser on a printed record without a file extension: every part but the name and the version
      comes back, and those are what the scan makes of PF. */
  lemma PlainRead(a: AtomCtx)
    requires Printable(a) && NoExtension(a)
    ensures Explode(ToString(a), None) == ReadBack(a)
  {
    var body := BodyStr(a);
    OperatorsRead(a);
    assert CutExtension(body) == (body, 0);
    HeadColons(a);
    RepoRead(ConditionedStr(a), a.repo);
    HeadUse(a);
    HeadGlob(a);
    SlotRead(GlobbedStr(a), a);
    CoreSplit(a);
    hide CoreStr, GlobbedStr, SlotStr, UseStr, SplitRepo, SplitUse, SplitSlot, CutLast, SplitCategory, SplitBuildId, Explode,
      ReadBack;
    StagesRead(a, ToString(a), OpStr(a.pfxOp) + body, body, ConditionedStr(a), SlottedStr(a), GlobbedStr(a), CoreStr(a));
  }

  /** The parser on any printed record: with a file extension anywhere in it, what is read prints shorter. */
  lemma ExplodeOfPrinted(a: AtomCtx)
    requires Printable(a)
    ensures NoExtension(a) ==> Explode(ToString(a), None) == ReadBack(a)
    ensures !NoExtension(a) ==> |BodyStr(Explode(ToString(a), None))| < |BodyStr(a)|
  {
    if NoExtension(a) {
      PlainRead(a);
    } else {
      OperatorsRead(a);
      ExplodedWidth(ToString(a));
      hide BodyStr, Explode, ToString, Derived, PrintableParts;
    }
  }

  lemma {:induction false} ReadUsesWidth(us: seq<UseDep>)
    requires us != []
    ensures |UseListStr(ReadUses(us))| == |UseListStr(us)|
  {
    assert ReadUses(us)[1..] == ReadUses(us[1..]);
    if |us| > 1 {
      ReadUsesWidth(us[1..]);
    }
  }

  lemma ReadBodyWidth(a: AtomCtx)
    ensures |BodyStr(a.(usedeps := ReadUses(a.usedeps)))| == |BodyStr(a)|
  {
    var b := a.(usedeps := ReadUses(a.usedeps));
    BodyWidth(a);
    BodyWidth(b);
    hide BodyStr, CategoryStr, IdStr, OpStr, SlotWidth, RepoWidth, UseListStr, Dec;
    assert PfStr(b) == PfStr(a);
    hide PfStr;
    if a.usedeps != [] {
      ReadUsesWidth(a.usedeps);
    }
  }

  /** The round trip of the parser over the printer: every field comes back, with each `(-)` read as
      `(+)`, exactly when the name does not mislead the scan and nothing looks like a file name. */
  lemma ExplodeOfToString(a: AtomCtx)
    requires Printable(a)
    ensures Explode(ToString(a), None) == a.(usedeps := ReadUses(a.usedeps)) <==> NameRead(a) && NoExtension(a)
  {
    ExplodeOfPrinted(a);
    FillRead(a);
    ReadBodyWidth(a);
    hide Explode, ToString, ReadUses, ReadBack, NameRead, NoExtension, BodyStr;
  }

  lemma OperatorsRead(a: AtomCtx)
    requires Derived(a) && PrintableParts(a)
    ensures SplitBlocker(ToString(a)) == (a.blocker, OpStr(a.pfxOp) + BodyStr(a))
    ensures SplitPfxOp(OpStr(a.pfxOp) + BodyStr(a)) == (a.pfxOp, BodyStr(a))
  {
    CoreChars(a);
    var body := BodyStr(a);
    assert body[0] == CoreStr(a)[0];
    hide BodyStr, CoreStr;
    var t := OpStr(a.pfxOp) + body;
    assert ToString(a) == BlockerStr(a.blocker) + t;
    assert t[0] == if a.pfxOp == OpNone then body[0] else OpStr(a.pfxOp)[0];
    BlockerRead(a.blocker, t);
    PfxOpRead(a.pfxOp, body);
  }

  /** Printing and exploding is the identity exactly on the records without a `(-)` dependency whose
      name does not mislead the scan and that do not look like a file name. */
  lemma RoundTripIff(a: AtomCtx)
    requires Printable(a)
    ensures Explode(ToString(a), None) == a <==>
      NameRead(a) && NoExtension(a) && forall u :: u in a.usedeps ==> u.sfx != UcPrevDisabled
  {
    ExplodeOfPrinted(a);
    FillRead(a);
    ReadBackUses(a);
    ReadUsesIdentity(a.usedeps);
    hide Explode, ToString, ReadUses, ReadBack, NameRead, NoExtension, BodyStr, Printable;
  }

  lemma ReadBackUses(a: AtomCtx)
    ensures ReadBack(a).usedeps == ReadUses(a.usedeps)
  {
    hide VersionScan, RevisionScan, Suffixes, Strtoll, ReadUses, PfStr;
  }

  lemma ReadUsesIdentity(us: seq<UseDep>)
    ensures ReadUses(us) == us <==> forall u :: u in us ==> u.sfx != UcPrevDisabled
  {
    var r := ReadUses(us);
    if r == us {
      forall u | u in us ensures u.sfx != UcPrevDisabled {
        var i :| 0 <= i < |us| && us[i] == u;
        assert r[i] == ReadUse(us[i]);
      }
    }
    if forall u :: u in us ==> u.sfx != UcPrevDisabled {
      assert forall i :: 0 <= i < |us| ==> us[i] in us && r[i] == us[i];
      assert r == us;
    }
  }

}
