/** Atoms: the record that `atom_explode_cat` fills in, the string that
    `atom_to_string_r` prints from it, and the parser itself, stage by stage. */
module Atom {
  import opened CStrings

  datatype Blocker = NoBlocker | Block | BlockHard | AntiSlot
  datatype Operator =
    | OpNone | OpEqual | OpNewer | OpNewerEqual | OpOlder | OpOlderEqual
    | OpPvEqual | OpStar | OpNotEqual
  datatype SlotDep = SdNone | SdAnyRebuild | SdAnyIgnore
  datatype UseCond = UcNone | UcNot | UcNeg | UcCond | UcEqual | UcPrevEnabled | UcPrevDisabled
  datatype UseDep = UseDep(pfx: UseCond, use: string, sfx: UseCond)

  /** A version suffix; `kind` is the index into the suffix table, as stored. */
  datatype Suffix = Suffix(kind: nat, sint: int)

  /** None stands for a NULL field, except in `subslot`, where it stands for a
      SUBSLOT pointer that is the SLOT pointer, and in `letter`, where it
      stands for the NUL character. The terminator of the suffix list is implicit. */
  datatype AtomCtx = AtomCtx(
    blocker: Blocker,
    pfxOp: Operator,
    sfxOp: Operator,
    category: Option<string>,
    pn: Option<string>,
    pv: Option<string>,
    pf: Option<string>,
    pr: int,
    letter: Option<char>,
    suffixes: seq<Suffix>,
    pvr: Option<string>,
    p: Option<string>,
    usedeps: seq<UseDep>,
    slot: Option<string>,
    subslot: Option<string>,
    slotdep: SlotDep,
    repo: Option<string>,
    buildId: int)

  const SUFFIX_COUNT: nat := 6

  /** The table atom_suffixes_str. */
  function SuffixName(idx: nat): (s: string)
    requires idx < SUFFIX_COUNT
    ensures |s| > 1 && s[0] == '_'
  {
    if idx == 0 then "_alpha"
    else if idx == 1 then "_beta"
    else if idx == 2 then "_pre"
    else if idx == 3 then "_rc"
    else if idx == 4 then "_/*bogus*/"
    else "_p"
  }

  /** The value of VER_NORM, which ends every stored suffix list; the index of "_p" is the same number. */
  const VER_NORM: nat := 5

  // ----- printing -----

  function BlockerStr(b: Blocker): string {
    match b
    case NoBlocker => ""
    case Block => "!"
    case BlockHard => "!!"
    case AntiSlot => "^"
  }

  /** OpNotEqual has no entry in the table; no parsed atom carries it. */
  function OpStr(op: Operator): string {
    match op
    case OpNone => ""
    case OpEqual => "="
    case OpNewer => ">"
    case OpNewerEqual => ">="
    case OpOlder => "<"
    case OpOlderEqual => "<="
    case OpPvEqual => "~"
    case OpStar => "*"
    case OpNotEqual => ""
  }

  function SlotDepStr(d: SlotDep): string {
    match d
    case SdNone => ""
    case SdAnyRebuild => "="
    case SdAnyIgnore => "*"
  }

  function UseCondStr(c: UseCond): string {
    match c
    case UcNone => ""
    case UcNot => "!"
    case UcNeg => "-"
    case UcCond => "?"
    case UcEqual => "="
    case UcPrevEnabled => "(+)"
    case UcPrevDisabled => "(-)"
  }

  function UseDepStr(u: UseDep): string {
    UseCondStr(u.pfx) + u.use + UseCondStr(u.sfx)
  }

  /** The USE dependencies without the opening bracket. */
  function UseListStr(us: seq<UseDep>): string
    requires us != []
  {
    if |us| == 1 then UseDepStr(us[0]) + "]"
    else UseDepStr(us[0]) + "," + UseListStr(us[1..])
  }

  function PvrStr(pv: string, pr: int): string {
    pv + if pr > 0 then "-r" + Dec(pr) else ""
  }

  /** What follows the category's slash, up to the build-id. */
  function PfStr(a: AtomCtx): string {
    (if a.pn.Some? then a.pn.value else "") +
    (if a.pv.Some? then "-" + a.pv.value else "") +
    (if a.pr > 0 then "-r" + Dec(a.pr) else "")
  }

  function IdStr(id: int): string {
    if id > 0 then "~" + Dec(id) else ""
  }

  function CategoryStr(c: Option<string>): string {
    if c.Some? then c.value + "/" else ""
  }

  function CoreStr(a: AtomCtx): string {
    CategoryStr(a.category) + PfStr(a) + IdStr(a.buildId)
  }

  function SlotStr(a: AtomCtx): string {
    if a.slot.Some? || a.slotdep != SdNone then
      ":" + (if a.slot.Some? then a.slot.value else "") +
      (if a.subslot.Some? then "/" + a.subslot.value else "") + SlotDepStr(a.slotdep)
    else ""
  }

  function UseStr(us: seq<UseDep>): string {
    if us == [] then "" else "[" + UseListStr(us)
  }

  function RepoStr(a: AtomCtx): string {
    if a.repo.Some? then "::" + a.repo.value else ""
  }

  /** The prefixes of the printed atom up to the glob, the slot, the USE dependencies and the repository. */
  function GlobbedStr(a: AtomCtx): string {
    CoreStr(a) + OpStr(a.sfxOp)
  }

  function SlottedStr(a: AtomCtx): string {
    GlobbedStr(a) + SlotStr(a)
  }

  function ConditionedStr(a: AtomCtx): string {
    SlottedStr(a) + UseStr(a.usedeps)
  }

  function BodyStr(a: AtomCtx): string {
    ConditionedStr(a) + RepoStr(a)
  }

  function ToString(a: AtomCtx): string {
    BlockerStr(a.blocker) + OpStr(a.pfxOp) + BodyStr(a)
  }

  // ----- the stages of the parser -----

  function SplitBlocker(s: string): (Blocker, string) {
    if s != [] && s[0] == '!' then
      if |s| > 1 && s[1] == '!' then (BlockHard, s[2..]) else (Block, s[1..])
    else if s != [] && s[0] == '^' then (AntiSlot, s[1..])
    else (NoBlocker, s)
  }

  /** `pfx_op += ATOM_OP_EQUAL` on the enumeration. */
  function PlusEqual(op: Operator): Operator {
    match op
    case OpNone => OpEqual
    case OpNewer => OpNewerEqual
    case OpOlder => OpOlderEqual
    case OpPvEqual => OpStar
    case _ => op
  }

  function SplitPfxOp(s: string): (Operator, string) {
    var op := if s == [] then OpNone
              else if s[0] == '>' then OpNewer
              else if s[0] == '<' then OpOlder
              else if s[0] == '~' then OpPvEqual
              else OpNone;
    var t := if op == OpNone then s else s[1..];
    if t != [] && t[0] == '=' then (PlusEqual(op), t[1..]) else (op, t)
  }

  /** The first file extension of the search order that stands anywhere in the string. */
  function FindExtension(s: string): (r: Option<nat>)
    ensures r.Some? ==> r.value + 1 < |s|
  {
    var e := Strstr(s, ".ebuild");
    var t := Strstr(s, ".tbz2");
    var x := Strstr(s, ".xpak");
    if e.Some? then e else if t.Some? then t else if x.Some? then x else Strstr(s, ".gpkg.tar")
  }

  /** Start of the run of digits that ends just before `i`, not going below position 1. */
  function DigitsBack(s: string, i: nat): (r: nat)
    requires i <= |s|
    ensures r <= i
  {
    if i > 1 && IsDigit(s[i - 1]) then DigitsBack(s, i - 1) else i
  }

  /** The first hyphen at or after `i` that a digit follows. */
  function HyphenDigit(s: string, i: nat): (r: Option<nat>)
    requires i <= |s|
    ensures r.Some? ==> i <= r.value < |s| && s[r.value] == '-' && DigitAt(s, r.value + 1)
    decreases |s| - i
  {
    if i == |s| then None
    else if s[i] == '-' && DigitAt(s, i + 1) then Some(i)
    else HyphenDigit(s, i + 1)
  }

  /** Removal of the file extension and, for .xpak and .gpkg.tar, of the build-id before it. */
  function CutExtension(s: string): (string, int) {
    match FindExtension(s)
    case None => (s, 0)
    case Some(e) =>
      if s[e + 1] == 'x' || s[e + 1] == 'g' then
        var d := DigitsBack(s, e);
        if 0 < d < e && s[d - 1] == '-' && HyphenDigit(s[..e], 0) != Some(d - 1)
        then (s[..d - 1], Atoi(s[d..e]))
        else (s[..e], 0)
      else (s[..e], 0)
  }

  function SplitRepo(s: string): (string, Option<string>) {
    match Strstr(s, "::")
    case None => (s, None)
    case Some(i) => (s[..i], if i + 2 == |s| then None else Some(s[i + 2..]))
  }

  /** The scan over one USE dependency: the position of the ',' or ']' that
      ends it, where its name was cut off, and the last condition seen. */
  function UseScan(s: string, i: nat, cut: Option<nat>, sfx: UseCond): (r: (nat, Option<nat>, UseCond))
    requires i <= |s|
    requires cut.Some? ==> cut.value <= i
    ensures i <= r.0 <= |s|
    ensures if cut.Some? then r.1 == cut else r.1.Some? ==> i <= r.1.value <= r.0
    ensures r.0 < |s| ==> s[r.0] == ',' || s[r.0] == ']'
    ensures s != [] && s[|s| - 1] == ']' && i < |s| ==> r.0 < |s|
    decreases |s| - i
  {
    if i == |s| then (i, cut, sfx)
    else
      var here := if cut.Some? then cut else Some(i);
      if s[i] == '?' then UseScan(s, i + 1, here, UcCond)
      else if s[i] == '=' then UseScan(s, i + 1, here, UcEqual)
      else if s[i] == '(' then
        if OccursAt(s, "(+)", i) || OccursAt(s, "(-)", i)
        then assert s[i + 2] == s[i..i + 3][2]; UseScan(s, i + 3, here, UcPrevEnabled)
        else UseScan(s, i + 1, cut, sfx)
      else if s[i] == ',' || s[i] == ']' then (i, cut, sfx)
      else UseScan(s, i + 1, cut, sfx)
  }

  function UsePrefix(s: string): UseCond {
    if s != [] && s[0] == '-' then UcNeg
    else if s != [] && s[0] == '!' then UcNot
    else UcNone
  }

  /** One USE dependency at the head of `s`, and the position of the character that ends it. */
  function UseOne(s: string): (r: (UseDep, nat))
    ensures r.1 <= |s|
    ensures s != [] && s[|s| - 1] == ']' ==> r.1 < |s|
  {
    var pfx := UsePrefix(s);
    var start := if pfx == UcNone then 0 else 1;
    var (e, cut, sfx) := UseScan(s, start, None, UcNone);
    var stop := if cut.Some? then cut.value else e;
    (UseDep(pfx, s[start..stop], sfx), e)
  }

  /** All USE dependencies of the text after the opening bracket, which ends in ']'. */
  function UseList(s: string): (r: seq<UseDep>)
    requires s != [] && s[|s| - 1] == ']'
    ensures r != []
  {
    var (u, e) := UseOne(s);
    if e + 1 == |s| then [u] else [u] + UseList(s[e + 1..])
  }

  function SplitUse(s: string): (string, seq<UseDep>) {
    if s != [] && s[|s| - 1] == ']' then
      match Strrchr(s, '[')
      case None => (s, [])
      case Some(i) => (s[..i], UseList(s[i + 1..]))
    else (s, [])
  }

  function CutLast(s: string, c: char): (string, bool) {
    if s != [] && s[|s| - 1] == c then (s[..|s| - 1], true) else (s, false)
  }

  function SplitSlot(s: string): (string, Option<string>, Option<string>, SlotDep) {
    match Strrchr(s, ':')
    case None => (s, None, None, SdNone)
    case Some(i) =>
      var (t1, rebuild) := CutLast(s[i + 1..], '=');
      var (t2, ignored) := CutLast(t1, '*');
      var sd := if ignored then SdAnyIgnore else if rebuild then SdAnyRebuild else SdNone;
      var (slot, sub) :=
        match Strchr(t2, '/')
        case None => (t2, None)
        case Some(k) => (t2[..k], if k + 1 == |t2| then None else Some(t2[k + 1..]));
      (s[..i], if slot == "" then None else Some(slot), sub, sd)
  }

  /** CATEGORY and PF. */
  function SplitCategory(s: string): (Option<string>, Option<string>) {
    match Strrchr(s, '/')
    case None => (None, Some(s))
    case Some(i) =>
      var cat := match Strrchr(s[..i], '/') case None => s[..i] case Some(k) => s[..i][k + 1..];
      (Some(cat), if i + 1 == |s| then None else Some(s[i + 1..]))
  }

  function SplitBuildId(pf: string): (string, Option<int>) {
    match Strchr(pf, '~')
    case None => (pf, None)
    case Some(i) => if DigitAt(pf, i + 1) then (pf[..i], Some(Atoi(pf[i + 1..]))) else (pf, None)
  }

  /** End of the run of digits and dots from `i`. */
  function NumbersEnd(s: string, i: nat): (r: nat)
    requires i <= |s|
    ensures i <= r <= |s|
    ensures r < |s| ==> s[r] != '.' && !IsDigit(s[r])
    ensures forall k :: i <= k < r ==> s[k] == '.' || IsDigit(s[k])
    decreases |s| - i
  {
    if i < |s| && (s[i] == '.' || IsDigit(s[i])) then NumbersEnd(s, i + 1) else i
  }

  /** The search for the last "-<digit>" of PF that starts something shaped like a version. */
  function VersionScan(pf: string, ptr: nat, last: Option<nat>, letter: Option<char>): (r: (Option<nat>, Option<char>))
    requires ptr <= |pf|
    requires last.Some? ==> 0 < last.value < |pf|
    ensures r.0.Some? ==> 0 < r.0.value < |pf|
    decreases |pf| - ptr
  {
    match StrchrFrom(pf, '-', ptr)
    case None => (last, letter)
    case Some(k) =>
      var q := k + 1;
      if !DigitAt(pf, q) then VersionScan(pf, q, last, letter)
      else
        var e := NumbersEnd(pf, q + 1);
        var lettered := e < |pf| && IsLower(pf[e]);
        var e' := if lettered then e + 1 else e;
        if e' == |pf| || pf[e'] == '_' || pf[e'] == '-'
        then VersionScan(pf, e', Some(q), if lettered then Some(pf[e]) else letter)
        else VersionScan(pf, e', last, None)
  }

  /** Looking for "-r<digits>" from the back of PVR: the position of its hyphen. */
  function RevisionScan(pvr: string, i: nat): (r: Option<nat>)
    requires i < |pvr|
    ensures r.Some? ==> r.value + 2 <= |pvr|
  {
    if i == 0 then None
    else if IsDigit(pvr[i]) then RevisionScan(pvr, i - 1)
    else if pvr[i] == 'r' && pvr[i - 1] == '-' then Some(i - 1)
    else None
  }

  /** The first table entry at or after `idx` that stands at position `i`. */
  function SuffixIndex(s: string, i: nat, idx: nat): (r: Option<nat>)
    requires idx <= SUFFIX_COUNT
    ensures r.Some? ==> idx <= r.value < SUFFIX_COUNT && OccursAt(s, SuffixName(r.value), i)
    decreases SUFFIX_COUNT - idx
  {
    if idx == SUFFIX_COUNT then None
    else if OccursAt(s, SuffixName(idx), i) then Some(idx)
    else SuffixIndex(s, i, idx + 1)
  }

  /** The suffix that starts at position `i` of PV, if one does. */
  function SuffixAt(pv: string, i: nat): seq<Suffix>
    requires i < |pv|
  {
    if pv[i] != '_' then []
    else
      match SuffixIndex(pv, i, 0)
      case None => []
      case Some(k) => [Suffix(k, Atoi(pv[i + |SuffixName(k)|..]))]
  }

  /** The suffixes that start before position `i`, in order. */
  function SuffixesBefore(pv: string, i: nat): seq<Suffix>
    requires i <= |pv|
  {
    if i == 0 then [] else SuffixesBefore(pv, i - 1) + SuffixAt(pv, i - 1)
  }

  function Suffixes(pv: string): seq<Suffix> {
    if pv == [] then [] else SuffixesBefore(pv, |pv| - 1)
  }

  /** The fields that depend on PF once it is known. */
  function FillVersion(a: AtomCtx, pf: string): AtomCtx {
    var (last, letter) := VersionScan(pf, 0, None, None);
    if last.None? then a.(pf := Some(pf), p := Some(pf), pn := Some(pf), letter := letter)
    else
      var v := last.value;
      var pvr := pf[v..];
      var rev := RevisionScan(pvr, |pvr| - 1);
      var cut := if rev.Some? then v + rev.value else |pf|;
      a.(pf := Some(pf), pn := Some(pf[..v - 1]), pvr := Some(pvr), p := Some(pf[..cut]),
         pv := Some(pf[v..cut]), pr := if rev.Some? then Atoi(pvr[rev.value + 2..]) else 0,
         letter := letter, suffixes := Suffixes(pf[v..cut]))
  }

  /** What atom_explode_cat returns for `input`; `cat`, when given, overrides the category. */
  function Explode(input: string, cat: Option<string>): AtomCtx {
    var (bl, s1) := SplitBlocker(input);
    var (op, s2) := SplitPfxOp(s1);
    var (s3, extId) := CutExtension(s2);
    var (s4, repo) := SplitRepo(s3);
    var (s5, use) := SplitUse(s4);
    var (s6, slot, sub, sd) := SplitSlot(s5);
    var (s7, star) := CutLast(s6, '*');
    var (ownCat, pf) := SplitCategory(s7);
    var a := AtomCtx(bl, op, if star then OpStar else OpNone, if cat.Some? then cat else ownCat,
                     None, None, None, 0, None, [], None, None, use, slot, sub, sd, repo, extId);
    if pf.None? then a
    else
      var (pf', id) := SplitBuildId(pf.value);
      FillVersion(if id.Some? then a.(buildId := id.value) else a, pf')
  }
}
