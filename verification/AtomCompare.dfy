/** `atom_compare_flg`, stage by stage, and the qsort callback built on it. */
module AtomCompare {
  import opened CStrings
  import opened Atom

  datatype Equality = NotEqual | Equal | Newer | Older

  datatype Flags = Flags(norev: bool, noslot: bool, nosubslot: bool, norepo: bool, exact: bool)

  const DEFAULT: Flags := Flags(false, false, false, false, false)

  // ----- operators -----

  /** _atom_compare_match: the version relation read through the query's operator. */
  function CompareMatch(ret: Equality, op: Operator): Equality {
    match op
    case OpNone => ret
    case OpNewer => if ret == Newer then Equal else NotEqual
    case OpNewerEqual => if ret != Older then Equal else NotEqual
    case OpPvEqual => if ret == Equal then Equal else NotEqual
    case OpEqual => if ret == Equal then Equal else NotEqual
    case OpOlderEqual => if ret != Newer then Equal else NotEqual
    case OpOlder => if ret == Older then Equal else NotEqual
    case _ => NotEqual
  }

  /** The operator a blocked query is compared with. */
  function InvertedOp(op: Operator): Operator {
    match op
    case OpNewer => OpOlderEqual
    case OpNewerEqual => OpOlder
    case OpOlder => OpNewerEqual
    case OpOlderEqual => OpNewer
    case _ => OpNotEqual
  }

  predicate Blocking(q: AtomCtx) {
    q.blocker == Block || q.blocker == BlockHard
  }

  function QueryOp(q: AtomCtx): Operator {
    if Blocking(q) then InvertedOp(q.pfxOp) else q.pfxOp
  }

  // ----- slot, repository, category and name -----

  /** SUBSLOT, which defaults to SLOT. */
  function Subslot(a: AtomCtx): Option<string> {
    if a.subslot.Some? then a.subslot else a.slot
  }

  /** The SUBSLOT string; only meaningful when SUBSLOT is set. */
  function SubslotOf(a: AtomCtx): string {
    if Subslot(a).Some? then Subslot(a).value else ""
  }

  /** The slot rules that end the comparison with NOT_EQUAL. The pointer
      comparison of data SUBSLOT with query SLOT is between two atoms and so is false. */
  predicate SlotRejects(d: AtomCtx, q: AtomCtx, f: Flags) {
    if f.noslot then false
    else if q.blocker == AntiSlot then
      if q.slot.None? then d.slot.None?
      else if q.subslot.None? || f.nosubslot then d.slot.None? || d.slot == q.slot
      else d.slot != q.slot || SubslotOf(q) == SubslotOf(d)
    else if q.slot.None? || Blocking(q) then false
    else if d.slot != q.slot then true
    else !f.nosubslot && q.subslot.Some? && (d.subslot.None? || SubslotOf(q) != SubslotOf(d))
  }

  predicate RepoRejects(d: AtomCtx, q: AtomCtx, f: Flags) {
    !f.norepo && q.repo.Some? && d.repo != q.repo
  }

  /** One of the two name checks: a verdict, or None to go on. `last` says that
      the query has nothing more to compare. */
  function NameCheck(d: Option<string>, q: Option<string>, blocking: bool, last: bool): Option<Equality> {
    if q.None? then None
    else if d.None? then Some(NotEqual)
    else if d != q then (if blocking then None else Some(NotEqual))
    else if blocking && last then Some(Equal)
    else None
  }

  // ----- numeric components -----

  /** The text after the next dot. */
  function NextComponent(s: string): (r: Option<string>)
    ensures r.Some? ==> |r.value| < |s|
  {
    match Strchr(s, '.')
    case None => None
    case Some(i) => Some(s[i + 1..])
  }

  /** The number a component starts with, or -1 when it starts with none. */
  function ComponentValue(s: string): int {
    var (v, end) := Strtoll(s);
    if end == 0 then -1 else v
  }

  /** Length of a component with the letter after it, up to a dot, an underscore or the end. */
  function ComponentLength(s: string): (n: nat)
    ensures n <= |s|
    ensures forall k :: 0 <= k < n ==> s[k] != '.' && s[k] != '_'
    ensures n < |s| ==> s[n] == '.' || s[n] == '_'
  {
    if s == [] || s[0] == '.' || s[0] == '_' then 0 else 1 + ComponentLength(s[1..])
  }

  /** Position of the last character of a component. */
  function ComponentLast(s: string): nat {
    var n := ComponentLength(s);
    if n > 0 then n - 1 else 0
  }

  /** Going back over the trailing zeros, not below the first character. */
  function StripZeros(s: string, e: nat): (r: nat)
    requires e < |s| || e == 0
    ensures r <= e
  {
    if e > 0 && s[e] == '0' then StripZeros(s, e - 1) else e
  }

  /** strncmp. */
  function Strncmp(a: string, b: string, n: nat): (r: int)
    ensures -1 <= r <= 1
  {
    if n == 0 then 0
    else if a == [] then (if b == [] then 0 else -1)
    else if b == [] then 1
    else if a[0] < b[0] then -1
    else if a[0] > b[0] then 1
    else Strncmp(a[1..], b[1..], n - 1)
  }

  function Sign(n: int): (r: int)
    ensures -1 <= r <= 1
  {
    if n < 0 then -1 else if n > 0 then 1 else 0
  }

  predicate ZeroLed(s: string) {
    s != [] && s[0] == '0'
  }

  /** Whether a later component pair is compared as strings. */
  predicate AsStrings(s1: string, s2: string) {
    (ZeroLed(s1) || ZeroLed(s2)) && (ComponentLast(s1) > 1 || ComponentLast(s2) > 1)
  }

  /** The comparison of two components; `s1` and `s2` run to the end of PV. */
  function ComponentSign(s1: string, s2: string, first: bool): (r: int)
    ensures -1 <= r <= 1
  {
    if !first && AsStrings(s1, s2) then
      Strncmp(s1, s2, Max(StripZeros(s1, ComponentLast(s1)), StripZeros(s2, ComponentLast(s2))))
    else Sign(ComponentValue(s1) - ComponentValue(s2))
  }

  function TailSize(t: Option<string>): nat {
    if t.Some? then 1 + |t.value| else 0
  }

  /** The loop over the components: a verdict, or None when all are equal.
      `open` says that the query ends in a glob right after its numbers. */
  function NumbersCompare(t1: Option<string>, t2: Option<string>, first: bool, open: bool): Option<Equality>
    decreases TailSize(t1) + TailSize(t2)
  {
    if t1.None? && t2.None? then None
    else if t1.Some? && t2.Some? then
      var c := ComponentSign(t1.value, t2.value, first);
      if c < 0 then Some(Older)
      else if c > 0 then Some(Newer)
      else NumbersCompare(NextComponent(t1.value), NextComponent(t2.value), false, open)
    else if t2.None? && open then Some(Equal)
    else if t1.None? then Some(Older)
    else Some(Newer)
  }

  // ----- letter, suffixes, revision -----

  function LetterCode(l: Option<char>): nat {
    if l.Some? then l.value as nat else 0
  }

  /** A suffix list read past its end yields the terminator. */
  function SuffixGet(s: seq<Suffix>, i: nat): Suffix {
    if i < |s| then s[i] else Suffix(VER_NORM, 0)
  }

  /** Where the walk over two suffix lists stops. */
  function SuffixStop(a: seq<Suffix>, b: seq<Suffix>, i: nat): (r: nat)
    ensures i <= r
    decreases |a| - i
  {
    var x, y := SuffixGet(a, i), SuffixGet(b, i);
    if x.kind == y.kind && x.kind != VER_NORM && x.sint == y.sint then SuffixStop(a, b, i + 1) else i
  }

  function OrderOf(n: int): Equality {
    if n < 0 then Older else if n > 0 then Newer else Equal
  }

  /** Letter, suffixes and what of the version is globbed: a verdict, or None to go on
      with the revision. The flags say what the glob's query carries. */
  function TailCompare(d: AtomCtx, q: AtomCtx): Option<Equality> {
    var star := q.sfxOp == OpStar;
    var suffixed := q.suffixes != [] && q.suffixes[0].kind != VER_NORM;
    var revised := q.pr != 0;
    if star && q.letter.None? && !suffixed && !revised then Some(Equal)
    else if LetterCode(d.letter) != LetterCode(q.letter) then
      Some(OrderOf(LetterCode(d.letter) - LetterCode(q.letter)))
    else
      var i := SuffixStop(d.suffixes, q.suffixes, 0);
      var x, y := SuffixGet(d.suffixes, i), SuffixGet(q.suffixes, i);
      if star && y.kind == VER_NORM && !revised then Some(Equal)
      else if x.kind != y.kind then Some(OrderOf(x.kind - y.kind))
      else if star && y.sint == 0 && !revised then Some(Equal)
      else if x.sint != y.sint then Some(OrderOf(x.sint - y.sint))
      else None
  }

  /** The version relation before the operator is applied, for two versioned atoms. */
  function VersionCompare(d: AtomCtx, q: AtomCtx): Option<Equality>
    requires d.pv.Some? && q.pv.Some?
  {
    var suffixed := q.suffixes != [] && q.suffixes[0].kind != VER_NORM;
    var open := q.sfxOp == OpStar && q.letter.None? && !suffixed && q.pr == 0;
    var n := NumbersCompare(d.pv, q.pv, true, open);
    if n.Some? then n else TailCompare(d, q)
  }

  function RevisionCompare(d: AtomCtx, q: AtomCtx, f: Flags): Equality {
    if (q.sfxOp == OpStar && q.pr == 0) || QueryOp(q) == OpPvEqual || f.norev then Equal
    else if d.pr != q.pr then OrderOf(d.pr - q.pr)
    else if d.buildId > 0 && q.buildId > 0 then OrderOf(d.buildId - q.buildId)
    else Equal
  }

  /** The relation of the versions and revisions, before the operator is applied. */
  function FullVersionCompare(d: AtomCtx, q: AtomCtx, f: Flags): Equality {
    if d.pv.Some? && q.pv.Some? then
      var v := VersionCompare(d, q);
      if v.Some? then v.value else RevisionCompare(d, q, f)
    else RevisionCompare(d, q, f)
  }

  /** atom_compare_exact: field by field, without interpretation. */
  predicate Same(l: AtomCtx, r: AtomCtx, f: Flags) {
    && l.blocker == r.blocker && l.pfxOp == r.pfxOp && l.sfxOp == r.sfxOp && l.category == r.category
    && (if f.norev then l.pn == r.pn && l.pv == r.pv else l.pf == r.pf)
    && (f.noslot || (l.slot == r.slot && (f.nosubslot || Subslot(l) == Subslot(r)) && l.slotdep == r.slotdep))
    && (f.norepo || l.repo == r.repo)
    && l.buildId == r.buildId
  }

  /** atom_compare_flg. */
  function Compare(d: AtomCtx, q: AtomCtx, f: Flags): Equality {
    if f.exact then (if Same(d, q, f) then Equal else NotEqual)
    else if SlotRejects(d, q, f) || RepoRejects(d, q, f) then NotEqual
    else
      var c := NameCheck(d.category, q.category, Blocking(q), q.pn.None?);
      if c.Some? then c.value
      else
        var n := NameCheck(d.pn, q.pn, Blocking(q), q.pv.None?);
        if n.Some? then n.value
        else if d.pv.Some? != q.pv.Some? then Equal
        else CompareMatch(FullVersionCompare(d, q, f), QueryOp(q))
  }

  /** atom_compar_cb. */
  function CompareCb(l: AtomCtx, r: AtomCtx): int
    requires l.pn.Some? && r.pn.Some?
  {
    match Compare(l, r, DEFAULT)
    case Equal => 0
    case Newer => -1
    case Older => 1
    case NotEqual =>
      var c := if l.category.None? && r.category.None? then 0
               else if l.category.None? then -1
               else if r.category.None? then 1
               else Strcmp(l.category.value, r.category.value);
      if c != 0 then c else Strcmp(l.pn.value, r.pn.value)
  }

  // ----- the comparison as the program runs it -----

  /** End of a component, as the scan for a dot, an underscore or the end finds it. */
  method ScanComponent(s: string) returns (last: nat)
    ensures last == ComponentLast(s)
  {
    var n := 0;
    while n < |s| && s[n] != '.' && s[n] != '_'
      invariant n <= |s|
      invariant ComponentLength(s) == n + ComponentLength(s[n..])
    {
      assert s[n..][1..] == s[n + 1..];
      n := n + 1;
    }
    last := if n > 0 then n - 1 else 0;
  }

  method StripTrailing(s: string, e: nat) returns (r: nat)
    requires e < |s| || e == 0
    ensures r == StripZeros(s, e)
  {
    r := e;
    while r > 0 && s[r] == '0'
      invariant r <= e
      invariant StripZeros(s, e) == StripZeros(s, r)
    {
      r := r - 1;
    }
  }

  method CompareComponent(s1: string, s2: string, first: bool) returns (sign: int)
    ensures sign == ComponentSign(s1, s2, first)
  {
    hide Strtoll, Strncmp, StripZeros;
    if !first && (ZeroLed(s1) || ZeroLed(s2)) {
      var e1 := ScanComponent(s1);
      var e2 := ScanComponent(s2);
      if e1 > 1 || e2 > 1 {
        e1 := StripTrailing(s1, e1);
        e2 := StripTrailing(s2, e2);
        return Strncmp(s1, s2, if e1 > e2 then e1 else e2);
      }
    }
    var (v1, end1) := Strtoll(s1);
    var (v2, end2) := Strtoll(s2);
    var n1 := if end1 == 0 then -1 else v1;
    var n2 := if end2 == 0 then -1 else v2;
    sign := if n1 < n2 then -1 else if n1 > n2 then 1 else 0;
  }

  /** Step 2: the two pointers walk over PV, component by component. */
  method CompareNumbers(pv1: string, pv2: string, open: bool) returns (r: Option<Equality>)
    ensures r == NumbersCompare(Some(pv1), Some(pv2), true, open)
  {
    hide ComponentSign, NextComponent;
    var s1, s2 := Some(pv1), Some(pv2);
    var first := true;
    while s1.Some? || s2.Some?
      invariant NumbersCompare(Some(pv1), Some(pv2), true, open) == NumbersCompare(s1, s2, first, open)
      decreases TailSize(s1) + TailSize(s2)
    {
      if s1.Some? && s2.Some? {
        var sign := CompareComponent(s1.value, s2.value, first);
        if sign != 0 {
          return Some(if sign < 0 then Older else Newer);
        }
        first := false;
        s1, s2 := NextComponent(s1.value), NextComponent(s2.value);
      } else if s2.None? && open {
        return Some(Equal);
      } else {
        return Some(if s1.None? then Older else Newer);
      }
    }
    r := None;
  }

  /** The walk over the two suffix lists. */
  method FindSuffixStop(a: seq<Suffix>, b: seq<Suffix>) returns (i: nat)
    ensures i == SuffixStop(a, b, 0)
  {
    i := 0;
    while SuffixGet(a, i).kind == SuffixGet(b, i).kind && SuffixGet(a, i).kind != VER_NORM
          && SuffixGet(a, i).sint == SuffixGet(b, i).sint
      invariant SuffixStop(a, b, 0) == SuffixStop(a, b, i)
      decreases |a| - i
    {
      i := i + 1;
    }
  }

  /** Steps 2 to 4, with the bits that say how much of the version the query's glob fixes. */
  method CompareVersion(d: AtomCtx, q: AtomCtx) returns (r: Option<Equality>)
    requires d.pv.Some? && q.pv.Some?
    ensures r == VersionCompare(d, q)
  {
    hide NumbersCompare, SuffixStop;
    var star := q.sfxOp == OpStar;
    var bits := 0;
    if star {
      bits := (if q.letter.Some? then 1 else 0) + (if q.suffixes != [] && q.suffixes[0].kind != VER_NORM then 2 else 0)
              + (if q.pr != 0 then 4 else 0);
    }
    r := CompareNumbers(d.pv.value, q.pv.value, star && bits == 0);
    if r.Some? {
      return;
    }
    bits := bits / 2;
    if star && q.letter.None? && bits == 0 {
      return Some(Equal);
    }
    if LetterCode(d.letter) != LetterCode(q.letter) {
      return Some(if LetterCode(d.letter) < LetterCode(q.letter) then Older else Newer);
    }
    var i := FindSuffixStop(d.suffixes, q.suffixes);
    var x, y := SuffixGet(d.suffixes, i), SuffixGet(q.suffixes, i);
    bits := bits / 2;
    if star && y.kind == VER_NORM && bits == 0 {
      return Some(Equal);
    }
    if x.kind != y.kind {
      return Some(if x.kind < y.kind then Older else Newer);
    }
    if star && y.sint == 0 && bits == 0 {
      return Some(Equal);
    }
    if x.sint != y.sint {
      return Some(if x.sint < y.sint then Older else Newer);
    }
    r := None;
  }

  method AtomCompareFlg(d: AtomCtx, q: AtomCtx, f: Flags) returns (r: Equality)
    ensures r == Compare(d, q, f)
  {
    hide VersionCompare, CompareMatch;
    if f.exact {
      return if Same(d, q, f) then Equal else NotEqual;
    }
    if SlotRejects(d, q, f) || RepoRejects(d, q, f) {
      return NotEqual;
    }
    var op := if Blocking(q) then InvertedOp(q.pfxOp) else q.pfxOp;
    var c := NameCheck(d.category, q.category, Blocking(q), q.pn.None?);
    if c.Some? {
      return c.value;
    }
    c := NameCheck(d.pn, q.pn, Blocking(q), q.pv.None?);
    if c.Some? {
      return c.value;
    }
    if d.pv.Some? && q.pv.Some? {
      var v := CompareVersion(d, q);
      if v.Some? {
        return CompareMatch(v.value, op);
      }
    } else if d.pv.Some? || q.pv.Some? {
      return Equal;
    }
    if (q.sfxOp == OpStar && q.pr == 0) || op == OpPvEqual || f.norev {
      return CompareMatch(Equal, op);
    }
    if d.pr != q.pr {
      return CompareMatch(if d.pr < q.pr then Older else Newer, op);
    }
    if d.buildId > 0 && q.buildId > 0 && d.buildId != q.buildId {
      return CompareMatch(if d.buildId < q.buildId then Older else Newer, op);
    }
    r := CompareMatch(Equal, op);
  }
}
