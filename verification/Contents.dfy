/** Lines of a package's CONTENTS file: the parser of `libq/contents.c`, and how the lines are written. */
module Contents {
  import opened CStrings

  datatype Kind = Dir | Obj | Sym

  /** contents_entry; mtime 0 stands for an absent one. */
  datatype Entry = Entry(kind: Kind, name: string, target: Option<string>, digest: Option<string>, mtime: int)

  const LONG_MAX: int := 0x7fff_ffff_ffff_ffff
  const LONG_MIN: int := -0x8000_0000_0000_0000

  /** strtol on the last field; a saturated value counts as absent. */
  function MtimeOf(s: string): (m: int)
    ensures LONG_MIN <= m < LONG_MAX
  {
    var v := Atoi(s);
    if v >= LONG_MAX then 0 else if v < LONG_MIN then LONG_MIN else v
  }

  function KindOf(line: string): Option<Kind> {
    if "obj " <= line then Some(Obj) else if "dir " <= line then Some(Dir) else if "sym " <= line then Some(Sym) else None
  }

  /** The last position before `i` at which " -> " stands. */
  function ArrowBefore(s: string, i: nat): (r: Option<nat>)
    ensures r.Some? ==> r.value < i && OccursAt(s, " -> ", r.value)
    ensures r.Some? ==> forall k: nat :: r.value < k < i ==> !OccursAt(s, " -> ", k)
    ensures r.None? ==> forall k: nat :: k < i ==> !OccursAt(s, " -> ", k)
  {
    if i == 0 then None else if OccursAt(s, " -> ", i - 1) then Some(i - 1) else ArrowBefore(s, i - 1)
  }

  /** The fields after the keyword: the last two blanks of an obj line, the last blank and the last arrow
      before it of a sym line. */
  function Fields(kind: Kind, rest: string): Entry {
    match kind
    case Dir => Entry(Dir, rest, None, None, 0)
    case Obj =>
      (match Strrchr(rest, ' ')
       case None => Entry(Obj, rest, None, None, 0)
       case Some(i) =>
         (match Strrchr(rest[..i], ' ')
          case None => Entry(Obj, rest[..i], None, None, MtimeOf(rest[i + 1..]))
          case Some(j) => Entry(Obj, rest[..j], None, Some(rest[j + 1..i]), MtimeOf(rest[i + 1..]))))
    case Sym =>
      (match Strrchr(rest, ' ')
       case None => Entry(Sym, rest, None, None, 0)
       case Some(i) =>
         (match ArrowBefore(rest[..i], i)
          case None => Entry(Sym, rest[..i], None, None, MtimeOf(rest[i + 1..]))
          case Some(q) => Entry(Sym, rest[..q], Some(rest[q + 4..i]), None, MtimeOf(rest[i + 1..]))))
  }

  function Chopped(line: string): string
    requires line != []
  {
    if line[|line| - 1] == '\n' then line[..|line| - 1] else line
  }

  /** contents_parse_line. */
  function ParseLine(line: string): Option<Entry> {
    if line == [] || line[0] == '\n' then None
    else
      var s := Chopped(line);
      if |s| <= 4 || KindOf(s).None? then None else Some(Fields(KindOf(s).value, s[4..]))
  }

  // ----- the parser as the program runs it -----

  /** The last field has been cut off at the last blank. */
  predicate CutAt(rest: string, name: string, last: string) {
    && Strrchr(rest, ' ') == Some(|name|) && |name| < |rest|
    && name == rest[..|name|] && last == rest[|name| + 1..]
  }

  /** The backward scan of an obj line: cuts the name at each blank it uses. */
  method ScanObj(rest: string) returns (e: Entry)
    ensures e == Fields(Obj, rest)
  {
    hide MtimeOf;
    var name, digest, mtime := rest, None, None;
    var p := |rest|;
    while p > 0
      invariant 0 <= p <= |rest| && digest.None? && p <= |name|
      invariant mtime.None? ==> name == rest && (Strrchr(rest, ' ') == StrrchrBefore(rest, ' ', p))
      invariant mtime.Some? ==> CutAt(rest, name, mtime.value) && Strrchr(name, ' ') == StrrchrBefore(name, ' ', p)
    {
      p := p - 1;
      if name[p] == ' ' {
        if mtime.None? {
          mtime := Some(name[p + 1..]);
        } else {
          digest := Some(name[p + 1..]);
        }
        name := name[..p];
        if digest.Some? {
          break;
        }
      }
    }
    e := Entry(Obj, name, None, digest, if mtime.Some? then MtimeOf(mtime.value) else 0);
  }

  lemma ArrowFirst(s: string, k: nat)
    requires OccursAt(s, " -> ", k)
    ensures s[k] == ' '
  {
    assert s[k..k + 4][0] == s[k];
  }

  /** The backward scan of a sym line: the last blank, then blanks that start an arrow. */
  method ScanSym(rest: string) returns (e: Entry)
    ensures e == Fields(Sym, rest)
  {
    hide MtimeOf;
    var name, target, mtime := rest, None, None;
    var p := |rest|;
    while p > 0
      invariant 0 <= p <= |rest| && target.None? && p <= |name|
      invariant mtime.None? ==> name == rest && (Strrchr(rest, ' ') == StrrchrBefore(rest, ' ', p))
      invariant mtime.Some? ==> CutAt(rest, name, mtime.value) && ArrowBefore(name, |name|) == ArrowBefore(name, p)
    {
      p := p - 1;
      if OccursAt(name, " -> ", p) {
        ArrowFirst(name, p);
      }
      if name[p] == ' ' {
        if mtime.None? {
          mtime := Some(name[p + 1..]);
          name := name[..p];
        } else if OccursAt(name, " -> ", p) {
          target := Some(name[p + 4..]);
          name := name[..p];
          break;
        }
      }
    }
    e := Entry(Sym, name, target, None, if mtime.Some? then MtimeOf(mtime.value) else 0);
  }

  method ContentsParseLine(line: string) returns (r: Option<Entry>)
    ensures r == ParseLine(line)
  {
    hide Fields;
    if line == [] || line[0] == '\n' {
      return None;
    }
    var s := line;
    if s[|s| - 1] == '\n' {
      s := s[..|s| - 1];
    }
    if |s| <= 4 {
      return None;
    }
    var e;
    if s[..4] == "obj " {
      e := ScanObj(s[4..]);
    } else if s[..4] == "dir " {
      e := Entry(Dir, s[4..], None, None, 0);
      DirFields(s[4..]);
    } else if s[..4] == "sym " {
      e := ScanSym(s[4..]);
    } else {
      return None;
    }
    r := Some(e);
  }

  lemma DirFields(rest: string)
    ensures Fields(Dir, rest) == Entry(Dir, rest, None, None, 0)
  {
  }

  // ----- writing lines, and reading them back -----

  /** A line by its parts; the last part is kept as text. */
  datatype Line =
    | DirLine(name: string)
    | ObjLine(name: string, digest: string, mtime: string)
    | SymLine(name: string, target: string, mtime: string)

  function Keyword(l: Line): string {
    match l case DirLine(_) => "dir " case ObjLine(_, _, _) => "obj " case SymLine(_, _, _) => "sym "
  }

  function Rest(l: Line): string {
    match l
    case DirLine(n) => n
    case ObjLine(n, d, m) => n + " " + d + " " + m
    case SymLine(n, t, m) => n + " -> " + t + " " + m
  }

  function Text(l: Line): string {
    Keyword(l) + Rest(l)
  }

  predicate HasArrow(s: string) {
    exists k: nat :: k < |s| && OccursAt(s, " -> ", k)
  }

  /** Names may hold any blanks and arrows; the other parts are what makes the line readable. */
  predicate WellFormed(l: Line) {
    && '\n' !in l.name
    && match l
       case DirLine(n) => n != []
       case ObjLine(n, d, m) => ' ' !in d && ' ' !in m && '\n' !in d && '\n' !in m
       case SymLine(n, t, m) => !HasArrow(" " + t) && ' ' !in m && '\n' !in t && '\n' !in m
  }

  function Read(l: Line): Entry {
    match l
    case DirLine(n) => Entry(Dir, n, None, None, 0)
    case ObjLine(n, d, m) => Entry(Obj, n, None, Some(d), MtimeOf(m))
    case SymLine(n, t, m) => Entry(Sym, n, Some(t), None, MtimeOf(m))
  }

  /** Reading undoes writing, even for names with blanks and arrows. */
  lemma ParseOfText(l: Line)
    requires WellFormed(l)
    ensures ParseLine(Text(l)) == Some(Read(l))
    ensures '\n' !in Text(l) && Text(l) != []
  {
    hide Fields, MtimeOf, HasArrow;
    TextShape(l);
    match l
    case DirLine(n) => DirFields(n);
    case ObjLine(n, d, m) => ObjFields(n, d, m);
    case SymLine(n, t, m) => SymFields(n, t, m);
  }

  function KindOfLine(l: Line): Kind {
    match l case DirLine(_) => Dir case ObjLine(_, _, _) => Obj case SymLine(_, _, _) => Sym
  }

  lemma TextShape(l: Line)
    requires WellFormed(l)
    ensures |Text(l)| > 4 && Text(l)[4..] == Rest(l) && KindOf(Text(l)) == Some(KindOfLine(l))
    ensures '\n' !in Text(l)
  {
    RestShape(l);
    hide WellFormed, Rest;
    var s := Text(l);
    assert s[..4] == Keyword(l);
    assert "obj "[0] != "dir "[0] && "obj "[0] != "sym "[0] && "dir "[0] != "sym "[0];
  }

  lemma RestShape(l: Line)
    requires WellFormed(l)
    ensures '\n' !in Rest(l) && Rest(l) != []
  {
    hide HasArrow;
    match l
    case DirLine(n) =>
    case ObjLine(n, d, m) =>
      assert '\n' !in n + " " + d;
    case SymLine(n, t, m) =>
      assert '\n' !in n + " -> " + t;
  }

  lemma ObjFields(n: string, d: string, m: string)
    requires ' ' !in d && ' ' !in m
    ensures Fields(Obj, n + " " + d + " " + m) == Entry(Obj, n, None, Some(d), MtimeOf(m))
  {
    hide MtimeOf;
    var a := n + " " + d;
    StrrchrSplit(a, ' ', m);
    StrrchrSplit(n, ' ', d);
    assert (a + " " + m)[|n| + 1..|a|] == d;
  }

  lemma SymFields(n: string, t: string, m: string)
    requires !HasArrow(" " + t) && ' ' !in m
    ensures Fields(Sym, n + " -> " + t + " " + m) == Entry(Sym, n, Some(t), None, MtimeOf(m))
  {
    hide MtimeOf;
    var a := n + " -> " + t;
    StrrchrSplit(a, ' ', m);
    LastArrow(n, t);
    assert (a + " " + m)[|n| + 4..|a|] == t && (a + " " + m)[..|n|] == n;
  }

  /** Lines that lack parts: without a blank there is no time, with one blank no digest, and without an arrow
      no target. */
  lemma PartsMissing(n: string, m: string)
    requires n != [] && '\n' !in n && '\n' !in m && ' ' !in m
    ensures ' ' !in n ==> ParseLine("obj " + n) == Some(Entry(Obj, n, None, None, 0))
    ensures ' ' !in n ==> ParseLine("sym " + n) == Some(Entry(Sym, n, None, None, 0))
    ensures ' ' !in n ==> ParseLine("obj " + (n + " " + m)) == Some(Entry(Obj, n, None, None, MtimeOf(m)))
    ensures !HasArrow(n) ==> ParseLine("sym " + (n + " " + m)) == Some(Entry(Sym, n, None, None, MtimeOf(m)))
  {
    hide MtimeOf, Fields, HasArrow, ParseLine, KindOf;
    KeywordRead("obj ", n, Obj);
    KeywordRead("sym ", n, Sym);
    KeywordRead("obj ", n + " " + m, Obj);
    KeywordRead("sym ", n + " " + m, Sym);
    FieldsMissing(n, m);
  }

  lemma KeywordRead(word: string, rest: string, kind: Kind)
    requires rest != [] && '\n' !in rest
    requires (kind == Obj && word == "obj ") || (kind == Dir && word == "dir ") || (kind == Sym && word == "sym ")
    ensures ParseLine(word + rest) == Some(Fields(kind, rest))
    ensures ParseLine(word + rest + "\n") == Some(Fields(kind, rest))
  {
    hide Fields;
    var s := word + rest;
    assert s[..4] == word && s[4..] == rest && s[|s| - 1] == rest[|rest| - 1];
    assert rest[|rest| - 1] in rest;
    assert (s + "\n")[..|s|] == s && (s + "\n")[|s|] == '\n' && (s + "\n")[0] == s[0];
    assert word[0] != '\n';
    assert "obj "[0] != "dir "[0] && "obj "[0] != "sym "[0] && "dir "[0] != "sym "[0];
  }

  lemma FieldsMissing(n: string, m: string)
    requires ' ' !in m
    ensures ' ' !in n ==> Fields(Obj, n) == Entry(Obj, n, None, None, 0) && Fields(Sym, n) == Entry(Sym, n, None, None, 0)
    ensures ' ' !in n ==> Fields(Obj, n + " " + m) == Entry(Obj, n, None, None, MtimeOf(m))
    ensures !HasArrow(n) ==> Fields(Sym, n + " " + m) == Entry(Sym, n, None, None, MtimeOf(m))
  {
    hide MtimeOf;
    StrrchrSplit(n, ' ', m);
    var s := n + " " + m;
    assert s[..|n|] == n && s[|n| + 1..] == m;
    if !HasArrow(n) {
      assert ArrowBefore(n, |n|).None?;
    }
  }

  /** A line is an entry exactly when something follows one of the keywords, the line end apart. */
  lemma EntryIff(line: string)
    ensures ParseLine(line).Some? <==>
      var s := if line != [] && line[|line| - 1] == '\n' then line[..|line| - 1] else line;
      |s| > 4 && (s[..4] == "obj " || s[..4] == "dir " || s[..4] == "sym ")
  {
    hide Fields;
    assert "obj "[0] == 'o' && "dir "[0] == 'd' && "sym "[0] == 's';
    if line != [] {
      var s := Chopped(line);
      assert s != [] ==> s[0] == line[0];
      if |s| >= 4 {
        assert s[..4][0] == s[0];
      }
    }
  }

  /** The arrow that was written is the last one. */
  lemma LastArrow(n: string, t: string)
    requires !HasArrow(" " + t)
    ensures ArrowBefore(n + " -> " + t, |n + " -> " + t|) == Some(|n|)
  {
    var a := n + " -> " + t;
    assert OccursAt(a, " -> ", |n|);
    forall k: nat | |n| < k < |a| ensures !OccursAt(a, " -> ", k) {
      if OccursAt(a, " -> ", k) {
        ArrowAfter(n, t, k);
      }
    }
  }

  /** An arrow after the one that was written lies in the target and the blank before it. */
  lemma ArrowAfter(n: string, t: string, k: nat)
    requires |n| < k < |n + " -> " + t| && OccursAt(n + " -> " + t, " -> ", k)
    ensures HasArrow(" " + t)
  {
    var a, b := n + " -> " + t, " " + t;
    ArrowFirst(a, k);
    assert a[|n| + 1] == '-' && a[|n| + 2] == '>';
    var m := k - |n| - 3;
    assert b[m..m + 4] == a[k..k + 4];
    assert OccursAt(b, " -> ", m);
  }
}
