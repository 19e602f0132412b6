/** Repairing CONTENTS converges. */
module QcheckRepair {
  import opened CStrings
  import opened Contents
  import opened Qcheck

  // ----- the assumptions on the file system -----

  predicate PlainDigest(d: Option<string>, n: nat) {
    d.Some? ==> |d.value| == n && ' ' !in d.value && '\n' !in d.value
  }

  /** Digests, where there are any, look like digests. */
  ghost predicate Sane(fs: Files) {
    forall n: string :: fs(n).Some? ==> PlainDigest(fs(n).value.md5, 32) && PlainDigest(fs(n).value.sha1, 40)
  }

  ghost predicate Hashable(fs: Files) {
    forall n: string :: fs(n).Some? ==> fs(n).value.md5.Some? && fs(n).value.sha1.Some?
  }

  // ----- one line -----

  /** The times that lines and files carry agree after printing; a time strtol saturates on is not checked. */
  lemma MtimeOfPrinted(m: Time)
    ensures MtimeOf(Printed(m)) == if 0 <= m < LONG_MAX then m else 0
    ensures ' ' !in Printed(m) && '\n' !in Printed(m)
  {
    var i: int := m;
    AtoiOfDec(if i < 0 then i + 0x1_0000_0000_0000_0000 else i);
    assert AllDigits(Printed(m));
  }

  predicate PlainLine(l: string) {
    l != [] && '\n' !in l
  }

  /** A line of the file parses to an entry whose parts can be written again: the digest has no blank, and
      the target no arrow. */
  lemma ParsedParts(raw: string)
    requires PlainLine(raw) && ParseLine(raw).Some?
    ensures var e := ParseLine(raw).value;
      && '\n' !in e.name
      && (e.kind == Dir ==> e.mtime == 0 && e.digest.None?)
      && (e.digest.Some? ==> e.kind == Obj && ' ' !in e.digest.value && '\n' !in e.digest.value)
      && (e.target.Some? ==> e.kind == Sym && !HasArrow(" " + e.target.value) && '\n' !in e.target.value)
  {
    hide MtimeOf, HasArrow;
    assert Chopped(raw) == raw;
    var rest := raw[4..];
    assert '\n' !in rest;
    match KindOf(raw).value
    case Dir =>
    case Obj => ObjParts(rest);
    case Sym => SymParts(rest);
  }

  lemma ObjParts(rest: string)
    requires '\n' !in rest
    ensures var e := Fields(Obj, rest);
      && e.kind == Obj && e.target.None? && '\n' !in e.name
      && (e.digest.Some? ==> ' ' !in e.digest.value && '\n' !in e.digest.value)
  {
    hide MtimeOf;
    var i := Strrchr(rest, ' ');
    if i.Some? {
      var j := Strrchr(rest[..i.value], ' ');
      if j.Some? {
        var d := rest[j.value + 1..i.value];
        assert forall k :: 0 <= k < |d| ==> d[k] == rest[..i.value][j.value + 1 + k];
      }
    }
  }

  lemma SymParts(rest: string)
    requires '\n' !in rest
    ensures var e := Fields(Sym, rest);
      && e.kind == Sym && e.digest.None? && '\n' !in e.name
      && (e.target.Some? ==> !HasArrow(" " + e.target.value) && '\n' !in e.target.value)
  {
    hide MtimeOf, HasArrow;
    var i := Strrchr(rest, ' ');
    if i.Some? {
      var s := rest[..i.value];
      var q := ArrowBefore(s, i.value);
      if q.Some? {
        NoLaterArrow(s, q.value);
        assert rest[q.value + 4..i.value] == s[q.value + 4..];
      }
    }
  }

  /** Behind the last arrow there is none, not even one that starts with its last blank. */
  lemma NoLaterArrow(s: string, q: nat)
    requires OccursAt(s, " -> ", q) && forall k: nat :: q < k < |s| ==> !OccursAt(s, " -> ", k)
    ensures !HasArrow(" " + s[q + 4..])
  {
    var t := " " + s[q + 4..];
    assert s[q..q + 4][3] == s[q + 3];
    assert t == s[q + 3..];
    forall k: nat | k < |t| ensures !OccursAt(t, " -> ", k) {
      assert !OccursAt(s, " -> ", q + 3 + k);
      if k + 4 <= |t| {
        assert t[k..k + 4] == s[q + 3 + k..q + 3 + k + 4];
      }
    }
  }

  /** The line that update mode writes in place of one with a wrong digest or time. */
  function NewLine(st: Stat, e: Entry, v: Verdict): Line {
    if v == BadDigest then ObjLine(e.name, OrNull(DigestOf(st, OrNull(e.digest))), Printed(st.mtime))
    else if e.kind == Sym then SymLine(e.name, OrNull(e.target), Printed(st.mtime))
    else ObjLine(e.name, OrNull(e.digest), Printed(st.mtime))
  }

  /** An obj line without a digest, of a regular file with another time: it gets "(null)" for a digest,
      which the next run with digests takes for an unknown one. */
  predicate Loses(cfg: Config, fs: Files, raw: string) {
    var e := ParseLine(raw);
    && e.Some? && e.value.kind == Obj && e.value.digest.None? && cfg.chkHash
    && Check(cfg, fs, e.value) == BadMtime && fs(e.value.name).Some? && fs(e.value.name).value.regular
  }

  predicate Settled(v: Verdict, hashable: bool) {
    v == Good || v == Ignored || (v == Unreadable && !hashable)
  }

  lemma NullParts()
    ensures ' ' !in "(null)" && '\n' !in "(null)" && |"(null)"| == 6
    ensures !HasArrow(" (null)") && " " + "(null)" == " (null)"
  {
    var t := " (null)";
    forall k: nat | k < |t| ensures !OccursAt(t, " -> ", k) {
      if k + 4 <= |t| {
        assert t[k..k + 4][1] == t[k + 1];
      }
    }
  }

  /** The line that is written is well-formed. */
  lemma NewLineWellFormed(cfg: Config, fs: Files, e: Entry)
    requires Sane(fs) && '\n' !in e.name
    requires e.digest.Some? ==> e.kind == Obj && ' ' !in e.digest.value && '\n' !in e.digest.value
    requires e.target.Some? ==> e.kind == Sym && !HasArrow(" " + e.target.value) && '\n' !in e.target.value
    requires fs(e.name).Some?
    ensures var v := Check(cfg, fs, e); v == BadDigest || v == BadMtime ==> WellFormed(NewLine(fs(e.name).value, e, v))
  {
    hide Printed, MtimeOf, Skipped, Protected, HasArrow;
    MtimeOfPrinted(fs(e.name).value.mtime);
    NullParts();
  }

  /** What the next run thinks of it. */
  lemma NewLineChecked(cfg: Config, fs: Files, e: Entry)
    requires Sane(fs) && fs(e.name).Some?
    requires e.digest.Some? ==> e.kind == Obj
    requires e.kind == Dir ==> e.mtime == 0
    ensures var v := Check(cfg, fs, e);
      v == BadDigest || v == BadMtime ==>
        Check(cfg, fs, Read(NewLine(fs(e.name).value, e, v)))
          == if v == BadMtime && e.kind == Obj && e.digest.None? && fs(e.name).value.regular
             then (if cfg.chkHash then UnknownDigest else Ignored)
             else Good
  {
    hide Printed, MtimeOf, Skipped, Protected;
    MtimeOfPrinted(fs(e.name).value.mtime);
    NullParts();
  }

  /** A line that has been written can be read. A second run keeps it, and finds it good unless it is ignored
      or its file cannot be hashed; but a line that lost its digest is dropped. */
  lemma ReplacedOnce(cfg: Config, fs: Files, raw: string)
    requires PlainLine(raw) && Sane(fs) && Replacement(cfg, fs, raw).Some?
    ensures var w := Replacement(cfg, fs, raw).value;
      && PlainLine(w) && ParseLine(w).Some?
      && if Loses(cfg, fs, raw) then Replacement(cfg, fs, w) == None
         else Replacement(cfg, fs, w) == Some(w) && !Loses(cfg, fs, w)
              && Settled(Check(cfg, fs, ParseLine(w).value), Hashable(fs))
  {
    hide Printed, MtimeOf, Check, ParseLine, Text, WellFormed, NewLine, Sane, Hashable;
    var e := ParseLine(raw).value;
    var v := Check(cfg, fs, e);
    CheckedFile(cfg, fs, e);
    if v == BadDigest || v == BadMtime {
      ParsedParts(raw);
      var l := NewLine(fs(e.name).value, e, v);
      NewLineWellFormed(cfg, fs, e);
      NewLineChecked(cfg, fs, e);
      WrittenLine(cfg, fs, e, raw);
      ParseOfText(l);
      ReadOfNew(fs(e.name).value, e, v);
    }
  }

  /** What is written in place of a line is still an entry for the same file, of the same kind and with the
      same target; its digest is the file's when that was wrong, and else the recorded one, and its time
      is the file's, or absent where that cannot be read back. */
  lemma ReplacedEntry(cfg: Config, fs: Files, raw: string)
    requires PlainLine(raw) && Sane(fs) && Replacement(cfg, fs, raw).Some?
    ensures var w := Replacement(cfg, fs, raw).value;
      var e, n := ParseLine(raw).value, ParseLine(w);
      && n.Some? && n.value.name == e.name && n.value.kind == e.kind
      && (w == raw || (
            && fs(e.name).Some?
            && var st := fs(e.name).value;
            && n.value.mtime == (if 0 <= st.mtime < LONG_MAX then st.mtime else 0)
            && n.value.target == (if e.kind == Sym then Some(if e.target.Some? then e.target.value else "(null)") else None)
            && (Digested(st, e) && !DigestIs(st, e) ==>
                  n.value.digest == if |e.digest.value| == 32 then st.md5 else st.sha1)
            && (Digested(st, e) && DigestIs(st, e) ==> n.value.digest == e.digest)))
  {
    hide Printed, MtimeOf, Check, ParseLine, Text, WellFormed, Sane, Skipped, Protected;
    var e := ParseLine(raw).value;
    var v := Check(cfg, fs, e);
    CheckedFile(cfg, fs, e);
    if v == BadDigest || v == BadMtime {
      var st := fs(e.name).value;
      ParsedParts(raw);
      NewLineWellFormed(cfg, fs, e);
      WrittenLine(cfg, fs, e, raw);
      ParseOfText(NewLine(st, e, v));
      MtimeOfPrinted(st.mtime);
      VerdictMeans(cfg, fs, e);
    }
  }

  lemma ReadOfNew(st: Stat, e: Entry, v: Verdict)
    ensures Read(NewLine(st, e, v)).name == e.name
  {
  }

  /** What a verdict says of the file. */
  lemma CheckedFile(cfg: Config, fs: Files, e: Entry)
    ensures var v := Check(cfg, fs, e);
      && (v == BadDigest || v == BadMtime ==> fs(e.name).Some?)
      && (v == Unreadable ==> !Hashable(fs))
  {
    hide Skipped, Protected;
  }

  lemma WrittenLine(cfg: Config, fs: Files, e: Entry, raw: string)
    requires fs(e.name).Some?
    ensures var v := Check(cfg, fs, e);
      v == BadDigest || v == BadMtime ==> Rewritten(cfg, fs, e, raw) == Some(Text(NewLine(fs(e.name).value, e, v)))
  {
    hide Text, Printed, Check;
  }

  // ----- the whole file -----

  predicate Plain(ls: seq<string>) {
    forall i :: 0 <= i < |ls| ==> PlainLine(ls[i])
  }

  predicate LosesAny(cfg: Config, fs: Files, ls: seq<string>) {
    exists i :: 0 <= i < |ls| && Loses(cfg, fs, ls[i])
  }

  predicate AllSettled(vs: seq<Verdict>, hashable: bool) {
    forall i :: 0 <= i < |vs| ==> Settled(vs[i], hashable)
  }

  /** What is left after two runs. */
  function Kept(cfg: Config, fs: Files, ls: seq<string>): seq<string> {
    if ls == [] then []
    else
      var l := ls[|ls| - 1];
      var w := Replacement(cfg, fs, l);
      Kept(cfg, fs, ls[..|ls| - 1]) + if w.Some? && !Loses(cfg, fs, l) then [w.value] else []
  }

  /** The second run drops the lines that lost their digest and keeps the others as they are; the third
      finds nothing to do. */
  lemma {:induction false} UpdatedAgain(cfg: Config, fs: Files, ls: seq<string>)
    requires Plain(ls) && Sane(fs)
    ensures var once := Updated(cfg, fs, ls);
      Plain(once) && Updated(cfg, fs, once) == Kept(cfg, fs, ls) && |Kept(cfg, fs, ls)| <= |once|
    ensures |Updated(cfg, fs, ls)| == |Kept(cfg, fs, ls)| ==> Updated(cfg, fs, ls) == Kept(cfg, fs, ls)
    ensures |Updated(cfg, fs, ls)| == |Kept(cfg, fs, ls)| <==> !LosesAny(cfg, fs, ls)
  {
    hide Replacement, Loses, PlainLine, Sane;
    if ls != [] {
      var p, l := ls[..|ls| - 1], ls[|ls| - 1];
      assert ls == p + [l];
      UpdatedAgain(cfg, fs, p);
      UpdatedNext(cfg, fs, p, l);
      LosesNext(cfg, fs, p, l);
      var w := Replacement(cfg, fs, l);
      LosesWritten(cfg, fs, l);
      if w.Some? {
        ReplacedOnce(cfg, fs, l);
        UpdatedNext(cfg, fs, Updated(cfg, fs, p), w.value);
      }
    }
  }

  lemma LosesNext(cfg: Config, fs: Files, p: seq<string>, l: string)
    ensures LosesAny(cfg, fs, p + [l]) <==> LosesAny(cfg, fs, p) || Loses(cfg, fs, l)
  {
    hide Loses;
    var ls := p + [l];
    assert ls[|p|] == l && forall i :: 0 <= i < |p| ==> ls[i] == p[i];
  }

  lemma LosesWritten(cfg: Config, fs: Files, raw: string)
    ensures Loses(cfg, fs, raw) ==> Replacement(cfg, fs, raw).Some?
  {
    hide Check, ParseLine, Text, Printed;
  }

  lemma {:induction false} KeptStays(cfg: Config, fs: Files, ls: seq<string>)
    requires Plain(ls) && Sane(fs)
    ensures var r := Kept(cfg, fs, ls);
      Plain(r) && Updated(cfg, fs, r) == r && AllSettled(Verdicts(cfg, fs, r), Hashable(fs))
  {
    hide Replacement, Loses, PlainLine, Sane, ParseLine, Settled, Hashable;
    if ls != [] {
      var p, l := ls[..|ls| - 1], ls[|ls| - 1];
      KeptStays(cfg, fs, p);
      var r, w := Kept(cfg, fs, p), Replacement(cfg, fs, l);
      assert r + [] == r;
      if w.Some? && !Loses(cfg, fs, l) {
        ReplacedOnce(cfg, fs, l);
        UpdatedNext(cfg, fs, r, w.value);
        VerdictsNext(cfg, fs, r, w.value);
      }
    }
  }

  // ----- bytes of the file -----

  lemma {:induction false} TokensOfUnlines(ls: seq<string>, rest: string)
    requires Plain(ls)
    ensures Tokens(Unlines(ls) + rest) == ls + Tokens(rest)
  {
    hide Tokens;
    if ls == [] {
      assert Unlines(ls) + rest == rest;
    } else {
      var p, x := ls[..|ls| - 1], ls[|ls| - 1];
      assert Unlines(ls) + rest == Unlines(p) + (x + ("\n" + rest));
      TokensOfUnlines(p, x + ("\n" + rest));
      OneToken(x, rest);
      assert ls == p + [x];
    }
  }

  lemma OneToken(x: string, rest: string)
    requires x != [] && '\n' !in x
    ensures Tokens(x + ("\n" + rest)) == [x] + Tokens(rest)
  {
    hide Tokens;
    var s := x + ("\n" + rest);
    assert s == x + ['\n'] + rest;
    StrchrSplit(x, '\n', rest);
    assert s[0] == x[0] && x[0] in x;
    NextToken(s);
    hide LineLength;
    assert s[..|x|] == x && s[|x|..] == "\n" + rest;
    NextToken("\n" + rest);
    assert ("\n" + rest)[1..] == rest;
  }

  lemma {:induction false} TokensPlain(s: string)
    ensures Plain(Tokens(s))
    decreases |s|
  {
    hide Tokens;
    if s == [] {
      NoLinesLeft();
    } else {
      NextToken(s);
      if s[0] == '\n' {
        TokensPlain(s[1..]);
      } else {
        TokensPlain(s[LineLength(s)..]);
      }
    }
  }

  lemma LinesRead(ls: seq<string>)
    requires Plain(ls)
    ensures Tokens(Unlines(ls)) == ls
  {
    hide Tokens, Unlines;
    TokensOfUnlines(ls, "");
    assert Unlines(ls) + "" == Unlines(ls);
    NoLinesLeft();
  }

  lemma NoLinesLeft()
    ensures Tokens("") == []
  {
  }

  /** What CONTENTS holds after update mode has run. */
  function UpdatedContents(cfg: Config, fs: Files, contents: string): string {
    Unlines(Updated(cfg, fs, Tokens(contents)))
  }

  /** Repair converges, whatever the file holds: after the second update nothing changes any more and every
      entry that is counted is good, except for files that cannot be hashed. The second update changes
      nothing, either, exactly when no line has lost its digest in the first. */
  lemma RepairConverges(cfg: Config, fs: Files, contents: string)
    requires Sane(fs)
    ensures var once := UpdatedContents(cfg, fs, contents); var twice := UpdatedContents(cfg, fs, once);
      && UpdatedContents(cfg, fs, twice) == twice
      && (twice == once <==> !LosesAny(cfg, fs, Tokens(contents)))
      && AllSettled(Verdicts(cfg, fs, Tokens(twice)), Hashable(fs))
  {
    hide Tokens, Updated, Kept, Unlines, Verdicts, Sane, Hashable, LosesAny, Plain, AllSettled;
    var ls := Tokens(contents);
    TokensPlain(contents);
    UpdatedAgain(cfg, fs, ls);
    KeptStays(cfg, fs, ls);
    LinesRead(Updated(cfg, fs, ls));
    LinesRead(Kept(cfg, fs, ls));
  }

  /** The run of the program that this is about: update, update again, once more, and check. */
  method RepairTwiceAndCheck(cfg: Config, fs: Files, contents: string)
    returns (once: string, twice: string, thrice: string, t: Tally)
    requires Sane(fs)
    ensures thrice == twice
    ensures twice == once <==> !LosesAny(cfg, fs, Tokens(contents))
    ensures Hashable(fs) ==> t.ok == t.files && t.unknown == 0
  {
    hide Tokens, Updated, Unlines, Verdicts, Sane, Hashable, LosesAny;
    var t0;
    t0, once := QcheckCb(cfg, fs, true, contents);
    t0, twice := QcheckCb(cfg, fs, true, once);
    t0, thrice := QcheckCb(cfg, fs, true, twice);
    var w;
    t, w := QcheckCb(cfg, fs, false, thrice);
    RepairConverges(cfg, fs, contents);
    if Hashable(fs) {
      GoodOrIgnored(Verdicts(cfg, fs, Tokens(twice)));
    }
  }

  lemma {:induction false} GoodOrIgnored(vs: seq<Verdict>)
    requires forall i :: 0 <= i < |vs| ==> vs[i] == Good || vs[i] == Ignored
    ensures Count(vs, Good) + Count(vs, Ignored) == |vs| && Count(vs, Unreadable) == 0 && Count(vs, UnknownDigest) == 0
  {
    if vs != [] {
      assert vs == vs[..|vs| - 1] + [vs[|vs| - 1]];
      GoodOrIgnored(vs[..|vs| - 1]);
    }
  }

  // ----- a line that is lost -----

  /** The line "obj /x 5" of a regular file with time 6 becomes "obj /x (null) 6", and then goes. */
  lemma DigestLost(cfg: Config, fs: Files)
    requires cfg.chkHash && cfg.chkMtime && cfg.chkConfigProtect && cfg.regexes == []
    requires fs("/x").Some? && fs("/x").value.regular && fs("/x").value.mtime == 6 && Sane(fs)
    ensures Replacement(cfg, fs, "obj /x 5") == Some("obj /x (null) 6")
    ensures Replacement(cfg, fs, "obj /x (null) 6") == None
  {
    hide Sane, Text, Dec, Strtoll;
    LostParsed();
    assert Check(cfg, fs, Entry(Obj, "/x", None, None, 5)) == BadMtime;
    LostText();
    ReplacedOnce(cfg, fs, "obj /x 5");
  }

  lemma LostParsed()
    ensures ParseLine("obj /x 5") == Some(Entry(Obj, "/x", None, None, 5))
  {
    hide Fields;
    var s := "obj /x 5";
    assert s[..4] == "obj " && s[4..] == "/x 5";
    LostFields();
  }

  lemma LostFields()
    ensures Fields(Obj, "/x 5") == Entry(Obj, "/x", None, None, 5)
  {
    hide MtimeOf, Strrchr;
    assert "/x 5" == "/x" + [' '] + "5";
    StrrchrSplit("/x", ' ', "5");
    NoBlank("/x");
    FiveRead();
  }

  lemma NoBlank(s: string)
    requires ' ' !in s
    ensures Strrchr(s, ' ') == None
  {
  }

  lemma FiveRead()
    ensures MtimeOf("5") == 5
  {
    StrtollOfDigits("5", "");
    assert "5" + "" == "5" && "5"[..0] == [];
  }

  lemma LostText()
    ensures Text(ObjLine("/x", "(null)", Dec(6))) == "obj /x (null) 6"
  {
    assert Dec(6) == "6";
  }
}
