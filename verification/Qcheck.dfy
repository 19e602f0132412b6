/** Checking installed files against CONTENTS, and repairing it: the loop of `qcheck_cb`. */
module Qcheck {
  import opened CStrings
  import opened Contents

  // ----- files and options -----

  /** time_t. */
  type Time = m: int | LONG_MIN <= m <= LONG_MAX

  /** What lstat and the two digests give for a path; None stands for a file that cannot be hashed. */
  datatype Stat = Stat(regular: bool, mtime: Time, md5: Option<string>, sha1: Option<string>)

  /** The file system, from recorded name to what is found there. */
  type Files = string -> Option<Stat>

  datatype Config = Config(
    chkAfk: bool,
    chkHash: bool,
    chkMtime: bool,
    chkConfigProtect: bool,
    regexes: seq<string -> bool>,
    protect: seq<string>,
    mask: seq<string>,
    eprefixLen: nat)

  predicate Skipped(cfg: Config, name: string) {
    exists i :: 0 <= i < |cfg.regexes| && cfg.regexes[i](name)
  }

  function Unprefixed(cfg: Config, name: string): string {
    if |name| > cfg.eprefixLen then name[cfg.eprefixLen..] else name
  }

  predicate Under(dirs: seq<string>, path: string) {
    exists i :: 0 <= i < |dirs| && dirs[i] <= path
  }

  predicate Protected(cfg: Config, name: string) {
    !Under(cfg.mask, Unprefixed(cfg, name)) && Under(cfg.protect, Unprefixed(cfg, name))
  }

  // ----- one entry -----

  datatype Verdict = Ignored | Missing | UnknownDigest | Unreadable | BadDigest | BadMtime | Good

  /** The digest of the file that a recorded digest of this length is compared with: MD5 or SHA1. */
  function DigestOf(st: Stat, recorded: string): Option<string> {
    if |recorded| == 32 then st.md5 else st.sha1
  }

  predicate KnownDigest(recorded: string) {
    |recorded| == 32 || |recorded| == 40
  }

  function CheckMtime(cfg: Config, st: Stat, e: Entry): Verdict {
    if e.mtime != 0 && e.mtime != st.mtime then if cfg.chkMtime then BadMtime else Ignored else Good
  }

  function CheckFile(cfg: Config, st: Stat, e: Entry): Verdict {
    if !cfg.chkMtime && e.kind == Sym then Ignored
    else if e.digest.Some? && st.regular then
      if !KnownDigest(e.digest.value) then if cfg.chkHash then UnknownDigest else Ignored
      else
        var f := DigestOf(st, e.digest.value);
        if f.None? then Unreadable
        else if f != e.digest then if cfg.chkHash then BadDigest else Ignored
        else CheckMtime(cfg, st, e)
    else CheckMtime(cfg, st, e)
  }

  function Check(cfg: Config, fs: Files, e: Entry): Verdict {
    if Skipped(cfg, e.name) || (!cfg.chkConfigProtect && Protected(cfg, e.name)) then Ignored
    else
      match fs(e.name)
      case None => if cfg.chkAfk then Missing else Ignored
      case Some(st) => CheckFile(cfg, st, e)
  }

  /** The time as %llu prints it. */
  function Printed(mtime: Time): string {
    var m: int := mtime;
    Dec(if m < 0 then m + 0x1_0000_0000_0000_0000 else m)
  }

  function OrNull(s: Option<string>): string {
    if s.Some? then s.value else "(null)"
  }

  /** The line that update mode writes for an entry, if it writes one. */
  function Rewritten(cfg: Config, fs: Files, e: Entry, raw: string): Option<string> {
    match Check(cfg, fs, e)
    case Ignored => Some(raw)
    case Missing => None
    case UnknownDigest => None
    case Unreadable => Some(raw)
    case BadDigest =>
      var st := fs(e.name);
      if st.None? then None
      else Some(Text(ObjLine(e.name, OrNull(DigestOf(st.value, OrNull(e.digest))), Printed(st.value.mtime))))
    case BadMtime =>
      var st := fs(e.name);
      if st.None? then None
      else if e.kind == Sym then Some(Text(SymLine(e.name, OrNull(e.target), Printed(st.value.mtime))))
      else Some(Text(ObjLine(e.name, OrNull(e.digest), Printed(st.value.mtime))))
    case Good => Some(raw)
  }

  // ----- the whole file -----

  /** strtok_r with a newline: the non-empty lines. */
  function Tokens(s: string): seq<string> {
    if s == [] then []
    else if s[0] == '\n' then Tokens(s[1..])
    else
      var n := LineLength(s);
      [s[..n]] + Tokens(s[n..])
  }

  function LineLength(s: string): (n: nat)
    ensures n <= |s| && '\n' !in s[..n]
    ensures n < |s| ==> s[n] == '\n'
    ensures s != [] && s[0] != '\n' ==> n > 0
  {
    var p := Strchr(s, '\n');
    if p.Some? then p.value else |s|
  }

  function Unlines(ls: seq<string>): string {
    if ls == [] then [] else Unlines(ls[..|ls| - 1]) + ls[|ls| - 1] + "\n"
  }

  /** The verdicts on the entries among the lines. */
  function Verdicts(cfg: Config, fs: Files, ls: seq<string>): seq<Verdict> {
    if ls == [] then []
    else
      var e := ParseLine(ls[|ls| - 1]);
      Verdicts(cfg, fs, ls[..|ls| - 1]) + if e.Some? then [Check(cfg, fs, e.value)] else []
  }

  /** What becomes of a line; lines that are no entries are not written. */
  function Replacement(cfg: Config, fs: Files, raw: string): Option<string> {
    var e := ParseLine(raw);
    if e.Some? then Rewritten(cfg, fs, e.value, raw) else None
  }

  /** The lines that update mode writes. */
  function Updated(cfg: Config, fs: Files, ls: seq<string>): seq<string> {
    if ls == [] then []
    else
      var w := Replacement(cfg, fs, ls[|ls| - 1]);
      Updated(cfg, fs, ls[..|ls| - 1]) + if w.Some? then [w.value] else []
  }

  function Count(vs: seq<Verdict>, v: Verdict): nat {
    multiset(vs)[v]
  }

  // ----- what the verdicts say of the files -----

  /** A pattern matches the name, or configuration is not checked and the name lies in a protected directory
      that is not masked. */
  predicate LeftAlone(cfg: Config, e: Entry) {
    var p := if |e.name| > cfg.eprefixLen then e.name[cfg.eprefixLen..] else e.name;
    || (exists i :: 0 <= i < |cfg.regexes| && cfg.regexes[i](e.name))
    || (!cfg.chkConfigProtect
        && (exists i :: 0 <= i < |cfg.protect| && cfg.protect[i] <= p)
        && (forall i :: 0 <= i < |cfg.mask| ==> !(cfg.mask[i] <= p)))
  }

  /** The entry is looked at: it is not left alone, its file is there, and links are looked at only for their time. */
  predicate Examined(cfg: Config, fs: Files, e: Entry) {
    !LeftAlone(cfg, e) && fs(e.name).Some? && (e.kind == Sym ==> cfg.chkMtime)
  }

  /** A digest is recorded of a regular file. */
  predicate Digested(st: Stat, e: Entry) {
    st.regular && e.digest.Some?
  }

  /** The recorded digest has the length of an MD5 or SHA1, and is the file's. */
  predicate DigestIs(st: Stat, e: Entry) {
    e.digest.Some? && ((|e.digest.value| == 32 && st.md5 == e.digest) || (|e.digest.value| == 40 && st.sha1 == e.digest))
  }

  predicate TimeIs(st: Stat, e: Entry) {
    e.mtime == 0 || e.mtime == st.mtime
  }

  /** The file is there, and has the recorded digest and time, as far as they are recorded. */
  predicate Intact(cfg: Config, fs: Files, e: Entry) {
    && Examined(cfg, fs, e)
    && var st := fs(e.name).value;
       (Digested(st, e) ==> DigestIs(st, e)) && TimeIs(st, e)
  }

  /** Every verdict, in terms of the options, the file and the fields of the entry. */
  lemma VerdictMeans(cfg: Config, fs: Files, e: Entry)
    ensures var v := Check(cfg, fs, e);
      && (v == Good <==> Intact(cfg, fs, e))
      && (v == Missing <==> !LeftAlone(cfg, e) && fs(e.name).None? && cfg.chkAfk)
      && (Examined(cfg, fs, e) ==>
            var st := fs(e.name).value;
            var length := if e.digest.Some? then |e.digest.value| else 0;
            var hash := if length == 32 then st.md5 else st.sha1;
            && (v == UnknownDigest <==> Digested(st, e) && length != 32 && length != 40 && cfg.chkHash)
            && (v == Unreadable <==> Digested(st, e) && (length == 32 || length == 40) && hash.None?)
            && (v == BadDigest <==> Digested(st, e) && (length == 32 || length == 40) && hash.Some? && hash != e.digest && cfg.chkHash)
            && (v == BadMtime <==> (Digested(st, e) ==> DigestIs(st, e)) && !TimeIs(st, e) && cfg.chkMtime))
      && (!Examined(cfg, fs, e) ==> v == Missing || v == Ignored)
  {
  }

  /** Update mode drops a line exactly when it is no entry, when its file is missing and that is checked, or
      when its digest is of no known length and that is checked; and it leaves a line as it is unless a digest
      or a time that is checked is another than recorded. */
  lemma WrittenMeans(cfg: Config, fs: Files, raw: string)
    ensures var e, w := ParseLine(raw), Replacement(cfg, fs, raw);
      if e.None? then w == None
      else
        var examined := Examined(cfg, fs, e.value);
        var missing := !LeftAlone(cfg, e.value) && fs(e.value.name).None? && cfg.chkAfk;
        var digested := examined && Digested(fs(e.value.name).value, e.value);
        var known := digested && (|e.value.digest.value| == 32 || |e.value.digest.value| == 40);
        var hash := if examined then DigestOf(fs(e.value.name).value, OrNull(e.value.digest)) else None;
        && (w == None <==> missing || (digested && !known && cfg.chkHash))
        && (w.Some? && w.value != raw ==>
              || (known && hash.Some? && hash != e.value.digest && cfg.chkHash)
              || (examined && (digested ==> hash == e.value.digest) && !TimeIs(fs(e.value.name).value, e.value) && cfg.chkMtime))
  {
    hide ParseLine, Text, Printed;
  }

  /** The intact entries among the lines. */
  function IntactCount(cfg: Config, fs: Files, ls: seq<string>): nat {
    if ls == [] then 0
    else
      var e := ParseLine(ls[|ls| - 1]);
      IntactCount(cfg, fs, ls[..|ls| - 1]) + if e.Some? && Intact(cfg, fs, e.value) then 1 else 0
  }

  lemma {:induction false} GoodAreIntact(cfg: Config, fs: Files, ls: seq<string>)
    ensures Count(Verdicts(cfg, fs, ls), Good) == IntactCount(cfg, fs, ls)
  {
    hide Check, Intact, ParseLine;
    if ls != [] {
      var p, l := ls[..|ls| - 1], ls[|ls| - 1];
      GoodAreIntact(cfg, fs, p);
      if ParseLine(l).Some? {
        VerdictMeans(cfg, fs, ParseLine(l).value);
      }
    }
  }

  // ----- the loop as the program runs it -----

  method MatchesAny(regexes: seq<string -> bool>, name: string) returns (r: bool)
    ensures r <==> exists i :: 0 <= i < |regexes| && regexes[i](name)
  {
    var n := 0;
    while n < |regexes|
      invariant n <= |regexes| && forall i :: 0 <= i < n ==> !regexes[i](name)
    {
      if regexes[n](name) {
        return true;
      }
      n := n + 1;
    }
    r := false;
  }

  method IsUnder(dirs: seq<string>, path: string) returns (r: bool)
    ensures r <==> Under(dirs, path)
  {
    var n := 0;
    while n < |dirs|
      invariant n <= |dirs| && forall i :: 0 <= i < n ==> !(dirs[i] <= path)
    {
      if dirs[n] <= path {
        return true;
      }
      n := n + 1;
    }
    r := false;
  }

  /** One round of the loop: the verdict, and the line written when updating. */
  method CheckEntry(cfg: Config, fs: Files, e: Entry, raw: string) returns (v: Verdict, line: Option<string>)
    ensures v == Check(cfg, fs, e) && line == Rewritten(cfg, fs, e, raw)
  {
    hide Text, Printed;
    var skip := MatchesAny(cfg.regexes, e.name);
    if skip {
      return Ignored, Some(raw);
    }
    if !cfg.chkConfigProtect {
      var p := if |e.name| > cfg.eprefixLen then e.name[cfg.eprefixLen..] else e.name;
      var unmasked := IsUnder(cfg.mask, p);
      if !unmasked {
        var protected := IsUnder(cfg.protect, p);
        if protected {
          return Ignored, Some(raw);
        }
      }
    }
    if fs(e.name).None? {
      if cfg.chkAfk {
        return Missing, None;
      }
      return Ignored, Some(raw);
    }
    var st := fs(e.name).value;
    if !cfg.chkMtime && e.kind == Sym {
      return Ignored, Some(raw);
    }
    if e.digest.Some? && st.regular {
      if !KnownDigest(e.digest.value) {
        if cfg.chkHash {
          return UnknownDigest, None;
        }
        return Ignored, Some(raw);
      }
      var f := DigestOf(st, e.digest.value);
      if f.None? {
        return Unreadable, Some(raw);
      }
      if e.digest.value != f.value {
        if cfg.chkHash {
          return BadDigest, Some(Text(ObjLine(e.name, f.value, Printed(st.mtime))));
        }
        return Ignored, Some(raw);
      }
    }
    if e.mtime != 0 && e.mtime != st.mtime {
      if !cfg.chkMtime {
        return Ignored, Some(raw);
      }
      if e.kind == Sym {
        return BadMtime, Some(Text(SymLine(e.name, OrNull(e.target), Printed(st.mtime))));
      }
      return BadMtime, Some(Text(ObjLine(e.name, OrNull(e.digest), Printed(st.mtime))));
    }
    v, line := Good, Some(raw);
  }

  /** The numbers that are reported at the end. */
  datatype Tally = Tally(files: nat, ok: nat, unknown: nat, ignored: nat)

  predicate Tallies(t: Tally, vs: seq<Verdict>) {
    && t.ignored == Count(vs, Ignored) && t.files + t.ignored == |vs|
    && t.ok == Count(vs, Good)
    && t.unknown == Count(vs, UnknownDigest) + Count(vs, Unreadable)
  }

  /** The counters after one more entry: counted first, and taken back when it turns out to be ignored. */
  method Account(t: Tally, v: Verdict, ghost vs: seq<Verdict>) returns (r: Tally)
    requires Tallies(t, vs)
    ensures Tallies(r, vs + [v])
  {
    var files, ok, unknown, ignored := t.files + 1, t.ok, t.unknown, t.ignored;
    if v == Ignored {
      files := files - 1;
      ignored := ignored + 1;
    } else if v == UnknownDigest || v == Unreadable {
      unknown := unknown + 1;
    } else if v == Good {
      ok := ok + 1;
    }
    r := Tally(files, ok, unknown, ignored);
  }

  method QcheckCb(cfg: Config, fs: Files, update: bool, contents: string) returns (t: Tally, written: string)
    ensures Tallies(t, Verdicts(cfg, fs, Tokens(contents)))
    ensures t.ok == IntactCount(cfg, fs, Tokens(contents))
    ensures written == if update then Unlines(Updated(cfg, fs, Tokens(contents))) else ""
  {
    hide Check, Rewritten, ParseLine, Tokens, LineLength, Tallies, Verdicts, Updated, Unlines;
    t, written := Tally(0, 0, 0, 0), "";
    var rest := contents;
    ghost var done: seq<string> := [];
    assert done + Tokens(rest) == Tokens(contents);
    NoLines(cfg, fs);
    while rest != []
      invariant Tokens(contents) == done + Tokens(rest)
      invariant Tallies(t, Verdicts(cfg, fs, done))
      invariant written == if update then Unlines(Updated(cfg, fs, done)) else ""
      decreases |rest|
    {
      NextToken(rest);
      if rest[0] == '\n' {
        rest := rest[1..];
      } else {
        var line := rest[..LineLength(rest)];
        rest := rest[LineLength(rest)..];
        Assoc(done, [line], Tokens(rest));
        var entry := ContentsParseLine(line);
        if entry.Some? {
          var v, w := CheckEntry(cfg, fs, entry.value, line);
          t := Account(t, v, Verdicts(cfg, fs, done));
          if update && w.Some? {
            Assoc(written, w.value, "\n");
            UnlinesNext(Updated(cfg, fs, done), w.value);
            written := written + w.value + "\n";
          }
        }
        VerdictsNext(cfg, fs, done, line);
        UpdatedNext(cfg, fs, done, line);
        done := done + [line];
      }
    }
    assert done + [] == done;
    OkAreIntact(cfg, fs, t, done);
  }

  lemma OkAreIntact(cfg: Config, fs: Files, t: Tally, ls: seq<string>)
    requires Tallies(t, Verdicts(cfg, fs, ls))
    ensures t.ok == IntactCount(cfg, fs, ls)
  {
    hide Verdicts, IntactCount;
    GoodAreIntact(cfg, fs, ls);
  }

  lemma NoLines(cfg: Config, fs: Files)
    ensures Tokens([]) == [] && Tallies(Tally(0, 0, 0, 0), Verdicts(cfg, fs, [])) && Unlines(Updated(cfg, fs, [])) == ""
  {
  }

  lemma NextToken(s: string)
    requires s != []
    ensures s[0] == '\n' ==> Tokens(s) == Tokens(s[1..])
    ensures s[0] != '\n' ==> LineLength(s) > 0 && Tokens(s) == [s[..LineLength(s)]] + Tokens(s[LineLength(s)..])
  {
  }

  lemma VerdictsNext(cfg: Config, fs: Files, ls: seq<string>, raw: string)
    ensures Verdicts(cfg, fs, ls + [raw])
         == Verdicts(cfg, fs, ls) + if ParseLine(raw).Some? then [Check(cfg, fs, ParseLine(raw).value)] else []
    ensures Verdicts(cfg, fs, ls) + [] == Verdicts(cfg, fs, ls)
  {
    hide Check, ParseLine;
    assert (ls + [raw])[..|ls|] == ls;
  }

  lemma UpdatedNext(cfg: Config, fs: Files, ls: seq<string>, raw: string)
    ensures var w := Replacement(cfg, fs, raw);
      Updated(cfg, fs, ls + [raw]) == Updated(cfg, fs, ls) + if w.Some? then [w.value] else []
    ensures Updated(cfg, fs, ls) + [] == Updated(cfg, fs, ls)
  {
    hide Rewritten, ParseLine;
    assert (ls + [raw])[..|ls|] == ls;
  }

  lemma UnlinesNext(u: seq<string>, x: string)
    ensures Unlines(u + [x]) == Unlines(u) + (x + "\n")
  {
    assert (u + [x])[..|u|] == u;
    Assoc(Unlines(u), x, "\n");
  }
}
