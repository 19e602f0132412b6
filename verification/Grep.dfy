/** Context lines of `qgrep`, in line mode: the windows around matches, and the ring that prints them. */
module Grep {
  import opened CStrings

  // ----- lines -----

  /** The line ending, and what follows a stray carriage return, is cut off. */
  function Clean(raw: string): string {
    CutAtLast(CutAtLast(raw, '\n'), '\r')
  }

  function CutAtLast(s: string, c: char): string {
    var p := Strrchr(s, c);
    if p.Some? then s[..p.value] else s
  }

  /** Reading a line gives its text, with either line ending or none. */
  lemma CleanOf(t: string)
    requires '\n' !in t && '\r' !in t
    ensures Clean(t + "\n") == t && Clean(t + "\r\n") == t && Clean(t) == t
  {
    hide Strrchr;
    CutOf(t, '\n', "");
    CutOf(t, '\r', "");
    CutOf(t + "\r", '\n', "");
    CutNone(t, '\n');
    CutNone(t, '\r');
    assert t + "\r\n" == t + "\r" + "\n";
  }

  /** A stray character cuts off what is behind it. */
  lemma CutOf(t: string, c: char, rest: string)
    requires c !in rest
    ensures CutAtLast(t + [c] + rest, c) == t
    ensures rest == "" ==> t + [c] + rest == t + [c]
  {
    StrrchrSplit(t, c, rest);
  }

  lemma CutNone(t: string, c: char)
    requires c !in t
    ensures CutAtLast(t, c) == t
  {
  }

  /** Whether the first character that is no blank or tab is a '#'. */
  lemma {:induction false} CommentIff(text: string)
    ensures Comment(text) <==>
      exists i :: 0 <= i < |text| && text[i] == '#' && forall j :: 0 <= j < i ==> text[j] == ' ' || text[j] == '\t'
  {
    if text != [] && (text[0] == ' ' || text[0] == '\t') {
      var t := text[1..];
      CommentIff(t);
      if Comment(t) {
        var i :| 0 <= i < |t| && t[i] == '#' && forall j :: 0 <= j < i ==> t[j] == ' ' || t[j] == '\t';
        assert text[i + 1] == '#' && forall j :: 0 < j < i + 1 ==> text[j] == t[j - 1];
      }
      assert forall i :: 0 < i < |text| ==> text[i] == t[i - 1];
    } else if Comment(text) {
      assert text[0] == '#';
    }
  }

  predicate Comment(text: string) {
    text != [] && (text[0] == '#' || ((text[0] == ' ' || text[0] == '\t') && Comment(text[1..])))
  }

  /** The options that decide which lines count as matches; the searches are the caller's. */
  datatype Pattern = Pattern(query: string -> bool, skip: Option<string -> bool>, skipComments: bool, invert: bool)

  predicate Selects(p: Pattern, text: string) {
    && !(p.skipComments && Comment(text))
    && !(p.skip.Some? && p.skip.value(text))
    && p.query(text) != p.invert
  }

  /** Comments and skipped lines are never selected; of the others the lines that match are, or with inversion
      the ones that do not. */
  lemma SelectsMeans(p: Pattern, text: string)
    ensures var left := (p.skipComments && Comment(text)) || (p.skip.Some? && p.skip.value(text));
      && (left ==> !Selects(p, text))
      && (!left && !p.invert ==> (Selects(p, text) <==> p.query(text)))
      && (!left && p.invert ==> (Selects(p, text) <==> !p.query(text)))
  {
  }

  /** Counts of leading and trailing context lines, as the option values are stored: in a signed char. */
  datatype Context = Context(before: int, after: int)

  function AsChar(n: int): int {
    (n + 128) % 256 - 128
  }

  // ----- what is to be printed -----

  datatype Shown = Separator | Line(number: int, text: string, hit: bool)

  predicate HitAt(p: Pattern, ts: seq<string>, m: int) {
    0 <= m < |ts| && Selects(p, ts[m])
  }

  /** A line is shown when it lies in the window around some match. */
  ghost predicate Inside(p: Pattern, c: Context, ts: seq<string>, i: int) {
    exists m :: HitAt(p, ts, m) && m - c.before <= i <= m + c.after
  }

  ghost predicate SomeInside(p: Pattern, c: Context, ts: seq<string>, i: int) {
    exists j :: 0 <= j < i && Inside(p, c, ts, j)
  }

  /** A separator comes before a shown line when context was asked for, earlier lines were shown,
      but not the one right before. */
  ghost predicate Separated(p: Pattern, c: Context, ts: seq<string>, i: int) {
    (c.before != 0 || c.after != 0) && SomeInside(p, c, ts, i) && !Inside(p, c, ts, i - 1)
  }

  ghost function LineOf(p: Pattern, ts: seq<string>, i: nat): Shown
    requires i < |ts|
  {
    Line(i + 1, ts[i], Selects(p, ts[i]))
  }

  ghost function Piece(p: Pattern, c: Context, ts: seq<string>, i: nat): seq<Shown>
    requires i < |ts|
  {
    if Inside(p, c, ts, i) then
      (if Separated(p, c, ts, i) then [Separator] else []) + [LineOf(p, ts, i)]
    else []
  }

  /** The first `n` lines of the union of the windows around all matches, each once and in order. */
  ghost function WindowsTo(p: Pattern, c: Context, ts: seq<string>, n: nat): seq<Shown>
    requires n <= |ts|
  {
    if n == 0 then [] else WindowsTo(p, c, ts, n - 1) + Piece(p, c, ts, n - 1)
  }

  ghost function Windows(p: Pattern, c: Context, ts: seq<string>): seq<Shown> {
    WindowsTo(p, c, ts, |ts|)
  }

  /** The line numbers that an output shows. */
  function Numbers(out: seq<Shown>): seq<int> {
    if out == [] then []
    else Numbers(out[..|out| - 1]) + if out[|out| - 1].Line? then [out[|out| - 1].number] else []
  }

  lemma NumbersOfPiece(p: Pattern, c: Context, ts: seq<string>, n: nat, out: seq<Shown>)
    requires n < |ts|
    ensures Numbers(out + Piece(p, c, ts, n)) == Numbers(out) + if Inside(p, c, ts, n) then [n + 1] else []
  {
    hide Inside, Separated;
    var l := LineOf(p, ts, n);
    assert out + [] == out && Numbers(out) + [] == Numbers(out);
    assert (out + [l])[..|out|] == out;
    assert (out + [Separator])[..|out|] == out;
    assert out + ([Separator] + [l]) == (out + [Separator]) + [l];
    assert ((out + [Separator]) + [l])[..|out| + 1] == out + [Separator];
    assert [] + [l] == [l];
  }

  /** These are the numbers of the first `n` lines that lie inside some window. */
  ghost predicate InsideNumbers(p: Pattern, c: Context, ts: seq<string>, n: nat, ns: seq<int>) {
    Rising(ns, n) && OnlyInside(p, c, ts, ns) && AllInside(p, c, ts, n, ns)
  }

  ghost predicate Rising(ns: seq<int>, n: nat) {
    && (forall i, j :: 0 <= i < j < |ns| ==> ns[i] < ns[j])
    && (forall i :: 0 <= i < |ns| ==> 1 <= ns[i] <= n)
  }

  ghost predicate OnlyInside(p: Pattern, c: Context, ts: seq<string>, ns: seq<int>) {
    forall i :: 0 <= i < |ns| ==> Inside(p, c, ts, ns[i] - 1)
  }

  ghost predicate AllInside(p: Pattern, c: Context, ts: seq<string>, n: nat, ns: seq<int>) {
    forall i :: 0 <= i < n && Inside(p, c, ts, i) ==> i + 1 in ns
  }

  lemma RisingNext(ns: seq<int>, n: nat)
    requires Rising(ns, n)
    ensures Rising(ns, n + 1) && Rising(ns + [n + 1], n + 1)
  {
  }

  lemma InsideNumbersNext(p: Pattern, c: Context, ts: seq<string>, n: nat, ns: seq<int>)
    requires InsideNumbers(p, c, ts, n, ns)
    ensures InsideNumbers(p, c, ts, n + 1, ns + if Inside(p, c, ts, n) then [n + 1] else [])
  {
    hide Inside, Rising;
    RisingNext(ns, n);
    if Inside(p, c, ts, n) {
      assert (ns + [n + 1])[|ns|] == n + 1;
    } else {
      assert ns + [] == ns;
    }
  }

  /** The windows show exactly the lines inside some window, each once and in increasing order. */
  lemma {:induction false} ShownOnceInOrder(p: Pattern, c: Context, ts: seq<string>, n: nat)
    requires n <= |ts|
    ensures InsideNumbers(p, c, ts, n, Numbers(WindowsTo(p, c, ts, n)))
  {
    hide Inside, Piece, Numbers, InsideNumbers;
    if n > 0 {
      ShownOnceInOrder(p, c, ts, n - 1);
      NumbersOfPiece(p, c, ts, n - 1, WindowsTo(p, c, ts, n - 1));
      InsideNumbersNext(p, c, ts, n - 1, Numbers(WindowsTo(p, c, ts, n - 1)));
    } else {
      NoNumbers(p, c, ts);
    }
  }

  lemma NoNumbers(p: Pattern, c: Context, ts: seq<string>)
    ensures InsideNumbers(p, c, ts, 0, Numbers([]))
  {
  }

  // ----- the machine -----

  /** A buffer of the circular list; `valid` says that the line may still be printed as context. */
  datatype Cell = Cell(valid: bool, buf: string)

  /** `ring` starts at the current buffer and follows `next`. */
  datatype State = State(ring: seq<Cell>, lineno: nat, needSeparator: int, remaining: int, status: int, out: seq<Shown>)

  /** Position of the buffer `j` steps after the current one. */
  function Wrap(j: nat, n: nat): (r: nat)
    requires n > 0
    ensures r < n
    ensures j < n ==> r == j
  {
    if j < n then j else Wrap(j - n, n)
  }

  lemma {:induction false} WrapNext(j: nat, n: nat)
    requires n > 0
    ensures Wrap(j + 1, n) == if Wrap(j, n) + 1 == n then 0 else Wrap(j, n) + 1
  {
    if j >= n {
      WrapNext(j - n, n);
    }
  }

  /** The walk that prints the leading context, from the `j`th buffer after the current one. */
  function PrintBefore(ring: seq<Cell>, j: nat, before: int, number: int): (r: (seq<Cell>, seq<Shown>))
    requires ring != []
    ensures |r.0| == |ring|
    decreases before - j
  {
    if j > before then (ring, [])
    else
      var w := Wrap(j, |ring|);
      if ring[w].valid then
        var (r, o) := PrintBefore(ring[w := ring[w].(valid := false)], j + 1, before, number);
        (r, [Line(number - before + j - 1, ring[w].buf, false)] + o)
      else PrintBefore(ring, j + 1, before, number)
  }

  lemma PrintStep(cells: seq<Cell>, j: nat, before: int, number: int)
    requires cells != []
    ensures j > before ==> PrintBefore(cells, j, before, number) == (cells, [])
    ensures var w := Wrap(j, |cells|); j <= before && !cells[w].valid ==>
      PrintBefore(cells, j, before, number) == PrintBefore(cells, j + 1, before, number)
    ensures var w := Wrap(j, |cells|); j <= before && cells[w].valid ==>
      var rest := PrintBefore(cells[w := cells[w].(valid := false)], j + 1, before, number);
      PrintBefore(cells, j, before, number) == (rest.0, [Line(number - before + j - 1, cells[w].buf, false)] + rest.1)
  {
  }

  function Advance(ring: seq<Cell>, text: string): (r: seq<Cell>)
    requires ring != []
    ensures |r| == |ring|
  {
    if |ring| == 1 then [Cell(true, text)] else [Cell(true, text)] + ring[2..] + [ring[0]]
  }

  function Spent(ring: seq<Cell>): seq<Cell>
    requires ring != []
  {
    ring[0 := ring[0].(valid := false)]
  }

  /** One line of the file. */
  function Step(p: Pattern, c: Context, s: State, text: string): (r: State)
    requires s.ring != []
    ensures |r.ring| == |s.ring|
  {
    var ring, n := Advance(s.ring, text), s.lineno + 1;
    if Selects(p, text) then
      var sep := if s.needSeparator > 0 && (c.before != 0 || c.after != 0) then [Separator] else [];
      var (r, o) := PrintBefore(ring, 1, c.before, n);
      State(Spent(r), n, -c.before, c.after, 0, s.out + sep + o + [Line(n, r[0].buf, true)])
    else if s.remaining == 0 then
      State(ring, n, if s.status == 0 then s.needSeparator + 1 else s.needSeparator, 0, s.status, s.out)
    else State(Spent(ring), n, s.needSeparator, s.remaining - 1, s.status, s.out + [Line(n, text, false)])
  }

  function Run(p: Pattern, c: Context, s: State, ts: seq<string>): (r: State)
    requires s.ring != []
    ensures |r.ring| == |s.ring|
  {
    if ts == [] then s else Step(p, c, Run(p, c, s, ts[..|ts| - 1]), ts[|ts| - 1])
  }

  predicate Invalid(ring: seq<Cell>) {
    forall k :: 0 <= k < |ring| ==> !ring[k].valid
  }

  function Start(ring: seq<Cell>): State {
    State(ring, 0, 0, 0, 1, [])
  }

  // ----- the last match -----

  /** Index after the last match, 0 when there is none. */
  function AfterLast(p: Pattern, ts: seq<string>): (n: nat)
    ensures n <= |ts|
    ensures n > 0 ==> HitAt(p, ts, n - 1)
    ensures forall m :: n <= m < |ts| ==> !HitAt(p, ts, m)
  {
    if ts == [] then 0
    else if Selects(p, ts[|ts| - 1]) then |ts|
    else
      var n := AfterLast(p, ts[..|ts| - 1]);
      assert n > 0 ==> ts[..|ts| - 1][n - 1] == ts[n - 1];
      assert forall m :: n <= m < |ts| - 1 ==> HitAt(p, ts, m) == HitAt(p, ts[..|ts| - 1], m);
      n
  }

  /** Lines from here on have not been shown: one after the trailing context of the last match. */
  function End(p: Pattern, c: Context, ts: seq<string>): int {
    var n := AfterLast(p, ts);
    if n == 0 then 0 else if n + c.after < |ts| then n + c.after else |ts|
  }

  /** The buffer `k` steps after the current one holds this line. */
  function Held(k: nat, c: Context, n: nat): int {
    if k == 0 then n - 1 else n - 2 - c.before + k
  }

  predicate CellOk(p: Pattern, c: Context, ts: seq<string>, cell: Cell, i: int) {
    if i < 0 then !cell.valid
    else i < |ts| && cell.buf == ts[i] && (cell.valid <==> i >= End(p, c, ts))
  }

  predicate RingOk(p: Pattern, c: Context, ts: seq<string>, ring: seq<Cell>) {
    |ring| == c.before + 1 && forall k :: 0 <= k < |ring| ==> CellOk(p, c, ts, ring[k], Held(k, c, |ts|))
  }

  /** What the machine's variables are after the lines `ts`. */
  ghost predicate StateOk(p: Pattern, c: Context, ts: seq<string>, s: State)
    requires c.before >= 0 && c.after >= 0
  {
    var n := AfterLast(p, ts);
    && RingOk(p, c, ts, s.ring) && s.lineno == |ts|
    && (s.status == 0 <==> n > 0) && (s.status == 0 || s.status == 1)
    && s.remaining == (if n == 0 || n + c.after <= |ts| then 0 else n + c.after - |ts|)
    && s.needSeparator == (if n == 0 then 0 else |ts| - End(p, c, ts) - c.before)
    && s.out == Windows(p, c, ts)
  }

  // ----- windows, one line at a time -----

  lemma HitsOfPrefix(p: Pattern, ts: seq<string>, t: string)
    ensures forall m :: HitAt(p, ts + [t], m) <==> HitAt(p, ts, m) || (m == |ts| && Selects(p, t))
  {
  }

  /** A line that does not match opens no window; one that does opens one around itself. */
  lemma InsideNext(p: Pattern, c: Context, ts: seq<string>, t: string, i: int)
    ensures Inside(p, c, ts + [t], i)
       <==> Inside(p, c, ts, i) || (Selects(p, t) && |ts| - c.before <= i <= |ts| + c.after)
  {
    hide Selects;
    HitsOfPrefix(p, ts, t);
    if Inside(p, c, ts, i) {
      var m :| HitAt(p, ts, m) && m - c.before <= i <= m + c.after;
      assert HitAt(p, ts + [t], m);
    }
    if Selects(p, t) && |ts| - c.before <= i <= |ts| + c.after {
      assert HitAt(p, ts + [t], |ts|);
    }
  }

  /** From the last match on only its own window counts. */
  lemma InsideLast(p: Pattern, c: Context, ts: seq<string>, i: int)
    requires c.before >= 0 && c.after >= 0
    ensures var n := AfterLast(p, ts); i >= n ==> (Inside(p, c, ts, i) <==> n > 0 && i < n + c.after)
    ensures var n := AfterLast(p, ts); n > 0 && n - 1 - c.before <= i < n + c.after ==> Inside(p, c, ts, i)
  {
    hide Selects;
    var n := AfterLast(p, ts);
    if i >= n && Inside(p, c, ts, i) {
      var m :| HitAt(p, ts, m) && m - c.before <= i <= m + c.after;
      assert m < n;
    }
    if n > 0 && n - 1 - c.before <= i < n + c.after {
      assert HitAt(p, ts, n - 1);
    }
  }

  /** Lines before the window of a new match keep their piece. */
  lemma {:induction false} WindowsKept(p: Pattern, c: Context, ts: seq<string>, t: string, n: nat)
    requires c.before >= 0 && c.after >= 0 && n <= |ts|
    requires Selects(p, t) ==> n <= From(p, c, ts)
    ensures WindowsTo(p, c, ts + [t], n) == WindowsTo(p, c, ts, n)
  {
    hide Selects, Inside, End, Piece, From;
    if n > 0 {
      WindowsKept(p, c, ts, t, n - 1);
      PieceBefore(p, c, ts, t, n);
    }
  }

  lemma PieceBefore(p: Pattern, c: Context, ts: seq<string>, t: string, n: nat)
    requires c.before >= 0 && c.after >= 0 && 0 < n <= |ts|
    requires Selects(p, t) ==> n <= From(p, c, ts)
    ensures Piece(p, c, ts + [t], n - 1) == Piece(p, c, ts, n - 1)
  {
    hide Selects, Inside, Piece, From;
    forall i | 0 <= i < n ensures Inside(p, c, ts + [t], i) == Inside(p, c, ts, i) {
      InsideKept(p, c, ts, t, n, i);
    }
    PieceKept(p, c, ts, t, n - 1);
  }

  lemma InsideKept(p: Pattern, c: Context, ts: seq<string>, t: string, n: nat, i: int)
    requires c.before >= 0 && c.after >= 0 && 0 <= i < n <= |ts|
    requires Selects(p, t) ==> n <= From(p, c, ts)
    ensures Inside(p, c, ts + [t], i) == Inside(p, c, ts, i)
  {
    InsideNext(p, c, ts, t, i);
    InsideLast(p, c, ts, i);
    hide Selects, Inside, AfterLast;
    var l := AfterLast(p, ts);
    assert l <= |ts|;
    if Selects(p, t) && |ts| - c.before <= i {
      assert l > 0 && i < l + c.after;
    }
  }

  lemma PieceKept(p: Pattern, c: Context, ts: seq<string>, t: string, n: nat)
    requires n < |ts| && forall i :: 0 <= i <= n ==> Inside(p, c, ts + [t], i) == Inside(p, c, ts, i)
    ensures Piece(p, c, ts + [t], n) == Piece(p, c, ts, n)
  {
    hide Selects, Inside;
    var us := ts + [t];
    assert us[n] == ts[n];
    if SomeInside(p, c, ts, n) {
      var j :| 0 <= j < n && Inside(p, c, ts, j);
      assert Inside(p, c, us, j);
    }
    if SomeInside(p, c, us, n) {
      var j :| 0 <= j < n && Inside(p, c, us, j);
      assert Inside(p, c, ts, j);
    }
  }

  /** After a line that does not match: the line itself, when it trails the last match. */
  lemma WindowsMiss(p: Pattern, c: Context, ts: seq<string>, t: string)
    requires c.before >= 0 && c.after >= 0 && !Selects(p, t)
    ensures Windows(p, c, ts + [t])
         == Windows(p, c, ts)
          + if 0 < AfterLast(p, ts) && |ts| < AfterLast(p, ts) + c.after then [Line(|ts| + 1, t, false)] else []
  {
    hide Selects, AfterLast, WindowsTo, Windows, End;
    var us := ts + [t];
    WindowsKept(p, c, ts, t, |ts|);
    LastPiece(p, c, ts, t);
    MissPiece(p, c, ts, t);
    hide Inside, Piece;
  }

  lemma MissPiece(p: Pattern, c: Context, ts: seq<string>, t: string)
    requires c.before >= 0 && c.after >= 0 && !Selects(p, t)
    ensures Piece(p, c, ts + [t], |ts|)
         == if 0 < AfterLast(p, ts) && |ts| < AfterLast(p, ts) + c.after then [Line(|ts| + 1, t, false)] else []
  {
    hide Selects, Inside, AfterLast;
    InsideNext(p, c, ts, t, |ts|);
    InsideNext(p, c, ts, t, |ts| - 1);
    InsideLast(p, c, ts, |ts|);
    InsideLast(p, c, ts, |ts| - 1);
    assert (ts + [t])[|ts|] == t;
  }

  /** Where the leading context of a match in the next line starts. */
  function From(p: Pattern, c: Context, ts: seq<string>): (r: nat)
    requires c.before >= 0 && c.after >= 0
    ensures r <= |ts|
  {
    var e := End(p, c, ts);
    if |ts| - c.before > e then |ts| - c.before else if e < 0 then 0 else e
  }

  /** The lines from `i` up to `j`, as context. */
  function ContextLines(ts: seq<string>, i: nat, j: nat): seq<Shown>
    requires i <= j <= |ts|
    decreases j - i
  {
    if i == j then [] else [Line(i + 1, ts[i], false)] + ContextLines(ts, i + 1, j)
  }

  /** Lines were left out between the last window and the one of a match in the next line. */
  predicate Gap(p: Pattern, c: Context, ts: seq<string>) {
    (c.before != 0 || c.after != 0) && 0 < AfterLast(p, ts) && |ts| - c.before > End(p, c, ts)
  }

  /** The separator, if one is needed, comes before the first line of the new window and no other. */
  lemma SeparatedByGap(p: Pattern, c: Context, ts: seq<string>, t: string, i: nat)
    requires c.before >= 0 && c.after >= 0 && Selects(p, t) && From(p, c, ts) <= i <= |ts|
    ensures Inside(p, c, ts + [t], i)
    ensures Separated(p, c, ts + [t], i) <==> i == From(p, c, ts) && Gap(p, c, ts)
  {
    hide Selects, Inside, AfterLast;
    var us, start, n := ts + [t], From(p, c, ts), AfterLast(p, ts);
    InsideNext(p, c, ts, t, i);
    InsideNext(p, c, ts, t, i - 1);
    InsideLast(p, c, ts, i - 1);
    if i == start && n > 0 {
      InsideLast(p, c, ts, n - 1);
      InsideNext(p, c, ts, t, n - 1);
    }
    if i == start && n == 0 && SomeInside(p, c, us, i) {
      var j :| 0 <= j < i && Inside(p, c, us, j);
      InsideNext(p, c, ts, t, j);
      InsideLast(p, c, ts, j);
    }
  }

  lemma PieceGrow(p: Pattern, c: Context, ts: seq<string>, t: string, i: nat)
    requires c.before >= 0 && c.after >= 0 && Selects(p, t) && From(p, c, ts) <= i <= |ts|
    ensures Piece(p, c, ts + [t], i)
         == (if i == From(p, c, ts) && Gap(p, c, ts) then [Separator] else []) + [Line(i + 1, (ts + [t])[i], i == |ts|)]
  {
    hide Inside, Separated, Gap;
    SeparatedByGap(p, c, ts, t, i);
    assert i < |ts| ==> !HitAt(p, ts, i);
  }

  lemma {:induction false} WindowsGrow(p: Pattern, c: Context, ts: seq<string>, t: string, n: nat)
    requires c.before >= 0 && c.after >= 0 && Selects(p, t) && From(p, c, ts) < n <= |ts|
    ensures WindowsTo(p, c, ts + [t], n)
         == WindowsTo(p, c, ts + [t], From(p, c, ts)) + (if Gap(p, c, ts) then [Separator] else [])
          + ContextLines(ts, From(p, c, ts), n)
    decreases n
  {
    hide Piece, Selects, Gap, From;
    var start := From(p, c, ts);
    PieceGrow(p, c, ts, t, n - 1);
    ContextLinesNext(ts, start, n - 1);
    if n - 1 > start {
      WindowsGrow(p, c, ts, t, n - 1);
    }
  }

  lemma {:induction false} ContextLinesNext(ts: seq<string>, i: nat, j: nat)
    requires i <= j < |ts|
    ensures ContextLines(ts, i, j + 1) == ContextLines(ts, i, j) + [Line(j + 1, ts[j], false)]
    decreases j - i
  {
    if i < j {
      ContextLinesNext(ts, i + 1, j);
    } else {
      assert ContextLines(ts, j + 1, j + 1) == [];
    }
  }

  /** After a line that matches: a separator when lines were left out since the last window, the leading
      context that has not been shown, and the line. */
  lemma WindowsHit(p: Pattern, c: Context, ts: seq<string>, t: string)
    requires c.before >= 0 && c.after >= 0 && Selects(p, t)
    ensures Windows(p, c, ts + [t])
         == Windows(p, c, ts)
          + (if Gap(p, c, ts) then [Separator] else [])
          + ContextLines(ts, From(p, c, ts), |ts|) + [Line(|ts| + 1, t, true)]
  {
    hide Selects, Inside, AfterLast, Piece, Gap, From, End, WindowsTo, Windows, ContextLines;
    var us, start := ts + [t], From(p, c, ts);
    WindowsKept(p, c, ts, t, start);
    NothingSince(p, c, ts, |ts|);
    LastPiece(p, c, ts, t);
    var w, g, x := Windows(p, c, ts), if Gap(p, c, ts) then [Separator] else [], [Line(|ts| + 1, t, true)];
    PieceGrow(p, c, ts, t, |ts|);
    if start < |ts| {
      WindowsGrow(p, c, ts, t, |ts|);
      assert [] + x == x;
    } else {
      NoLines(ts, |ts|);
      Assoc(w, g, x);
      assert w + g + [] == w + g;
    }
  }

  lemma NoLines(ts: seq<string>, i: nat)
    requires i <= |ts|
    ensures ContextLines(ts, i, i) == []
  {
  }

  lemma LastPiece(p: Pattern, c: Context, ts: seq<string>, t: string)
    ensures Windows(p, c, ts + [t]) == WindowsTo(p, c, ts + [t], |ts|) + Piece(p, c, ts + [t], |ts|)
    ensures Windows(p, c, ts) == WindowsTo(p, c, ts, |ts|)
    ensures (ts + [t])[|ts|] == t
  {
    hide Piece;
  }

  /** No line from `From` on has been shown yet. */
  lemma {:induction false} NothingSince(p: Pattern, c: Context, ts: seq<string>, n: nat)
    requires c.before >= 0 && c.after >= 0 && From(p, c, ts) <= n <= |ts|
    ensures WindowsTo(p, c, ts, n) == WindowsTo(p, c, ts, From(p, c, ts))
    decreases n
  {
    hide Selects, Inside, AfterLast, Separated;
    if n > From(p, c, ts) {
      NothingSince(p, c, ts, n - 1);
      InsideLast(p, c, ts, n - 1);
    }
  }

  // ----- the machine keeps its promise -----

  lemma AfterLastNext(p: Pattern, c: Context, ts: seq<string>, t: string)
    ensures AfterLast(p, ts + [t]) == if Selects(p, t) then |ts| + 1 else AfterLast(p, ts)
  {
    assert (ts + [t])[..|ts|] == ts;
  }

  /** The buffers that are not current, after the next line has been read. */
  ghost predicate BehindOk(p: Pattern, c: Context, ts: seq<string>, ring: seq<Cell>, j: nat) {
    |ring| == c.before + 1 && forall k :: j <= k < |ring| ==> CellOk(p, c, ts, ring[k], Held(k, c, |ts| + 1))
  }

  lemma AdvanceOk(p: Pattern, c: Context, ts: seq<string>, ring: seq<Cell>, t: string)
    requires RingOk(p, c, ts, ring) && ring != []
    ensures BehindOk(p, c, ts, Advance(ring, t), 1)
    ensures Advance(ring, t)[0] == Cell(true, t)
  {
    hide CellOk;
    var r := Advance(ring, t);
    forall k | 1 <= k < |r| ensures CellOk(p, c, ts, r[k], Held(k, c, |ts| + 1)) {
      if k < |r| - 1 {
        assert r[k] == ring[k + 1] && Held(k + 1, c, |ts|) == Held(k, c, |ts| + 1);
      } else {
        assert r[k] == ring[0] && Held(0, c, |ts|) == Held(k, c, |ts| + 1);
      }
    }
  }

  /** The walk prints what has not been shown of the window, with the right line numbers, and leaves
      no buffer valid. */
  lemma {:induction false} PrintBeforeIs(p: Pattern, c: Context, ts: seq<string>, ring: seq<Cell>, j: nat)
    requires c.before >= 0 && c.after >= 0 && 1 <= j <= c.before + 1 && BehindOk(p, c, ts, ring, j)
    ensures var (r, o) := PrintBefore(ring, j, c.before, |ts| + 1);
      && o == ContextLines(ts, Max(From(p, c, ts), Held(j, c, |ts| + 1)), |ts|)
      && |r| == |ring|
      && (forall k :: 0 <= k < j ==> r[k] == ring[k])
      && (forall k :: j <= k < |ring| ==> r[k] == ring[k].(valid := false))
    decreases c.before - j
  {
    hide AfterLast;
    if j <= c.before {
      var i := Held(j, c, |ts| + 1);
      assert CellOk(p, c, ts, ring[j], i);
      if ring[j].valid {
        PrintBeforeIs(p, c, ts, ring[j := ring[j].(valid := false)], j + 1);
      } else {
        PrintBeforeIs(p, c, ts, ring, j + 1);
        assert ring[j] == ring[j].(valid := false);
      }
    }
  }

  lemma MissStep(p: Pattern, c: Context, ts: seq<string>, s: State, t: string)
    requires c.before >= 0 && c.after >= 0 && StateOk(p, c, ts, s) && !Selects(p, t)
    ensures StateOk(p, c, ts + [t], Step(p, c, s, t))
  {
    hide Selects, Windows, AfterLast, BehindOk, RingOk, Advance;
    assert s.ring != [] by { RingSized(p, c, ts, s.ring); }
    AfterLastNext(p, c, ts, t);
    AdvanceOk(p, c, ts, s.ring, t);
    WindowsMiss(p, c, ts, t);
    var ring := Advance(s.ring, t);
    assert s.out + [] == s.out;
    MissRing(p, c, ts, t, ring, s.remaining == 0);
  }

  lemma RingSized(p: Pattern, c: Context, ts: seq<string>, ring: seq<Cell>)
    requires RingOk(p, c, ts, ring)
    ensures |ring| == c.before + 1
  {
  }

  lemma MissRing(p: Pattern, c: Context, ts: seq<string>, t: string, ring: seq<Cell>, idle: bool)
    requires c.before >= 0 && c.after >= 0 && !Selects(p, t)
    requires BehindOk(p, c, ts, ring, 1) && ring[0] == Cell(true, t)
    requires AfterLast(p, ts + [t]) == AfterLast(p, ts)
    requires idle <==> AfterLast(p, ts) == 0 || AfterLast(p, ts) + c.after <= |ts|
    ensures RingOk(p, c, ts + [t], if idle then ring else Spent(ring))
  {
    hide AfterLast, Selects;
    var r := if idle then ring else Spent(ring);
    forall k | 0 <= k < |r| ensures CellOk(p, c, ts + [t], r[k], Held(k, c, |ts| + 1)) {
      if k > 0 {
        assert CellOk(p, c, ts, ring[k], Held(k, c, |ts| + 1));
      }
    }
  }

  lemma HitStep(p: Pattern, c: Context, ts: seq<string>, s: State, t: string)
    requires c.before >= 0 && c.after >= 0 && StateOk(p, c, ts, s) && Selects(p, t)
    ensures StateOk(p, c, ts + [t], Step(p, c, s, t))
  {
    hide Selects, Windows, AfterLast, BehindOk, RingOk, Advance, PrintBefore, ContextLines;
    assert s.ring != [] by { RingSized(p, c, ts, s.ring); }
    AfterLastNext(p, c, ts, t);
    AdvanceOk(p, c, ts, s.ring, t);
    WindowsHit(p, c, ts, t);
    var ring := Advance(s.ring, t);
    PrintBeforeIs(p, c, ts, ring, 1);
    assert Max(From(p, c, ts), Held(1, c, |ts| + 1)) == From(p, c, ts);
    HitRing(p, c, ts, t, ring, PrintBefore(ring, 1, c.before, |ts| + 1).0);
  }

  lemma HitRing(p: Pattern, c: Context, ts: seq<string>, t: string, ring: seq<Cell>, r: seq<Cell>)
    requires c.before >= 0 && c.after >= 0 && Selects(p, t)
    requires BehindOk(p, c, ts, ring, 1) && ring[0] == Cell(true, t) && |r| == |ring| && r[0] == ring[0]
    requires forall k :: 1 <= k < |ring| ==> r[k] == ring[k].(valid := false)
    requires AfterLast(p, ts + [t]) == |ts| + 1
    ensures RingOk(p, c, ts + [t], Spent(r))
  {
    hide AfterLast, Selects;
    forall k | 0 <= k < |r| ensures CellOk(p, c, ts + [t], Spent(r)[k], Held(k, c, |ts| + 1)) {
      if k > 0 {
        assert CellOk(p, c, ts, ring[k], Held(k, c, |ts| + 1));
      }
    }
  }

  /** Line mode prints exactly the union of the windows, each line once and in order, with a separator
      exactly where shown lines are not adjacent. */
  lemma {:induction false} RunIsWindows(p: Pattern, c: Context, ring: seq<Cell>, ts: seq<string>)
    requires c.before >= 0 && c.after >= 0 && |ring| == c.before + 1 && Invalid(ring)
    ensures StateOk(p, c, ts, Run(p, c, Start(ring), ts))
  {
    hide StateOk, Step;
    if ts == [] {
      StartOk(p, c, ring);
    } else {
      var t := ts[|ts| - 1];
      RunIsWindows(p, c, ring, ts[..|ts| - 1]);
      assert ts == ts[..|ts| - 1] + [t];
      if Selects(p, t) {
        HitStep(p, c, ts[..|ts| - 1], Run(p, c, Start(ring), ts[..|ts| - 1]), t);
      } else {
        MissStep(p, c, ts[..|ts| - 1], Run(p, c, Start(ring), ts[..|ts| - 1]), t);
      }
    }
  }

  lemma StartOk(p: Pattern, c: Context, ring: seq<Cell>)
    requires c.before >= 0 && c.after >= 0 && |ring| == c.before + 1 && Invalid(ring)
    ensures StateOk(p, c, [], Start(ring))
  {
  }

  // ----- 127 leading lines: the ring is too small -----

  lemma {:induction false} SpentPrintsNothing(ring: seq<Cell>, j: nat, before: int, number: int)
    requires |ring| == 1 && !ring[0].valid
    ensures PrintBefore(ring, j, before, number) == (ring, [])
    decreases before - j
  {
    if j <= before {
      SpentPrintsNothing(ring, j + 1, before, number);
    }
  }

  lemma {:induction false} Quiet(p: Pattern, c: Context, ring: seq<Cell>, ts: seq<string>)
    requires ring != [] && AfterLast(p, ts) == 0
    ensures var s := Run(p, c, Start(ring), ts); s == State(s.ring, |ts|, 0, 0, 1, [])
    ensures Windows(p, c, ts) == []
  {
    hide Selects, PrintBefore, Advance;
    if ts != [] {
      var r := ts[..|ts| - 1];
      assert ts == r + [ts[|ts| - 1]];
      AfterLastNext(p, c, r, ts[|ts| - 1]);
      Quiet(p, c, ring, r);
    }
    NothingInside(p, c, ts, |ts|);
  }

  lemma {:induction false} NothingInside(p: Pattern, c: Context, ts: seq<string>, n: nat)
    requires AfterLast(p, ts) == 0 && n <= |ts|
    ensures WindowsTo(p, c, ts, n) == []
  {
    hide AfterLast, Selects;
    if n > 0 {
      NothingInside(p, c, ts, n - 1);
    }
  }

  /** The first match prints the matching line as its own context, and then again. */
  lemma FirstMatchTwice(p: Pattern, c: Context, ring: seq<Cell>, ts: seq<string>, t: string)
    requires |ring| == 1 && c.before > 0 && AfterLast(p, ts) == 0 && Selects(p, t)
    ensures Run(p, c, Start(ring), ts + [t]).out == [Line(|ts| + 1 - c.before, t, false), Line(|ts| + 1, t, true)]
  {
    hide Selects, AfterLast, Run, Step, Windows;
    assert Start(ring).ring == ring;
    hide *;
    Quiet(p, c, ring, ts);
    RunSnoc(p, c, Start(ring), ts, t);
    OneCellStep(p, c, Run(p, c, Start(ring), ts), t);
  }

  lemma OneCellStep(p: Pattern, c: Context, s: State, t: string)
    requires |s.ring| == 1 && s.needSeparator == 0 && s.out == [] && c.before > 0 && Selects(p, t)
    ensures Step(p, c, s, t).out == [Line(s.lineno + 1 - c.before, t, false), Line(s.lineno + 1, t, true)]
  {
    hide PrintBefore, Wrap, Selects;
    var cells, n := [Cell(true, t)], s.lineno + 1;
    PrintStep(cells, 1, c.before, n);
    WrapOne(1);
    assert cells[0 := cells[0].(valid := false)] == [Cell(false, t)];
    SpentPrintsNothing([Cell(false, t)], 2, c.before, n);
    var o := [Line(n - c.before, t, false)];
    assert o + [] == o;
    assert PrintBefore(cells, 1, c.before, n) == ([Cell(false, t)], o);
    assert Advance(s.ring, t) == cells;
    assert [] + [] + o + [Line(n, t, true)] == [Line(n - c.before, t, false), Line(n, t, true)];
  }

  lemma {:induction false} WrapOne(j: nat)
    ensures Wrap(j, 1) == 0
  {
  }

  lemma RunSnoc(p: Pattern, c: Context, s: State, ts: seq<string>, t: string)
    requires s.ring != []
    ensures Run(p, c, s, ts + [t]) == Step(p, c, Run(p, c, s, ts), t)
  {
    hide Step;
    assert (ts + [t])[..|ts|] == ts;
  }

  lemma {:induction false} OutputGrows(p: Pattern, c: Context, ring: seq<Cell>, ts: seq<string>, n: nat)
    requires ring != [] && n <= |ts|
    ensures Run(p, c, Start(ring), ts[..n]).out <= Run(p, c, Start(ring), ts).out
  {
    hide Selects, PrintBefore, Advance;
    if n < |ts| {
      assert ts[..|ts| - 1][..n] == ts[..n];
      OutputGrows(p, c, ring, ts[..|ts| - 1], n);
    } else {
      assert ts[..n] == ts;
    }
  }

  lemma {:induction false} WindowsGrowing(p: Pattern, c: Context, ts: seq<string>, n: nat)
    requires c.before >= 0 && c.after >= 0 && n <= |ts|
    ensures Windows(p, c, ts[..n]) <= Windows(p, c, ts)
  {
    hide Selects, Windows, AfterLast;
    if n < |ts| {
      var r, t := ts[..|ts| - 1], ts[|ts| - 1];
      assert r[..n] == ts[..n] && ts == r + [t];
      WindowsGrowing(p, c, r, n);
      if Selects(p, t) {
        WindowsHit(p, c, r, t);
      } else {
        WindowsMiss(p, c, r, t);
      }
    } else {
      assert ts[..n] == ts;
    }
  }

  /** The line after which the first match is found. */
  lemma {:induction false} FirstHit(p: Pattern, ts: seq<string>) returns (n: nat)
    requires AfterLast(p, ts) > 0
    ensures n < |ts| && AfterLast(p, ts[..n]) == 0 && Selects(p, ts[n])
  {
    hide Selects;
    n := |ts| - 1;
    if AfterLast(p, ts[..n]) > 0 {
      n := FirstHit(p, ts[..n]);
      assert ts[..|ts| - 1][..n] == ts[..n];
    }
  }

  /** With one buffer where 128 were meant, the output is right exactly when no line matches. */
  lemma LimitFails(p: Pattern, c: Context, ring: seq<Cell>, ts: seq<string>)
    requires |ring| == 1 && c.before == 127 && c.after >= 0
    ensures Run(p, c, Start(ring), ts).out == Windows(p, c, ts) <==> AfterLast(p, ts) == 0
  {
    hide Selects, Windows, Run, AfterLast;
    if AfterLast(p, ts) == 0 {
      Quiet(p, c, ring, ts);
    } else {
      var n := FirstHit(p, ts);
      var u, t := ts[..n], ts[n];
      assert ts[..n + 1] == u + [t];
      FirstMatchTwice(p, c, ring, u, t);
      Quiet(p, c, ring, u);
      WindowsHit(p, c, u, t);
      OutputGrows(p, c, ring, ts, n + 1);
      WindowsGrowing(p, c, ts, n + 1);
      FirstOfWindow(p, c, u, t);
      assert Run(p, c, Start(ring), ts).out[0] == Run(p, c, Start(ring), u + [t]).out[0];
      assert Windows(p, c, ts)[0] == Windows(p, c, u + [t])[0];
      assert Run(p, c, Start(ring), ts).out[1] == Run(p, c, Start(ring), u + [t]).out[1];
      assert |u| >= 127 ==> Windows(p, c, ts)[1] == Windows(p, c, u + [t])[1];
    }
  }

  lemma FirstOfWindow(p: Pattern, c: Context, u: seq<string>, t: string)
    requires c.before == 127 && c.after >= 0 && AfterLast(p, u) == 0 && Selects(p, t)
    ensures var w := Windows(p, c, u + [t]);
      && w != [] && w[0].Line? && (|u| < 127 ==> w[0].number > 0)
      && (|u| >= 127 ==> |w| > 1 && w[1].Line? && w[1].number < |u|)
  {
    hide Selects, Windows, AfterLast;
    Quiet(p, c, [Cell(false, "")], u);
    WindowsHit(p, c, u, t);
    var start := From(p, c, u);
    assert start < |u| ==> ContextLines(u, start, |u|)[0] == Line(start + 1, u[start], false);
    assert start + 1 < |u| ==> ContextLines(u, start, |u|)[1] == ContextLines(u, start + 1, |u|)[0] == Line(start + 2, u[start + 1], false);
  }
}
