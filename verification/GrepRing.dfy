/** The circular list of line buffers and the reading loop of `qgrep`. */
module GrepRing {
  import opened CStrings
  import opened Grep

  /** qgrep_buf_t. */
  class Node {
    var valid: bool
    var buf: string
    var next: Node?

    constructor ()
      ensures next == null && !valid && buf == ""
    {
      valid, buf, next := false, "", null;
    }
  }

  /** `ring` lists a circular list once around, from its first node. */
  ghost predicate Circle(ring: seq<Node>)
    reads ring
  {
    && ring != []
    && (forall i, j :: 0 <= i < j < |ring| ==> ring[i] != ring[j])
    && (forall i :: 0 <= i < |ring| - 1 ==> ring[i].next == ring[i + 1])
    && ring[|ring| - 1].next == ring[0]
  }

  ghost function Cells(ring: seq<Node>): (r: seq<Cell>)
    reads ring
    ensures |r| == |ring| && forall i :: 0 <= i < |ring| ==> r[i] == Cell(ring[i].valid, ring[i].buf)
  {
    seq(|ring|, i requires 0 <= i < |ring| reads ring => Cell(ring[i].valid, ring[i].buf))
  }

  /** The number of nodes that a request for `length` nodes gets. */
  function RingSize(length: int): nat {
    if length > 1 then length else 1
  }

  /** qgrep_buf_list_alloc. */
  method AllocRing(length: int) returns (head: Node, ghost ring: seq<Node>)
    ensures Circle(ring) && head == ring[0] && |ring| == RingSize(length)
    ensures forall k :: 0 <= k < |ring| ==> fresh(ring[k])
  {
    head := new Node();
    var current := head;
    ring := [head];
    var i := 1;
    while i < length
      invariant |ring| == i && (i <= length || i == 1)
      invariant ring[0] == head && ring[i - 1] == current
      invariant forall k :: 0 <= k < i ==> fresh(ring[k])
      invariant forall j, k :: 0 <= j < k < i ==> ring[j] != ring[k]
      invariant forall k :: 0 <= k < i - 1 ==> ring[k].next == ring[k + 1]
    {
      var node := new Node();
      current.next := node;
      current := node;
      ring := ring + [node];
      i := i + 1;
    }
    current.next := head;
  }

  /** qgrep_buf_list_invalidate. */
  method Invalidate(head: Node, ghost ring: seq<Node>)
    requires Circle(ring) && head == ring[0]
    modifies ring
    ensures Circle(ring) && Invalid(Cells(ring))
  {
    var current := head;
    ghost var n := 0;
    while true
      invariant 0 <= n < |ring| && current == ring[n]
      invariant Circle(ring)
      invariant forall k :: 0 <= k < n ==> !ring[k].valid
      decreases |ring| - n
    {
      current.valid := false;
      current := current.next;
      n := n + 1;
      assert n < |ring| ==> current == ring[n] && ring[n] != ring[0];
      if current == head {
        assert n == |ring|;
        break;
      }
    }
  }

  /** Once a line has been displayed, it is not valid any more. */
  method Spend(node: Node, ghost ring: seq<Node>, ghost w: nat)
    requires Circle(ring) && w < |ring| && node == ring[w]
    modifies node`valid
    ensures Circle(ring)
    ensures Cells(ring) == old(Cells(ring))[w := old(Cells(ring))[w].(valid := false)]
  {
    node.valid := false;
  }

  method Fill(node: Node, ghost ring: seq<Node>, text: string)
    requires Circle(ring) && node == ring[0]
    modifies node`valid, node`buf
    ensures Circle(ring)
    ensures Cells(ring) == old(Cells(ring))[0 := Cell(true, text)]
  {
    node.buf := text;
    node.valid := true;
  }

  /** The same circle, listed from its second buffer. */
  lemma Rotate(ring: seq<Node>)
    requires Circle(ring)
    ensures Circle(ring[1..] + [ring[0]])
    ensures Cells(ring[1..] + [ring[0]]) == Cells(ring)[1..] + [Cells(ring)[0]]
    ensures (ring[1..] + [ring[0]])[0] == ring[0].next
  {
  }

  /** qgrep_print_before_context. */
  method PrintBeforeContext(start: Node, before: int, number: int, ghost ring: seq<Node>) returns (out: seq<Shown>)
    requires Circle(ring) && start == ring[0]
    modifies ring
    ensures Circle(ring)
    ensures (Cells(ring), out) == PrintBefore(old(Cells(ring)), 1, before, number)
  {
    hide Circle, PrintBefore, Wrap, Cells;
    out := [];
    var lineNumber := number - before;
    ghost var j, was, cells := 1, Cells(ring), Cells(ring);
    Around(ring, 0);
    var current := start.next;
    assert [] + PrintBefore(was, 1, before, number).1 == PrintBefore(was, 1, before, number).1;
    while lineNumber < number
      invariant Circle(ring) && j >= 1 && lineNumber == number - before + j - 1
      invariant current == ring[Wrap(j, |ring|)] && cells == Cells(ring)
      invariant PrintBefore(was, 1, before, number).0 == PrintBefore(cells, j, before, number).0
      invariant PrintBefore(was, 1, before, number).1 == out + PrintBefore(cells, j, before, number).1
      decreases number - lineNumber
    {
      PrintStep(cells, j, before, number);
      if current.valid {
        var line := [Line(lineNumber, current.buf, false)];
        Spend(current, ring, Wrap(j, |ring|));
        cells := Cells(ring);
        Assoc(out, line, PrintBefore(cells, j + 1, before, number).1);
        out := out + line;
      }
      Around(ring, j);
      current := current.next;
      lineNumber := lineNumber + 1;
      j := j + 1;
    }
    PrintStep(cells, j, before, number);
    assert out + [] == out;
  }

  /** Following `next` from the `j`th buffer. */
  lemma Around(ring: seq<Node>, j: nat)
    requires Circle(ring)
    ensures ring[0] == ring[Wrap(0, |ring|)]
    ensures ring[Wrap(j, |ring|)].next == ring[Wrap(j + 1, |ring|)]
  {
    WrapNext(j, |ring|);
  }

  /** What `qgrep_grepat` keeps between files: the counts and the current buffer. */
  class GrepArgs {
    const p: Pattern
    const c: Context
    var bufList: Node
    ghost var ring: seq<Node>

    constructor (p: Pattern, c: Context)
      ensures Valid() && this.p == p && this.c == c
      ensures |ring| == RingSize(AsChar(c.before + 1))
      ensures forall k :: 0 <= k < |ring| ==> fresh(ring[k])
    {
      this.p, this.c := p, c;
      var head, nodes := AllocRing(AsChar(c.before + 1));
      bufList, ring := head, nodes;
    }

    ghost predicate Valid()
      reads this, ring
    {
      Circle(ring) && bufList == ring[0]
    }

    /** The next line goes into the next buffer. */
    method ReadLine(text: string)
      requires Valid()
      modifies this, ring
      ensures Valid() && |ring| == |old(ring)| && (forall k :: 0 <= k < |ring| ==> ring[k] in old(ring))
      ensures Cells(ring) == Advance(old(Cells(ring)), text)
    {
      hide Circle, Cells;
      assert ring != [] by { Around(ring, 0); }
      ghost var was := Cells(ring);
      Around(ring, 0);
      Rotate(ring);
      bufList := bufList.next;
      ring := ring[1..] + [ring[0]];
      Fill(bufList, ring, text);
      assert (was[1..] + [was[0]])[0 := Cell(true, text)] == Advance(was, text);
    }

    /** A match: separator, leading context, and the line itself. */
    method PrintMatch(separate: bool, number: nat) returns (printed: seq<Shown>)
      requires Valid()
      modifies ring
      ensures Valid()
      ensures var (r, o) := PrintBefore(old(Cells(ring)), 1, c.before, number);
        && printed == (if separate then [Separator] else []) + o + [Line(number, r[0].buf, true)]
        && Cells(ring) == Spent(r)
    {
      hide Circle, PrintBefore;
      printed := [];
      if separate {
        printed := printed + [Separator];
      }
      var context := PrintBeforeContext(bufList, c.before, number, ring);
      printed := printed + context;
      printed := printed + [Line(number, bufList.buf, true)];
      assert Circle(ring);
      Around(ring, 0);
      Spend(bufList, ring, 0);
    }

    /** A trailing context line. */
    method PrintAfter(number: nat) returns (printed: seq<Shown>)
      requires Valid()
      modifies ring
      ensures Valid() && Cells(ring) == Spent(old(Cells(ring)))
      ensures printed == [Line(number, old(Cells(ring))[0].buf, false)]
    {
      hide Circle;
      Around(ring, 0);
      printed := [Line(number, bufList.buf, false)];
      Spend(bufList, ring, 0);
    }

    /** The loop body: reads a line, and prints what it makes due. */
    method NextLine(text: string, lineno: nat, needSeparator: int, remaining: int, status: int, ghost out: seq<Shown>)
      returns (printed: seq<Shown>, needSeparator': int, remaining': int, status': int)
      requires Valid()
      modifies this, ring
      ensures Valid() && |ring| == |old(ring)| && (forall k :: 0 <= k < |ring| ==> ring[k] in old(ring))
      ensures State(Cells(ring), lineno + 1, needSeparator', remaining', status', out + printed)
           == Step(p, c, State(old(Cells(ring)), lineno, needSeparator, remaining, status, out), text)
    {
      hide Circle, PrintBefore, Advance, Spent, Selects, Cells, Wrap;
      printed, needSeparator', remaining', status' := [], needSeparator, remaining, status;
      assert ring != [] by { Around(ring, 0); }
      ghost var cells := Advance(Cells(ring), text);
      ReadLine(text);
      if Selects(p, text) {
        status' := 0;
        var separate := needSeparator > 0 && (c.before != 0 || c.after != 0);
        ghost var (r, o) := PrintBefore(cells, 1, c.before, lineno + 1);
        printed := PrintMatch(separate, lineno + 1);
        Append(out, if separate then [Separator] else [], o, [Line(lineno + 1, r[0].buf, true)]);
        needSeparator' := 0 - c.before;
        remaining' := c.after;
      } else if remaining == 0 {
        if status == 0 {
          needSeparator' := needSeparator + 1;
        }
        assert out + printed == out;
      } else {
        FirstCell(Cells(ring), text, old(Cells(ring)));
        printed := PrintAfter(lineno + 1);
        remaining' := remaining - 1;
      }
    }

    /** qgrep_grepat in line mode: what is printed for one file, and whether nothing matched. */
    method GrepAt(lines: seq<string>) returns (out: seq<Shown>, status: int)
      requires Valid()
      modifies this, ring
      ensures Valid() && |ring| == |old(ring)| && (forall k :: 0 <= k < |ring| ==> ring[k] in old(ring))
      ensures exists cells: seq<Cell> :: cells != [] && |cells| == |ring| && Ran(p, c, cells, Cleaned(lines), out, status)
    {
      hide Circle, Run, Step, Clean, Cleaned, Cells;
      var needSeparator, remaining, lineno := 0, 0, 0;
      out, status := [], 1;
      assert ring != [] by { Around(ring, 0); }
      Invalidate(bufList, ring);
      ghost var cells := Cells(ring);
      NoneRead(p, c, Start(cells), lines);
      while lineno < |lines|
        invariant lineno <= |lines| && Valid() && |ring| == |cells| && (forall k :: 0 <= k < |ring| ==> ring[k] in old(ring))
        invariant Run(p, c, Start(cells), Cleaned(lines[..lineno]))
               == State(Cells(ring), lineno, needSeparator, remaining, status, out)
      {
        var text := Clean(lines[lineno]);
        RunSnoc(p, c, Start(cells), Cleaned(lines[..lineno]), text);
        CleanedNext(lines, lineno);
        var printed;
        printed, needSeparator, remaining, status := NextLine(text, lineno, needSeparator, remaining, status, out);
        out := out + printed;
        lineno := lineno + 1;
      }
      assert lines[..lineno] == lines;
      assert Ran(p, c, cells, Cleaned(lines), out, status);
    }
  }

  lemma FirstCell(cells: seq<Cell>, text: string, was: seq<Cell>)
    requires was != [] && cells == Advance(was, text)
    ensures cells != [] && cells[0].buf == text
  {
  }

  lemma Append<T>(a: seq<T>, b: seq<T>, c: seq<T>, d: seq<T>)
    ensures a + (b + c + d) == a + b + c + d
  {
  }

  lemma NoneRead(p: Pattern, c: Context, s: State, lines: seq<string>)
    requires s.ring != []
    ensures Cleaned(lines[..0]) == [] && Run(p, c, s, []) == s
  {
  }

  /** The machine, started with no valid buffer, gives this output. */
  ghost predicate Ran(p: Pattern, c: Context, cells: seq<Cell>, ts: seq<string>, out: seq<Shown>, status: int)
    requires cells != []
  {
    var s := Run(p, c, Start(cells), ts);
    Invalid(cells) && out == s.out && status == s.status
  }

  function Cleaned(lines: seq<string>): (r: seq<string>)
    ensures |r| == |lines|
  {
    if lines == [] then [] else Cleaned(lines[..|lines| - 1]) + [Clean(lines[|lines| - 1])]
  }

  lemma CleanedNext(lines: seq<string>, n: nat)
    requires n < |lines|
    ensures Cleaned(lines[..n + 1]) == Cleaned(lines[..n]) + [Clean(lines[n])]
  {
    assert lines[..n + 1][..n] == lines[..n];
  }

  /** Line mode over a run of files, for the counts the ring can serve: the output for each file is the
      union of its windows, whatever the files before it left in the buffers. */
  method GrepFiles(p: Pattern, before: int, after: int, files: seq<seq<string>>) returns (outs: seq<seq<Shown>>, status: int)
    requires 0 <= before <= 126 && 0 <= after <= 127
    ensures |outs| == |files|
    ensures forall i :: 0 <= i < |files| ==> outs[i] == Windows(p, Context(before, after), Cleaned(files[i]))
    ensures status == 0 <==> exists i :: 0 <= i < |files| && AfterLast(p, Cleaned(files[i])) > 0
  {
    hide Windows, Cleaned, AfterLast, Circle, RingOk, Run;
    var args := new GrepArgs(p, Context(before, after));
    outs, status := [], 1;
    while |outs| < |files|
      invariant |outs| <= |files| && args.Valid() && fresh(args) && |args.ring| == before + 1
      invariant args.p == p && args.c == Context(before, after)
      invariant forall k :: 0 <= k < |args.ring| ==> fresh(args.ring[k])
      invariant forall i :: 0 <= i < |outs| ==> outs[i] == Windows(p, Context(before, after), Cleaned(files[i]))
      invariant status == 0 <==> exists i :: 0 <= i < |outs| && AfterLast(p, Cleaned(files[i])) > 0
    {
      var n := |outs|;
      var out, st := args.GrepAt(files[n]);
      RanIsWindows(p, args.c, |args.ring|, Cleaned(files[n]), out, st);
      outs := outs + [out];
      if st == 0 {
        status := 0;
      }
    }
  }

  lemma RanIsWindows(p: Pattern, c: Context, size: nat, ts: seq<string>, out: seq<Shown>, status: int)
    requires c.before >= 0 && c.after >= 0 && size == c.before + 1
    requires exists cells: seq<Cell> :: cells != [] && |cells| == size && Ran(p, c, cells, ts, out, status)
    ensures out == Windows(p, c, ts) && (status == 0 <==> AfterLast(p, ts) > 0)
  {
    hide Windows, AfterLast, RingOk, Run;
    var cells: seq<Cell> :| cells != [] && |cells| == size && Ran(p, c, cells, ts, out, status);
    RunIsWindows(p, c, cells, ts);
  }

  /** The ring is as long as the leading context needs up to 126 lines; 127 asks for 128 buffers, and the
      char that carries this number makes it one. */
  lemma LimitRing(before: int)
    requires 0 <= before <= 127
    ensures RingSize(AsChar(before + 1)) == if before <= 126 then before + 1 else 1
  {
  }
}
