/** What resolving makes of every node of a tree, and what the resolved tree prints. */
module DepResolved {
  import opened CStrings
  import opened Atom
  import opened AtomRoundTrip
  import opened Dep
  import opened DepRoundTrip
  import opened DepMeaning

  // ----- nodes by their paths -----

  /** The node that the member indices lead to. */
  function At(d: Dep, path: seq<nat>): Option<Dep>
    decreases path
  {
    if path == [] then Some(d)
    else if d.Group? && path[0] < |d.members| then At(d.members[path[0]], path[1..])
    else None
  }

  /** Resolving gets to the node: all groups above are active, and of the all-of groups every earlier member
      can be satisfied. An any-of group has all its members visited. */
  predicate Visited(d: Dep, path: seq<nat>, tree: AtomCtx -> seq<Pkg>, use: set<string>)
    decreases path
  {
    path == [] || (
      && d.Group? && path[0] < |d.members|
      && d.kind != NullGroup && (d.kind == UseGroup ==> Active(d, use))
      && (d.kind != AnyGroup ==> forall i :: 0 <= i < path[0] ==> Satisfied(d.members[i], tree, use))
      && Visited(d.members[path[0]], path[1..], tree, use))
  }

  predicate FirstInstalled(ps: seq<Pkg>, i: int) {
    0 <= i < |ps| && ps[i].vdb && forall j :: 0 <= j < i ==> !ps[j].vdb
  }

  /** The leaf carries the first match, and the installed match of least index, if there is one. */
  ghost predicate Assigned(before: Dep, after: Dep, ps: seq<Pkg>)
    requires before.Leaf? && ps != []
  {
    && after.Leaf? && after.atom == before.atom && after.pkg == Some(ps[0])
    && (forall i :: FirstInstalled(ps, i) ==> after.ipkg == Some(ps[i]))
    && ((forall i :: 0 <= i < |ps| ==> !ps[i].vdb) ==> after.ipkg == before.ipkg)
  }

  lemma {:induction false} FirstVdbIs(ps: seq<Pkg>)
    ensures FirstVdb(ps).Some? <==> exists i :: FirstInstalled(ps, i)
    ensures forall i :: FirstInstalled(ps, i) ==> FirstVdb(ps) == Some(ps[i])
    ensures FirstVdb(ps).None? <==> forall i :: 0 <= i < |ps| ==> !ps[i].vdb
  {
    if ps != [] {
      FirstVdbIs(ps[1..]);
      if ps[0].vdb {
        assert FirstInstalled(ps, 0);
      } else {
        assert forall i :: 0 < i < |ps| ==> ps[i] == ps[1..][i - 1];
        assert forall i :: FirstInstalled(ps, i) ==> FirstInstalled(ps[1..], i - 1);
        assert forall i :: FirstInstalled(ps[1..], i) ==> FirstInstalled(ps, i + 1);
      }
    }
  }

  lemma LeafResolved(d: Dep, tree: AtomCtx -> seq<Pkg>, use: set<string>)
    requires d.Leaf?
    ensures var r := Resolve(d, tree, use).1;
      if d.pkg.None? && d.atom.blocker == NoBlocker && tree(d.atom) != [] then Assigned(d, r, tree(d.atom)) else r == d
  {
    hide FirstVdb;
    FirstVdbIs(tree(d.atom));
  }

  // ----- the members of a group -----

  lemma {:induction false} AllMembers(ms: seq<Dep>, tree: AtomCtx -> seq<Pkg>, use: set<string>, i: nat)
    requires i < |ms|
    ensures ResolveAll(ms, tree, use).1[i]
         == if forall j :: 0 <= j < i ==> Satisfied(ms[j], tree, use) then Resolve(ms[i], tree, use).1 else ms[i]
    decreases |ms|
  {
    hide Resolve, Satisfied;
    ResolvedIffSatisfied(ms[0], tree, use);
    if i > 0 {
      AllMembers(ms[1..], tree, use, i - 1);
      assert forall j :: 0 < j < |ms| ==> ms[j] == ms[1..][j - 1];
    }
  }

  lemma {:induction false} AnyMembers(ms: seq<Dep>, tree: AtomCtx -> seq<Pkg>, use: set<string>, i: nat)
    requires i < |ms|
    ensures ResolveAny(ms, tree, use).1[i] == Resolve(ms[i], tree, use).1
    decreases |ms|
  {
    hide Resolve;
    if i > 0 {
      AnyMembers(ms[1..], tree, use, i - 1);
    }
  }

  /** A group stays the group it is, and a member is resolved exactly when it is visited. */
  lemma GroupResolved(d: Dep, tree: AtomCtx -> seq<Pkg>, use: set<string>)
    requires d.Group?
    ensures var r := Resolve(d, tree, use).1;
      && r.Group? && (r.kind, r.word, r.invert) == (d.kind, d.word, d.invert) && |r.members| == |d.members|
      && forall i :: 0 <= i < |d.members| ==>
        r.members[i] == if Visited(d, [i], tree, use) then Resolve(d.members[i], tree, use).1 else d.members[i]
  {
    var r := Resolve(d, tree, use).1;
    forall i: nat | i < |d.members|
      ensures r.members[i] == if Visited(d, [i], tree, use) then Resolve(d.members[i], tree, use).1 else d.members[i]
    {
      AllMembers(d.members, tree, use, i);
      AnyMembers(d.members, tree, use, i);
      assert [i][1..] == [];
      hide Resolve, ResolveAll, ResolveAny, Satisfied;
      UnfoldGroup(d, tree, use);
    }
    UnfoldGroup(d, tree, use);
  }

  lemma UnfoldGroup(d: Dep, tree: AtomCtx -> seq<Pkg>, use: set<string>)
    requires d.Group?
    ensures Resolve(d, tree, use).1 ==
      if d.kind == NullGroup || (d.kind == UseGroup && !Active(d, use)) then d
      else if d.kind == AnyGroup then d.(members := ResolveAny(d.members, tree, use).1)
      else d.(members := ResolveAll(d.members, tree, use).1)
    ensures |ResolveAny(d.members, tree, use).1| == |ResolveAll(d.members, tree, use).1| == |d.members|
  {
  }

  // ----- the whole tree -----

  /** Resolving assigns packages to the leaves that are visited, carry no blocker, have no package yet and have
      a match, members of any-of groups behind one that is met included, and changes nothing else: every
      other leaf and the form of the tree stay. */
  lemma {:induction false} LeavesResolved(d: Dep, path: seq<nat>, tree: AtomCtx -> seq<Pkg>, use: set<string>)
    ensures var was, now := At(d, path), At(Resolve(d, tree, use).1, path);
      && (was.None? <==> now.None?)
      && (was.Some? && was.value.Group? ==>
            && now.value.Group? && |now.value.members| == |was.value.members|
            && (now.value.kind, now.value.word, now.value.invert) == (was.value.kind, was.value.word, was.value.invert))
      && (was.Some? && was.value.Leaf? ==>
            var x := was.value;
            if Visited(d, path, tree, use) && x.pkg.None? && x.atom.blocker == NoBlocker && tree(x.atom) != []
            then Assigned(x, now.value, tree(x.atom))
            else now == was)
    decreases path
  {
    hide Resolve, Satisfied;
    if d.Leaf? {
      LeafResolved(d, tree, use);
      LeafStays(d, tree, use);
    } else {
      GroupResolved(d, tree, use);
      if path != [] && path[0] < |d.members| {
        var i := path[0];
        VisitedStep(d, path, tree, use);
        LeavesResolved(d.members[i], path[1..], tree, use);
      }
    }
  }

  lemma LeafStays(d: Dep, tree: AtomCtx -> seq<Pkg>, use: set<string>)
    requires d.Leaf?
    ensures Resolve(d, tree, use).1.Leaf?
  {
  }

  lemma VisitedStep(d: Dep, path: seq<nat>, tree: AtomCtx -> seq<Pkg>, use: set<string>)
    requires d.Group? && path != [] && path[0] < |d.members|
    ensures Visited(d, path, tree, use) <==> Visited(d, [path[0]], tree, use) && Visited(d.members[path[0]], path[1..], tree, use)
  {
    hide Satisfied;
    assert [path[0]][1..] == [];
  }

  // ----- what a resolved tree prints -----

  /** The tree with each package's atom in place of the atom it was found for. */
  function Chosen(d: Dep): (r: Dep)
    ensures r.Leaf? <==> d.Leaf?
    decreases d, 1
  {
    if d.Leaf? then Leaf(if d.pkg.Some? then d.pkg.value.atom else d.atom, None, None)
    else d.(members := ChosenAll(d.members))
  }

  function ChosenAll(ms: seq<Dep>): (r: seq<Dep>)
    ensures |r| == |ms| && forall i :: 0 <= i < |ms| ==> r[i].Leaf? == ms[i].Leaf?
    decreases ms, 0
  {
    if ms == [] then [] else [Chosen(ms[0])] + ChosenAll(ms[1..])
  }

  lemma {:induction false} PrintOfChosen(d: Dep, space: nat, newline: bool, first: bool)
    ensures PrintNode(Chosen(d), space, newline, first) == PrintNode(d, space, newline, first)
    decreases d, 1
  {
    hide ToString, Lead, GroupTail;
    if d.Group? {
      var single := SingleChild(d.members);
      assert SingleChild(ChosenAll(d.members)) == single;
      PrintOfChosenAll(d.members, if single then 0 else space + 1, !single, single);
      assert GroupHead(Chosen(d)) == GroupHead(d);
    }
  }

  lemma {:induction false} PrintOfChosenAll(ms: seq<Dep>, space: nat, newline: bool, first: bool)
    ensures PrintMembers(ChosenAll(ms), space, newline, first) == PrintMembers(ms, space, newline, first)
    decreases ms, 0
  {
    hide PrintNode;
    if ms != [] {
      PrintOfChosen(ms[0], space, newline, first);
      PrintOfChosenAll(ms[1..], space, newline, first);
      assert ChosenAll(ms)[1..] == ChosenAll(ms[1..]);
    }
  }

  /** A tree that has been resolved prints as the tree of the packages it was resolved to, and that is what
      parsing the print gives. */
  lemma GrowOfResolved(root: Dep, space: nat)
    requires root.Group? && PrintableAll(ChosenAll(root.members))
    ensures Grow(Print(root, space)) == Some(RootOf(EraseAll(ChosenAll(root.members))))
  {
    hide Grow, PrintNode, PrintMembers, PrintableAll, EraseAll, Chosen;
    var c := Chosen(root);
    ChosenGroup(root);
    GrowOfPrint(c, space);
    if root.members != [] {
      PrintOfChosen(root.members[0], space, true, true);
      PrintOfChosenAll(root.members[1..], space, true, false);
      assert c.members[1..] == ChosenAll(root.members[1..]);
    }
  }

  lemma ChosenGroup(d: Dep)
    requires d.Group?
    ensures Chosen(d) == d.(members := ChosenAll(d.members))
  {
  }

  // ----- the layout -----

  function Plainly(a: AtomCtx): Dep {
    Leaf(a, None, None)
  }

  function NewLine(space: nat): string {
    "\n" + Spaces(4 * space)
  }

  /** What is printed before the bracket of a group. */
  function HeadOf(kind: Kind, w: string, invert: bool): string {
    if kind == AnyGroup then "|| " else if kind == UseGroup then (if invert then "!" + w + "? " else w + "? ") else ""
  }

  /** A group of one atom is printed on one line, any other with each member on a line of its own, four blanks
      further in, and its bracket on a last line. */
  lemma PrintLayout(a: AtomCtx, b: AtomCtx, w: string, kind: Kind, invert: bool, space: nat)
    requires kind != NullGroup
    ensures PrintNode(Plainly(a), space, true, false) == NewLine(space) + ToString(a)
    ensures PrintNode(Group(kind, w, invert, [Plainly(a)]), space, true, false)
         == NewLine(space) + (HeadOf(kind, w, invert) + "( " + ToString(a) + " )")
    ensures PrintNode(Group(kind, w, invert, [Plainly(a), Plainly(b)]), space, true, false)
         == NewLine(space) + (HeadOf(kind, w, invert) + "("
                              + ((NewLine(space + 1) + ToString(a)) + (NewLine(space + 1) + ToString(b))) + (NewLine(space) + ")"))
    ensures PrintNode(Group(kind, w, invert, []), space, true, false)
         == NewLine(space) + (HeadOf(kind, w, invert) + "(" + (NewLine(space) + ")"))
  {
    hide ToString, PrintMembers;
    var x, y := Plainly(a), Plainly(b);
    Members(x, y, space + 1);
    HeadIs(kind, w, invert, [x]);
    HeadIs(kind, w, invert, [x, y]);
    HeadIs(kind, w, invert, []);
    hide Spaces, GroupHead, HeadOf;
    assert HeadOf(kind, w, invert) + "(" + "" == HeadOf(kind, w, invert) + "(";
  }

  lemma HeadIs(kind: Kind, w: string, invert: bool, ms: seq<Dep>)
    ensures GroupHead(Group(kind, w, invert, ms)) == HeadOf(kind, w, invert)
  {
    assert "" + w + "? " == w + "? ";
  }

  lemma Members(x: Dep, y: Dep, space: nat)
    requires x.Leaf? && y.Leaf?
    ensures PrintMembers([x], 0, false, true) == LeafStr(x)
    ensures PrintMembers([x, y], space, true, false) == (NewLine(space) + LeafStr(x)) + (NewLine(space) + LeafStr(y))
    ensures PrintMembers([], space, true, false) == ""
  {
    hide LeafStr;
    assert [x][1..] == [] && [x, y][1..] == [y] && [y][1..] == [];
    assert PrintMembers([], 0, false, true) == "" && PrintMembers([], space, true, false) == "";
    hide PrintNode, Spaces;
    NodeOfLeaf(x, 0);
    NodeOfLeaf(x, space);
    NodeOfLeaf(y, space);
    assert PrintMembers([y], space, true, false) == PrintNode(y, space, true, false) + "";
  }

  lemma NodeOfLeaf(x: Dep, space: nat)
    requires x.Leaf?
    ensures PrintNode(x, 0, false, true) == LeafStr(x) && PrintNode(x, 0, true, true) == LeafStr(x)
    ensures PrintNode(x, space, true, false) == NewLine(space) + LeafStr(x)
  {
    hide LeafStr;
    assert Spaces(0) == "";
  }

  /** The members of the root stand on lines of their own, from the first column on, without a bracket. */
  lemma PrintRoot(a: AtomCtx, b: AtomCtx)
    ensures Print(Group(AllGroup, "", false, [Plainly(a), Plainly(b)]), 0) == ToString(a) + ("\n" + ToString(b)) + "\n"
    ensures Print(Group(AllGroup, "", false, []), 0) == ""
  {
    hide ToString, PrintNode;
    var x, y := Plainly(a), Plainly(b);
    assert [x, y][1..] == [y] && [y][1..] == [];
    assert PrintMembers([], 0, true, false) == "";
    NodeOfLeaf(x, 0);
    NodeOfLeaf(y, 0);
    assert NewLine(0) == "\n";
    assert PrintMembers([y], 0, true, false) == PrintNode(y, 0, true, false) + "";
  }
}
