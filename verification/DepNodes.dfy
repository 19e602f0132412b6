/** The dependency tree on the heap: nodes with their member lists and parents, changed
    in place by pruning and resolving, and the parser that builds them on a stack. */
module DepNodes {
  import opened CStrings
  import opened Atom
  import opened Dep

  datatype NodeType = AtomNode | GroupNode(kind: Kind)

  ghost function Union(ss: seq<set<DepNode>>): set<DepNode> {
    if ss == [] then {} else Union(ss[..|ss| - 1]) + ss[|ss| - 1]
  }

  class DepNode {
    var kind: NodeType
    var word: string
    var invert: bool
    var atom: Option<AtomCtx>
    var pkg: Option<Pkg>
    var ipkg: Option<Pkg>
    var parent: DepNode?
    var members: seq<DepNode>
    ghost var repr: set<DepNode>  // the nodes of this subtree
    ghost var parts: seq<set<DepNode>>  // those of the members' subtrees
    ghost var value: Dep          // the tree it stands for

    /** The subtrees of the members are apart from each other and from this node, and each
        member's parent is this node; there is no other node in this subtree. */
    ghost predicate Shape()
      reads this, repr
      decreases repr, 0
    {
      && this in repr
      && (forall i :: 0 <= i < |members| ==>
            && members[i] in repr && members[i] in members[i].repr && members[i].repr < repr && this !in members[i].repr
            && members[i].parent == this && members[i].Valid())
      && (forall i, j :: 0 <= i < j < |members| ==> members[i].repr !! members[j].repr)
      && |parts| == |members| && (forall i :: 0 <= i < |parts| ==> parts[i] == members[i].repr)
      && repr == {this} + Union(parts)
    }

    /** The nodes form a tree, and the fields agree with the value it stands for. */
    ghost predicate Valid()
      reads this, repr
      decreases repr, 1
    {
      Shape() && Matches(value)
    }

    /** This node's own fields, and the values of its members, are those of `d`. */
    ghost predicate Matches(d: Dep)
      reads this, members
    {
      if kind.AtomNode? then
        members == [] && atom.Some? && d == Leaf(atom.value, pkg, ipkg)
      else
        && atom.None? && d.Group? && d.kind == kind.kind && d.word == word && d.invert == invert
        && |d.members| == |members| && forall i :: 0 <= i < |members| ==> d.members[i] == members[i].value
    }

    constructor (kind: NodeType, word: string, invert: bool, atom: Option<AtomCtx>, parent: DepNode?)
      ensures this.kind == kind && this.word == word && this.invert == invert && this.atom == atom
      ensures this.parent == parent && members == [] && pkg == None && ipkg == None
      ensures repr == {this} && parts == []
      ensures kind.AtomNode? && atom.Some? ==> Valid() && value == Leaf(atom.value, None, None)
    {
      this.kind, this.word, this.invert, this.atom, this.parent := kind, word, invert, atom, parent;
      pkg, ipkg, members := None, None, [];
      repr, parts := {this}, [];
      value := if kind.AtomNode? && atom.Some? then Leaf(atom.value, None, None) else Group(NullGroup, "", false, []);
    }

    // ----- pruning -----

    /** dep_prune_use: inactive groups become null groups, active ones all-of groups, in place. */
    method PruneUse(use: set<string>)
      requires Valid()
      modifies repr
      ensures Valid() && repr == old(repr) && parent == old(parent)
      ensures value == Prune(old(value), use)
      decreases repr, 1
    {
      hide Prune, PruneAll;
      PrunedNode(value, use);
      if kind == GroupNode(UseGroup) {
        if (word !in use) != invert {
          kind := GroupNode(NullGroup);
          value := value.(kind := NullGroup);
          return;
        }
        kind := GroupNode(AllGroup);
      }
      ghost var vs := if value.Group? then value.members else [];
      PruneMembers(use);
      if kind.GroupNode? {
        Retally();
        PruneAllIs(vs, use);
        assert value.members == PruneAll(vs, use);
      }
    }

    /** The loop over the members. */
    method PruneMembers(use: set<string>)
      requires Shape()
      modifies repr - {this}
      ensures Shape()
      ensures forall i :: 0 <= i < |members| ==> members[i].value == Prune(old(members[i].value), use)
      decreases repr, 0
    {
      hide Prune, Union, Valid;
      ghost var vs := MemberValues();
      var n := 0;
      while n < |members|
        invariant n <= |members| && Shape()
        invariant forall i :: 0 <= i < n ==> members[i].value == Prune(vs[i], use)
        invariant forall i :: n <= i < |members| ==> members[i].value == vs[i]
      {
        members[n].PruneUse(use);
        n := n + 1;
      }
    }

    // ----- resolving -----

    /** dep_resolve_tree without a blocker table: assigns packages in place. */
    method ResolveTree(tree: AtomCtx -> seq<Pkg>, use: set<string>) returns (status: Status)
      requires Valid()
      modifies repr
      ensures Valid() && repr == old(repr) && parent == old(parent)
      ensures (status, value) == Resolve(old(value), tree, use)
      decreases repr, 1
    {
      hide Resolve, ResolveAll, ResolveAny;
      if kind.AtomNode? {
        status := ResolveAtom(tree, use);
        return;
      }
      ResolvedGroup(value, tree, use);
      assert MemberValues() == value.members;
      var k := kind.kind;
      status := DepOk;
      if k == AnyGroup {
        status := ResolveAnyMembers(tree, use);
        Retally();
      } else if k == AllGroup || (k == UseGroup && (word !in use) == invert) {
        status := ResolveAllMembers(tree, use);
        Retally();
      }
    }

    /** Taking the members' new values into the value of the group. */
    ghost method Retally()
      requires Shape() && kind.GroupNode? && atom.None?
      modifies this`value
      ensures Valid() && value == Group(kind.kind, word, invert, old(MemberValues()))
    {
      value := Group(kind.kind, word, invert, MemberValues());
    }

    /** An atom is assigned the first package that matches, and the first installed one. */
    method ResolveAtom(tree: AtomCtx -> seq<Pkg>, ghost use: set<string>) returns (status: Status)
      requires Valid() && kind.AtomNode?
      modifies this`pkg, this`ipkg, this`value
      ensures Valid()
      ensures (status, value) == Resolve(old(value), tree, use)
    {
      status := DepOk;
      if pkg.None? && atom.value.blocker == NoBlocker {
        var r := tree(atom.value);
        if r == [] {
          status := DepFail;
        } else {
          pkg := Some(r[0]);
          var v := FirstVdb(r);
          ipkg := if v.Some? then v else ipkg;
          value := Leaf(atom.value, pkg, ipkg);
        }
      }
    }

    ghost function MemberValues(): (r: seq<Dep>)
      reads this, members
      ensures |r| == |members| && forall i :: 0 <= i < |r| ==> r[i] == members[i].value
    {
      seq(|members|, i requires 0 <= i < |members| reads this, members => members[i].value)
    }

    /** All-of: up to the first member that fails. */
    method ResolveAllMembers(tree: AtomCtx -> seq<Pkg>, use: set<string>) returns (status: Status)
      requires Shape()
      modifies repr - {this}
      ensures Shape()
      ensures (status, MemberValues()) == ResolveAll(old(MemberValues()), tree, use)
      decreases repr, 0, 2
    {
      hide Resolve, ResolveAll;
      ghost var vs := MemberValues();
      var k := ResolveUntilFail(tree, use);
      status := if k < |members| then DepFail else DepOk;
      ResolveAllIs(vs, k, MemberValues(), tree, use);
    }

    method ResolveMember(k: nat, tree: AtomCtx -> seq<Pkg>, use: set<string>) returns (status: Status)
      requires Shape() && k < |members|
      modifies repr - {this}
      ensures Shape()
      ensures (status, members[k].value) == Resolve(old(members[k].value), tree, use)
      ensures forall i :: 0 <= i < |members| && i != k ==> members[i].value == old(members[i].value)
      decreases repr, 0, 0
    {
      hide Resolve, Union, Valid;
      status := members[k].ResolveTree(tree, use);
    }

    method ResolveUntilFail(tree: AtomCtx -> seq<Pkg>, use: set<string>) returns (k: nat)
      requires Shape()
      modifies repr - {this}
      ensures Shape() && k <= |members|
      ensures forall i :: 0 <= i < |members| && i <= k ==> members[i].value == Resolve(old(members[i].value), tree, use).1
      ensures forall i :: 0 <= i < k ==> Resolve(old(members[i].value), tree, use).0 == DepOk
      ensures k < |members| ==> Resolve(old(members[k].value), tree, use).0 == DepFail
      ensures forall i :: k < i < |members| ==> members[i].value == old(members[i].value)
      decreases repr, 0, 1
    {
      hide Resolve;
      ghost var vs := MemberValues();
      k := 0;
      while k < |members|
        invariant k <= |members| && Shape()
        invariant forall i :: 0 <= i < k ==> Resolve(vs[i], tree, use) == (DepOk, members[i].value)
        invariant forall i :: k <= i < |members| ==> members[i].value == vs[i]
      {
        var status := ResolveMember(k, tree, use);
        if status == DepFail {
          return;
        }
        k := k + 1;
      }
    }

    /** Any-of: every member is resolved. */
    method ResolveAnyMembers(tree: AtomCtx -> seq<Pkg>, use: set<string>) returns (status: Status)
      requires Shape()
      modifies repr - {this}
      ensures Shape()
      ensures (status, MemberValues()) == ResolveAny(old(MemberValues()), tree, use)
      decreases repr, 0, 1
    {
      hide Resolve, ResolveAny;
      ghost var vs := MemberValues();
      var n := 0;
      status := DepFail;
      while n < |members|
        invariant n <= |members| && Shape()
        invariant forall i :: 0 <= i < n ==> members[i].value == Resolve(vs[i], tree, use).1
        invariant forall i :: n <= i < |members| ==> members[i].value == vs[i]
        invariant status == DepOk <==> exists i :: 0 <= i < n && Resolve(vs[i], tree, use).0 == DepOk
      {
        var s := ResolveMember(n, tree, use);
        if s != DepFail && status == DepFail {
          status := DepOk;
        }
        n := n + 1;
      }
      ResolveAnyIs(vs, tree, use);
      assert MemberValues() == ResolveAny(vs, tree, use).1;
    }

    // ----- flattening and printing -----

    /** dep_flatten_tree_int: appends the atoms to `out`. */
    method FlattenInto(out: seq<AtomCtx>) returns (r: seq<AtomCtx>)
      requires Valid()
      ensures r == out + Flatten(value)
      decreases repr
    {
      hide Flatten, FlattenAll;
      FlattenedNode(value);
      r := out;
      if kind.AtomNode? {
        r := out + [atom.value];
      } else if kind != GroupNode(NullGroup) {
        ghost var vs := value.members;
        var n := 0;
        assert vs[0..] == vs;
        while n < |members|
          invariant n <= |members|
          invariant out + FlattenAll(vs) == r + FlattenAll(vs[n..])
        {
          FlattenedHead(vs[n..]);
          assert vs[n..][1..] == vs[n + 1..];
          Assoc(r, Flatten(vs[n]), FlattenAll(vs[n + 1..]));
          r := members[n].FlattenInto(r);
          n := n + 1;
        }
        assert vs[n..] == [];
        FlattenedNone();
        assert r + [] == r;
      } else {
        assert out + [] == out;
      }
    }

    /** dep_print_tree_int, appending to `out`. */
    method PrintInto(out: string, space: nat, newline: bool, first: bool) returns (r: string)
      requires Valid()
      ensures r == out + PrintNode(value, space, newline, first)
      decreases repr, 1
    {
      hide PrintNode, PrintMembers, Lead, GroupTail, ToString;
      PrintedNode(value, space, newline, first, out);
      r := out + Lead(space, newline, first);
      match kind {
        case AtomNode =>
          r := r + ToString(if pkg.Some? then pkg.value.atom else atom.value);
        case GroupNode(k) =>
          if k == AnyGroup {
            r := r + ("|| " + Opening());
          } else if k == UseGroup {
            r := r + ((if invert then "!" else "") + word + "? " + Opening());
          } else if k == AllGroup {
            assert "" + Opening() == Opening();
            r := r + Opening();
          }
          if k != NullGroup {
            var single := |members| == 1 && members[0].kind.AtomNode?;
            r := PrintMembersInto(r, if single then 0 else space + 1, !single, single);
            r := r + GroupTail(space, newline, single);
          }
      }
    }

    /** The parenthesis, with a blank when a single atom follows on the same line. */
    function Opening(): (r: string)
      requires Valid() && kind.GroupNode?
      reads this, repr
      ensures r == if SingleChild(value.members) then "( " else "("
    {
      assert Shape();
      assert |members| == 1 ==> members[0] in repr && members[0].Valid();
      if |members| == 1 && members[0].kind.AtomNode? then "( " else "("
    }

    method PrintMembersInto(out: string, space: nat, newline: bool, first: bool) returns (r: string)
      requires Valid() && kind.GroupNode?
      ensures r == out + PrintMembers(value.members, space, newline, first)
      decreases repr, 0
    {
      hide PrintNode, PrintMembers;
      ghost var vs := value.members;
      r := out;
      var n := 0;
      assert vs[0..] == vs;
      while n < |members|
        invariant n <= |members|
        invariant out + PrintMembers(vs, space, newline, first) == r + PrintMembers(vs[n..], space, newline, first)
      {
        PrintedMembersHead(vs[n..], space, newline, first);
        assert vs[n..][1..] == vs[n + 1..];
        Assoc(r, PrintNode(vs[n], space, newline, first), PrintMembers(vs[n + 1..], space, newline, first));
        r := members[n].PrintInto(r, space, newline, first);
        n := n + 1;
      }
      assert vs[n..] == [];
      PrintedMembersNone(space, newline, first);
      assert r + [] == r;
    }

    /** dep_print_tree: only the first member goes without a line of its own. */
    method PrintTree(space: nat) returns (r: string)
      requires Valid() && kind.GroupNode?
      ensures r == Print(value, space)
    {
      hide PrintNode, PrintMembers;
      ghost var vs := value.members;
      ghost var whole := if vs == [] then "" else PrintNode(vs[0], space, true, true) + PrintMembers(vs[1..], space, true, false);
      r := "";
      var n := 0;
      while n < |members|
        invariant n <= |members| && (n == 0 ==> r == "")
        invariant n > 0 ==> whole == r + PrintMembers(vs[n..], space, true, false)
      {
        if n > 0 {
          PrintedMembersHead(vs[n..], space, true, false);
          assert vs[n..][1..] == vs[n + 1..];
          Assoc(r, PrintNode(vs[n], space, true, false), PrintMembers(vs[n + 1..], space, true, false));
        } else {
          assert "" + PrintNode(vs[0], space, true, true) == PrintNode(vs[0], space, true, true);
        }
        r := members[n].PrintInto(r, space, true, n == 0);
        n := n + 1;
      }
      if |members| > 0 {
        assert vs[n..] == [];
        PrintedMembersNone(space, true, false);
        assert r + [] == r;
        r := r + "\n";
      }
    }

    /** dep_flatten_tree. */
    method FlattenTree() returns (r: seq<AtomCtx>)
      requires Valid()
      ensures r == Flatten(value)
    {
      hide Flatten;
      r := FlattenInto([]);
      assert [] + Flatten(value) == Flatten(value);
    }
  }

  lemma PrintedMembersHead(ms: seq<Dep>, space: nat, newline: bool, first: bool)
    requires ms != []
    ensures PrintMembers(ms, space, newline, first)
         == PrintNode(ms[0], space, newline, first) + PrintMembers(ms[1..], space, newline, first)
  {
    hide PrintNode;
  }

  lemma PrintedMembersNone(space: nat, newline: bool, first: bool)
    ensures PrintMembers([], space, newline, first) == ""
  {
  }

  /** The printed node in the order its parts are written to `out`. */
  lemma PrintedNode(d: Dep, space: nat, newline: bool, first: bool, out: string)
    ensures d.Leaf? ==> out + PrintNode(d, space, newline, first) == out + Lead(space, newline, first) + LeafStr(d)
    ensures d.Group? && d.kind == NullGroup ==> out + PrintNode(d, space, newline, first) == out + Lead(space, newline, first)
    ensures d.Group? && d.kind != NullGroup ==>
      var single := SingleChild(d.members);
      out + PrintNode(d, space, newline, first)
        == out + Lead(space, newline, first) + (GroupHead(d) + (if single then "( " else "("))
           + PrintMembers(d.members, if single then 0 else space + 1, !single, single)
           + GroupTail(space, newline, single)
  {
    hide PrintMembers, Lead, LeafStr, GroupHead, GroupTail;
    var lead := Lead(space, newline, first);
    if d.Leaf? {
      Assoc(out, lead, LeafStr(d));
    } else if d.kind == NullGroup {
      assert lead + "" == lead;
    } else {
      var single := SingleChild(d.members);
      var head := GroupHead(d) + (if single then "( " else "(");
      var body := PrintMembers(d.members, if single then 0 else space + 1, !single, single);
      var tail := GroupTail(space, newline, single);
      assert PrintNode(d, space, newline, first) == lead + (head + body + tail);
      hide PrintNode, SingleChild;
      Assoc(out, lead, head + body + tail);
      Assoc(out + lead, head + body, tail);
      Assoc(out + lead, head, body);
    }
  }

  /** The result of an all-of group of which the first `k` members are met. */
  lemma {:induction false} ResolveAllIs(vs: seq<Dep>, k: nat, ms: seq<Dep>, tree: AtomCtx -> seq<Pkg>, use: set<string>)
    requires k <= |vs| == |ms|
    requires forall i :: 0 <= i < k ==> Resolve(vs[i], tree, use) == (DepOk, ms[i])
    requires k < |vs| ==> Resolve(vs[k], tree, use) == (DepFail, ms[k])
    requires forall i :: k < i < |vs| ==> ms[i] == vs[i]
    ensures ResolveAll(vs, tree, use) == (if k < |vs| then DepFail else DepOk, ms)
  {
    hide Resolve;
    if k == 0 && vs != [] {
      assert ms == [ms[0]] + vs[1..];
    } else if vs != [] {
      ResolveAllIs(vs[1..], k - 1, ms[1..], tree, use);
      assert ms == [ms[0]] + ms[1..];
    }
  }

  lemma {:induction false} ResolveAnyIs(vs: seq<Dep>, tree: AtomCtx -> seq<Pkg>, use: set<string>)
    ensures var r := ResolveAny(vs, tree, use);
      && (forall i :: 0 <= i < |vs| ==> r.1[i] == Resolve(vs[i], tree, use).1)
      && (r.0 == DepOk <==> exists i :: 0 <= i < |vs| && Resolve(vs[i], tree, use).0 == DepOk)
  {
    hide Resolve;
    if vs != [] {
      var t := vs[1..];
      ResolveAnyIs(t, tree, use);
      assert forall i :: 1 <= i < |vs| ==> vs[i] == t[i - 1];
      assert forall i :: 0 <= i < |t| ==> t[i] == vs[i + 1];
    }
  }

  /** One step of resolving a group on values. */
  lemma ResolvedGroup(d: Dep, tree: AtomCtx -> seq<Pkg>, use: set<string>)
    requires d.Group?
    ensures d.kind == NullGroup || (d.kind == UseGroup && !Active(d, use)) ==> Resolve(d, tree, use) == (DepOk, d)
    ensures d.kind == AnyGroup ==>
      Resolve(d, tree, use) == (ResolveAny(d.members, tree, use).0, d.(members := ResolveAny(d.members, tree, use).1))
    ensures d.kind == AllGroup || (d.kind == UseGroup && Active(d, use)) ==>
      Resolve(d, tree, use) == (ResolveAll(d.members, tree, use).0, d.(members := ResolveAll(d.members, tree, use).1))
  {
    hide ResolveAll, ResolveAny;
  }

  lemma FlattenedNode(d: Dep)
    ensures Flatten(d) == if d.Leaf? then [d.atom] else if d.kind == NullGroup then [] else FlattenAll(d.members)
  {
    hide FlattenAll;
  }

  lemma FlattenedHead(ms: seq<Dep>)
    requires ms != []
    ensures FlattenAll(ms) == Flatten(ms[0]) + FlattenAll(ms[1..])
  {
    hide Flatten;
  }

  lemma FlattenedNone()
    ensures FlattenAll([]) == []
  {
  }

  lemma PruneAllIs(ms: seq<Dep>, use: set<string>)
    ensures forall i :: 0 <= i < |ms| ==> PruneAll(ms, use)[i] == Prune(ms[i], use)
  {
    forall i | 0 <= i < |ms| ensures PruneAll(ms, use)[i] == Prune(ms[i], use) {
      PruneAllAt(ms, use, i);
    }
  }

  lemma {:induction false} PruneAllAt(ms: seq<Dep>, use: set<string>, i: nat)
    requires i < |ms|
    ensures PruneAll(ms, use)[i] == Prune(ms[i], use)
  {
    hide Prune;
    if i > 0 {
      PruneAllAt(ms[1..], use, i - 1);
    }
  }

  /** One step of pruning on values. */
  lemma PrunedNode(d: Dep, use: set<string>)
    ensures d.Leaf? ==> Prune(d, use) == d
    ensures d.Group? && d.kind == UseGroup && !Active(d, use) ==> Prune(d, use) == d.(kind := NullGroup)
    ensures d.Group? && !(d.kind == UseGroup && !Active(d, use)) ==>
      Prune(d, use) == Group(if d.kind == UseGroup then AllGroup else d.kind, d.word, d.invert, PruneAll(d.members, use))
  {
    hide PruneAll;
  }

  // ----- how many nodes -----

  function Nodes(d: Dep): nat {
    match d
    case Leaf(_, _, _) => 1
    case Group(_, _, _, members) => 1 + NodesAll(members)
  }

  function NodesAll(ds: seq<Dep>): nat {
    if ds == [] then 0 else NodesAll(ds[..|ds| - 1]) + Nodes(ds[|ds| - 1])
  }

  /** A tree has one node for each node of its value. */
  lemma {:induction false} NodesCounted(n: DepNode)
    requires n.Valid()
    ensures |n.repr| == Nodes(n.value)
    decreases n.repr, 0
  {
    if n.kind.GroupNode? {
      MembersCounted(n, |n.members|);
      assert n.parts[..|n.members|] == n.parts && n.value.members[..|n.members|] == n.value.members;
      assert n !in Union(n.parts) by {
        NotInUnion(n, n.parts);
      }
      assert |{n} + Union(n.parts)| == 1 + |Union(n.parts)|;
    }
  }

  lemma MemberIs(n: DepNode, i: nat)
    requires n.Valid() && i < |n.members|
    ensures |n.parts| == |n.members| && n.parts[i] == n.members[i].repr < n.repr && n.members[i].Valid()
    ensures forall j :: 0 <= j < i ==> n.parts[j] !! n.parts[i]
    ensures n.value.Group? && |n.value.members| == |n.members| && n.value.members[i] == n.members[i].value
  {
    hide Union;
  }

  lemma {:induction false} MembersCounted(n: DepNode, k: nat)
    requires n.Valid() && n.value.Group? && k <= |n.members| == |n.parts| == |n.value.members|
    ensures |Union(n.parts[..k])| == NodesAll(n.value.members[..k])
    decreases n.repr, 0, k
  {
    hide DepNode.Valid;
    if k > 0 {
      MembersCounted(n, k - 1);
      MemberIs(n, k - 1);
      NodesCounted(n.members[k - 1]);
      var ps, ds := n.parts[..k], n.value.members[..k];
      assert ps[..k - 1] == n.parts[..k - 1] && ds[..k - 1] == n.value.members[..k - 1];
      UnionApart(n.parts[..k - 1], n.parts[k - 1]);
    }
  }

  lemma {:induction false} NotInUnion(n: DepNode, ss: seq<set<DepNode>>)
    requires forall i :: 0 <= i < |ss| ==> n !in ss[i]
    ensures n !in Union(ss)
  {
    if ss != [] {
      NotInUnion(n, ss[..|ss| - 1]);
    }
  }

  lemma {:induction false} UnionApart(ss: seq<set<DepNode>>, s: set<DepNode>)
    requires forall i :: 0 <= i < |ss| ==> ss[i] !! s
    ensures Union(ss) !! s
    ensures |Union(ss) + s| == |Union(ss)| + |s|
  {
    if ss != [] {
      UnionApart(ss[..|ss| - 1], s);
    }
  }
}
