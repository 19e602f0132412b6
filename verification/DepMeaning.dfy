/** What pruning, flattening and resolving a dependency tree mean. */
module DepMeaning {
  import opened CStrings
  import opened Atom
  import opened Dep
  import opened DepRoundTrip

  // ----- pruning -----

  /** The nodes under active conditions, as they stand in a tree without conditions. */
  function ActiveNodes(d: Dep, use: set<string>): seq<Dep>
    decreases d, 1
  {
    if d.Leaf? then [d]
    else if d.kind == NullGroup || (d.kind == UseGroup && !Active(d, use)) then []
    else [Group(if d.kind == AnyGroup then AnyGroup else AllGroup, "", false, ActiveNodesAll(d.members, use))]
  }

  function ActiveNodesAll(ms: seq<Dep>, use: set<string>): seq<Dep>
    decreases ms, 0
  {
    if ms == [] then [] else ActiveNodes(ms[0], use) + ActiveNodesAll(ms[1..], use)
  }

  /** The atoms under active conditions, in order. */
  function ActiveAtoms(d: Dep, use: set<string>): seq<AtomCtx>
    decreases d, 1
  {
    if d.Leaf? then [d.atom]
    else if d.kind == NullGroup || (d.kind == UseGroup && !Active(d, use)) then []
    else ActiveAtomsAll(d.members, use)
  }

  function ActiveAtomsAll(ms: seq<Dep>, use: set<string>): seq<AtomCtx>
    decreases ms, 0
  {
    if ms == [] then [] else ActiveAtoms(ms[0], use) + ActiveAtomsAll(ms[1..], use)
  }

  lemma {:induction false} EraseOfPrune(d: Dep, use: set<string>)
    ensures Erase(Prune(d, use)) == ActiveNodes(d, use)
    decreases d, 1
  {
    if d.Group? {
      EraseOfPruneAll(d.members, use);
    }
  }

  lemma {:induction false} EraseOfPruneAll(ms: seq<Dep>, use: set<string>)
    ensures EraseAll(PruneAll(ms, use)) == ActiveNodesAll(ms, use)
    decreases ms, 0
  {
    if ms != [] {
      EraseOfPrune(ms[0], use);
      EraseOfPruneAll(ms[1..], use);
      hide Prune, Erase, ActiveNodes;
      assert PruneAll(ms, use)[1..] == PruneAll(ms[1..], use);
    }
  }

  lemma {:induction false} PrunePrintable(d: Dep, use: set<string>)
    requires PrintableDep(d)
    ensures PrintableDep(Prune(d, use))
    decreases d, 1
  {
    hide PrintableLeaf, IsWord;
    if d.Group? && d.kind != NullGroup && !(d.kind == UseGroup && !Active(d, use)) {
      PrunePrintableAll(d.members, use);
    }
  }

  lemma {:induction false} PrunePrintableAll(ms: seq<Dep>, use: set<string>)
    requires PrintableAll(ms)
    ensures PrintableAll(PruneAll(ms, use))
    decreases ms, 0
  {
    if ms != [] {
      PrunePrintable(ms[0], use);
      PrunePrintableAll(ms[1..], use);
      hide Prune, PrintableDep;
      assert PruneAll(ms, use)[1..] == PruneAll(ms[1..], use);
    }
  }

  /** Flattening the pruned tree lists exactly the atoms under active conditions. */
  lemma {:induction false} FlattenOfPrune(d: Dep, use: set<string>)
    ensures Flatten(Prune(d, use)) == ActiveAtoms(d, use)
    decreases d, 1
  {
    if d.Group? {
      FlattenOfPruneAll(d.members, use);
    }
  }

  lemma {:induction false} FlattenOfPruneAll(ms: seq<Dep>, use: set<string>)
    ensures FlattenAll(PruneAll(ms, use)) == ActiveAtomsAll(ms, use)
    decreases ms, 0
  {
    if ms != [] {
      FlattenOfPrune(ms[0], use);
      FlattenOfPruneAll(ms[1..], use);
      hide Prune, Flatten, ActiveAtoms;
      assert PruneAll(ms, use)[1..] == PruneAll(ms[1..], use);
    }
  }

  /** Printing the pruned tree and parsing the text gives the original with the inactive
      groups deleted and the active ones turned into all-of groups. */
  lemma GrowOfPruned(root: Dep, use: set<string>, space: nat)
    requires root.Group? && root.kind == AllGroup && PrintableAll(root.members)
    ensures Grow(Print(Prune(root, use), space)) == Some(RootOf(ActiveNodesAll(root.members, use)))
  {
    PrunePrintableAll(root.members, use);
    EraseOfPruneAll(root.members, use);
    assert Prune(root, use).members == PruneAll(root.members, use);
    hide Print, Grow, PrintableAll, ActiveNodesAll, EraseAll, Prune, PruneAll;
    GrowOfPrint(Prune(root, use), space);
  }

  /** "flag? ( ... )" counts with the flag set and "!flag? ( ... )" without it. */
  lemma ActiveMeans(d: Dep, use: set<string>)
    requires d.Group? && d.kind == UseGroup
    ensures var counts := if d.invert then d.word !in use else d.word in use;
      && Active(d, use) == counts
      && Flatten(Prune(d, use)) == if counts then FlattenAll(PruneAll(d.members, use)) else []
  {
  }

  // ----- resolving -----

  /** The formula a tree stands for, each atom read as "the tree has a match". */
  predicate Satisfied(d: Dep, tree: AtomCtx -> seq<Pkg>, use: set<string>)
    decreases d, 1
  {
    if d.Leaf? then d.pkg.Some? || d.atom.blocker != NoBlocker || tree(d.atom) != []
    else
      match d.kind
      case NullGroup => true
      case AnyGroup => SomeSatisfied(d.members, tree, use)
      case AllGroup => AllSatisfied(d.members, tree, use)
      case UseGroup => Active(d, use) ==> AllSatisfied(d.members, tree, use)
  }

  predicate AllSatisfied(ms: seq<Dep>, tree: AtomCtx -> seq<Pkg>, use: set<string>)
    decreases ms, 0
  {
    ms == [] || (Satisfied(ms[0], tree, use) && AllSatisfied(ms[1..], tree, use))
  }

  predicate SomeSatisfied(ms: seq<Dep>, tree: AtomCtx -> seq<Pkg>, use: set<string>)
    decreases ms, 0
  {
    ms != [] && (Satisfied(ms[0], tree, use) || SomeSatisfied(ms[1..], tree, use))
  }

  /** Resolving succeeds exactly when the formula holds. */
  lemma {:induction false} ResolvedIffSatisfied(d: Dep, tree: AtomCtx -> seq<Pkg>, use: set<string>)
    ensures Resolve(d, tree, use).0 == DepOk <==> Satisfied(d, tree, use)
    decreases d, 1
  {
    if d.Group? {
      ResolvedAllIff(d.members, tree, use);
      ResolvedAnyIff(d.members, tree, use);
    }
  }

  lemma {:induction false} ResolvedAllIff(ms: seq<Dep>, tree: AtomCtx -> seq<Pkg>, use: set<string>)
    ensures ResolveAll(ms, tree, use).0 == DepOk <==> AllSatisfied(ms, tree, use)
    decreases ms, 0
  {
    if ms != [] {
      ResolvedIffSatisfied(ms[0], tree, use);
      ResolvedAllIff(ms[1..], tree, use);
    }
  }

  lemma {:induction false} ResolvedAnyIff(ms: seq<Dep>, tree: AtomCtx -> seq<Pkg>, use: set<string>)
    ensures ResolveAny(ms, tree, use).0 == DepOk <==> SomeSatisfied(ms, tree, use)
    decreases ms, 0
  {
    if ms != [] {
      ResolvedIffSatisfied(ms[0], tree, use);
      ResolvedAnyIff(ms[1..], tree, use);
    }
  }

  /** Pruning first and resolving then gives the same status, and the tree that resolving
      first and pruning then gives: every atom is assigned the same package. The flags the
      second resolving gets do not matter, no condition being left. */
  lemma {:induction false} PruneCommutes(d: Dep, tree: AtomCtx -> seq<Pkg>, use: set<string>, use': set<string>)
    ensures Resolve(Prune(d, use), tree, use').0 == Resolve(d, tree, use).0
    ensures Resolve(Prune(d, use), tree, use').1 == Prune(Resolve(d, tree, use).1, use)
    decreases d, 1
  {
    if d.Group? && d.kind != NullGroup {
      if d.kind == AnyGroup {
        PruneCommutesAny(d.members, tree, use, use');
      } else if !(d.kind == UseGroup && !Active(d, use)) {
        PruneCommutesAll(d.members, tree, use, use');
      }
    } else if d.Group? {
      PruneNull(d, tree, use, use');
    }
  }

  lemma PruneNull(d: Dep, tree: AtomCtx -> seq<Pkg>, use: set<string>, use': set<string>)
    requires d.Group? && d.kind == NullGroup
    ensures Resolve(Prune(d, use), tree, use') == (DepOk, Prune(d, use))
    ensures Resolve(d, tree, use) == (DepOk, d)
  {
  }

  lemma {:induction false} PruneCommutesAll(ms: seq<Dep>, tree: AtomCtx -> seq<Pkg>, use: set<string>, use': set<string>)
    ensures ResolveAll(PruneAll(ms, use), tree, use').0 == ResolveAll(ms, tree, use).0
    ensures ResolveAll(PruneAll(ms, use), tree, use').1 == PruneAll(ResolveAll(ms, tree, use).1, use)
    decreases ms, 0
  {
    if ms != [] {
      PruneCommutes(ms[0], tree, use, use');
      PruneCommutesAll(ms[1..], tree, use, use');
      hide Prune, Resolve;
      assert PruneAll(ms, use)[1..] == PruneAll(ms[1..], use);
      var (s, m) := Resolve(ms[0], tree, use);
      PruneCons(m, ms[1..], use);
      PruneCons(m, ResolveAll(ms[1..], tree, use).1, use);
    }
  }

  lemma {:induction false} PruneCommutesAny(ms: seq<Dep>, tree: AtomCtx -> seq<Pkg>, use: set<string>, use': set<string>)
    ensures ResolveAny(PruneAll(ms, use), tree, use').0 == ResolveAny(ms, tree, use).0
    ensures ResolveAny(PruneAll(ms, use), tree, use').1 == PruneAll(ResolveAny(ms, tree, use).1, use)
    decreases ms, 0
  {
    if ms != [] {
      PruneCommutes(ms[0], tree, use, use');
      PruneCommutesAny(ms[1..], tree, use, use');
      hide Prune, Resolve;
      assert PruneAll(ms, use)[1..] == PruneAll(ms[1..], use);
      PruneCons(Resolve(ms[0], tree, use).1, ResolveAny(ms[1..], tree, use).1, use);
    }
  }

  lemma PruneCons(m: Dep, ms: seq<Dep>, use: set<string>)
    ensures PruneAll([m] + ms, use) == [Prune(m, use)] + PruneAll(ms, use)
  {
    assert ([m] + ms)[1..] == ms;
    hide Prune;
  }
}
