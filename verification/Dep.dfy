/** Dependency strings as values: the tokens, the trees, and what the tree
    operations of `dep.c` compute. */
module Dep {
  import opened CStrings
  import opened Atom

  // ----- tokens -----

  datatype Token = Word(w: string) | Not | Any | Huh | Open | Close

  /** What a pending word adds to the token list. */
  function Flush(word: string): seq<Token> {
    if word == [] then [] else [Word(word)]
  }

  function Prepend(ts: seq<Token>, r: Option<seq<Token>>): Option<seq<Token>> {
    if r.Some? then Some(ts + r.value) else None
  }

  lemma PrependTwice(a: seq<Token>, b: seq<Token>, r: Option<seq<Token>>)
    ensures Prepend(a, Prepend(b, r)) == Prepend(a + b, r)
  {
    if r.Some? {
      Assoc(a, b, r.value);
    }
  }

  lemma PrependPlain(a: seq<Token>, b: seq<Token>)
    ensures Prepend(a, Some(b)) == Some(a + b) && Prepend(a, None) == None
  {
  }

  lemma PrependNothing(r: Option<seq<Token>>)
    ensures Prepend([], r) == r
  {
    if r.Some? {
      assert [] + r.value == r.value;
    }
  }

  /** How far the scan inside brackets goes: up to the ']' that matches, or to the end. */
  function BracketSkip(s: string, level: nat): (n: nat)
    ensures n <= |s|
  {
    if s == [] then 0
    else if s[0] == ']' && level == 0 then 0
    else 1 + BracketSkip(s[1..], if s[0] == ']' then level - 1 else if s[0] == '[' then level + 1 else level)
  }

  /** The one-character tokens. */
  function Punctuation(c: char): Option<Token> {
    if c == '!' then Some(Not)
    else if c == '?' then Some(Huh)
    else if c == '(' then Some(Open)
    else if c == ')' then Some(Close)
    else None
  }

  /** The tokens of `s`, with `word` read but not yet stored; None on a single '|'. */
  function Lex(word: string, s: string): Option<seq<Token>>
    decreases |s|
  {
    if s == [] then Some(Flush(word))
    else if IsSpace(s[0]) then Prepend(Flush(word), Lex("", s[1..]))
    else if Punctuation(s[0]).Some? then Prepend(Flush(word) + [Punctuation(s[0]).value], Lex("", s[1..]))
    else if s[0] == '|' then
      if |s| > 1 && s[1] == '|' then Prepend(Flush(word) + [Any], Lex("", s[2..])) else None
    else if s[0] == '[' then
      var n := 1 + BracketSkip(s[1..], 0);
      Lex(word + s[..n], s[n..])
    else Lex(word + [s[0]], s[1..])
  }

  // ----- trees -----

  /** A package that an atom can be resolved to; `vdb` marks an installed one. */
  datatype Pkg = Pkg(atom: AtomCtx, vdb: bool)

  datatype Kind = NullGroup | UseGroup | AnyGroup | AllGroup

  datatype Dep =
    | Leaf(atom: AtomCtx, pkg: Option<Pkg>, ipkg: Option<Pkg>)
    | Group(kind: Kind, word: string, invert: bool, members: seq<Dep>)

  // ----- parsing -----

  /** A group that is still open: what stands on the parser's stack. */
  datatype Frame = Frame(kind: Kind, word: string, invert: bool, members: seq<Dep>)

  function FrameGroup(f: Frame): Dep {
    Group(f.kind, f.word, f.invert, f.members)
  }

  function AddMember(stack: seq<Frame>, d: Dep): (r: seq<Frame>)
    requires stack != []
    ensures |r| == |stack|
  {
    var top := stack[|stack| - 1];
    stack[|stack| - 1 := top.(members := top.members + [d])]
  }

  /** Closing the innermost group. */
  function CloseTop(stack: seq<Frame>): (r: seq<Frame>)
    requires |stack| > 1
    ensures |r| == |stack| - 1
  {
    AddMember(stack[..|stack| - 1], FrameGroup(stack[|stack| - 1]))
  }

  /** The root's frame once the input ends; groups still open count as closed. */
  function RootFrame(stack: seq<Frame>): Frame
    requires stack != []
    decreases |stack|
  {
    if |stack| > 1 then RootFrame(CloseTop(stack)) else stack[0]
  }

  /** The root; one without members is a null group. */
  function Collapse(stack: seq<Frame>): Dep
    requires stack != []
  {
    var root := RootFrame(stack);
    FrameGroup(if root.members == [] then root.(kind := NullGroup) else root)
  }

  function Bangs(nots: nat): string {
    if nots == 0 then "" else if nots == 1 then "!" else "!!"
  }

  predicate StartsWith(ts: seq<Token>, t: Token) {
    ts != [] && ts[0] == t
  }

  const ROOT: Frame := Frame(AllGroup, "", false, [])

  /** The loop over the tokens; `nots` counts the '!' read before a word. */
  function Parse(ts: seq<Token>, stack: seq<Frame>, nots: nat): Option<Dep>
    requires stack != []
    decreases |ts|
  {
    if ts == [] then Some(Collapse(stack))
    else
      match ts[0]
      case Open => Parse(ts[1..], stack + [Frame(AllGroup, "", false, [])], nots)
      case Close => if |stack| > 1 then Parse(ts[1..], CloseTop(stack), nots) else None
      case Any =>
        if StartsWith(ts[1..], Open) then Parse(ts[2..], stack + [Frame(AnyGroup, "", false, [])], nots) else None
      case Not =>
        var two := StartsWith(ts[1..], Not);
        var rest := if two then ts[2..] else ts[1..];
        if rest != [] && rest[0].Word? then Parse(rest, stack, if two then 2 else 1) else None
      case Word(w) =>
        if StartsWith(ts[1..], Huh) then
          if nots > 1 || !StartsWith(ts[2..], Open) then None
          else Parse(ts[3..], stack + [Frame(UseGroup, w, nots == 1, [])], 0)
        else Parse(ts[1..], AddMember(stack, Leaf(Explode(Bangs(nots) + w, None), None, None)), 0)
      case Huh => Parse(ts[1..], stack, nots)
  }

  /** dep_grow_tree. */
  function Grow(depend: string): Option<Dep> {
    match Lex("", depend)
    case None => None
    case Some(ts) => Parse(ts, [ROOT], 0)
  }

  // ----- printing -----

  function Spaces(n: nat): (s: string)
    ensures |s| == n && forall i :: 0 <= i < n ==> s[i] == ' '
  {
    seq(n, i => ' ')
  }

  /** What is printed before a node. */
  function Lead(space: nat, newline: bool, first: bool): string {
    if newline then (if first then "" else "\n") + Spaces(4 * space)
    else if first then "" else " "
  }

  /** The atom of the package, once one is assigned. */
  function LeafStr(d: Dep): string
    requires d.Leaf?
  {
    ToString(if d.pkg.Some? then d.pkg.value.atom else d.atom)
  }

  function GroupHead(d: Dep): string
    requires d.Group?
  {
    match d.kind
    case AnyGroup => "|| "
    case UseGroup => (if d.invert then "!" else "") + d.word + "? "
    case _ => ""
  }

  predicate SingleChild(ms: seq<Dep>) {
    |ms| == 1 && ms[0].Leaf?
  }

  function GroupTail(space: nat, newline: bool, single: bool): string {
    if single || !newline then " )" else "\n" + Spaces(4 * space) + ")"
  }

  /** dep_print_tree_int without colours, verbosity 0. */
  function PrintNode(d: Dep, space: nat, newline: bool, first: bool): string
    decreases d, 1
  {
    Lead(space, newline, first) +
    if d.Leaf? then LeafStr(d)
    else if d.kind == NullGroup then ""
    else
      var single := SingleChild(d.members);
      GroupHead(d) + (if single then "( " else "(") +
      PrintMembers(d.members, if single then 0 else space + 1, !single, single) +
      GroupTail(space, newline, single)
  }

  /** The members of a group, one after the other. */
  function PrintMembers(ms: seq<Dep>, space: nat, newline: bool, first: bool): string
    decreases ms, 0
  {
    if ms == [] then "" else PrintNode(ms[0], space, newline, first) + PrintMembers(ms[1..], space, newline, first)
  }

  /** dep_print_tree: the members of the root, with a final newline. */
  function Print(root: Dep, space: nat): string
    requires root.Group?
  {
    if root.members == [] then ""
    else PrintNode(root.members[0], space, true, true) + PrintMembers(root.members[1..], space, true, false) + "\n"
  }

  // ----- USE conditionals -----

  /** Whether the condition of a USE group holds. */
  predicate Active(d: Dep, use: set<string>)
    requires d.Group?
  {
    (d.word in use) != d.invert
  }

  /** dep_prune_use. */
  function Prune(d: Dep, use: set<string>): Dep
    decreases d, 1
  {
    if d.Leaf? then d
    else if d.kind == UseGroup && !Active(d, use) then d.(kind := NullGroup)
    else d.(kind := if d.kind == UseGroup then AllGroup else d.kind, members := PruneAll(d.members, use))
  }

  function PruneAll(ms: seq<Dep>, use: set<string>): (r: seq<Dep>)
    ensures |r| == |ms|
    decreases ms, 0
  {
    if ms == [] then [] else [Prune(ms[0], use)] + PruneAll(ms[1..], use)
  }

  // ----- flattening -----

  /** dep_flatten_tree: the atoms in order, all of them of an any-of group. */
  function Flatten(d: Dep): seq<AtomCtx>
    decreases d, 1
  {
    if d.Leaf? then [d.atom] else if d.kind == NullGroup then [] else FlattenAll(d.members)
  }

  function FlattenAll(ms: seq<Dep>): seq<AtomCtx>
    decreases ms, 0
  {
    if ms == [] then [] else Flatten(ms[0]) + FlattenAll(ms[1..])
  }

  // ----- resolving, without a blocker table -----

  datatype Status = DepOk | DepFail

  /** The first installed package of a match. */
  function FirstVdb(ps: seq<Pkg>): Option<Pkg> {
    if ps == [] then None else if ps[0].vdb then Some(ps[0]) else FirstVdb(ps[1..])
  }

  /** dep_resolve_tree, against the packages that `tree` finds for an atom. */
  function Resolve(d: Dep, tree: AtomCtx -> seq<Pkg>, use: set<string>): (Status, Dep)
    decreases d, 1
  {
    if d.Leaf? then
      if d.pkg.Some? || d.atom.blocker != NoBlocker then (DepOk, d)
      else
        var r := tree(d.atom);
        if r == [] then (DepFail, d) else (DepOk, d.(pkg := Some(r[0]), ipkg := if FirstVdb(r).Some? then FirstVdb(r) else d.ipkg))
    else if d.kind == NullGroup || (d.kind == UseGroup && !Active(d, use)) then (DepOk, d)
    else if d.kind == AnyGroup then
      var (s, ms) := ResolveAny(d.members, tree, use);
      (s, d.(members := ms))
    else
      var (s, ms) := ResolveAll(d.members, tree, use);
      (s, d.(members := ms))
  }

  /** All-of: stops at the first member that fails. */
  function ResolveAll(ms: seq<Dep>, tree: AtomCtx -> seq<Pkg>, use: set<string>): (r: (Status, seq<Dep>))
    ensures |r.1| == |ms|
    decreases ms, 0
  {
    if ms == [] then (DepOk, [])
    else
      var (s, m) := Resolve(ms[0], tree, use);
      if s == DepFail then (DepFail, [m] + ms[1..])
      else
        var (s', rest) := ResolveAll(ms[1..], tree, use);
        (s', [m] + rest)
  }

  /** Any-of: resolves every member, and is met when one of them is. */
  function ResolveAny(ms: seq<Dep>, tree: AtomCtx -> seq<Pkg>, use: set<string>): (r: (Status, seq<Dep>))
    ensures |r.1| == |ms|
    decreases ms, 0
  {
    if ms == [] then (DepFail, [])
    else
      var (s, m) := Resolve(ms[0], tree, use);
      var (s', rest) := ResolveAny(ms[1..], tree, use);
      (if s == DepOk then DepOk else s', [m] + rest)
  }
}
