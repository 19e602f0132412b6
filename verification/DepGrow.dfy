/** `dep_grow_tree` as the program runs it: a tokeniser with two cursors, and a parser
    that keeps the open groups on a stack and appends nodes to the innermost one. */
module DepGrow {
  import opened CStrings
  import opened Atom
  import opened AtomExplode
  import opened Dep
  import opened DepNodes

  // ----- tokens -----

  lemma LexStep(word: string, s: string)
    requires s != []
    ensures Lex(word, s) ==
      if IsSpace(s[0]) then Prepend(Flush(word), Lex("", s[1..]))
      else if Punctuation(s[0]).Some? then Prepend(Flush(word) + [Punctuation(s[0]).value], Lex("", s[1..]))
      else if s[0] == '|' then
        if |s| > 1 && s[1] == '|' then Prepend(Flush(word) + [Any], Lex("", s[2..])) else None
      else if s[0] == '[' then
        Lex(word + s[..1 + BracketSkip(s[1..], 0)], s[1 + BracketSkip(s[1..], 0)..])
      else Lex(word + [s[0]], s[1..])
  {
  }

  lemma LexEnd(word: string)
    ensures Lex(word, []) == Some(Flush(word))
  {
  }

  /** The scan inside brackets, counting nested ones. */
  method SkipBrackets(s: string, start: nat) returns (ptr: nat)
    requires start <= |s|
    ensures ptr == start + BracketSkip(s[start..], 0)
  {
    ptr := start;
    var level: nat := 0;
    while ptr < |s| && !(s[ptr] == ']' && level == 0)
      invariant start <= ptr <= |s|
      invariant start + BracketSkip(s[start..], 0) == ptr + BracketSkip(s[ptr..], level)
    {
      assert s[ptr..][1..] == s[ptr + 1..];
      if s[ptr] == ']' {
        level := level - 1;
      } else if s[ptr] == '[' {
        level := level + 1;
      }
      ptr := ptr + 1;
    }
  }

  lemma Slices(s: string, word: nat, ptr: nat)
    requires word <= ptr < |s|
    ensures s[ptr..][1..] == s[ptr + 1..] && s[word..ptr] + [s[ptr]] == s[word..ptr + 1]
    ensures ptr + 1 < |s| ==> s[ptr..][2..] == s[ptr + 2..] && s[ptr..][1] == s[ptr + 1]
    ensures s[ptr + 1..ptr + 1] == "" && (ptr + 1 < |s| ==> s[ptr + 2..ptr + 2] == "")
  {
  }

  lemma SlicesTo(s: string, word: nat, ptr: nat, next: nat)
    requires word <= ptr <= next <= |s|
    ensures s[word..ptr] + s[ptr..][..next - ptr] == s[word..next] && s[ptr..][next - ptr..] == s[next..]
  {
  }

  /** The loop over the characters; `word` is where the pending word starts. */
  method Tokenise(depend: string) returns (r: Option<seq<Token>>)
    ensures r == Lex("", depend)
  {
    hide Lex, BracketSkip, Prepend, Flush, Punctuation, IsSpace;
    var tokens: seq<Token> := [];
    var word, ptr := 0, 0;
    assert depend[0..0] == "" && depend[0..] == depend;
    PrependNothing(Lex("", depend));
    while ptr < |depend|
      invariant word <= ptr <= |depend|
      invariant Lex("", depend) == Prepend(tokens, Lex(depend[word..ptr], depend[ptr..]))
    {
      var p := depend[ptr];
      var s := depend[ptr..];
      LexStep(depend[word..ptr], s);
      Slices(depend, word, ptr);
      var pending := Flush(depend[word..ptr]);
      PrependPlain(tokens, []);
      if IsSpace(p) {
        PrependTwice(tokens, pending, Lex("", s[1..]));
        tokens := tokens + pending;
        word, ptr := ptr + 1, ptr + 1;
      } else if Punctuation(p).Some? {
        PrependTwice(tokens, pending + [Punctuation(p).value], Lex("", s[1..]));
        tokens := tokens + (pending + [Punctuation(p).value]);
        word, ptr := ptr + 1, ptr + 1;
      } else if p == '|' {
        if ptr + 1 == |depend| || depend[ptr + 1] != '|' {
          return None;
        }
        PrependTwice(tokens, pending + [Any], Lex("", s[2..]));
        tokens := tokens + (pending + [Any]);
        word, ptr := ptr + 2, ptr + 2;
      } else if p == '[' {
        var next := SkipBrackets(depend, ptr + 1);
        SlicesTo(depend, word, ptr, next);
        ptr := next;
      } else {
        ptr := ptr + 1;
      }
    }
    assert depend[ptr..] == [];
    LexEnd(depend[word..ptr]);
    PrependPlain(tokens, Flush(depend[word..ptr]));
    tokens := tokens + Flush(depend[word..ptr]);
    r := Some(tokens);
  }

  // ----- the stack of open groups -----

  /** Member `i` of an open group is a finished subtree; `part` are its nodes. */
  ghost predicate MemberOk(m: DepNode, node: DepNode, own: set<DepNode>, part: set<DepNode>, d: Dep)
    reads node, own
  {
    m in own && m in m.repr && m.repr == part && part <= own && m.Valid() && m.value == d && m.parent == node
  }

  /** One level of the stack: the group's fields and finished members are those of the
      frame, `own` are the nodes of these members, and the group on the next level, if there
      is one, is its last member. */
  ghost predicate LevelOk(node: DepNode, f: Frame, own: set<DepNode>, next: DepNode?)
    reads node, own
  {
    var n := |f.members|;
    && node !in own
    && node.kind == GroupNode(f.kind) && node.word == f.word && node.invert == f.invert && node.atom == None
    && (if next == null then |node.members| == n else |node.members| == n + 1 && node.members[n] == next)
    && |node.parts| == n && own == Union(node.parts)
    && (forall i :: 0 <= i < n ==> MemberOk(node.members[i], node, own, node.parts[i], f.members[i]))
    && (forall i, j :: 0 <= i < j < n ==> node.parts[i] !! node.parts[j])
  }

  lemma UnionNext(ss: seq<set<DepNode>>, s: set<DepNode>)
    ensures Union(ss + [s]) == Union(ss) + s
  {
    assert (ss + [s])[..|ss|] == ss;
  }

  /** A finished subtree becomes the last member of an open group. */
  method AppendFinished(node: DepNode, ghost f: Frame, ghost own: set<DepNode>, n: DepNode)
    requires LevelOk(node, f, own, null)
    requires n.Valid() && n.parent == node && node !in n.repr && n.repr !! own
    modifies node`members, node`parts
    ensures LevelOk(node, f.(members := f.members + [n.value]), own + n.repr, null)
  {
    node.members := node.members + [n];
    TakeIn(node, f, own, n);
  }

  /** The last member has been finished. */
  ghost method TakeIn(node: DepNode, f: Frame, own: set<DepNode>, n: DepNode)
    requires LevelOk(node, f, own, n)
    requires n.Valid() && n.parent == node && node !in n.repr && n.repr !! own
    modifies node`parts
    ensures LevelOk(node, f.(members := f.members + [n.value]), own + n.repr, null)
  {
    hide Union;
    UnionNext(node.parts, n.repr);
    assert n in n.repr;
    var was := node.parts;
    node.parts := node.parts + [n.repr];
    forall i | 0 <= i < |f.members| ensures MemberOk(node.members[i], node, own + n.repr, node.parts[i], f.members[i]) {
      assert MemberOk(node.members[i], node, own, was[i], f.members[i]);
    }
  }

  /** An open group becomes the last member of an open group. */
  method AppendOpen(node: DepNode, ghost f: Frame, ghost own: set<DepNode>, n: DepNode)
    requires LevelOk(node, f, own, null)
    modifies node`members
    ensures LevelOk(node, f, own, n)
  {
    node.members := node.members + [n];
  }

  /** A group whose members are all finished is a finished subtree. */
  ghost method Seal(node: DepNode, f: Frame, own: set<DepNode>)
    requires LevelOk(node, f, own, null)
    modifies node`repr, node`value
    ensures node.repr == {node} + own && node.value == FrameGroup(f) && node.Valid()
  {
    hide Union;
    node.repr := {node} + own;
    node.value := FrameGroup(f);
  }

  /** The levels of the stack, from the innermost out: every level is in order, every open
      group's parent is the group below, and the nodes of the levels are apart, `all` being
      all of them: a node is an open group or belongs to a finished member of one level. */
  ghost predicate Levels(res: seq<DepNode>, stack: seq<Frame>, owned: seq<set<DepNode>>, all: set<DepNode>, next: DepNode?)
    reads all
    decreases |res|
  {
    && |res| == |stack| == |owned|
    && if res == [] then all == {}
       else
         var k := |res| - 1;
         && res[k] in all && owned[k] <= all
         && LevelOk(res[k], stack[k], owned[k], next)
         && res[k].parent == (if k == 0 then null else res[k - 1])
         && Levels(res[..k], stack[..k], owned[..k], all - owned[k] - {res[k]}, res[k])
  }

  ghost function OwnedBelow(res: seq<DepNode>, owned: seq<set<DepNode>>): (r: seq<set<DepNode>>)
    requires |res| == |owned| > 1
    ensures |r| == |owned| - 1
  {
    var k := |owned| - 1;
    owned[..k][k - 1 := owned[k - 1] + ({res[k]} + owned[k])]
  }

  /** Finishing the innermost group leaves the other levels in order. */
  ghost method FinishTop(res: seq<DepNode>, stack: seq<Frame>, owned: seq<set<DepNode>>, all: set<DepNode>)
    requires |res| > 1 && Levels(res, stack, owned, all, null)
    modifies all`repr, all`value, all`parts
    ensures Levels(res[..|res| - 1], CloseTop(stack), OwnedBelow(res, owned), all, null)
  {
    hide LevelOk, MemberOk;
    var k := |res| - 1;
    var top, own, below, g, belowOwn := res[k], owned[k], res[k - 1], stack[k - 1], owned[k - 1];
    assert Levels(res[..k], stack[..k], owned[..k], all - own - {top}, top);
    assert res[..k][k - 1] == below && stack[..k][k - 1] == g && owned[..k][k - 1] == belowOwn;
    LevelApart(top, stack[k], own, null);
    LevelApart(below, g, belowOwn, top);
    Seal(top, stack[k], own);
    TakeIn(below, g, belowOwn, top);
    var owned' := OwnedBelow(res, owned);
    assert CloseTop(stack)[..k - 1] == stack[..k][..k - 1];
    assert owned'[..k - 1] == owned[..k][..k - 1];
    assert all - owned'[k - 1] - {below} == all - own - {top} - belowOwn - {below};
  }

  lemma LevelApart(node: DepNode, f: Frame, own: set<DepNode>, next: DepNode?)
    requires LevelOk(node, f, own, next)
    ensures node !in own
  {
  }

  /** Once all groups count as finished, the root is a tree of all the nodes. */
  ghost method FinishAll(res: seq<DepNode>, stack: seq<Frame>, owned: seq<set<DepNode>>, all: set<DepNode>)
    requires res != [] && Levels(res, stack, owned, all, null)
    modifies all`repr, all`value, all`parts
    ensures res[0].Valid() && res[0].value == FrameGroup(RootFrame(stack)) && res[0].repr == all
    ensures res[0].parent == null
    decreases |res|
  {
    hide LevelOk, MemberOk;
    if |res| == 1 {
      Seal(res[0], stack[0], owned[0]);
      assert Levels(res[..0], stack[..0], owned[..0], all - owned[0] - {res[0]}, res[0]);
    } else {
      FinishTop(res, stack, owned, all);
      FinishAll(res[..|res| - 1], CloseTop(stack), OwnedBelow(res, owned), all);
    }
  }

  lemma EmptyLevel(n: DepNode, f: Frame)
    requires n.kind == GroupNode(f.kind) && n.word == f.word && n.invert == f.invert && n.atom == None
    requires f.members == [] && n.members == [] && n.parts == []
    ensures LevelOk(n, f, {}, null)
  {
  }

  class Grower {
    var res: seq<DepNode>               // the open groups
    var level: int                      // the counter kept beside them
    ghost var stack: seq<Frame>         // what they stand for
    ghost var owned: seq<set<DepNode>>  // the finished nodes under each of them
    ghost var created: set<DepNode>     // every node created so far

    ghost predicate Valid()
      reads this, created
    {
      |res| == level + 1 && level >= 0 && Levels(res, stack, owned, created, null)
    }

    lemma Counted()
      requires Valid()
      ensures |stack| == |res| == level + 1 && level >= 0
    {
    }

    /** array_get: NULL outside the array. */
    function At(n: int): DepNode?
      reads this
    {
      if 0 <= n < |res| then res[n] else null
    }

    constructor ()
      ensures Valid() && fresh(created) && stack == [ROOT] && level == 0
    {
      var root := new DepNode(GroupNode(AllGroup), "", false, None, null);
      res, stack, owned := [root], [ROOT], [{}];
      level := 0;
      created := {root};
    }

    /** A finished atom becomes the last member of the innermost group. There is always one: the group
        that the counter names is never missing. */
    method AddAtom(a: AtomCtx) returns (ok: bool)
      requires Valid()
      modifies this, created
      ensures Valid() && ok && level == old(level) && res == old(res)
      ensures exists n :: fresh(n) && created == old(created) + {n}
      ensures stack == AddMember(old(stack), Leaf(a, None, None))
    {
      hide LevelOk, MemberOk;
      var parent := At(level);
      var n := new DepNode(AtomNode, "", false, Some(a), parent);
      ok := parent != null;
      if parent != null {
        ghost var own := owned[level];
        LevelApart(parent, stack[level], own, null);
        AppendFinished(parent, stack[level], own, n);
        ghost var was := stack;
        stack := AddMember(stack, n.value);
        assert stack[..level] == was[..level];
        owned := owned[level := own + n.repr];
        assert owned[..level] == old(owned)[..level];
        created := created + {n};
        assert created - owned[level] - {res[level]} == old(created) - own - {res[level]};
      }
    }

    /** A new group becomes the last member of the innermost one, and the innermost itself. */
    method OpenGroup(kind: Kind, word: string, invert: bool) returns (ok: bool)
      requires Valid()
      modifies this, created
      ensures Valid() && ok && level == old(level) + 1 && res == old(res) + [res[level]]
      ensures fresh(res[level]) && created == old(created) + {res[level]}
      ensures stack == old(stack) + [Frame(kind, word, invert, [])]
    {
      hide LevelOk, MemberOk;
      var parent := At(level);
      var n := new DepNode(GroupNode(kind), word, invert, None, parent);
      ok := parent != null;
      if parent != null {
        EmptyLevel(n, Frame(kind, word, invert, []));
        AppendOpen(parent, stack[level], owned[level], n);
        res := res + [n];
        stack := stack + [Frame(kind, word, invert, [])];
        owned := owned + [{}];
        created := created + {n};
        level := level + 1;
        assert res[..level] == old(res) && stack[..level] == old(stack) && owned[..level] == old(owned);
        assert created - {} - {n} == old(created);
        assert Levels(old(res), old(stack), old(owned), old(created), n);
      }
    }

    /** The innermost group is finished. */
    method CloseGroup()
      requires Valid() && level > 0
      modifies this, created
      ensures Valid() && created == old(created) && level == old(level) - 1 && res == old(res)[..old(level)]
      ensures stack == CloseTop(old(stack))
    {
      hide LevelOk, MemberOk, CloseTop;
      FinishTop(res, stack, owned, created);
      owned := OwnedBelow(res, owned);
      assert res[..level] + res[level + 1..] == res[..level];
      res := res[..level] + res[level + 1..];
      stack := CloseTop(stack);
      level := level - 1;
    }
  }

  // ----- the loop over the tokens -----

  /** One round of the loop, on values. */
  lemma ParseStep(ts: seq<Token>, stack: seq<Frame>, nots: nat)
    requires stack != [] && ts != []
    ensures Parse(ts, stack, nots) ==
      match ts[0]
      case Open => Parse(ts[1..], stack + [Frame(AllGroup, "", false, [])], nots)
      case Close => if |stack| > 1 then Parse(ts[1..], CloseTop(stack), nots) else None
      case Any =>
        if StartsWith(ts[1..], Open) then Parse(ts[2..], stack + [Frame(AnyGroup, "", false, [])], nots) else None
      case Not =>
        var two := StartsWith(ts[1..], Not);
        var rest := if two then ts[2..] else ts[1..];
        if rest != [] && rest[0].Word? then Parse(rest, stack, if two then 2 else 1) else None
      case Word(w) =>
        if StartsWith(ts[1..], Huh) then
          if nots > 1 || !StartsWith(ts[2..], Open) then None
          else Parse(ts[3..], stack + [Frame(UseGroup, w, nots == 1, [])], 0)
        else Parse(ts[1..], AddMember(stack, Leaf(Explode(Bangs(nots) + w, None), None, None)), 0)
      case Huh => Parse(ts[1..], stack, nots)
  {
    hide Explode, Collapse, CloseTop, AddMember;
  }

  predicate TokenAt(tokens: seq<Token>, n: nat, t: Token) {
    n < |tokens| && tokens[n] == t
  }

  lemma TokensFrom(tokens: seq<Token>, n: nat)
    requires n < |tokens|
    ensures tokens[n..] != [] && tokens[n..][0] == tokens[n]
    ensures tokens[n..][1..] == tokens[n + 1..]
    ensures n + 1 < |tokens| ==> tokens[n..][2..] == tokens[n + 2..]
    ensures n + 2 < |tokens| ==> tokens[n..][3..] == tokens[n + 3..]
    ensures StartsWith(tokens[n + 1..], Open) <==> TokenAt(tokens, n + 1, Open)
    ensures StartsWith(tokens[n + 1..], Not) <==> TokenAt(tokens, n + 1, Not)
    ensures StartsWith(tokens[n + 1..], Huh) <==> TokenAt(tokens, n + 1, Huh)
    ensures n + 1 < |tokens| ==> (StartsWith(tokens[n + 2..], Open) <==> TokenAt(tokens, n + 2, Open))
    ensures n + 2 < |tokens| ==> tokens[n + 2..] == [tokens[n + 2]] + tokens[n + 3..]
    ensures n + 1 < |tokens| ==> tokens[n + 1..][0] == tokens[n + 1]
  {
  }

  /** One token, with what it looks ahead at; `next` is None when the parser gives up. */
  method ParseToken(g: Grower, tokens: seq<Token>, n: nat, nots: nat) returns (next: Option<(nat, nat)>)
    requires g.Valid() && n < |tokens|
    modifies g, g.created
    ensures g.Valid() && fresh(g.created - old(g.created))
    ensures next.Some? ==> n < next.value.0 <= |tokens|
    ensures Parse(tokens[n..], old(g.stack), nots) ==
      if next.Some? then Parse(tokens[next.value.0..], g.stack, next.value.1) else None
  {
    hide Parse, Explode, Grower.Valid, AddMember, CloseTop, Bangs;
    g.Counted();
    ParseStep(tokens[n..], g.stack, nots);
    TokensFrom(tokens, n);
    next := None;
    match tokens[n] {
      case Open =>
        var ok := g.OpenGroup(AllGroup, "", false);
        if ok {
          next := Some((n + 1, nots));
        }
      case Close =>
        if g.level > 0 {
          g.CloseGroup();
          next := Some((n + 1, nots));
        }
      case Any =>
        if TokenAt(tokens, n + 1, Open) {
          var ok := g.OpenGroup(AnyGroup, "", false);
          if ok {
            next := Some((n + 2, nots));
          }
        }
      case Not =>
        var word := if TokenAt(tokens, n + 1, Not) then n + 2 else n + 1;
        if word < |tokens| && tokens[word].Word? {
          assert tokens[word..][0] == tokens[word];
          next := Some((word, if word == n + 2 then 2 else 1));
        }
      case Word(w) =>
        if TokenAt(tokens, n + 1, Huh) {
          if nots <= 1 && TokenAt(tokens, n + 2, Open) {
            var ok := g.OpenGroup(UseGroup, w, nots == 1);
            if ok {
              next := Some((n + 3, 0));
            }
          }
        } else {
          var a := ExplodeCat(Bangs(nots) + w, None);
          var ok := g.AddAtom(a);
          if ok {
            next := Some((n + 1, 0));
          }
        }
      case Huh =>
        next := Some((n + 1, nots));
    }
  }

  /** The loop over the tokens. The tree consists of every node that was created, and has one node for
      each node of the value it stands for. */
  method ParseTokens(tokens: seq<Token>) returns (root: DepNode?, ghost created: set<DepNode>)
    ensures root == null <==> Parse(tokens, [ROOT], 0) == None
    ensures root != null ==> fresh(created) && root.repr == created && root.Valid() && root.parent == null
    ensures root != null ==> |created| == Nodes(root.value)
    ensures root != null ==> Parse(tokens, [ROOT], 0) == Some(root.value)
  {
    hide Parse, Collapse;
    var g := new Grower();
    created := g.created;
    var n, nots := 0, 0;
    assert tokens[0..] == tokens;
    while n < |tokens|
      invariant n <= |tokens|
      invariant g.Valid() && fresh(g) && fresh(g.created) && created == g.created
      invariant Parse(tokens, [ROOT], 0) == Parse(tokens[n..], g.stack, nots)
    {
      var next := ParseToken(g, tokens, n, nots);
      created := g.created;
      if next.None? {
        return null, created;
      }
      n, nots := next.value.0, next.value.1;
    }
    assert tokens[n..] == [];
    ParseEnd(g.stack, nots);
    root := g.At(0);
    FinishTree(g, root);
    NodesCounted(root);
  }

  /** Closing what is still open; a root without members becomes a null group. */
  method FinishTree(g: Grower, root: DepNode)
    requires g.Valid() && root == g.res[0]
    modifies g.created
    ensures root.Valid() && root.repr == g.created && root.parent == null && root.value == Collapse(g.stack)
  {
    FinishAll(g.res, g.stack, g.owned, g.created);
    if |root.members| == 0 {
      root.kind := GroupNode(NullGroup);
      root.value := root.value.(kind := NullGroup);
    }
  }

  lemma ParseEnd(stack: seq<Frame>, nots: nat)
    requires stack != []
    ensures Parse([], stack, nots) == Some(Collapse(stack))
  {
  }

  /** dep_grow_tree: NULL exactly when the string does not parse, and else a fresh tree of
      nodes that stands for the parsed value. */
  method GrowTree(depend: string) returns (root: DepNode?)
    ensures root == null <==> Grow(depend) == None
    ensures root != null ==> fresh(root.repr) && root.Valid() && root.parent == null
    ensures root != null ==> Grow(depend) == Some(root.value) && |root.repr| == Nodes(root.value)
  {
    hide Lex, Parse;
    var ts := Tokenise(depend);
    if ts.None? {
      return null;
    }
    ghost var created;
    root, created := ParseTokens(ts.value);
  }
}
