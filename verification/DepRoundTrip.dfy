/** Parsing a printed dependency tree gives the tree back. */
module DepRoundTrip {
  import opened CStrings
  import opened Atom
  import opened AtomRoundTrip
  import opened Dep

  // ----- the trees in question -----

  predicate IsWord(s: string) {
    s != [] && forall c :: c in s ==> IsNameChar(c) || c == '@'
  }

  /** An atom that printing and exploding gives back, and that no package is assigned to. */
  ghost predicate PrintableLeaf(d: Dep)
    requires d.Leaf?
  {
    && Printable(d.atom) && NameRead(d.atom) && NoExtension(d.atom) && d.pkg.None? && d.ipkg.None?
    && forall u :: u in d.atom.usedeps ==> u.sfx != UcPrevDisabled
  }

  ghost predicate PrintableDep(d: Dep)
    decreases d, 1
  {
    if d.Leaf? then PrintableLeaf(d)
    else (d.kind == UseGroup ==> IsWord(d.word)) && (d.kind != NullGroup ==> PrintableAll(d.members))
  }

  ghost predicate PrintableAll(ms: seq<Dep>)
    decreases ms, 0
  {
    ms == [] || (PrintableDep(ms[0]) && PrintableAll(ms[1..]))
  }

  /** What is left of a node when it is printed and parsed: nothing of a null group, and
      no trace of a former condition on the other groups. */
  function Erase(d: Dep): seq<Dep>
    decreases d, 1
  {
    if d.Leaf? then [d]
    else
      match d.kind
      case NullGroup => []
      case UseGroup => [Group(UseGroup, d.word, d.invert, EraseAll(d.members))]
      case k => [Group(k, "", false, EraseAll(d.members))]
  }

  function EraseAll(ms: seq<Dep>): seq<Dep>
    decreases ms, 0
  {
    if ms == [] then [] else Erase(ms[0]) + EraseAll(ms[1..])
  }

  // ----- the tokens of a tree -----

  function BangTokens(b: Blocker): seq<Token> {
    match b
    case Block => [Not]
    case BlockHard => [Not, Not]
    case _ => []
  }

  /** A '^' blocker and the operator. */
  function LeafSigns(a: AtomCtx): string {
    (if a.blocker == AntiSlot then "^" else "") + OpStr(a.pfxOp)
  }

  /** The printed atom without its '!' signs. */
  function LeafWord(a: AtomCtx): string {
    LeafSigns(a) + BodyStr(a)
  }

  function BangStr(b: Blocker): string {
    if b == AntiSlot then "" else BlockerStr(b)
  }

  function LeafTokens(a: AtomCtx): seq<Token> {
    BangTokens(a.blocker) + [Word(LeafWord(a))]
  }

  function HeadTokens(d: Dep): seq<Token>
    requires d.Group?
  {
    match d.kind
    case AnyGroup => [Any, Open]
    case UseGroup => (if d.invert then [Not] else []) + [Word(d.word), Huh, Open]
    case _ => [Open]
  }

  function Tokens(d: Dep): seq<Token>
    decreases d, 1
  {
    if d.Leaf? then LeafTokens(d.atom)
    else if d.kind == NullGroup then []
    else HeadTokens(d) + TokensAll(d.members) + [Close]
  }

  function TokensAll(ms: seq<Dep>): seq<Token>
    decreases ms, 0
  {
    if ms == [] then [] else Tokens(ms[0]) + TokensAll(ms[1..])
  }

  // ----- reading tokens -----

  predicate PlainChar(c: char) {
    !IsSpace(c) && Punctuation(c).None? && c != '|' && c != '['
  }

  predicate IsPlain(s: string) {
    forall c :: c in s ==> PlainChar(c)
  }

  /** Brackets opened and not yet closed after `s`, from `level` on; below zero once one was closed too many. */
  function Depth(s: string, level: int): int {
    if s == [] || level < 0 then level
    else Depth(s[1..], if s[0] == '[' then level + 1 else if s[0] == ']' then level - 1 else level)
  }

  /** The scan inside brackets ends at the bracket that closes them, whatever balanced brackets stand before. */
  lemma {:induction false} BracketEnds(x: string, t: string, level: nat)
    requires Depth(x, level) == 0
    ensures BracketSkip(x + "]" + t, level) == |x|
  {
    var s := x + "]" + t;
    if x != [] {
      assert s[0] == x[0] && s[1..] == x[1..] + "]" + t;
      var next := if x[0] == '[' then level + 1 else if x[0] == ']' then level - 1 else level;
      BracketEnds(x[1..], t, next);
    }
  }

  /** So a bracketed stretch with brackets inside stays in one word. */
  lemma LexBracketed(w: string, x: string, t: string)
    requires Depth(x, 0) == 0
    ensures Lex(w, "[" + x + "]" + t) == Lex(w + "[" + x, "]" + t)
  {
    var s := "[" + x + "]" + t;
    assert s[1..] == x + "]" + t;
    BracketEnds(x, t, 0);
    assert s[..1 + |x|] == "[" + x && s[1 + |x|..] == "]" + t;
    assert w + ("[" + x) == w + "[" + x;
    LexBracketStep(w, s);
  }

  lemma LexBracketStep(w: string, s: string)
    requires s != [] && s[0] == '['
    ensures var n := 1 + BracketSkip(s[1..], 0); Lex(w, s) == Lex(w + s[..n], s[n..])
  {
    hide BracketSkip;
  }

  predicate StartsBlank(s: string) {
    s != [] && IsSpace(s[0])
  }

  lemma {:induction false} LexPlain(w: string, x: string, rest: string)
    requires IsPlain(x)
    ensures Lex(w, x + rest) == Lex(w + x, rest)
    decreases |x|
  {
    if x == [] {
      assert x + rest == rest && w + x == w;
    } else {
      LexPlainChar(w, x[0], x[1..] + rest);
      assert x + rest == [x[0]] + (x[1..] + rest);
      hide Lex;
      LexPlain(w + [x[0]], x[1..], rest);
      assert w + [x[0]] + x[1..] == w + x;
    }
  }

  lemma LexPlainChar(w: string, c: char, t: string)
    requires PlainChar(c)
    ensures Lex(w, [c] + t) == Lex(w + [c], t)
  {
    assert ([c] + t)[1..] == t;
  }

  lemma LexBlank(w: string, c: char, t: string)
    requires IsSpace(c)
    ensures Lex(w, [c] + t) == Prepend(Flush(w), Lex("", t))
  {
    assert ([c] + t)[1..] == t;
  }

  lemma LexPunctuation(w: string, c: char, t: string)
    requires Punctuation(c).Some?
    ensures Lex(w, [c] + t) == Prepend(Flush(w) + [Punctuation(c).value], Lex("", t))
  {
    assert ([c] + t)[1..] == t;
  }

  lemma {:induction false} LexBlanks(x: string, t: string)
    requires forall i :: 0 <= i < |x| ==> IsSpace(x[i])
    ensures Lex("", x + t) == Lex("", t)
  {
    if x == [] {
      assert x + t == t;
    } else {
      assert x + t == [x[0]] + (x[1..] + t);
      LexBlank("", x[0], x[1..] + t);
      PrependNothing(Lex("", x[1..] + t));
      LexBlanks(x[1..], t);
    }
  }

  /** A word ends at a blank. */
  lemma LexWordEnds(w: string, t: string)
    requires w != [] && StartsBlank(t)
    ensures Lex(w, t) == Prepend([Word(w)], Lex("", t))
  {
    assert t == [t[0]] + t[1..];
    LexBlank(w, t[0], t[1..]);
    LexBlank("", t[0], t[1..]);
    PrependNothing(Lex("", t[1..]));
  }

  lemma {:induction false} BracketRun(inner: string, t: string)
    requires '[' !in inner && ']' !in inner
    ensures BracketSkip(inner + ("]" + t), 0) == |inner|
  {
    if inner == [] {
      assert inner + ("]" + t) == "]" + t;
    } else {
      assert (inner + ("]" + t))[1..] == inner[1..] + ("]" + t);
      BracketRun(inner[1..], t);
    }
  }

  lemma LexBracket(w: string, inner: string, t: string)
    requires '[' !in inner && ']' !in inner
    ensures Lex(w, "[" + inner + "]" + t) == Lex(w + ("[" + inner + "]"), t)
  {
    var s := "[" + inner + "]" + t;
    BracketRun(inner, t);
    assert s[1..] == inner + ("]" + t);
    var n := 1 + |inner|;
    assert s[..n] == "[" + inner;
    assert s[n..] == [']'] + t;
    assert Lex(w, s) == Lex(w + s[..n], s[n..]);
    hide Lex;
    LexPlainChar(w + ("[" + inner), ']', t);
    assert w + ("[" + inner) + [']'] == w + ("[" + inner + "]");
  }

  // ----- atoms -----

  /** The USE dependencies end in the bracket that closes them, and hold no other. */
  lemma {:induction false} UseListShape(us: seq<UseDep>)
    requires us != [] && forall u :: u in us ==> PrintableUse(u)
    ensures var s := UseListStr(us); var inner := s[..|s| - 1];
      s == inner + "]" && '[' !in inner && ']' !in inner
  {
    var u := us[0];
    assert u in us;
    UseDepChars(u);
    var s := UseListStr(us);
    if |us| == 1 {
      assert s[..|s| - 1] == UseDepStr(u);
    } else {
      UseListShape(us[1..]);
      var t := UseListStr(us[1..]);
      var inner := t[..|t| - 1];
      assert s == UseDepStr(u) + "," + t;
      hide UseDepStr, UseListStr;
      assert s[..|s| - 1] == UseDepStr(u) + "," + inner;
      assert s == UseDepStr(u) + "," + inner + "]";
    }
  }

  lemma UseDepChars(u: UseDep)
    requires PrintableUse(u)
    ensures '[' !in UseDepStr(u) && ']' !in UseDepStr(u)
  {
  }

  lemma SlottedPlain(a: AtomCtx)
    requires Derived(a) && PrintableParts(a)
    ensures IsPlain(SlottedStr(a)) && SlottedStr(a) != []
  {
    hide CoreStr, SlotStr, Derived, PrintableParts, OpStr, IsPlain, PlainChar;
    CorePlain(a);
    SlotStrPlain(a);
    OpPlain(a.sfxOp);
    JoinPlain(CoreStr(a), OpStr(a.sfxOp));
    JoinPlain(GlobbedStr(a), SlotStr(a));
  }

  lemma CorePlain(a: AtomCtx)
    requires Derived(a) && PrintableParts(a)
    ensures IsPlain(CoreStr(a)) && CoreStr(a) != []
  {
    CoreChars(a);
    hide CoreStr, Derived, PrintableParts;
  }

  lemma JoinPlain(x: string, y: string)
    requires IsPlain(x) && IsPlain(y)
    ensures IsPlain(x + y)
  {
    hide PlainChar;
  }

  lemma SlotStrPlain(a: AtomCtx)
    requires PrintableParts(a)
    ensures IsPlain(SlotStr(a))
  {
    SlotTextChars(a);
    assert IsPlain(SlotText(a)) && IsPlain(SlotDepStr(a.slotdep));
    if a.slot.Some? || a.slotdep != SdNone {
      SlotStrSplit("", a);
    }
    hide SlotText, SlotDepStr, SlotStr;
  }

  /** The text of an atom read as part of a word. */
  lemma LexBody(w: string, a: AtomCtx, t: string)
    requires Derived(a) && PrintableParts(a)
    ensures Lex(w, BodyStr(a) + t) == Lex(w + BodyStr(a), t)
  {
    hide Lex, SlottedStr, RepoStr, Derived, PrintableParts, UseStr;
    SlottedPlain(a);
    RepoPlain(a);
    UsesPrintable(a);
    var x, u, r := SlottedStr(a), UseStr(a.usedeps), RepoStr(a);
    Assoc(x + u, r, t);
    Assoc(x, u, r + t);
    LexPlain(w, x, u + (r + t));
    LexUses(w + x, a.usedeps, r + t);
    LexPlain(w + x + u, r, t);
    Assoc(w, x, u);
    Assoc(w, x + u, r);
  }

  lemma UsesPrintable(a: AtomCtx)
    requires PrintableParts(a)
    ensures forall u :: u in a.usedeps ==> PrintableUse(u)
  {
  }

  lemma RepoPlain(a: AtomCtx)
    requires PrintableParts(a)
    ensures IsPlain(RepoStr(a))
  {
  }

  lemma LexUses(w: string, us: seq<UseDep>, t: string)
    requires forall u :: u in us ==> PrintableUse(u)
    ensures Lex(w, UseStr(us) + t) == Lex(w + UseStr(us), t)
  {
    if us == [] {
      assert UseStr(us) + t == t && w + UseStr(us) == w;
    } else {
      UseListShape(us);
      var s := UseListStr(us);
      var inner := s[..|s| - 1];
      hide Lex, UseListStr;
      LexBracket(w, inner, t);
      assert UseStr(us) == "[" + inner + "]";
    }
  }

  lemma LexLeaf(a: AtomCtx, t: string)
    requires Derived(a) && PrintableParts(a) && StartsBlank(t)
    ensures Lex("", ToString(a) + t) == Prepend(LeafTokens(a), Lex("", t))
  {
    hide Lex, BodyStr, Derived, PrintableParts, LeafSigns, BangStr, ToString;
    BodyNotEmpty(a);
    LeafSplit(a, t);
    LexLeafWord(a, t);
    LexBangs(a.blocker, LeafWord(a) + t);
    PrependTwice(BangTokens(a.blocker), [Word(LeafWord(a))], Lex("", t));
  }

  lemma BodyNotEmpty(a: AtomCtx)
    requires Derived(a) && PrintableParts(a)
    ensures BodyStr(a) != []
  {
    SlottedPlain(a);
    hide SlottedStr;
  }

  lemma LeafSplit(a: AtomCtx, t: string)
    ensures ToString(a) == BangStr(a.blocker) + LeafWord(a)
    ensures ToString(a) + t == BangStr(a.blocker) + (LeafWord(a) + t)
  {
    hide BodyStr;
    assert BlockerStr(a.blocker) + OpStr(a.pfxOp) == BangStr(a.blocker) + LeafSigns(a);
    hide BlockerStr, OpStr, LeafSigns, BangStr;
    Assoc(BangStr(a.blocker), LeafSigns(a), BodyStr(a));
    Assoc(BangStr(a.blocker), LeafWord(a), t);
  }

  lemma SignsPlain(a: AtomCtx)
    ensures IsPlain(LeafSigns(a))
  {
    hide OpStr, IsSpace, Punctuation;
    OpPlain(a.pfxOp);
    assert IsPlain("^") by {
      CaretPlain();
    }
  }

  lemma CaretPlain()
    ensures PlainChar('^')
  {
  }

  lemma OpPlain(op: Operator)
    ensures IsPlain(OpStr(op))
  {
  }

  lemma LexLeafWord(a: AtomCtx, t: string)
    requires Derived(a) && PrintableParts(a) && StartsBlank(t) && BodyStr(a) != []
    ensures Lex("", LeafWord(a) + t) == Prepend([Word(LeafWord(a))], Lex("", t))
  {
    hide Lex, BodyStr, Derived, PrintableParts, LeafSigns;
    SignsPlain(a);
    var x := LeafSigns(a);
    Assoc(x, BodyStr(a), t);
    LexPlain("", x, BodyStr(a) + t);
    assert "" + x == x;
    LexBody(x, a, t);
    LexWordEnds(LeafWord(a), t);
  }

  lemma LexBangs(b: Blocker, t: string)
    ensures Lex("", BangStr(b) + t) == Prepend(BangTokens(b), Lex("", t))
  {
    hide Lex;
    assert Flush("") + [Not] == [Not];
    LexPunctuation("", '!', t);
    if b == Block {
      assert BangStr(b) + t == "!" + t;
    } else if b == BlockHard {
      LexPunctuation("", '!', "!" + t);
      PrependTwice([Not], [Not], Lex("", t));
      assert BangStr(b) + t == "!" + ("!" + t);
      assert [Not] + [Not] == [Not, Not];
    } else {
      PrependNothing(Lex("", t));
      assert BangStr(b) + t == t;
    }
  }

  // ----- groups -----

  lemma LexHead(d: Dep, t: string)
    requires d.Group? && (d.kind == UseGroup ==> IsWord(d.word))
    ensures Lex("", GroupHead(d) + "(" + t) == Prepend(HeadTokens(d), Lex("", t))
  {
    hide Lex;
    LexPunctuation("", '(', t);
    var u := "(" + t;
    assert Flush("") + [Open] == [Open];
    match d.kind {
      case AnyGroup =>
        LexAny(u);
        PrependTwice([Any], [Open], Lex("", t));
        assert GroupHead(d) + "(" + t == "|| " + u;
        assert [Any] + [Open] == [Any, Open];
      case UseGroup =>
        LexUseHead(d.word, d.invert, t);
        Regroup(if d.invert then "!" else "", d.word, "? ", "(", t);
      case _ =>
        assert GroupHead(d) + "(" + t == u;
    }
  }

  lemma Regroup(a: string, b: string, c: string, d: string, e: string)
    ensures a + b + c + d + e == a + (b + (c + (d + e)))
  {
  }

  lemma LexUseHead(w: string, invert: bool, t: string)
    requires IsWord(w)
    ensures Lex("", (if invert then "!" else "") + (w + ("? " + ("(" + t))))
         == Prepend((if invert then [Not] else []) + [Word(w), Huh, Open], Lex("", t))
  {
    hide Lex;
    var u, c := "(" + t, w + ("? " + ("(" + t));
    LexPunctuation("", '(', t);
    LexCondition(w, u);
    LexPunctuation("", '!', c);
    PrependTwice([Word(w), Huh], [Open], Lex("", t));
    PrependTwice([Not], [Word(w), Huh, Open], Lex("", t));
    assert Flush("") + [Open] == [Open] && Flush("") + [Not] == [Not];
    assert [Word(w), Huh] + [Open] == [Word(w), Huh, Open];
    assert [] + [Word(w), Huh, Open] == [Word(w), Huh, Open];
    assert "" + c == c;
  }

  lemma LexAny(u: string)
    ensures Lex("", "|| " + u) == Prepend([Any], Lex("", u))
  {
    var s := "|| " + u;
    assert s[2..] == " " + u;
    LexBlanks(" ", u);
    assert Flush("") + [Any] == [Any];
  }

  lemma LexCondition(w: string, u: string)
    requires IsWord(w)
    ensures Lex("", w + ("? " + u)) == Prepend([Word(w), Huh], Lex("", u))
  {
    hide Lex;
    LexPlain("", w, "? " + u);
    assert "" + w == w;
    assert "? " + u == ['?'] + (" " + u);
    LexPunctuation(w, '?', " " + u);
    LexBlanks(" ", u);
    assert Flush(w) + [Huh] == [Word(w), Huh];
  }

  lemma LexClose(x: string, t: string)
    requires forall i :: 0 <= i < |x| ==> IsSpace(x[i])
    ensures Lex("", x + ")" + t) == Prepend([Close], Lex("", t))
  {
    hide Lex;
    assert x + ")" + t == x + ([')'] + t);
    LexBlanks(x, [')'] + t);
    LexPunctuation("", ')', t);
    assert Flush("") + [Close] == [Close];
  }

  lemma LexTail(space: nat, newline: bool, single: bool, t: string)
    ensures Lex("", GroupTail(space, newline, single) + t) == Prepend([Close], Lex("", t))
    ensures StartsBlank(GroupTail(space, newline, single) + t)
  {
    hide Lex, Spaces;
    if single || !newline {
      LexClose(" ", t);
      assert GroupTail(space, newline, single) + t == " " + ")" + t;
    } else {
      var x := "\n" + Spaces(4 * space);
      LexClose(x, t);
    }
  }

  /** The blanks before a node. */
  lemma LexLead(space: nat, newline: bool, first: bool, t: string)
    ensures Lex("", Lead(space, newline, first) + t) == Lex("", t)
  {
    hide Lex, Spaces;
    LexBlanks(Lead(space, newline, first), t);
  }

  lemma {:induction false} LexNode(d: Dep, space: nat, newline: bool, first: bool, t: string)
    requires PrintableDep(d) && StartsBlank(t)
    ensures Lex("", PrintNode(d, space, newline, first) + t) == Prepend(Tokens(d), Lex("", t))
    decreases d, 1
  {
    var lead := Lead(space, newline, first);
    if d.Leaf? {
      LeafPrinted(d, space, newline, first);
      hide Lex, Lead, ToString, LeafTokens;
      Assoc(lead, ToString(d.atom), t);
      LexLead(space, newline, first, ToString(d.atom) + t);
      LexLeaf(d.atom, t);
    } else if d.kind == NullGroup {
      hide Lex, Lead;
      assert PrintNode(d, space, newline, first) + t == lead + t;
      LexLead(space, newline, first, t);
      PrependNothing(Lex("", t));
    } else {
      var single := SingleChild(d.members);
      var body := PrintMembers(d.members, if single then 0 else space + 1, !single, single);
      var tail := GroupTail(space, newline, single);
      NodeSplit(d, space, newline, first, t);
      hide PrintNode, PrintMembers, Lex, Lead, GroupHead, GroupTail, PrintableLeaf, IsWord;
      LexTail(space, newline, single, t);
      LexMembers(d.members, space, single, tail + t);
      PrependTwice(TokensAll(d.members), [Close], Lex("", t));
      var inner := (if single then " " else "") + (body + (tail + t));
      LexHead(d, inner);
      LexLead(space, newline, first, GroupHead(d) + "(" + inner);
      PrependTwice(HeadTokens(d), TokensAll(d.members) + [Close], Lex("", t));
      Assoc(HeadTokens(d), TokensAll(d.members), [Close]);
    }
  }

  lemma LeafPrinted(d: Dep, space: nat, newline: bool, first: bool)
    requires d.Leaf? && PrintableDep(d)
    ensures PrintNode(d, space, newline, first) == Lead(space, newline, first) + ToString(d.atom)
    ensures Derived(d.atom) && PrintableParts(d.atom)
    ensures Tokens(d) == LeafTokens(d.atom)
  {
    hide Derived, PrintableParts, Lead, ToString, NoExtension, LeafTokens;
  }

  /** The text of a group, cut where the tokens are. */
  lemma NodeSplit(d: Dep, space: nat, newline: bool, first: bool, t: string)
    requires d.Group? && d.kind != NullGroup
    ensures var single := SingleChild(d.members);
      var body := PrintMembers(d.members, if single then 0 else space + 1, !single, single);
      PrintNode(d, space, newline, first) + t
        == Lead(space, newline, first) +
           (GroupHead(d) + "(" + ((if single then " " else "") + (body + (GroupTail(space, newline, single) + t))))
  {
    var single := SingleChild(d.members);
    var lead, head := Lead(space, newline, first), GroupHead(d);
    var body := PrintMembers(d.members, if single then 0 else space + 1, !single, single);
    var tail := GroupTail(space, newline, single);
    assert PrintNode(d, space, newline, first)
        == lead + (head + (if single then "( " else "(") + body + tail);
    hide PrintNode, PrintMembers, Lead, GroupHead, GroupTail, SingleChild;
    Splice(lead, head, single, body, tail, t);
  }

  lemma Splice(lead: string, head: string, single: bool, body: string, tail: string, t: string)
    ensures lead + (head + (if single then "( " else "(") + body + tail) + t
         == lead + (head + "(" + ((if single then " " else "") + (body + (tail + t))))
  {
    var open := if single then "( " else "(";
    var blank := if single then " " else "";
    assert open == "(" + blank;
    Assoc(lead, head + open + body + tail, t);
    Assoc(head + open + body, tail, t);
    Assoc(head + open, body, tail + t);
    Assoc(head, "(", blank);
    Assoc(head + "(", blank, body + (tail + t));
  }

  /** The members of a group up to the blank that follows them. */
  lemma {:induction false} LexMembers(ms: seq<Dep>, space: nat, single: bool, t: string)
    requires PrintableAll(ms) && StartsBlank(t) && single == SingleChild(ms)
    ensures Lex("", (if single then " " else "") + (PrintMembers(ms, if single then 0 else space + 1, !single, single) + t))
         == Prepend(TokensAll(ms), Lex("", t))
    decreases ms, 1
  {
    if single {
      OnlyMember(ms);
      hide Lex, PrintNode, PrintMembers, PrintableDep, TokensAll;
      var x := PrintNode(ms[0], 0, false, true);
      LexBlanks(" ", x + t);
      LexNode(ms[0], 0, false, true, t);
    } else {
      var x := PrintMembers(ms, space + 1, true, false);
      assert "" + (x + t) == x + t;
      hide Lex, PrintMembers;
      LexLines(ms, space + 1, t);
    }
  }

  lemma OnlyMember(ms: seq<Dep>)
    requires SingleChild(ms) && PrintableAll(ms)
    ensures PrintMembers(ms, 0, false, true) == PrintNode(ms[0], 0, false, true)
    ensures TokensAll(ms) == Tokens(ms[0]) && PrintableDep(ms[0])
  {
    hide PrintNode, Tokens, PrintableDep;
    assert ms[1..] == [];
    assert PrintMembers([], 0, false, true) == "";
    assert TokensAll([]) == [];
  }

  /** Members on lines of their own. */
  lemma {:induction false} LexLines(ms: seq<Dep>, space: nat, t: string)
    requires PrintableAll(ms) && StartsBlank(t)
    ensures Lex("", PrintMembers(ms, space, true, false) + t) == Prepend(TokensAll(ms), Lex("", t))
    ensures StartsBlank(PrintMembers(ms, space, true, false) + t)
    decreases ms, 0
  {
    if ms == [] {
      hide Lex;
      assert PrintMembers(ms, space, true, false) + t == t;
      PrependNothing(Lex("", t));
    } else {
      LinesHead(ms, space);
      hide Lex, PrintNode, PrintMembers, PrintableDep, Tokens, TokensAll;
      var x, y := PrintNode(ms[0], space, true, false), PrintMembers(ms[1..], space, true, false);
      LexLines(ms[1..], space, t);
      LexNode(ms[0], space, true, false, y + t);
      Assoc(x, y, t);
      PrependTwice(Tokens(ms[0]), TokensAll(ms[1..]), Lex("", t));
    }
  }

  lemma LinesHead(ms: seq<Dep>, space: nat)
    requires ms != [] && PrintableAll(ms)
    ensures PrintMembers(ms, space, true, false) == PrintNode(ms[0], space, true, false) + PrintMembers(ms[1..], space, true, false)
    ensures StartsBlank(PrintNode(ms[0], space, true, false))
    ensures TokensAll(ms) == Tokens(ms[0]) + TokensAll(ms[1..])
    ensures PrintableDep(ms[0]) && PrintableAll(ms[1..])
  {
    hide LeafStr, Tokens, PrintableDep, Spaces, GroupHead, GroupTail;
    assert Lead(space, true, false)[0] == '\n';
  }

  // ----- parsing tokens -----

  function AddAll(stack: seq<Frame>, ds: seq<Dep>): (r: seq<Frame>)
    requires stack != []
    ensures |r| == |stack|
  {
    var top := stack[|stack| - 1];
    stack[|stack| - 1 := top.(members := top.members + ds)]
  }

  predicate NotHuh(ts: seq<Token>) {
    ts == [] || ts[0] != Huh
  }

  lemma ParseLeaf(d: Dep, ts: seq<Token>, stack: seq<Frame>)
    requires d.Leaf? && PrintableLeaf(d) && stack != [] && NotHuh(ts)
    ensures Parse(LeafTokens(d.atom) + ts, stack, 0) == Parse(ts, AddAll(stack, [d]), 0)
  {
    var a := d.atom;
    hide Explode, Printable, BodyStr, OpStr, Parse, ToString, LeafWord, BangStr;
    RoundTripIff(a);
    LeafSplit(a, "");
    assert BangStr(a.blocker) == Bangs(|BangTokens(a.blocker)|) by {
      BangsOf(a.blocker);
    }
    ParseWord(LeafWord(a), |BangTokens(a.blocker)|, ts, stack);
    ParseBangs(a.blocker, LeafWord(a), ts, stack);
    assert Leaf(a, None, None) == d;
  }

  lemma BangsOf(b: Blocker)
    ensures BangStr(b) == Bangs(|BangTokens(b)|)
  {
  }

  /** A word no '?' follows becomes an atom. */
  lemma ParseWord(w: string, nots: nat, ts: seq<Token>, stack: seq<Frame>)
    requires stack != [] && NotHuh(ts)
    ensures Parse([Word(w)] + ts, stack, nots)
         == Parse(ts, AddAll(stack, [Leaf(Explode(Bangs(nots) + w, None), None, None)]), 0)
  {
    hide Explode;
    assert ([Word(w)] + ts)[1..] == ts;
  }

  lemma ParseBangs(b: Blocker, w: string, ts: seq<Token>, stack: seq<Frame>)
    requires stack != []
    ensures Parse(BangTokens(b) + [Word(w)] + ts, stack, 0) == Parse([Word(w)] + ts, stack, |BangTokens(b)|)
  {
    hide Parse;
    var rest := [Word(w)] + ts;
    assert [] + rest == rest;
    assert BangTokens(b) + [Word(w)] + ts == BangTokens(b) + rest;
    if b == Block {
      ParseNot(rest, stack, false);
    } else if b == BlockHard {
      ParseNot(rest, stack, true);
      assert [Not] + ([Not] + rest) == [Not, Not] + rest;
    } else {
      assert [] + rest == rest;
    }
  }

  lemma ParseNot(rest: seq<Token>, stack: seq<Frame>, two: bool)
    requires stack != [] && rest != [] && rest[0].Word?
    ensures Parse([Not] + ((if two then [Not] else []) + rest), stack, 0) == Parse(rest, stack, if two then 2 else 1)
  {
    hide Explode, Collapse;
    var ts := [Not] + ((if two then [Not] else []) + rest);
    if two {
      assert ts[1..][0] == Not;
      assert ts[2..] == rest;
    } else {
      assert ts[1..] == rest;
    }
  }

  /** The tokens that open a group. */
  lemma ParseHead(d: Dep, ts: seq<Token>, stack: seq<Frame>)
    requires d.Group? && d.kind != NullGroup && stack != []
    ensures Parse(HeadTokens(d) + ts, stack, 0)
         == Parse(ts, stack + [Frame(d.kind, if d.kind == UseGroup then d.word else "", d.kind == UseGroup && d.invert, [])], 0)
  {
    hide Parse, Explode;
    var u := HeadTokens(d) + ts;
    if d.kind == AnyGroup {
      assert u == [Any, Open] + ts;
      ParseAny(ts, stack);
    } else if d.kind == UseGroup {
      ParseUseHead(d.word, d.invert, ts, stack);
      assert u == (if d.invert then [Not] else []) + ([Word(d.word), Huh, Open] + ts);
    } else {
      assert u == [Open] + ts;
      ParseOpen(ts, stack);
    }
  }

  lemma ParseUseHead(w: string, invert: bool, ts: seq<Token>, stack: seq<Frame>)
    requires stack != []
    ensures Parse((if invert then [Not] else []) + ([Word(w), Huh, Open] + ts), stack, 0)
         == Parse(ts, stack + [Frame(UseGroup, w, invert, [])], 0)
  {
    hide Parse, Explode;
    var v := [Word(w), Huh, Open] + ts;
    ParseUse(w, ts, stack, if invert then 1 else 0);
    ParseNot(v, stack, false);
    assert [] + v == v;
  }

  lemma ParseAny(ts: seq<Token>, stack: seq<Frame>)
    requires stack != []
    ensures Parse([Any, Open] + ts, stack, 0) == Parse(ts, stack + [Frame(AnyGroup, "", false, [])], 0)
  {
    hide Explode, Collapse, CloseTop, AddMember;
    var u := [Any, Open] + ts;
    assert u[1..][0] == Open && u[2..] == ts;
  }

  lemma ParseUse(w: string, ts: seq<Token>, stack: seq<Frame>, nots: nat)
    requires stack != [] && nots <= 1
    ensures Parse([Word(w), Huh, Open] + ts, stack, nots) == Parse(ts, stack + [Frame(UseGroup, w, nots == 1, [])], 0)
  {
    hide Explode, Collapse, CloseTop, AddMember;
    var u := [Word(w), Huh, Open] + ts;
    assert u[1..][0] == Huh && u[2..][0] == Open && u[3..] == ts;
  }

  lemma ParseOpen(ts: seq<Token>, stack: seq<Frame>)
    requires stack != []
    ensures Parse([Open] + ts, stack, 0) == Parse(ts, stack + [Frame(AllGroup, "", false, [])], 0)
  {
    hide Explode, Collapse, CloseTop, AddMember;
    assert ([Open] + ts)[1..] == ts;
  }

  lemma ParseClose(ts: seq<Token>, stack: seq<Frame>, f: Frame)
    requires stack != []
    ensures Parse([Close] + ts, stack + [f], 0) == Parse(ts, AddAll(stack, [FrameGroup(f)]), 0)
  {
    hide Explode, Collapse;
    assert ([Close] + ts)[1..] == ts;
    assert (stack + [f])[..|stack|] == stack;
    assert CloseTop(stack + [f]) == AddAll(stack, [FrameGroup(f)]);
  }

  lemma {:induction false} TokensNotHuh(d: Dep, ts: seq<Token>)
    requires NotHuh(ts)
    ensures NotHuh(Tokens(d) + ts)
  {
    hide LeafWord;
    if d.Group? && d.kind == NullGroup {
      assert Tokens(d) + ts == ts;
    } else {
      assert (Tokens(d) + ts)[0] == Tokens(d)[0];
    }
  }

  lemma {:induction false} ParseNode(d: Dep, ts: seq<Token>, stack: seq<Frame>)
    requires PrintableDep(d) && NotHuh(ts) && stack != []
    ensures Parse(Tokens(d) + ts, stack, 0) == Parse(ts, AddAll(stack, Erase(d)), 0)
    decreases d, 1
  {
    if d.Leaf? {
      ParseLeaf(d, ts, stack);
      hide Parse, LeafTokens;
    } else if d.kind == NullGroup {
      hide Parse;
      assert Tokens(d) + ts == ts;
      AddNone(stack);
    } else {
      var f := Frame(d.kind, if d.kind == UseGroup then d.word else "", d.kind == UseGroup && d.invert, []);
      GroupTokens(d, ts);
      hide Parse, HeadTokens, TokensAll, Tokens;
      ParseHead(d, TokensAll(d.members) + ([Close] + ts), stack);
      ParseMembers(d.members, [Close] + ts, stack + [f]);
      ParseClose(ts, stack, f.(members := EraseAll(d.members)));
      TopAdded(stack, f, EraseAll(d.members));
    }
  }

  lemma AddNone(stack: seq<Frame>)
    requires stack != []
    ensures AddAll(stack, []) == stack
  {
    var top := stack[|stack| - 1];
    assert top.members + [] == top.members;
  }

  lemma TopAdded(stack: seq<Frame>, f: Frame, ds: seq<Dep>)
    requires f.members == []
    ensures AddAll(stack + [f], ds) == stack + [f.(members := ds)]
  {
    assert [] + ds == ds;
  }

  lemma GroupTokens(d: Dep, ts: seq<Token>)
    requires d.Group? && d.kind != NullGroup
    ensures Tokens(d) + ts == HeadTokens(d) + (TokensAll(d.members) + ([Close] + ts))
  {
    hide HeadTokens, TokensAll;
    var h, m := HeadTokens(d), TokensAll(d.members);
    assert Tokens(d) == h + m + [Close];
    hide Tokens;
    Assoc(h + m, [Close], ts);
    Assoc(h, m, [Close] + ts);
  }

  lemma {:induction false} ParseMembers(ms: seq<Dep>, ts: seq<Token>, stack: seq<Frame>)
    requires PrintableAll(ms) && NotHuh(ts) && stack != []
    ensures Parse(TokensAll(ms) + ts, stack, 0) == Parse(ts, AddAll(stack, EraseAll(ms)), 0)
    decreases ms, 0
  {
    if ms == [] {
      hide Parse;
      assert TokensAll(ms) + ts == ts;
      AddNone(stack);
    } else {
      MembersHead(ms);
      hide Parse, Tokens, TokensAll, Erase, EraseAll, PrintableDep, PrintableAll;
      Assoc(Tokens(ms[0]), TokensAll(ms[1..]), ts);
      MembersNotHuh(ms[1..], ts);
      ParseNode(ms[0], TokensAll(ms[1..]) + ts, stack);
      ParseMembers(ms[1..], ts, AddAll(stack, Erase(ms[0])));
      AddTwice(stack, Erase(ms[0]), EraseAll(ms[1..]));
    }
  }

  lemma MembersHead(ms: seq<Dep>)
    requires ms != [] && PrintableAll(ms)
    ensures TokensAll(ms) == Tokens(ms[0]) + TokensAll(ms[1..])
    ensures EraseAll(ms) == Erase(ms[0]) + EraseAll(ms[1..])
    ensures PrintableDep(ms[0]) && PrintableAll(ms[1..])
  {
    hide Tokens, Erase, PrintableDep;
  }

  lemma {:induction false} MembersNotHuh(ms: seq<Dep>, ts: seq<Token>)
    requires NotHuh(ts)
    ensures NotHuh(TokensAll(ms) + ts)
  {
    if ms == [] {
      assert TokensAll(ms) + ts == ts;
    } else {
      MembersNotHuh(ms[1..], ts);
      TokensNotHuh(ms[0], TokensAll(ms[1..]) + ts);
      assert TokensAll(ms) == Tokens(ms[0]) + TokensAll(ms[1..]);
      hide Tokens, TokensAll;
      Assoc(Tokens(ms[0]), TokensAll(ms[1..]), ts);
    }
  }

  lemma AddTwice(stack: seq<Frame>, a: seq<Dep>, b: seq<Dep>)
    requires stack != []
    ensures AddAll(AddAll(stack, a), b) == AddAll(stack, a + b)
  {
    var top := stack[|stack| - 1];
    Assoc(top.members, a, b);
  }

  // ----- the round trip -----

  /** The root that the parser makes of a list of members. */
  function RootOf(ms: seq<Dep>): Dep {
    Group(if ms == [] then NullGroup else AllGroup, "", false, ms)
  }

  lemma LexPrinted(root: Dep, space: nat)
    requires root.Group? && PrintableAll(root.members)
    ensures Lex("", Print(root, space)) == Some(TokensAll(root.members))
  {
    var ms := root.members;
    LexDone();
    if ms != [] {
      MembersHead(ms);
      hide Lex, PrintNode, PrintMembers, PrintableDep, Tokens, TokensAll, PrintableAll;
      var x, y := PrintNode(ms[0], space, true, true), PrintMembers(ms[1..], space, true, false);
      LexLines(ms[1..], space, "\n");
      LexNode(ms[0], space, true, true, y + "\n");
      Assoc(x, y, "\n");
      PrependTwice(Tokens(ms[0]), TokensAll(ms[1..]), Lex("", "\n"));
      assert TokensAll(ms) + [] == TokensAll(ms);
    }
  }

  lemma LexDone()
    ensures Lex("", "") == Some([]) && Lex("", "\n") == Some([])
  {
    LexBlank("", '\n', "");
    assert "\n" == ['\n'] + "";
    PrependNothing(Lex("", ""));
    assert Lex("", "") == Some(Flush(""));
  }

  lemma ParseDone(ms: seq<Dep>)
    requires PrintableAll(ms)
    ensures Parse(TokensAll(ms), [ROOT], 0) == Some(RootOf(EraseAll(ms)))
  {
    hide Lex, PrintableAll, TokensAll, EraseAll, Explode;
    ParseMembers(ms, [], [ROOT]);
    assert TokensAll(ms) + [] == TokensAll(ms);
    var stack := AddAll([ROOT], EraseAll(ms));
    assert stack == [ROOT.(members := EraseAll(ms))] by {
      assert [] + EraseAll(ms) == EraseAll(ms);
    }
    assert Parse([], stack, 0) == Some(Collapse(stack));
  }

  /** Printing a tree and parsing the text, at any indentation: null groups are gone, the rest is there. */
  lemma GrowOfPrint(root: Dep, space: nat)
    requires root.Group? && PrintableAll(root.members)
    ensures Grow(Print(root, space)) == Some(RootOf(EraseAll(root.members)))
  {
    hide Lex, Parse, Print, PrintableAll, TokensAll, EraseAll;
    LexPrinted(root, space);
    ParseDone(root.members);
  }

  /** A tree as the parser builds them: no null group, words on USE groups only. */
  predicate Parsed(d: Dep)
    decreases d, 1
  {
    d.Leaf? || (d.kind != NullGroup && (d.kind != UseGroup ==> d.word == "" && !d.invert) && ParsedAll(d.members))
  }

  predicate ParsedAll(ms: seq<Dep>)
    decreases ms, 0
  {
    ms == [] || (Parsed(ms[0]) && ParsedAll(ms[1..]))
  }

  lemma {:induction false} EraseParsed(d: Dep)
    requires Parsed(d)
    ensures Erase(d) == [d]
    decreases d, 1
  {
    if d.Group? {
      EraseParsedAll(d.members);
    }
  }

  lemma {:induction false} EraseParsedAll(ms: seq<Dep>)
    requires ParsedAll(ms)
    ensures EraseAll(ms) == ms
    decreases ms, 0
  {
    if ms != [] {
      EraseParsed(ms[0]);
      EraseParsedAll(ms[1..]);
      assert ms == [ms[0]] + ms[1..];
    }
  }

  /** The round trip: every parsed tree comes back from its printed form. */
  lemma RoundTrip(root: Dep, space: nat)
    requires root.Group? && root == RootOf(root.members)
    requires ParsedAll(root.members) && PrintableAll(root.members)
    ensures Grow(Print(root, space)) == Some(root)
  {
    hide Print, PrintableAll, ParsedAll, EraseAll, Grow;
    GrowOfPrint(root, space);
    EraseParsedAll(root.members);
  }
}
