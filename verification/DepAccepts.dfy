/** Which dependency strings the parser accepts, token by token. */
module DepAccepts {
  import opened CStrings
  import opened Atom
  import opened Dep
  import opened DepGrow

  /** Groups opened and not closed in the first `n` tokens. */
  function Height(ts: seq<Token>, n: nat): int
    requires n <= |ts|
  {
    if n == 0 then 0
    else Height(ts, n - 1) + if ts[n - 1] == Open then 1 else if ts[n - 1] == Close then -1 else 0
  }

  predicate WordAt(ts: seq<Token>, n: nat) {
    n < |ts| && ts[n].Word?
  }

  /** A closing bracket closes a group, `||` stands before a group, at most two `!` stand before a word, and
      before a condition and its group at most one. Nothing is asked at the end: groups may be left open. */
  predicate TokenOk(ts: seq<Token>, n: nat)
    requires n < |ts|
  {
    match ts[n]
    case Close => Height(ts, n) > 0
    case Any => TokenAt(ts, n + 1, Open)
    case Not => (n > 0 && ts[n - 1] == Not) || WordAt(ts, n + 1) || (TokenAt(ts, n + 1, Not) && WordAt(ts, n + 2))
    case Word(_) => TokenAt(ts, n + 1, Huh) ==> TokenAt(ts, n + 2, Open) && !TwoNots(ts, n)
    case Huh => true
    case Open => true
  }

  predicate TwoNots(ts: seq<Token>, n: nat)
    requires n <= |ts|
  {
    n >= 2 && ts[n - 1] == Not && ts[n - 2] == Not
  }

  ghost predicate OkFrom(ts: seq<Token>, n: nat) {
    forall m: nat :: n <= m < |ts| ==> TokenOk(ts, m)
  }

  /** Where a round of the loop starts: `nots` counts the `!` right before, which only a word follows. */
  predicate Reached(ts: seq<Token>, n: nat, nots: nat)
    requires n <= |ts|
  {
    if n > 0 && ts[n - 1] == Not then WordAt(ts, n) && nots == (if TwoNots(ts, n) then 2 else 1) else nots == 0
  }

  lemma OkSplit(ts: seq<Token>, n: nat, next: nat)
    requires n <= next <= |ts| && forall m: nat :: n <= m < next ==> TokenOk(ts, m)
    ensures OkFrom(ts, n) <==> OkFrom(ts, next)
  {
    hide TokenOk;
  }

  lemma HeightNext(ts: seq<Token>, n: nat)
    requires n < |ts|
    ensures Height(ts, n + 1) == Height(ts, n) + if ts[n] == Open then 1 else if ts[n] == Close then -1 else 0
  {
  }

  lemma NotOk(ts: seq<Token>, n: nat)
    requires n < |ts| && !TokenOk(ts, n)
    ensures !OkFrom(ts, n)
  {
  }

  lemma NothingLeft(ts: seq<Token>, stack: seq<Frame>, nots: nat)
    requires stack != []
    ensures Parse(ts[|ts|..], stack, nots).Some? && OkFrom(ts, |ts|)
  {
    hide Collapse;
    assert ts[|ts|..] == [];
  }

  /** The loop from any round on. */
  lemma {:induction false} ParseFrom(ts: seq<Token>, n: nat, stack: seq<Frame>, nots: nat)
    requires n <= |ts| && |stack| == 1 + Height(ts, n) && |stack| > 0 && Reached(ts, n, nots)
    ensures Parse(ts[n..], stack, nots).Some? <==> OkFrom(ts, n)
    decreases |ts| - n
  {
    hide Parse, OkFrom, Explode, CloseTop, AddMember, Height, TokenOk;
    if n == |ts| {
      NothingLeft(ts, stack, nots);
      return;
    }
    TokensFrom(ts, n);
    ParseStep(ts[n..], stack, nots);
    HeightNext(ts, n);
    match ts[n]
    case Open =>
      TokenIs(ts, n, nots);
      OkSplit(ts, n, n + 1);
      ParseFrom(ts, n + 1, stack + [Frame(AllGroup, "", false, [])], nots);
    case Close =>
      TokenIs(ts, n, nots);
      if |stack| > 1 {
        OkSplit(ts, n, n + 1);
        ParseFrom(ts, n + 1, CloseTop(stack), nots);
      } else {
        NotOk(ts, n);
      }
    case Any =>
      TokenIs(ts, n, nots);
      if TokenAt(ts, n + 1, Open) {
        TokenIs(ts, n + 1, 0);
        HeightNext(ts, n + 1);
        OkSplit(ts, n, n + 2);
        ParseFrom(ts, n + 2, stack + [Frame(AnyGroup, "", false, [])], nots);
      } else {
        NotOk(ts, n);
      }
    case Not =>
      NotsFrom(ts, n, stack, nots);
    case Word(w) =>
      TokenIs(ts, n, nots);
      if TokenAt(ts, n + 1, Huh) {
        if nots <= 1 && TokenAt(ts, n + 2, Open) {
          TokenIs(ts, n + 1, 0);
          TokenIs(ts, n + 2, 0);
          HeightNext(ts, n + 1);
          HeightNext(ts, n + 2);
          OkSplit(ts, n, n + 3);
          ParseFrom(ts, n + 3, stack + [Frame(UseGroup, w, nots == 1, [])], 0);
        } else {
          NotOk(ts, n);
        }
      } else {
        OkSplit(ts, n, n + 1);
        ParseFrom(ts, n + 1, AddMember(stack, Leaf(Explode(Bangs(nots) + w, None), None, None)), 0);
      }
    case Huh =>
      TokenIs(ts, n, nots);
      OkSplit(ts, n, n + 1);
      ParseFrom(ts, n + 1, stack, nots);
  }

  /** One or two '!', and the word that has to follow. */
  lemma {:induction false} NotsFrom(ts: seq<Token>, n: nat, stack: seq<Frame>, nots: nat)
    requires n < |ts| && ts[n] == Not && |stack| == 1 + Height(ts, n) && |stack| > 0 && Reached(ts, n, nots)
    ensures Parse(ts[n..], stack, nots).Some? <==> OkFrom(ts, n)
    decreases |ts| - n, 0
  {
    hide Parse, OkFrom, Explode, CloseTop, AddMember, Height, TokenOk;
    TokensFrom(ts, n);
    ParseStep(ts[n..], stack, nots);
    HeightNext(ts, n);
    TokenIs(ts, n, nots);
    var two := TokenAt(ts, n + 1, Not);
    var next := if two then n + 2 else n + 1;
    if WordAt(ts, next) {
      assert ts[next..][0] == ts[next];
      if two {
        TokenIs(ts, n + 1, 0);
        HeightNext(ts, n + 1);
      }
      OkSplit(ts, n, next);
      ParseFrom(ts, next, stack, if two then 2 else 1);
    } else {
      assert next < |ts| ==> ts[next..][0] == ts[next];
      NotOk(ts, n);
    }
  }

  /** TokenOk, for the tokens a round starts with or skips. */
  lemma TokenIs(ts: seq<Token>, n: nat, nots: nat)
    requires n < |ts|
    ensures ts[n] == Open || ts[n] == Huh ==> TokenOk(ts, n)
    ensures ts[n] == Close ==> (TokenOk(ts, n) <==> Height(ts, n) > 0)
    ensures ts[n] == Any ==> (TokenOk(ts, n) <==> TokenAt(ts, n + 1, Open))
    ensures ts[n] == Not && n > 0 && ts[n - 1] == Not ==> TokenOk(ts, n)
    ensures ts[n] == Not && !(n > 0 && ts[n - 1] == Not) ==>
      (TokenOk(ts, n) <==> WordAt(ts, n + 1) || (TokenAt(ts, n + 1, Not) && WordAt(ts, n + 2)))
    ensures ts[n].Word? && Reached(ts, n, nots) ==>
      (TokenOk(ts, n) <==> (TokenAt(ts, n + 1, Huh) ==> TokenAt(ts, n + 2, Open) && nots <= 1))
  {
    hide Height;
  }

  /** A dependency string is accepted exactly when no '|' stands alone and every token is in its place. */
  lemma GrowsIff(depend: string)
    ensures Grow(depend).Some? <==> Lex("", depend).Some? && OkFrom(Lex("", depend).value, 0)
  {
    hide Lex, Parse, OkFrom;
    var r := Lex("", depend);
    if r.Some? {
      assert r.value[0..] == r.value;
      ParseFrom(r.value, 0, [ROOT], 0);
    }
  }

  /** The tokeniser fails at a '|' that stands alone outside brackets. */
  lemma {:induction false} LoneBar(w: string, x: string, t: string)
    requires '|' !in x && '[' !in x && (t == [] || t[0] != '|')
    ensures Lex(w, x + "|" + t) == None
    decreases |x|
  {
    hide Lex;
    var s := x + "|" + t;
    LexStep(w, s);
    if x == [] {
      assert s == ['|'] + t && (t != [] ==> s[1] == t[0]);
    } else {
      assert s[0] == x[0] && x[0] in x && s[1..] == x[1..] + "|" + t;
      LoneBar("", x[1..], t);
      LoneBar(w + [x[0]], x[1..], t);
    }
  }

  /** It does not fail on a text without bars. */
  lemma {:induction false} NoBarLexes(w: string, s: string)
    requires '|' !in s
    ensures Lex(w, s).Some?
    decreases |s|
  {
    hide Lex;
    if s == [] {
      LexEnd(w);
    } else {
      LexStep(w, s);
      assert s[0] in s;
      NoBarLexes("", s[1..]);
      NoBarLexes(w + [s[0]], s[1..]);
      if s[0] == '[' {
        var n := 1 + BracketSkip(s[1..], 0);
        NoBarLexes(w + s[..n], s[n..]);
      }
    }
  }

  // ----- groups left open -----

  function Total(ts: seq<Token>): int {
    Height(ts, |ts|)
  }

  lemma {:induction false} HeightDrop(ts: seq<Token>, k: nat, n: nat)
    requires k <= n <= |ts|
    ensures Height(ts, n) == Height(ts, k) + Height(ts[k..], n - k)
  {
    if k < n {
      HeightDrop(ts, k, n - 1);
      assert ts[k..][n - 1 - k] == ts[n - 1];
    }
  }

  lemma Behind(ts: seq<Token>, k: nat)
    requires 0 < k <= |ts|
    ensures (ts + [Close])[k..] == ts[k..] + [Close] && (ts + [Close])[0] == ts[0]
    ensures Total(ts) == Height(ts, k) + Total(ts[k..])
    ensures forall t :: t != Close ==> (StartsWith(ts[k..] + [Close], t) <==> StartsWith(ts[k..], t))
    ensures (ts[k..] + [Close] != [] && (ts[k..] + [Close])[0].Word?) <==> (ts[k..] != [] && ts[k..][0].Word?)
  {
    HeightDrop(ts, k, |ts|);
  }

  lemma FirstHeights(ts: seq<Token>)
    requires ts != []
    ensures Height(ts, 1) == if ts[0] == Open then 1 else if ts[0] == Close then -1 else 0
    ensures |ts| > 1 ==> Height(ts, 2) == Height(ts, 1) + if ts[1] == Open then 1 else if ts[1] == Close then -1 else 0
    ensures |ts| > 2 ==> Height(ts, 3) == Height(ts, 2) + if ts[2] == Open then 1 else if ts[2] == Close then -1 else 0
  {
  }

  lemma CollapseClosed(stack: seq<Frame>)
    requires |stack| > 1
    ensures Parse([Close], stack, 0) == Parse([], stack, 0)
    ensures forall nots: nat :: Parse([Close], stack, nots) == Some(Collapse(stack)) == Parse([], stack, nots)
  {
    assert [Close][1..] == [];
    hide CloseTop;
  }

  /** Closing a group that is still open at the end changes nothing. */
  lemma {:induction false} CloseAtEnd(ts: seq<Token>, stack: seq<Frame>, nots: nat)
    requires stack != [] && |stack| + Total(ts) > 1 && Parse(ts, stack, nots).Some?
    ensures Parse(ts + [Close], stack, nots) == Parse(ts, stack, nots)
    decreases |ts|
  {
    hide Parse, Explode, CloseTop, AddMember, Height, Collapse;
    if ts == [] {
      NoHeight();
      assert ts + [Close] == [Close];
      CollapseClosed(stack);
      return;
    }
    ParseStep(ts, stack, nots);
    ParseStep(ts + [Close], stack, nots);
    FirstHeights(ts);
    Behind(ts, 1);
    if |ts| > 1 {
      Behind(ts, 2);
      if |ts| > 2 {
        Behind(ts, 3);
      }
    }
    match ts[0]
    case Open => CloseAtEnd(ts[1..], stack + [Frame(AllGroup, "", false, [])], nots);
    case Close => CloseAtEnd(ts[1..], CloseTop(stack), nots);
    case Any => CloseAtEnd(ts[2..], stack + [Frame(AnyGroup, "", false, [])], nots);
    case Not =>
      if StartsWith(ts[1..], Not) {
        CloseAtEnd(ts[2..], stack, 2);
      } else {
        CloseAtEnd(ts[1..], stack, 1);
      }
    case Word(w) =>
      if StartsWith(ts[1..], Huh) {
        Conditional(ts);
        CloseAtEnd(ts[3..], stack + [Frame(UseGroup, w, nots == 1, [])], 0);
      } else {
        CloseAtEnd(ts[1..], AddMember(stack, Leaf(Explode(Bangs(nots) + w, None), None, None)), 0);
      }
    case Huh => CloseAtEnd(ts[1..], stack, nots);
  }

  lemma NoHeight()
    ensures Total([]) == 0
  {
  }

  lemma Conditional(ts: seq<Token>)
    requires |ts| > 1 && StartsWith(ts[2..], Open)
    ensures |ts| > 2 && ts[2] == Open
  {
  }
}
