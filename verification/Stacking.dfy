/** Splitting variables into words, and stacking USE and FEATURES: `makeargv` and `setincr_var`. */
module Stacking {
  import opened CStrings
  import opened HashTable

  // ----- words -----

  /** The maximal runs of characters that are no white space. */
  function Words(s: string): (ws: seq<string>)
    ensures s != [] && !IsSpace(s[|s| - 1]) ==> ws != []
  {
    if s == [] then []
    else
      var ws, c := Words(s[..|s| - 1]), s[|s| - 1];
      if IsSpace(c) then ws
      else if |s| == 1 || IsSpace(s[|s| - 2]) then ws + [[c]]
      else ws[..|ws| - 1] + [ws[|ws| - 1] + [c]]
  }

  predicate IsWord(w: string) {
    w != [] && forall c :: c in w ==> !IsSpace(c)
  }

  lemma {:induction false} WordsAreWords(s: string)
    ensures forall i :: 0 <= i < |Words(s)| ==> IsWord(Words(s)[i])
  {
    if s != [] {
      WordsAreWords(s[..|s| - 1]);
    }
  }

  /** The words with one blank between them. */
  function Join(ws: seq<string>): string {
    if ws == [] then [] else if |ws| == 1 then ws[0] else Join(ws[..|ws| - 1]) + " " + ws[|ws| - 1]
  }

  // ----- the string routines -----

  /** Whether a blank is pending after the last word: the buffer of `remove_extra_space` then ends in one. */
  function Pending(s: string): string {
    if s != [] && IsSpace(s[|s| - 1]) && Words(s) != [] then " " else ""
  }

  /** The buffer of `remove_extra_space` after the characters of `s`. */
  function Buffer(s: string): string {
    Join(Words(s)) + Pending(s)
  }

  lemma {:induction false} JoinNext(ws: seq<string>, w: string)
    ensures Join(ws + [w]) == if ws == [] then w else Join(ws) + " " + w
  {
    assert (ws + [w])[..|ws|] == ws;
  }

  lemma LastGrows(r: seq<string>, w: string, c: char)
    ensures Join(r + [w + [c]]) == Join(r + [w]) + [c]
  {
    hide Join;
    JoinNext(r, w);
    JoinNext(r, w + [c]);
    Assoc(Join(r) + " ", w, [c]);
  }

  lemma WordsNext(s: string, c: char)
    ensures IsSpace(c) ==> Words(s + [c]) == Words(s)
    ensures !IsSpace(c) && (s == [] || IsSpace(s[|s| - 1])) ==> Words(s + [c]) == Words(s) + [[c]]
    ensures !IsSpace(c) && s != [] && !IsSpace(s[|s| - 1]) ==>
      var ws := Words(s); ws != [] && Words(s + [c]) == ws[..|ws| - 1] + [ws[|ws| - 1] + [c]]
  {
    assert (s + [c])[..|s|] == s;
  }

  lemma PendingNext(s: string, c: char)
    ensures Pending(s + [c]) == if IsSpace(c) && Words(s) != [] then " " else ""
    ensures Join(Words(s)) + "" == Join(Words(s))
  {
    hide Join, Words;
    WordsNext(s, c);
    assert (s + [c])[|s|] == c;
  }

  /** One more character of the input, as the buffer sees it. */
  lemma BufferNext(s: string, c: char)
    ensures Buffer(s + [c])
         == if IsSpace(c) && (Words(s) == [] || IsSpace(s[|s| - 1])) then Buffer(s)
            else if IsSpace(c) then Buffer(s) + " " else Buffer(s) + [c]
  {
    hide Join, Words;
    StartOfBuffer();
    PendingNext(s, c);
    if IsSpace(c) {
      WordsNext(s, c);
    } else {
      LetterNext(s, c);
    }
  }

  lemma LetterNext(s: string, c: char)
    requires !IsSpace(c)
    ensures Join(Words(s + [c])) + "" == Buffer(s) + [c]
  {
    hide Join, Words;
    WordsNext(s, c);
    WordsOfBlanks(s);
    var ws := Words(s);
    if s == [] || IsSpace(s[|s| - 1]) {
      JoinNext(ws, [c]);
    } else {
      assert ws == ws[..|ws| - 1] + [ws[|ws| - 1]];
      LastGrows(ws[..|ws| - 1], ws[|ws| - 1], c);
    }
  }

  lemma {:induction false} WordsOfBlanks(s: string)
    ensures Words(s) == [] ==> forall i :: 0 <= i < |s| ==> IsSpace(s[i])
    ensures (forall i :: 0 <= i < |s| ==> IsSpace(s[i])) ==> Words(s) == []
    ensures Join([]) == []
  {
    if s != [] {
      WordsOfBlanks(s[..|s| - 1]);
    }
  }

  /** remove_extra_space: one blank for each run of white space, none at the ends. */
  method RemoveExtraSpace(str: string) returns (buf: string)
    ensures buf == Join(Words(str))
  {
    hide Words, Join, Buffer, Pending;
    var c := ' ';
    buf := [];
    var p := 0;
    StartOfBuffer();
    while p < |str|
      invariant p <= |str|
      invariant buf == Buffer(str[..p])
      invariant c == ' ' <==> Words(str[..p]) == [] || (p > 0 && IsSpace(str[p - 1]))
      invariant p == 0 ==> Words(str[..p]) == []
    {
      assert str[..p + 1] == str[..p] + [str[p]];
      BufferNext(str[..p], str[p]);
      BlanksNext(str[..p], str[p]);
      if !IsSpace(str[p]) {
        c := str[p];
        buf := buf + [c];
      } else if c != ' ' {
        c := ' ';
        buf := buf + [c];
      }
      p := p + 1;
    }
    assert str[..p] == str;
    EndOfBuffer(str);
    if |buf| > 0 && buf[|buf| - 1] == ' ' {
      buf := buf[..|buf| - 1];
    }
  }

  lemma StartOfBuffer()
    ensures Words([]) == [] && Join([]) == [] && Pending([]) == "" && Buffer([]) == []
  {
  }

  lemma BlanksNext(s: string, c: char)
    ensures Words(s + [c]) == [] <==> Words(s) == [] && IsSpace(c)
  {
    assert (s + [c])[..|s|] == s;
  }

  /** A joined line ends in a blank only when one is pending. */
  lemma EndOfBuffer(s: string)
    ensures var j := Join(Words(s)); j != [] ==> j[|j| - 1] != ' '
    ensures Words(s) == [] ==> Join(Words(s)) == []
    ensures Buffer(s) == Join(Words(s)) || Buffer(s) == Join(Words(s)) + " "
  {
    hide Join, Words;
    assert Join(Words(s)) + "" == Join(Words(s));
    StartOfBuffer();
    WordsAreWords(s);
    var ws := Words(s);
    if ws != [] {
      var w := ws[|ws| - 1];
      assert IsWord(w);
      assert w[|w| - 1] in w;
      JoinNext(ws[..|ws| - 1], w);
      assert ws == ws[..|ws| - 1] + [w];
    }
  }

  /** `r` is `s` without the white space at its ends. */
  ghost predicate Trimmed(s: string, r: string, i: nat, j: nat) {
    && i <= j <= |s| && r == s[i..j]
    && (forall k :: 0 <= k < i || j <= k < |s| ==> IsSpace(s[k]))
    && (i < j ==> !IsSpace(s[i]) && !IsSpace(s[j - 1]))
  }

  /** rmspace. */
  method Rmspace(s: string) returns (r: string)
    ensures exists i: nat, j: nat :: Trimmed(s, r, i, j)
  {
    var p := |s|;
    while p > 0 && IsSpace(s[p - 1])
      invariant 0 <= p <= |s| && forall k :: p <= k < |s| ==> IsSpace(s[k])
    {
      p := p - 1;
    }
    var q := 0;
    while q < p && IsSpace(s[q])
      invariant 0 <= q <= p && forall k :: 0 <= k < q ==> IsSpace(s[k])
    {
      q := q + 1;
    }
    r := s[q..p];
    assert Trimmed(s, r, q, p);
  }

  lemma TrimmedIsSame(s: string, r: string)
    requires exists i: nat, j: nat :: Trimmed(s, r, i, j)
    requires s != [] ==> !IsSpace(s[0]) && !IsSpace(s[|s| - 1])
    ensures r == s
  {
    var i: nat, j: nat :| Trimmed(s, r, i, j);
    if s != [] {
      assert i == 0 && j == |s|;
    }
  }

  // ----- splitting -----

  /** Splitting at the blanks of a joined line gives the words back. */
  lemma {:induction false} FirstBlank(ws: seq<string>)
    requires forall i :: 0 <= i < |ws| ==> IsWord(ws[i])
    ensures |ws| > 1 ==> Join(ws) == ws[0] + [' '] + Join(ws[1..]) && Strchr(Join(ws), ' ') == Some(|ws[0]|)
    ensures |ws| == 1 ==> Join(ws) == ws[0] && Strchr(Join(ws), ' ') == None
    ensures ws != [] ==> Join(ws) != [] && !IsSpace(Join(ws)[0]) && !IsSpace(Join(ws)[|Join(ws)| - 1])
  {
    hide Join, Strchr;
    if |ws| == 1 {
      OneWord(ws[0]);
      JoinNext([], ws[0]);
      assert [] + [ws[0]] == ws;
    } else if |ws| > 1 {
      var r, w := ws[..|ws| - 1], ws[|ws| - 1];
      FirstBlank(r);
      assert ws == r + [w];
      JoinNext(r, w);
      OneWord(w);
      OneWord(ws[0]);
      JoinNext(ws[1..|ws| - 1], w);
      assert ws[1..] == ws[1..|ws| - 1] + [w];
      if |r| == 1 {
        NoneJoined();
      } else {
        assert r[1..] == ws[1..|ws| - 1];
        Shift(ws[0], Join(r[1..]), w);
      }
      StrchrSplit(ws[0], ' ', Join(ws[1..]));
    }
  }

  lemma NoneJoined()
    ensures Join([]) == []
  {
  }

  lemma Shift(a: string, b: string, w: string)
    ensures (a + [' '] + b) + " " + w == a + [' '] + (b + " " + w)
  {
  }

  lemma OneWord(w: string)
    requires IsWord(w)
    ensures ' ' !in w && Strchr(w, ' ') == None && !IsSpace(w[0]) && !IsSpace(w[|w| - 1])
  {
    assert w[0] in w && w[|w| - 1] in w;
  }

  /** makeargv, without the program's name in front. */
  method MakeArgv(s: string) returns (argv: seq<string>)
    ensures argv == Words(s)
  {
    hide Words, Join, Strchr, IsWord;
    argv := [];
    var p := 0;
    while p < |s| && IsSpace(s[p])
      invariant p <= |s| && forall i :: 0 <= i < p ==> IsSpace(s[i])
    {
      p := p + 1;
    }
    LeadingBlanks(s, p);
    if p == |s| {
      WordsOfBlanks(s);
      return;
    }
    var str := RemoveExtraSpace(s[p..]);
    ghost var ws := Words(s[p..]);
    WordsAreWords(s[p..]);
    FirstBlank(ws);
    StartsWord(s[p..]);
    var trimmed := Rmspace(str);
    TrimmedIsSame(str, trimmed);
    var rest := Some(trimmed);
    ghost var n := 0;
    while rest.Some?
      invariant n <= |ws| && argv == ws[..n]
      invariant if rest.Some? then n < |ws| && rest.value == Join(ws[n..]) else n == |ws|
      decreases |ws| - n
    {
      FirstBlank(ws[n..]);
      var q := Strchr(rest.value, ' ');
      if q.Some? {
        OneWord(ws[n]);
        StrchrSplit(ws[n], ' ', Join(ws[n + 1..]));
        argv := argv + [rest.value[..q.value]];
        rest := Some(rest.value[q.value + 1..]);
        assert ws[n..][1..] == ws[n + 1..];
      } else {
        argv := argv + [rest.value];
        rest := None;
      }
      n := n + 1;
    }
  }

  lemma {:induction false} LeadingBlanks(s: string, p: nat)
    requires p <= |s| && forall i :: 0 <= i < p ==> IsSpace(s[i])
    ensures Words(s) == Words(s[p..])
  {
    if p == |s| {
      WordsOfBlanks(s);
      assert s[p..] == [];
    } else {
      assert s[p..][..|s[p..]| - 1] == s[..|s| - 1][p..];
      LeadingBlanks(s[..|s| - 1], p);
      if p == |s| - 1 {
        WordsOfBlanks(s[..|s| - 1]);
      }
    }
  }

  lemma StartsWord(s: string)
    requires s != [] && !IsSpace(s[0])
    ensures Words(s) != []
  {
    WordsOfBlanks(s);
  }

  // ----- stacking -----

  /** A token that puts the flag into the set. */
  predicate Sets(token: string, flag: string) {
    token == flag && flag != "" && flag[0] != '-' && flag[0] != '$'
  }

  /** A token that takes the flag out of the set. */
  predicate Unsets(token: string, flag: string) {
    "-*" <= token || token == "-" + flag
  }

  /** Whether the flag is set after the tokens: the last one that mentions it decides, and without
      one it is set if it was before. */
  ghost predicate SetAfter(tokens: seq<string>, flag: string, before: bool) {
    || (exists i :: LastMention(tokens, flag, i) && Sets(tokens[i], flag))
    || (before && forall i :: 0 <= i < |tokens| ==> !Mentions(tokens[i], flag))
  }

  predicate Mentions(token: string, flag: string) {
    Sets(token, flag) || Unsets(token, flag)
  }

  ghost predicate LastMention(tokens: seq<string>, flag: string, i: int) {
    0 <= i < |tokens| && Mentions(tokens[i], flag) && forall j :: i < j < |tokens| ==> !Mentions(tokens[j], flag)
  }

  lemma SetAfterNext(tokens: seq<string>, token: string, flag: string, before: bool)
    ensures SetAfter([], flag, before) == before
    ensures SetAfter(tokens + [token], flag, before)
        <==> Sets(token, flag) || (SetAfter(tokens, flag, before) && !Unsets(token, flag))
  {
    hide Sets, Unsets, Mentions;
    var ts := tokens + [token];
    NotBoth(token, flag);
    assert ts[|tokens|] == token && forall j :: 0 <= j < |tokens| ==> ts[j] == tokens[j];
    if Mentions(token, flag) {
      assert LastMention(ts, flag, |tokens|);
    } else {
      forall i: int ensures LastMention(ts, flag, i) <==> LastMention(tokens, flag, i) {
        if LastMention(tokens, flag, i) {
          assert ts[i] == tokens[i];
        }
        if LastMention(ts, flag, i) {
          assert i < |tokens| && ts[i] == tokens[i];
          assert forall j :: i < j < |tokens| ==> ts[j] == tokens[j];
        }
      }
    }
  }

  lemma NotBoth(token: string, flag: string)
    ensures !(Sets(token, flag) && Unsets(token, flag))
    ensures Mentions(token, flag) <==> Sets(token, flag) || Unsets(token, flag)
  {
    if Unsets(token, flag) {
      assert token[0] == '-';
    }
  }

  /** What a token that starts with a hyphen takes out. */
  lemma NegationUnsets(token: string, flag: string)
    requires token != [] && token[0] == '-'
    ensures !Sets(token, flag)
    ensures Unsets(token, flag) <==> (|token| > 1 && token[1] == '*') || token[1..] == flag
  {
    assert "-*" <= token <==> |token| > 1 && token[1] == '*';
    assert token == "-" + token[1..];
    assert ("-" + flag)[1..] == flag;
  }

  lemma OtherTokens(token: string, flag: string)
    requires token != [] && token[0] != '-'
    ensures !Unsets(token, flag)
    ensures Sets(token, flag) <==> token == flag && token[0] != '$'
  {
    assert ("-" + flag)[0] == '-';
  }

  /** The flags of a table that may not exist yet. */
  ghost function Flags(vals: Table?<int>): set<string>
    reads if vals == null then {} else {vals}
  {
    if vals == null then {} else vals.m.Keys
  }

  /** One round of the loop. */
  method Apply(token: string, vals: Table?<int>) returns (r: Table?<int>)
    requires token != [] && (vals != null ==> vals.Valid())
    modifies vals, if vals == null then {} else {vals.buckets}, if vals == null then {} else vals.nodes
    ensures r != null ==> r.Valid()
    ensures vals != null ==> r == vals && fresh(r.nodes - old(vals.nodes))
    ensures vals == null && r != null ==> fresh(r) && fresh(r.buckets) && fresh(r.nodes)
    ensures forall f :: f in Flags(r) <==> Sets(token, f) || (f in old(Flags(vals)) && !Unsets(token, f))
  {
    hide Sets, Unsets, Table.Valid, Table.Linked;
    r := vals;
    if token[0] == '-' {
      if r != null {
        if |token| > 1 && token[1] == '*' {
          r.Clear();
        } else {
          var _, _ := r.Delete(token[1..]);
        }
      }
      forall f ensures !Sets(token, f)
                    && (Unsets(token, f) <==> (|token| > 1 && token[1] == '*') || token[1..] == f) {
        NegationUnsets(token, f);
      }
    } else {
      if token[0] != '$' {
        if r == null {
          r := new Table();
        }
        var _ := r.AddUnique(token);
      }
      forall f ensures !Unsets(token, f) && (Sets(token, f) <==> token == f && token[0] != '$') {
        OtherTokens(token, f);
      }
    }
  }

  /** setincr_var. `vals` is null until something has been added. */
  method SetincrVar(s: string, vals: Table?<int>) returns (r: Table?<int>)
    requires vals != null ==> vals.Valid()
    modifies vals, if vals == null then {} else {vals.buckets}, if vals == null then {} else vals.nodes
    ensures r != null ==> r.Valid()
    ensures vals != null ==> r == vals
    ensures forall f :: f in Flags(r) <==> SetAfter(Words(s), f, f in old(Flags(vals)))
  {
    hide Words, SetAfter, Sets, Unsets, IsWord, Table.Valid, Table.Linked;
    r := vals;
    ghost var was := Flags(vals);
    forall f: string, b: bool ensures SetAfter([], f, b) == b {
      SetAfterNext([], "", f, b);
    }
    if s == "" {
      StartOfBuffer();
      return;
    }
    var argv := MakeArgv(s);
    WordsAreWords(s);
    var i := 0;
    while i < |argv|
      invariant i <= |argv| && (r != null ==> r.Valid())
      invariant vals != null ==> r == vals && fresh(r.nodes - old(vals.nodes))
      invariant vals == null && r != null ==> fresh(r) && fresh(r.buckets) && fresh(r.nodes)
      invariant forall f :: f in Flags(r) <==> SetAfter(argv[..i], f, f in was)
    {
      assert argv[..i + 1] == argv[..i] + [argv[i]];
      WordNotEmpty(argv[i]);
      forall f: string, b: bool
        ensures SetAfter(argv[..i + 1], f, b)
           <==> Sets(argv[i], f) || (SetAfter(argv[..i], f, b) && !Unsets(argv[i], f))
      {
        SetAfterNext(argv[..i], argv[i], f, b);
      }
      r := Apply(argv[i], r);
      i := i + 1;
    }
    assert argv[..i] == argv;
  }

  lemma WordNotEmpty(w: string)
    requires IsWord(w)
    ensures w != []
  {
  }
}
