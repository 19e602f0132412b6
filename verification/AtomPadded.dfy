/** Components with leading zeros: what the comparison makes of them, and exactly when that is
    the verdict of Algorithm 3.3, for a pair of components, for the numbers of two versions and
    for two whole versions. */
module AtomPadded {
  import opened CStrings
  import opened Atom
  import opened AtomCompare
  import opened AtomOrder
  import opened AtomRoundTrip
  import opened AtomPms

  // ----- one pair of components -----

  /** What may follow a number: another number, suffixes, a letter with or without suffixes, or nothing. */
  predicate Follows(t: string) {
    t == [] || t[0] == '.' || t[0] == '_' || (IsLower(t[0]) && (|t| == 1 || t[1] == '_'))
  }

  predicate Ended(t: string) {
    t == [] || t[0] == '.'
  }

  /** A letter counts as part of the component. */
  predicate Lettered(t: string) {
    t != [] && IsLower(t[0])
  }

  function WordLength(x: string, t: string): nat {
    |x| + if Lettered(t) then 1 else 0
  }

  function KeepOne(n: nat): nat {
    if n > 0 then n else 1
  }

  /** The last place of a component, without its trailing zeros. A letter is no zero. */
  function LastKept(x: string, t: string): nat {
    if Lettered(t) then |x| else KeepOne(|Stripped(x)|) - 1
  }

  /** How many characters the string branch compares: the last place itself is left out. */
  function Compared(x: string, tx: string, y: string, ty: string): nat {
    Max(LastKept(x, tx), LastKept(y, ty))
  }

  /** The pair is compared as strings. */
  predicate Long(x: string, tx: string, y: string, ty: string) {
    (ZeroLed(x) || ZeroLed(y)) && (WordLength(x, tx) > 2 || WordLength(y, ty) > 2)
  }

  /** The numbers do not differ in the first `n` places. */
  predicate Tied(x: string, y: string, n: nat) {
    n <= |x| && n <= |y| && x[..n] == y[..n]
  }

  /** One number continues the other. */
  predicate Continues(x: string, y: string) {
    |x| < |y| && y[..|x|] == x
  }

  /** What the comparison makes of two components: of a number that continues another it sees the
      next digit against whatever follows the other. */
  function ReadSign(x: string, tx: string, y: string, ty: string): (r: int)
    requires AllDigits(x) && AllDigits(y)
    ensures -1 <= r <= 1
  {
    if !Long(x, tx, y, ty) then Sign(DecValue(x) - DecValue(y))
    else if Tied(x, y, Compared(x, tx, y, ty)) then 0
    else if Continues(x, y) then (if Ended(tx) then -1 else 1)
    else if Continues(y, x) then (if Ended(ty) then 1 else -1)
    else Strcmp(x, y)
  }

  /** One digit after a zero against a single digit that is not larger, compared as numbers. */
  predicate ShortMiss(x: string, y: string) {
    |x| == 2 && x[0] == '0' && x[1] != '0' && |y| == 1 && y[0] != '0' && x[1] >= y[0]
  }

  /** The number `y` continues `x` where it is compared; a letter or an underscore behind `x` counts
      as larger than the next digit, and zeros that Algorithm 3.3 drops count as a difference. */
  predicate Misread(x: string, tx: string, y: string) {
    Continues(x, y) && (!Ended(tx) || Stripped(x) == Stripped(y))
  }

  /** The verdict is wrong: by numbers where strings count, by a difference that lies behind the places
      compared, or by what follows the shorter number. */
  predicate Missed(x: string, tx: string, y: string, ty: string) {
    if !ZeroLed(x) && !ZeroLed(y) then false
    else if !Long(x, tx, y, ty) then ShortMiss(x, y) || ShortMiss(y, x)
    else if Tied(x, y, Compared(x, tx, y, ty)) then Stripped(x) != Stripped(y)
    else Misread(x, tx, y) || Misread(y, ty, x)
  }

  lemma {:induction false} WordRead(x: string, t: string)
    requires AllDigits(x) && Follows(t)
    ensures ComponentLength(x + t) == WordLength(x, t)
  {
    if x == [] {
      assert x + t == t;
      if Lettered(t) {
        assert t[1..] == [] || t[1..][0] == '_';
      }
    } else {
      assert (x + t)[1..] == x[1..] + t;
      WordRead(x[1..], t);
    }
  }

  lemma {:induction false} StripZerosIs(x: string, t: string, e: nat)
    requires e < |x|
    ensures StripZeros(x + t, e) == KeepOne(|Stripped(x[..e + 1])|) - 1
  {
    var w := x[..e + 1];
    assert w[..e] == x[..e];
    assert (x + t)[e] == x[e] == w[e];
    if x[e] == '0' {
      if e > 0 {
        StripZerosIs(x, t, e - 1);
      } else {
        assert w[..0] == [];
      }
    }
  }

  lemma LastRead(x: string, t: string)
    requires IsNumber(x) && Follows(t)
    ensures ComponentLast(x + t) == WordLength(x, t) - 1
    ensures StripZeros(x + t, WordLength(x, t) - 1) == LastKept(x, t)
  {
    WordRead(x, t);
    if Lettered(t) {
      assert (x + t)[|x|] == t[0];
    } else {
      StripZerosIs(x, t, |x| - 1);
      assert x[..|x| - 1 + 1] == x;
    }
  }

  lemma StrncmpHead(x: string, tx: string, y: string, ty: string, n: nat)
    requires x != [] && y != [] && n > 0
    ensures Strncmp(x + tx, y + ty, n)
         == if x[0] < y[0] then -1 else if x[0] > y[0] then 1 else Strncmp(x[1..] + tx, y[1..] + ty, n - 1)
  {
    var u, v := x + tx, y + ty;
    assert u[0] == x[0] && v[0] == y[0];
    assert u[1..] == x[1..] + tx;
    assert v[1..] == y[1..] + ty;
  }

  lemma TiedHead(x: string, y: string, n: nat)
    requires x != [] && y != [] && n > 0
    ensures Tied(x, y, n) <==> x[0] == y[0] && Tied(x[1..], y[1..], n - 1)
  {
    if n <= |x| && n <= |y| {
      assert x[..n] == [x[0]] + x[1..][..n - 1];
      assert y[..n] == [y[0]] + y[1..][..n - 1];
      assert x[..n][1..] == x[1..][..n - 1] && y[..n][1..] == y[1..][..n - 1];
    }
  }

  lemma ContinuesHead(x: string, y: string)
    requires x != [] && y != []
    ensures Continues(x, y) <==> x[0] == y[0] && Continues(x[1..], y[1..])
  {
    if |x| < |y| {
      assert y[..|x|] == [y[0]] + y[1..][..|x| - 1];
      assert x == [x[0]] + x[1..];
      assert y[..|x|][1..] == y[1..][..|x| - 1];
    }
  }

  /** The string branch, on digits and what follows them. */
  lemma {:induction false} StringBranch(x: string, tx: string, y: string, ty: string, n: nat)
    requires AllDigits(x) && AllDigits(y) && Follows(tx) && Follows(ty) && n <= Max(|x|, |y|)
    ensures Strncmp(x + tx, y + ty, n) ==
      if Tied(x, y, n) then 0
      else if Continues(x, y) then (if Ended(tx) then -1 else 1)
      else if Continues(y, x) then (if Ended(ty) then 1 else -1)
      else Strcmp(x, y)
  {
    if n > 0 {
      if x == [] || y == [] {
        OneEnded(x, tx, y, ty, n);
      } else {
        StrncmpHead(x, tx, y, ty, n);
        TiedHead(x, y, n);
        ContinuesHead(x, y);
        ContinuesHead(y, x);
        hide Strncmp, Tied, Continues, Follows, Ended;
        if x[0] == y[0] {
          StringBranch(x[1..], tx, y[1..], ty, n - 1);
        }
      }
    }
  }

  lemma OneEnded(x: string, tx: string, y: string, ty: string, n: nat)
    requires AllDigits(x) && AllDigits(y) && Follows(tx) && Follows(ty)
    requires (x == [] || y == []) && 0 < n <= Max(|x|, |y|)
    ensures !Tied(x, y, n) && (Continues(x, y) || Continues(y, x))
    ensures Strncmp(x + tx, y + ty, n)
         == if Continues(x, y) then (if Ended(tx) then -1 else 1) else if Ended(ty) then 1 else -1
  {
    if x == [] {
      assert x + tx == tx;
      assert (y + ty)[0] == y[0];
    } else {
      assert y + ty == ty;
      assert (x + tx)[0] == x[0];
    }
  }

  lemma ValueRead(x: string, t: string)
    requires IsNumber(x) && Follows(t)
    ensures ComponentValue(x + t) == DecValue(x)
  {
    StrtollOfDigits(x, t);
  }

  lemma LongIsStrings(x: string, tx: string, y: string, ty: string)
    requires IsNumber(x) && IsNumber(y) && Follows(tx) && Follows(ty)
    ensures AsStrings(x + tx, y + ty) <==> Long(x, tx, y, ty)
  {
    LastRead(x, tx);
    LastRead(y, ty);
    assert (x + tx)[0] == x[0] && (y + ty)[0] == y[0];
    hide StripZeros, Stripped, ComponentLast, Follows;
  }

  /** The comparison of two later components, on their digits. */
  lemma ComponentReads(x: string, tx: string, y: string, ty: string)
    requires IsNumber(x) && IsNumber(y) && Follows(tx) && Follows(ty)
    ensures ComponentSign(x + tx, y + ty, false) == ReadSign(x, tx, y, ty)
  {
    hide StripZeros, Strncmp, Stripped, ComponentLast, ComponentValue, DecValue, Tied, Continues, Strcmp, Follows, Ended,
      AsStrings, Long;
    LongIsStrings(x, tx, y, ty);
    if Long(x, tx, y, ty) {
      LastRead(x, tx);
      LastRead(y, ty);
      StringBranch(x, tx, y, ty, Compared(x, tx, y, ty));
    } else {
      ValueRead(x, tx);
      ValueRead(y, ty);
    }
  }

  // ----- trailing zeros dropped -----

  /** Removing the first digit removes it from the stripped number, too. */
  lemma {:induction false} StrippedTail(x: string)
    requires x != []
    ensures Stripped(x) != [] ==> Stripped(x)[0] == x[0] && Stripped(x)[1..] == Stripped(x[1..])
    ensures Stripped(x) == [] ==> x[0] == '0' && Stripped(x[1..]) == []
  {
    if x[|x| - 1] == '0' {
      var y := x[..|x| - 1];
      if y == [] {
        assert x[1..] == [];
      } else {
        StrippedTail(y);
        assert x[1..][..|x| - 2] == y[1..];
        assert y[0] == x[0];
      }
    } else {
      assert |x| > 1 ==> x[1..][|x| - 2] == x[|x| - 1];
    }
  }

  /** Where neither number continues the other, trailing zeros do not matter; a number that
      continues another is larger or adds zeros only. */
  lemma {:induction false} StrippedOrder(x: string, y: string)
    requires AllDigits(x) && AllDigits(y)
    ensures Continues(x, y) ==> Stripped(x) == Stripped(y) || Strcmp(Stripped(x), Stripped(y)) == -1
    ensures x != y && !Continues(x, y) && !Continues(y, x) ==> Strcmp(Stripped(x), Stripped(y)) == Strcmp(x, y)
  {
    if x != [] && y != [] {
      StrippedTail(x);
      StrippedTail(y);
      ContinuesHead(x, y);
      ContinuesHead(y, x);
      hide Stripped, Continues;
      if x[0] == y[0] {
        StrippedOrder(x[1..], y[1..]);
        SameHead(x, y);
      }
    }
  }

  lemma SameHead(x: string, y: string)
    requires x != [] && y != [] && x[0] == y[0]
    ensures x == y <==> x[1..] == y[1..]
  {
    assert x == [x[0]] + x[1..] && y == [y[0]] + y[1..];
  }

  /** The branch that compares longer components as strings. */
  lemma LongAgreesIff(x: string, tx: string, y: string, ty: string)
    requires IsNumber(x) && IsNumber(y) && Follows(tx) && Follows(ty) && Long(x, tx, y, ty)
    ensures ComponentSign(x + tx, y + ty, false) == PmsComponent(x, y) <==> !Missed(x, tx, y, ty)
  {
    ComponentReads(x, tx, y, ty);
    StrippedOrder(x, y);
    StrippedOrder(y, x);
    StrcmpSwap(Stripped(x), Stripped(y));
    EqualTied(x, tx, y, ty);
    ContinuesOnce(x, y);
    hide ComponentSign, Stripped, Compared, Tied, Continues, Strcmp, Follows;
  }

  lemma ContinuesOnce(x: string, y: string)
    ensures !(Continues(x, y) && Continues(y, x))
    ensures Continues(x, y) || Continues(y, x) ==> x != y
  {
  }

  lemma EqualTied(x: string, tx: string, y: string, ty: string)
    ensures x == y ==> Tied(x, y, Compared(x, tx, y, ty))
  {
  }

  // ----- short components, compared as numbers -----

  function Digit(c: char): int {
    c as int - '0' as int
  }

  lemma ShortValue(x: string)
    requires IsNumber(x) && |x| <= 2
    ensures DecValue(x) == if |x| == 1 then Digit(x[0]) else 10 * Digit(x[0]) + Digit(x[1])
    ensures Stripped(x) == if x[|x| - 1] != '0' then x else if |x| == 2 && x[0] != '0' then x[..1] else []
  {
    assert x[..0] == [];
    if |x| == 2 {
      assert x[..1][..0] == [];
      assert DecValue(x[..1]) == Digit(x[0]);
    }
  }

  lemma ShortStrcmp(a: string, b: string)
    requires |a| <= 2 && |b| <= 2
    ensures Strcmp(a, b) ==
      if a == [] then (if b == [] then 0 else -1)
      else if b == [] then 1
      else if a[0] != b[0] then (if a[0] < b[0] then -1 else 1)
      else if |a| == 1 then (if |b| == 1 then 0 else -1)
      else if |b| == 1 then 1
      else if a[1] != b[1] then (if a[1] < b[1] then -1 else 1) else 0
  {
    if a != [] && b != [] && a[0] == b[0] {
      assert Strcmp(a, b) == Strcmp(a[1..], b[1..]);
      if |a| == 2 && |b| == 2 {
        assert a[1..][0] == a[1] && b[1..][0] == b[1];
        assert a[1..][1..] == [] && b[1..][1..] == [];
      }
    }
  }

  lemma ShortAgreesIff(x: string, tx: string, y: string, ty: string)
    requires IsNumber(x) && IsNumber(y) && Follows(tx) && Follows(ty)
    requires (ZeroLed(x) || ZeroLed(y)) && WordLength(x, tx) <= 2 && WordLength(y, ty) <= 2
    ensures ComponentSign(x + tx, y + ty, false) == PmsComponent(x, y) <==> !Missed(x, tx, y, ty)
  {
    hide ComponentSign, DecValue, Strcmp, Stripped;
    ComponentReads(x, tx, y, ty);
    ShortValue(x);
    ShortValue(y);
    ShortStrcmp(Stripped(x), Stripped(y));
    assert IsDigit(x[0]) && IsDigit(y[0]);
    assert |x| == 2 ==> IsDigit(x[1]);
    assert |y| == 2 ==> IsDigit(y[1]);
    ShortSigns(x, y, Stripped(x), Stripped(y));
  }

  /** The digits of the two numbers, case by case. */
  lemma ShortSigns(x: string, y: string, sx: string, sy: string)
    requires IsNumber(x) && IsNumber(y) && |x| <= 2 && |y| <= 2 && (ZeroLed(x) || ZeroLed(y))
    requires sx == if x[|x| - 1] != '0' then x else if |x| == 2 && x[0] != '0' then x[..1] else []
    requires sy == if y[|y| - 1] != '0' then y else if |y| == 2 && y[0] != '0' then y[..1] else []
    ensures var vx := if |x| == 1 then Digit(x[0]) else 10 * Digit(x[0]) + Digit(x[1]);
      var vy := if |y| == 1 then Digit(y[0]) else 10 * Digit(y[0]) + Digit(y[1]);
      Sign(vx - vy) == Strcmp(sx, sy) <==> !(ShortMiss(x, y) || ShortMiss(y, x))
  {
    hide Strcmp;
    ShortStrcmp(sx, sy);
    assert IsDigit(x[0]) && IsDigit(y[0]);
    assert |x| == 2 ==> IsDigit(x[1]);
    assert |y| == 2 ==> IsDigit(y[1]);
  }

  /** The comparison of two later components gives the verdict of Algorithm 3.3 exactly
      when the difference is not missed. */
  lemma ComponentAgreesIff(x: string, tx: string, y: string, ty: string)
    requires IsNumber(x) && IsNumber(y) && Follows(tx) && Follows(ty)
    ensures ComponentSign(x + tx, y + ty, false) == PmsComponent(x, y) <==> !Missed(x, tx, y, ty)
  {
    hide ComponentSign, Stripped, DecValue, Strcmp, Follows;
    if Long(x, tx, y, ty) {
      LongAgreesIff(x, tx, y, ty);
    } else if ZeroLed(x) || ZeroLed(y) {
      ShortAgreesIff(x, tx, y, ty);
    } else {
      ComponentReads(x, tx, y, ty);
    }
  }

  /** A difference that a suffix after the shorter component hides: 1.0_alpha is newer than 1.002. */
  lemma UnderscoreMisleads()
    ensures ComponentSign("0_alpha", "002", false) == 1 && PmsComponent("0", "002") == -1
  {
    assert "0_alpha" == "0" + "_alpha" && "002" == "002" + "";
    ComponentReads("0", "_alpha", "002", "");
    ShortStripped();
    assert "002"[..1] == "0";
  }

  /** A difference where there is none: 0 and 00 are the same number after the first component, but in
      1.0a against 1.00b the letter of the first meets the second zero of the other, and 1.0a is newer. */
  lemma LetterMisleads()
    ensures ComponentSign("0a", "00b", false) == 1 && PmsComponent("0", "00") == 0
  {
    assert "0a" == "0" + "a" && "00b" == "00" + "b";
    ComponentReads("0", "a", "00", "b");
    ShortStripped();
    assert "00"[..1] == "0";
  }

  lemma ShortStripped()
    ensures Stripped("002") == "002" && Stripped("0") == [] && Stripped("00") == []
  {
    assert "0"[..0] == [];
    assert "00"[..1] == "0";
  }

  // ----- the numbers of two versions -----

  /** What follows the first number of `s`, as far as it matters: a dot, or the rest of the version. */
  function Behind(s: seq<string>, rest: string): string {
    if |s| == 1 then rest else "."
  }

  predicate AllNumbers(s: seq<string>) {
    forall i :: 0 <= i < |s| ==> IsNumber(s[i])
  }

  function HeadSign(a: seq<string>, ra: string, b: seq<string>, rb: string): (r: int)
    requires AllNumbers(a) && AllNumbers(b) && a != [] && b != []
    ensures -1 <= r <= 1
  {
    assert IsNumber(a[0]) && IsNumber(b[0]);
    ReadSign(a[0], Behind(a, ra), b[0], Behind(b, rb))
  }

  /** What the walk over the later components says. */
  function LaterSign(a: seq<string>, ra: string, b: seq<string>, rb: string): (r: int)
    requires AllNumbers(a) && AllNumbers(b)
    ensures -1 <= r <= 1
  {
    if a == [] then (if b == [] then 0 else -1)
    else if b == [] then 1
    else Then(HeadSign(a, ra, b, rb), LaterSign(a[1..], ra, b[1..], rb))
  }

  /** What the walk over all components says. */
  function NumbersSign(a: seq<string>, ra: string, b: seq<string>, rb: string): (r: int)
    requires ValidNumbers(a) && ValidNumbers(b)
    ensures -1 <= r <= 1
  {
    Then(Sign(DecValue(a[0]) - DecValue(b[0])), LaterSign(a[1..], ra, b[1..], rb))
  }

  /** The text that is left for the walk. */
  function LeftOf(s: seq<string>, rest: string): Option<string> {
    if s == [] then None else Some(NumbersStr(s) + rest)
  }

  /** One number and the text behind it. */
  lemma HeadText(s: seq<string>, rest: string) returns (t: string)
    requires ValidNumbers(s) && Follows(rest) && '.' !in rest
    ensures NumbersStr(s) + rest == s[0] + t && Follows(t) && (t == [] || !IsDigit(t[0]))
    ensures Ended(t) == Ended(Behind(s, rest)) && Lettered(t) == Lettered(Behind(s, rest))
    ensures NextComponent(NumbersStr(s) + rest) == LeftOf(s[1..], rest)
  {
    assert IsNumber(s[0]);
    if |s| == 1 {
      t := rest;
      NoNext(s[0] + rest);
    } else {
      var left := NumbersStr(s[1..]) + rest;
      t := "." + left;
      assert NumbersStr(s) + rest == s[0] + t;
      NextAfter(s[0], left);
    }
  }

  lemma ReadBehind(x: string, tx: string, y: string, ty: string, ux: string, uy: string)
    requires AllDigits(x) && AllDigits(y)
    requires Ended(tx) == Ended(ux) && Lettered(tx) == Lettered(ux) && Ended(ty) == Ended(uy) && Lettered(ty) == Lettered(uy)
    ensures ReadSign(x, tx, y, ty) == ReadSign(x, ux, y, uy)
  {
    hide Stripped, DecValue, Tied, Continues, Strcmp, Ended, Lettered;
  }

  lemma {:induction false} LaterReads(a: seq<string>, ra: string, b: seq<string>, rb: string)
    requires AllNumbers(a) && AllNumbers(b)
    requires Follows(ra) && Follows(rb) && '.' !in ra && '.' !in rb
    ensures NumbersCompare(LeftOf(a, ra), LeftOf(b, rb), false, false) == Verdict(LaterSign(a, ra, b, rb))
  {
    hide NumbersStr, ComponentSign, ReadSign, NextComponent, Follows, Behind, NumbersCompare;
    if a != [] && b != [] {
      var ta := HeadText(a, ra);
      var tb := HeadText(b, rb);
      ComponentReads(a[0], ta, b[0], tb);
      ReadBehind(a[0], ta, b[0], tb, Behind(a, ra), Behind(b, rb));
      LaterReads(a[1..], ra, b[1..], rb);
      CompareStep(NumbersStr(a) + ra, NumbersStr(b) + rb);
    } else {
      CompareEnd(LeftOf(a, ra), LeftOf(b, rb));
    }
  }

  lemma CompareStep(s1: string, s2: string)
    ensures var c := ComponentSign(s1, s2, false);
      NumbersCompare(Some(s1), Some(s2), false, false) ==
        if c != 0 then Some(OrderOf(c)) else NumbersCompare(NextComponent(s1), NextComponent(s2), false, false)
  {
    hide ComponentSign, NextComponent;
  }

  lemma CompareEnd(t1: Option<string>, t2: Option<string>)
    requires t1.None? || t2.None?
    ensures NumbersCompare(t1, t2, false, false) == if t1.Some? then Some(Newer) else if t2.Some? then Some(Older) else None
  {
  }

  /** The walk over the text of two versions, on their numbers. */
  lemma NumbersRead(a: seq<string>, ra: string, b: seq<string>, rb: string)
    requires ValidNumbers(a) && ValidNumbers(b)
    requires Follows(ra) && Follows(rb) && '.' !in ra && '.' !in rb
    ensures NumbersCompare(Some(NumbersStr(a) + ra), Some(NumbersStr(b) + rb), true, false)
         == Verdict(NumbersSign(a, ra, b, rb))
  {
    hide NumbersStr, ComponentValue, NextComponent, LaterSign, DecValue, Follows, Behind;
    var ta := HeadText(a, ra);
    var tb := HeadText(b, rb);
    FirstReads(a[0], ta, b[0], tb);
    LaterReads(a[1..], ra, b[1..], rb);
  }

  lemma FirstReads(x: string, tx: string, y: string, ty: string)
    requires IsNumber(x) && IsNumber(y) && Follows(tx) && Follows(ty)
    ensures ComponentSign(x + tx, y + ty, true) == Sign(DecValue(x) - DecValue(y))
  {
    hide ComponentValue, DecValue, Strncmp, StripZeros, AsStrings, ComponentLast, Follows, IsNumber, Max;
    FirstByValue(x + tx, y + ty);
    ValueRead(x, tx);
    ValueRead(y, ty);
  }

  lemma FirstByValue(s1: string, s2: string)
    ensures ComponentSign(s1, s2, true) == Sign(ComponentValue(s1) - ComponentValue(s2))
  {
    hide ComponentValue, Strncmp, StripZeros, AsStrings, ComponentLast, Max;
  }

  /** The first pair of later components that the walk or Algorithm 3.3 decides. */
  function FirstDecided(a: seq<string>, ra: string, b: seq<string>, rb: string): (i: nat)
    requires AllNumbers(a) && AllNumbers(b)
    ensures i <= |a| && i <= |b|
  {
    if a == [] || b == [] then 0
    else
      assert IsNumber(a[0]) && IsNumber(b[0]);
      if HeadSign(a, ra, b, rb) != 0 || PmsComponent(a[0], b[0]) != 0 then 0
      else 1 + FirstDecided(a[1..], ra, b[1..], rb)
  }

  /** The walk gives the verdict of Algorithm 3.2 exactly when it does not miss the first pair that is
      decided, or what comes behind that pair makes up for it. */
  ghost predicate LaterAgrees(a: seq<string>, ra: string, b: seq<string>, rb: string)
    requires AllNumbers(a) && AllNumbers(b)
  {
    var i := FirstDecided(a, ra, b, rb);
    i == |a| || i == |b| ||
      assert IsNumber(a[i]) && IsNumber(b[i]);
      var walk, pms := HeadSign(a[i..], ra, b[i..], rb), PmsComponent(a[i], b[i]);
      || !Missed(a[i], Behind(a[i..], ra), b[i], Behind(b[i..], rb))
      || (walk == 0 && LaterSign(a[i + 1..], ra, b[i + 1..], rb) == pms)
      || (pms == 0 && PmsLater(a[i + 1..], b[i + 1..]) == walk)
  }

  /** With equal first pairs everything is about the rest. */
  lemma LaterStep(a: seq<string>, ra: string, b: seq<string>, rb: string)
    requires AllNumbers(a) && AllNumbers(b) && a != [] && b != []
    requires IsNumber(a[0]) && IsNumber(b[0])
    requires HeadSign(a, ra, b, rb) == 0 && PmsComponent(a[0], b[0]) == 0
    ensures LaterAgrees(a, ra, b, rb) <==> LaterAgrees(a[1..], ra, b[1..], rb)
  {
    hide HeadSign, PmsComponent, LaterSign, PmsLater, Missed, Behind, IsNumber;
    var i := FirstDecided(a[1..], ra, b[1..], rb);
    assert FirstDecided(a, ra, b, rb) == i + 1;
    assert a[1..][i..] == a[i + 1..] && b[1..][i..] == b[i + 1..];
    if i < |a[1..]| && i < |b[1..]| {
      assert a[1..][i + 1..] == a[i + 2..] && b[1..][i + 1..] == b[i + 2..];
    }
  }

  lemma HeadAgreesIff(a: seq<string>, ra: string, b: seq<string>, rb: string)
    requires AllNumbers(a) && AllNumbers(b) && a != [] && b != [] && Follows(ra) && Follows(rb)
    requires IsNumber(a[0]) && IsNumber(b[0])
    ensures HeadSign(a, ra, b, rb) == PmsComponent(a[0], b[0]) <==> !Missed(a[0], Behind(a, ra), b[0], Behind(b, rb))
  {
    ComponentReads(a[0], Behind(a, ra), b[0], Behind(b, rb));
    ComponentAgreesIff(a[0], Behind(a, ra), b[0], Behind(b, rb));
    hide ComponentSign, ReadSign, PmsComponent, Missed;
  }

  lemma {:induction false} LaterAgreesIff(a: seq<string>, ra: string, b: seq<string>, rb: string)
    requires AllNumbers(a) && AllNumbers(b) && Follows(ra) && Follows(rb)
    ensures LaterSign(a, ra, b, rb) == PmsLater(a, b) <==> LaterAgrees(a, ra, b, rb)
  {
    hide HeadSign, PmsComponent, Missed, Behind, Follows;
    if a != [] && b != [] {
      assert IsNumber(a[0]) && IsNumber(b[0]);
      HeadAgreesIff(a, ra, b, rb);
      if HeadSign(a, ra, b, rb) == 0 && PmsComponent(a[0], b[0]) == 0 {
        LaterStep(a, ra, b, rb);
        LaterAgreesIff(a[1..], ra, b[1..], rb);
      } else {
        hide LaterSign, PmsLater;
        LaterUnfold(a, ra, b, rb);
        assert a[0..] == a && b[0..] == b;
      }
    }
  }

  lemma LaterUnfold(a: seq<string>, ra: string, b: seq<string>, rb: string)
    requires AllNumbers(a) && AllNumbers(b) && a != [] && b != []
    requires IsNumber(a[0]) && IsNumber(b[0])
    ensures LaterSign(a, ra, b, rb) == Then(HeadSign(a, ra, b, rb), LaterSign(a[1..], ra, b[1..], rb))
    ensures PmsLater(a, b) == Then(PmsComponent(a[0], b[0]), PmsLater(a[1..], b[1..]))
  {
    hide HeadSign, PmsComponent;
  }

  /** The first numbers decide, or the later ones agree. */
  ghost predicate NumbersAgree(a: seq<string>, ra: string, b: seq<string>, rb: string)
    requires ValidNumbers(a) && ValidNumbers(b)
  {
    DecValue(a[0]) != DecValue(b[0]) || LaterAgrees(a[1..], ra, b[1..], rb)
  }

  /** The walk over the text of two versions, zero-led components included, gives the verdict of
      Algorithm 3.2 exactly then. */
  lemma NumbersAgreeIff(a: seq<string>, ra: string, b: seq<string>, rb: string)
    requires ValidNumbers(a) && ValidNumbers(b)
    requires Follows(ra) && Follows(rb) && '.' !in ra && '.' !in rb
    ensures NumbersCompare(Some(NumbersStr(a) + ra), Some(NumbersStr(b) + rb), true, false) == Verdict(PmsNumbers(a, b))
       <==> NumbersAgree(a, ra, b, rb)
    ensures NumbersSign(a, ra, b, rb) == PmsNumbers(a, b) <==> NumbersAgree(a, ra, b, rb)
  {
    hide NumbersCompare, NumbersStr, DecValue, LaterSign, PmsLater, LaterAgrees, Follows;
    NumbersRead(a, ra, b, rb);
    LaterAgreesIff(a[1..], ra, b[1..], rb);
  }

  // ----- whole versions -----

  function WalkSign(a: PmsVersion, b: PmsVersion): (r: int)
    requires Valid(a) && Valid(b)
    ensures -1 <= r <= 1
  {
    NumbersSign(a.numbers, RestStr(a), b.numbers, RestStr(b))
  }

  /** Letter, suffixes and revision, by the algorithms. */
  function PmsTail(a: PmsVersion, b: PmsVersion): (r: int)
    requires Valid(a) && Valid(b)
    ensures -1 <= r <= 1
  {
    Then(Sign(LetterCode(a.letter) - LetterCode(b.letter)),
         Then(PmsSuffixes(a.suffixes, b.suffixes), Sign(a.revision - b.revision)))
  }

  /** The same, as stored. */
  function StoredTail(a: PmsVersion, b: PmsVersion): (r: int)
    requires Valid(a) && Valid(b)
    ensures -1 <= r <= 1
  {
    Then(Sign(LetterCode(a.letter) - LetterCode(b.letter)),
         Then(SuffixSignFrom(StoredAll(a.suffixes), StoredAll(b.suffixes), 0), Sign(a.revision - b.revision)))
  }

  /** atom_compare on two records, for all versions. */
  lemma AllRecordsCompare(cat: string, pn: string, a: PmsVersion, b: PmsVersion)
    requires Valid(a) && Valid(b)
    ensures Compare(AtomOf(cat, pn, a), AtomOf(cat, pn, b), DEFAULT) == OrderOf(Then(WalkSign(a, b), StoredTail(a, b)))
  {
    hide Compare, NumbersCompare, NumbersStr, RestStr, NumbersSign, AtomOf, TailSign, StoredTail, Plain, Follows;
    RestFollows(a);
    RestFollows(b);
    NumbersRead(a.numbers, RestStr(a), b.numbers, RestStr(b));
    RecordParts(cat, pn, a, b);
    CompareAsSigns(AtomOf(cat, pn, a), AtomOf(cat, pn, b));
  }

  lemma RecordParts(cat: string, pn: string, a: PmsVersion, b: PmsVersion)
    requires Valid(a) && Valid(b)
    ensures var d, q := AtomOf(cat, pn, a), AtomOf(cat, pn, b);
      && Plain(d) && Plain(q) && SamePackage(d, q) && d.buildId == q.buildId == 0
      && d.pv == Some(NumbersStr(a.numbers) + RestStr(a)) && q.pv == Some(NumbersStr(b.numbers) + RestStr(b))
      && TailSign(d, q) == StoredTail(a, b)
  {
    hide NumbersStr, RestStr, SuffixSignFrom, StoredAll, RevStr, LetterCode, ValidNumbers, ValidSuffixes;
  }

  lemma RestFollows(v: PmsVersion)
    requires Valid(v)
    ensures Follows(RestStr(v)) && '.' !in RestStr(v)
  {
    RestShape(v);
    hide SuffixesStr;
    if v.letter.Some? {
      assert RestStr(v)[0] == RestStr(v)[..1][0];
      assert |RestStr(v)| > 1 ==> RestStr(v)[1] == RestStr(v)[1..][0];
    }
  }

  /** When a whole comparison agrees with Algorithm 3.1. Where the walk over the numbers agrees, it is
      the suffixes and the revision as before; otherwise the walk misses a difference that the rest
      happens to show, or shows one of its own that the rest confirms. */
  ghost predicate VersionsAgree(a: PmsVersion, b: PmsVersion)
    requires Valid(a) && Valid(b)
  {
    if NumbersAgree(a.numbers, RestStr(a), b.numbers, RestStr(b)) then
      || PmsNumbers(a.numbers, b.numbers) != 0 || a.letter != b.letter || SuffixesVisible(a, b)
      || Sign(a.revision - b.revision) == PmsSuffixes(a.suffixes, b.suffixes)
    else if WalkSign(a, b) == 0 then StoredTail(a, b) == PmsNumbers(a.numbers, b.numbers)
    else PmsNumbers(a.numbers, b.numbers) == 0 && PmsTail(a, b) == WalkSign(a, b)
  }

  /** Two versions of any shape, exploded from their strings, compare as Algorithm 3.1 says exactly then. */
  lemma AllCompareIsPms(cat: string, pn: string, a: PmsVersion, b: PmsVersion)
    requires Valid(a) && Valid(b) && Nameable(cat, pn, a) && Nameable(cat, pn, b)
    ensures var r := Compare(Explode(ToString(AtomOf(cat, pn, a)), None), Explode(ToString(AtomOf(cat, pn, b)), None), DEFAULT);
      r == OrderOf(PmsCompare(a, b)) <==> VersionsAgree(a, b)
  {
    hide Compare, Explode, ToString, AtomOf, PmsNumbers, NumbersSign, SuffixSignFrom, PmsSuffixes, Visible, StoredAll,
      Nameable, NumbersAgree, OrderOf, RestStr, LetterCode;
    AtomOfExploded(cat, pn, a);
    AtomOfExploded(cat, pn, b);
    AllRecordsCompare(cat, pn, a, b);
    RestFollows(a);
    RestFollows(b);
    NumbersAgreeIff(a.numbers, RestStr(a), b.numbers, RestStr(b));
    SuffixesAgreeIff(a.suffixes, b.suffixes);
    LetterCodes(a, b);
    SignsAgreeIff(WalkSign(a, b), PmsNumbers(a.numbers, b.numbers), Sign(LetterCode(a.letter) - LetterCode(b.letter)),
                  SuffixSignFrom(StoredAll(a.suffixes), StoredAll(b.suffixes), 0), PmsSuffixes(a.suffixes, b.suffixes),
                  Sign(a.revision - b.revision));
  }

  lemma SignsAgreeIff(walk: int, number: int, letter: int, stored: int, pms: int, revision: int)
    requires -1 <= walk <= 1 && -1 <= number <= 1 && -1 <= letter <= 1 && -1 <= revision <= 1
    requires -1 <= pms <= 1 && (stored == pms || stored == 0)
    ensures var own, other := Then(letter, Then(stored, revision)), Then(letter, Then(pms, revision));
      OrderOf(Then(walk, own)) == OrderOf(Then(number, other)) <==>
        if walk == number then number != 0 || letter != 0 || stored == pms || revision == pms
        else if walk == 0 then own == number
        else number == 0 && other == walk
  {
  }

  // ----- transitivity -----

  /** Without its trailing zeros, too, a number that starts with a zero sorts before one that does not. */
  lemma ZeroFirst(x: string, y: string)
    requires IsNumber(x) && IsNumber(y) && ZeroLed(x) && !ZeroLed(y)
    ensures Strcmp(Stripped(x), Stripped(y)) == -1
  {
    StrippedTail(x);
    StrippedTail(y);
    hide Stripped;
    assert IsDigit(y[0]);
  }

  /** Algorithm 3.3 is a total preorder on all components. */
  lemma PmsComponentChained(x: string, y: string, z: string)
    requires IsNumber(x) && IsNumber(y) && IsNumber(z)
    ensures PmsComponent(y, x) == -PmsComponent(x, y)
    ensures Chained(PmsComponent(x, y), PmsComponent(y, z), PmsComponent(x, z))
  {
    hide Stripped, Strcmp, DecValue;
    StrcmpSwap(Stripped(x), Stripped(y));
    StrcmpChained(Stripped(x), Stripped(y), Stripped(z));
    StrcmpSwap(Stripped(y), Stripped(z));
    StrcmpSwap(Stripped(x), Stripped(z));
    ZeroFirstEither(x, y);
    ZeroFirstEither(y, z);
    ZeroFirstEither(x, z);
    assert Chained(Sign(DecValue(x) - DecValue(y)), Sign(DecValue(y) - DecValue(z)), Sign(DecValue(x) - DecValue(z)));
  }

  lemma ZeroFirstEither(x: string, y: string)
    requires IsNumber(x) && IsNumber(y)
    ensures ZeroLed(x) && !ZeroLed(y) ==> Strcmp(Stripped(x), Stripped(y)) == -1
    ensures ZeroLed(y) && !ZeroLed(x) ==> Strcmp(Stripped(y), Stripped(x)) == -1
  {
    hide Stripped, Strcmp, IsNumber;
    if ZeroLed(x) && !ZeroLed(y) {
      ZeroFirst(x, y);
    } else if ZeroLed(y) && !ZeroLed(x) {
      ZeroFirst(y, x);
    }
  }

  lemma {:induction false} PmsLaterChained(a: seq<string>, b: seq<string>, c: seq<string>)
    requires AllNumbers(a) && AllNumbers(b) && AllNumbers(c)
    ensures PmsLater(b, a) == -PmsLater(a, b)
    ensures Chained(PmsLater(a, b), PmsLater(b, c), PmsLater(a, c))
    decreases |a| + |b| + |c|
  {
    hide PmsComponent;
    if a != [] && b != [] {
      assert IsNumber(a[0]) && IsNumber(b[0]);
      PmsComponentChained(a[0], b[0], a[0]);
      if c != [] {
        assert IsNumber(c[0]);
        PmsComponentChained(a[0], b[0], c[0]);
        PmsLaterChained(a[1..], b[1..], c[1..]);
      } else {
        PmsLaterChained(a[1..], b[1..], []);
      }
    }
  }

  /** The numbers as the specification compares them, then letter, stored suffixes and revision. */
  function SpecSign(a: PmsVersion, b: PmsVersion): (r: int)
    requires Valid(a) && Valid(b)
    ensures -1 <= r <= 1
  {
    Then(PmsNumbers(a.numbers, b.numbers), StoredTail(a, b))
  }

  lemma StoredTailChained(a: PmsVersion, b: PmsVersion, c: PmsVersion)
    requires Valid(a) && Valid(b) && Valid(c)
    ensures StoredTail(b, a) == -StoredTail(a, b)
    ensures Chained(StoredTail(a, b), StoredTail(b, c), StoredTail(a, c))
  {
    SuffixSwap(StoredAll(a.suffixes), StoredAll(b.suffixes), 0);
    SuffixTransitive(StoredAll(a.suffixes), StoredAll(b.suffixes), StoredAll(c.suffixes), 0);
    hide SuffixSignFrom, LetterCode, StoredAll;
  }

  lemma NumbersChained(a: seq<string>, b: seq<string>, c: seq<string>)
    requires ValidNumbers(a) && ValidNumbers(b) && ValidNumbers(c)
    ensures PmsNumbers(b, a) == -PmsNumbers(a, b)
    ensures Chained(PmsNumbers(a, b), PmsNumbers(b, c), PmsNumbers(a, c))
  {
    hide PmsLater, DecValue;
    PmsLaterChained(a[1..], b[1..], c[1..]);
  }

  lemma SpecChained(a: PmsVersion, b: PmsVersion, c: PmsVersion)
    requires Valid(a) && Valid(b) && Valid(c)
    ensures SpecSign(b, a) == -SpecSign(a, b)
    ensures Chained(SpecSign(a, b), SpecSign(b, c), SpecSign(a, c))
  {
    hide PmsNumbers, StoredTail;
    NumbersChained(a.numbers, b.numbers, c.numbers);
    StoredTailChained(a, b, c);
    ThenChained(PmsNumbers(a.numbers, b.numbers), PmsNumbers(b.numbers, c.numbers), PmsNumbers(a.numbers, c.numbers),
                StoredTail(a, b), StoredTail(b, c), StoredTail(a, c));
  }

  /** The verdict on the pair is that of the numbers as the specification compares them. */
  ghost predicate PairAgrees(a: PmsVersion, b: PmsVersion)
    requires Valid(a) && Valid(b)
  {
    || NumbersAgree(a.numbers, RestStr(a), b.numbers, RestStr(b))
    || (WalkSign(a, b) == 0 && StoredTail(a, b) == PmsNumbers(a.numbers, b.numbers))
    || (PmsNumbers(a.numbers, b.numbers) == 0 && StoredTail(a, b) == WalkSign(a, b))
  }

  lemma PairAgreesIff(cat: string, pn: string, a: PmsVersion, b: PmsVersion)
    requires Valid(a) && Valid(b)
    ensures SignOf(Compare(AtomOf(cat, pn, a), AtomOf(cat, pn, b), DEFAULT)) == SpecSign(a, b) <==> PairAgrees(a, b)
  {
    hide Compare, AtomOf, PmsNumbers, NumbersSign, StoredTail, NumbersAgree, RestStr;
    AllRecordsCompare(cat, pn, a, b);
    RestFollows(a);
    RestFollows(b);
    NumbersAgreeIff(a.numbers, RestStr(a), b.numbers, RestStr(b));
  }

  /** One pair of three is different: the order survives that exactly when the third is on one side of both. */
  lemma OneOff(ab: int, bc: int, ac: int, verdict: int)
    requires -1 <= ab <= 1 && -1 <= bc <= 1 && -1 <= ac <= 1 && -1 <= verdict <= 1 && Chained(ab, bc, ac)
    ensures Chained(verdict, bc, ac) <==> verdict == ab || (bc == ac && ac != 0)
  {
  }

  /** Versions of any shape, zero-led components included: where the verdicts on two of three versions
      against the third are right, the three are compared transitively if and only if the verdict on these
      two is right as well, or the third is older than both or newer than both. */
  lemma PaddedTransitiveIff(cat: string, pn: string, a: PmsVersion, b: PmsVersion, c: PmsVersion)
    requires Valid(a) && Valid(b) && Valid(c) && PairAgrees(a, c) && PairAgrees(b, c)
    ensures Transitive(AtomOf(cat, pn, a), AtomOf(cat, pn, b), AtomOf(cat, pn, c)) <==>
      PairAgrees(a, b) || (SpecSign(a, c) == SpecSign(b, c) && SpecSign(a, c) != 0)
  {
    hide Compare, SpecSign, PairAgrees;
    PairAgreesIff(cat, pn, a, b);
    PairAgreesIff(cat, pn, a, c);
    PairAgreesIff(cat, pn, b, c);
    SpecChained(a, b, c);
    OneOff(SpecSign(a, b), SpecSign(b, c), SpecSign(a, c),
           SignOf(Compare(AtomOf(cat, pn, a), AtomOf(cat, pn, b), DEFAULT)));
  }

  /** In particular versions on whose numbers the walk agrees with the specification pair by pair. */
  lemma AgreeingTransitive(cat: string, pn: string, a: PmsVersion, b: PmsVersion, c: PmsVersion)
    requires Valid(a) && Valid(b) && Valid(c)
    requires NumbersAgree(a.numbers, RestStr(a), b.numbers, RestStr(b))
    requires NumbersAgree(b.numbers, RestStr(b), c.numbers, RestStr(c))
    requires NumbersAgree(a.numbers, RestStr(a), c.numbers, RestStr(c))
    ensures Transitive(AtomOf(cat, pn, a), AtomOf(cat, pn, b), AtomOf(cat, pn, c))
  {
    hide NumbersAgree, Transitive;
    PaddedTransitiveIff(cat, pn, a, b, c);
  }

  // ----- the plainest failure -----

  lemma OneNumber(x: string)
    requires IsNumber(x)
    ensures ValidNumbers(["1", x]) && NumbersStr(["1", x]) == "1." + x && ["1", x][1..] == [x]
  {
    assert NumbersStr([x]) == x;
    assert "1" + "." + x == "1." + x;
  }

  /** Versions 1.x compare as x does, as a later component. */
  lemma OneAndRead(x: string, y: string)
    requires IsNumber(x) && IsNumber(y)
    ensures NumbersCompare(Some("1." + x), Some("1." + y), true, false) == Verdict(ReadSign(x, "", y, ""))
  {
    hide NumbersCompare, ReadSign, NumbersStr;
    OneNumber(x);
    OneNumber(y);
    assert "1." + x + "" == "1." + x && "1." + y + "" == "1." + y;
    NumbersRead(["1", x], "", ["1", y], "");
    assert [x][1..] == [] && [y][1..] == [];
    assert LaterSign([], "", [], "") == 0;
  }

  /** 1.0 equals 1.100, while 1.0 is older than 1.1 and 1.1 older than 1.100. */
  lemma HundredNumbers()
    ensures NumbersCompare(Some("1.0"), Some("1.100"), true, false) == None
    ensures NumbersCompare(Some("1.0"), Some("1.1"), true, false) == Some(Older)
    ensures NumbersCompare(Some("1.1"), Some("1.100"), true, false) == Some(Older)
  {
    hide NumbersCompare;
    assert "1.0" == "1." + "0" && "1.1" == "1." + "1" && "1.100" == "1." + "100";
    OneAndRead("0", "100");
    OneAndRead("0", "1");
    OneAndRead("1", "100");
    HundredValues();
  }

  lemma HundredValues()
    ensures DecValue("0") == 0 && DecValue("1") == 1 && DecValue("100") == 100
    ensures Stripped("0") == [] && Stripped("100") == "1"
  {
    assert "0"[..0] == [] && "1"[..0] == [] && "100"[..2] == "10" && "10"[..1] == "1";
  }

  /** So three common versions are not ordered. */
  lemma HundredNotTransitive(a: AtomCtx, b: AtomCtx, c: AtomCtx)
    requires SameButNumbers(a, b) && SameButNumbers(b, c) && a.buildId == b.buildId == c.buildId
    requires a.pv == Some("1.0") && b.pv == Some("1.1") && c.pv == Some("1.100")
    ensures Compare(a, b, DEFAULT) == Older && Compare(b, c, DEFAULT) == Older && Compare(a, c, DEFAULT) == Equal
    ensures !Transitive(a, b, c)
  {
    hide Compare, NumbersCompare;
    HundredNumbers();
    NumbersDecide(a, b);
    NumbersDecide(b, c);
    NumbersDecide(a, c);
  }
}
