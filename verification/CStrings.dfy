/** The C string routines the program relies on, over `string` values.
    A string stands for the characters before the terminating NUL, and a
    position equal to its length stands for a pointer to that NUL. */
module CStrings {

  datatype Option<+T> = None | Some(value: T)

  predicate IsDigit(c: char) {
    '0' <= c <= '9'
  }

  predicate IsLower(c: char) {
    'a' <= c <= 'z'
  }

  predicate IsUpper(c: char) {
    'A' <= c <= 'Z'
  }

  /** isspace in the C locale: blank, tab, newline, vertical tab, form feed, carriage return. */
  predicate IsSpace(c: char) {
    c == ' ' || '\t' <= c <= '\r'
  }

  /** The classes, character by character. */
  lemma CharClasses(c: char)
    ensures IsDigit(c) <==> c in "0123456789"
    ensures IsLower(c) <==> c in "abcdefghijklmnopqrstuvwxyz"
    ensures IsUpper(c) <==> c in "ABCDEFGHIJKLMNOPQRSTUVWXYZ"
    ensures IsSpace(c) <==> c in " \t\n\U{0B}\U{0C}\r"
  {
  }

  /** Whether position `i` of `s` holds a digit; the terminator is no digit. */
  predicate DigitAt(s: string, i: nat) {
    i < |s| && IsDigit(s[i])
  }

  /** strchr from position `i` on: the first position of `c`. */
  function StrchrFrom(s: string, c: char, i: nat): (r: Option<nat>)
    requires i <= |s|
    ensures r.None? ==> forall k :: i <= k < |s| ==> s[k] != c
    ensures r.Some? ==> i <= r.value < |s| && s[r.value] == c
    ensures r.Some? ==> forall k :: i <= k < r.value ==> s[k] != c
    decreases |s| - i
  {
    if i == |s| then None else if s[i] == c then Some(i) else StrchrFrom(s, c, i + 1)
  }

  /** strchr: the first position of `c`. */
  function Strchr(s: string, c: char): Option<nat> {
    StrchrFrom(s, c, 0)
  }

  function StrrchrBefore(s: string, c: char, i: nat): (r: Option<nat>)
    requires i <= |s|
    ensures r.None? ==> forall k :: 0 <= k < i ==> s[k] != c
    ensures r.Some? ==> r.value < i && s[r.value] == c
    ensures r.Some? ==> forall k :: r.value < k < i ==> s[k] != c
  {
    if i == 0 then None else if s[i - 1] == c then Some(i - 1) else StrrchrBefore(s, c, i - 1)
  }

  /** strrchr: the last position of `c`. */
  function Strrchr(s: string, c: char): Option<nat> {
    StrrchrBefore(s, c, |s|)
  }

  /** Whether `pat` stands in `s` at position `i`: strncmp(s + i, pat, strlen(pat)) == 0. */
  predicate OccursAt(s: string, pat: string, i: nat) {
    i + |pat| <= |s| && s[i..i + |pat|] == pat
  }

  ghost predicate Contains(s: string, pat: string) {
    exists i: nat :: OccursAt(s, pat, i)
  }

  function StrstrFrom(s: string, pat: string, i: nat): (r: Option<nat>)
    requires i <= |s|
    ensures r.Some? ==> i <= r.value && OccursAt(s, pat, r.value)
    ensures r.Some? ==> forall k: nat :: i <= k < r.value ==> !OccursAt(s, pat, k)
    ensures r.None? ==> forall k: nat :: i <= k ==> !OccursAt(s, pat, k)
    decreases |s| - i
  {
    if OccursAt(s, pat, i) then Some(i)
    else if i == |s| then None
    else StrstrFrom(s, pat, i + 1)
  }

  /** strstr: the first position at which `pat` stands. */
  function Strstr(s: string, pat: string): (r: Option<nat>)
    ensures r.None? <==> !Contains(s, pat)
    ensures r.Some? ==> OccursAt(s, pat, r.value)
    ensures r.Some? ==> forall k: nat :: k < r.value ==> !OccursAt(s, pat, k)
  {
    StrstrFrom(s, pat, 0)
  }

  lemma Assoc<T>(a: seq<T>, b: seq<T>, c: seq<T>)
    ensures (a + b) + c == a + (b + c)
  {
  }

  /** Number of leading characters that are digits. */
  function DigitRun(s: string): (n: nat)
    ensures n <= |s|
    ensures forall i :: 0 <= i < n ==> IsDigit(s[i])
    ensures !DigitAt(s, n)
  {
    if s != [] && IsDigit(s[0]) then 1 + DigitRun(s[1..]) else 0
  }

  function SpaceRun(s: string): (n: nat)
    ensures n <= |s|
  {
    if s != [] && IsSpace(s[0]) then 1 + SpaceRun(s[1..]) else 0
  }

  predicate AllDigits(s: string) {
    forall i :: 0 <= i < |s| ==> IsDigit(s[i])
  }

  /** The value of a digit string, most significant digit first. */
  function DecValue(s: string): nat
    requires AllDigits(s)
  {
    if s == [] then 0
    else 10 * DecValue(s[..|s| - 1]) + (s[|s| - 1] as nat - '0' as nat)
  }

  /** strtoll in base 10 without the saturation at 64 bits: blanks, a sign,
      digits. Returns the value and the end position; a string that does not
      start with a number gives value 0 and end position 0. */
  function Strtoll(s: string): (r: (int, nat))
    ensures r.1 <= |s|
  {
    var b := SpaceRun(s);
    var signed := b < |s| && (s[b] == '-' || s[b] == '+');
    var d := if signed then b + 1 else b;
    var n := DigitRun(s[d..]);
    if n == 0 then (0, 0)
    else
      var v: int := DecValue(s[d..][..n]);
      (if signed && s[b] == '-' then -v else v, d + n)
  }

  /** atoi and atoll. */
  function Atoi(s: string): int {
    Strtoll(s).0
  }

  function DigitChar(d: nat): (c: char)
    requires d < 10
    ensures IsDigit(c)
    ensures c as nat - '0' as nat == d
  {
    ('0' as nat + d) as char
  }

  /** What printf writes for %u. */
  function Dec(n: nat): (s: string)
    ensures |s| > 0
    ensures AllDigits(s)
  {
    if n < 10 then [DigitChar(n)] else Dec(n / 10) + [DigitChar(n % 10)]
  }

  lemma {:induction false} DecValueOfDec(n: nat)
    ensures DecValue(Dec(n)) == n
  {
    if n >= 10 {
      DecValueOfDec(n / 10);
      assert Dec(n)[..|Dec(n)| - 1] == Dec(n / 10);
    } else {
      assert Dec(n)[..0] == [];
    }
  }

  lemma {:induction false} DigitRunOfDigits(s: string, t: string)
    requires AllDigits(s)
    requires t == [] || !IsDigit(t[0])
    ensures DigitRun(s + t) == |s|
  {
    if s == [] {
      assert s + t == t;
    } else {
      assert (s + t)[1..] == s[1..] + t;
      DigitRunOfDigits(s[1..], t);
    }
  }

  /** Reading back a printed number that no digit follows. */
  lemma {:induction false} StrtollOfDigits(s: string, t: string)
    requires s != [] && AllDigits(s)
    requires t == [] || !IsDigit(t[0])
    ensures Strtoll(s + t) == (DecValue(s), |s|)
  {
    var u := s + t;
    assert u[0] == s[0];
    assert SpaceRun(u) == 0;
    assert u[0..] == u;
    DigitRunOfDigits(s, t);
    assert u[..|s|] == s;
  }

  lemma AtoiOfDec(n: nat)
    ensures Atoi(Dec(n)) == n
  {
    StrtollOfDigits(Dec(n), "");
    assert Dec(n) + "" == Dec(n);
    DecValueOfDec(n);
  }

  lemma StrchrSplit(a: string, c: char, b: string)
    requires c !in a
    ensures Strchr(a + [c] + b, c) == Some(|a|)
    ensures (a + [c] + b)[..|a|] == a && (a + [c] + b)[|a| + 1..] == b
  {
    var s := a + [c] + b;
    assert s[|a|] == c;
    assert forall k :: 0 <= k < |a| ==> s[k] == a[k];
  }

  lemma StrrchrSplit(a: string, c: char, b: string)
    requires c !in b
    ensures Strrchr(a + [c] + b, c) == Some(|a|)
    ensures (a + [c] + b)[..|a|] == a && (a + [c] + b)[|a| + 1..] == b
  {
    var s := a + [c] + b;
    assert s[|a|] == c;
    assert forall k :: |a| < k < |s| ==> s[k] == b[k - |a| - 1];
  }

  function Max(a: int, b: int): (r: int)
    ensures r >= a && r >= b && (r == a || r == b)
  {
    if b > a then b else a
  }

  /** strcmp: negative, zero or positive as `a` sorts before, with or after `b`. */
  function Strcmp(a: string, b: string): (r: int)
    ensures r == 0 <==> a == b
    ensures -1 <= r <= 1
  {
    if a == [] then (if b == [] then 0 else -1)
    else if b == [] then 1
    else if a[0] < b[0] then -1
    else if a[0] > b[0] then 1
    else
      var r := Strcmp(a[1..], b[1..]);
      assert a == [a[0]] + a[1..] && b == [b[0]] + b[1..];
      r
  }

  lemma {:induction false} StrcmpSwap(a: string, b: string)
    ensures Strcmp(b, a) == -Strcmp(a, b)
  {
    if a != [] && b != [] {
      StrcmpSwap(a[1..], b[1..]);
    }
  }

  lemma {:induction false} StrcmpTransitive(a: string, b: string, c: string)
    requires Strcmp(a, b) <= 0 && Strcmp(b, c) <= 0
    ensures Strcmp(a, c) <= 0
    ensures Strcmp(a, b) < 0 || Strcmp(b, c) < 0 ==> Strcmp(a, c) < 0
  {
    if a != [] && b != [] && c != [] && a[0] == b[0] == c[0] {
      StrcmpTransitive(a[1..], b[1..], c[1..]);
    }
  }
}
