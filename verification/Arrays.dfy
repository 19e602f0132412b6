/** The growable pointer array of `array.c`, with its `sorted` flag. */
module Arrays {
  import opened CStrings

  // ----- orders -----

  /** An order as the program uses one: the sign of the comparator's result. */
  type Comparator<!T> = (T, T) -> int

  ghost predicate SortedBy<T>(cmp: Comparator<T>, s: seq<T>) {
    forall i, j :: 0 <= i < j < |s| ==> cmp(s[i], s[j]) <= 0
  }

  /** The comparator is a total preorder on the elements of `s`. */
  ghost predicate Consistent<T>(cmp: Comparator<T>, s: seq<T>) {
    && (forall i, j :: 0 <= i < |s| && 0 <= j < |s| ==> (cmp(s[i], s[j]) <= 0 || cmp(s[j], s[i]) <= 0))
    && (forall i, j, k :: 0 <= i < |s| && 0 <= j < |s| && 0 <= k < |s| && cmp(s[i], s[j]) <= 0 && cmp(s[j], s[k]) <= 0 ==>
          cmp(s[i], s[k]) <= 0)
  }

  /** The comparison with the needle respects the order of the elements. */
  ghost predicate Fits<T>(cmp: Comparator<T>, s: seq<T>, needle: T) {
    forall i, j :: 0 <= i < |s| && 0 <= j < |s| && cmp(s[i], s[j]) <= 0 ==>
      && (cmp(s[j], needle) <= 0 ==> cmp(s[i], needle) <= 0)
      && (cmp(s[j], needle) < 0 ==> cmp(s[i], needle) < 0)
  }

  ghost predicate Within<T>(t: seq<T>, s: seq<T>) {
    forall i :: 0 <= i < |t| ==> t[i] in s
  }

  lemma ConsistentWithin<T>(cmp: Comparator<T>, t: seq<T>, s: seq<T>)
    requires Consistent(cmp, s) && Within(t, s)
    ensures Consistent(cmp, t)
  {
  }

  lemma FitsWithin<T>(cmp: Comparator<T>, t: seq<T>, s: seq<T>, needle: T)
    requires Fits(cmp, s, needle) && Within(t, s)
    ensures Fits(cmp, t, needle)
  {
  }

  lemma PermutationWithin<T>(t: seq<T>, s: seq<T>)
    requires multiset(t) == multiset(s)
    ensures Within(t, s) && |t| == |s|
  {
    forall i | 0 <= i < |t| ensures t[i] in s {
      assert t[i] in multiset(t);
    }
    assert |t| == |multiset(t)| && |s| == |multiset(s)|;
  }

  /** Along `s` the comparison with the needle goes from negative over zero to positive. */
  ghost predicate Compatible<T>(cmp: Comparator<T>, s: seq<T>, needle: T) {
    && (forall i, j :: 0 <= i < j < |s| && cmp(s[j], needle) <= 0 ==> cmp(s[i], needle) <= 0)
    && (forall i, j :: 0 <= i < j < |s| && cmp(s[j], needle) < 0 ==> cmp(s[i], needle) < 0)
  }

  // ----- sorting, as any qsort may do it -----

  function Insert<T>(cmp: Comparator<T>, x: T, s: seq<T>): seq<T> {
    if s == [] || cmp(x, s[0]) <= 0 then [x] + s else [s[0]] + Insert(cmp, x, s[1..])
  }

  function SortSeq<T>(cmp: Comparator<T>, s: seq<T>): seq<T> {
    if s == [] then [] else Insert(cmp, s[0], SortSeq(cmp, s[1..]))
  }

  lemma {:induction false} InsertElements<T>(cmp: Comparator<T>, x: T, s: seq<T>)
    ensures multiset(Insert(cmp, x, s)) == multiset{x} + multiset(s)
  {
    if s != [] && cmp(x, s[0]) > 0 {
      InsertElements(cmp, x, s[1..]);
      assert s == [s[0]] + s[1..];
    }
  }

  lemma {:induction false} SortElements<T>(cmp: Comparator<T>, s: seq<T>)
    ensures multiset(SortSeq(cmp, s)) == multiset(s)
  {
    if s != [] {
      SortElements(cmp, s[1..]);
      InsertElements(cmp, s[0], SortSeq(cmp, s[1..]));
      assert s == [s[0]] + s[1..];
    }
  }

  lemma {:induction false} InsertSorted<T>(cmp: Comparator<T>, x: T, s: seq<T>)
    requires SortedBy(cmp, s) && Consistent(cmp, [x] + s)
    ensures SortedBy(cmp, Insert(cmp, x, s))
  {
    var u := [x] + s;
    assert u[0] == x && forall i :: 0 <= i < |s| ==> u[i + 1] == s[i];
    if s != [] && cmp(x, s[0]) > 0 {
      var v := [x] + s[1..];
      assert Within(v, u) by {
        assert v[0] == u[0] && forall i :: 1 <= i < |v| ==> v[i] == u[i + 1];
      }
      ConsistentWithin(cmp, v, u);
      InsertSorted(cmp, x, s[1..]);
      var r := Insert(cmp, x, s[1..]);
      InsertElements(cmp, x, s[1..]);
      hide Insert;
      assert cmp(u[0], u[1]) <= 0 || cmp(u[1], u[0]) <= 0;
      AllAfter(cmp, s[0], v, r);
      LeastFirst(cmp, s[0], r);
    } else {
      forall i | 0 <= i < |s| ensures cmp(x, s[i]) <= 0 {
        assert cmp(u[0], u[1]) <= 0 && (i > 0 ==> cmp(u[1], u[i + 1]) <= 0);
      }
      LeastFirst(cmp, x, s);
    }
  }

  lemma AllAfter<T>(cmp: Comparator<T>, x: T, v: seq<T>, r: seq<T>)
    requires forall i :: 0 <= i < |v| ==> cmp(x, v[i]) <= 0
    requires v != [] && multiset(r) == multiset{v[0]} + multiset(v[1..])
    ensures forall i :: 0 <= i < |r| ==> cmp(x, r[i]) <= 0
  {
    assert v == [v[0]] + v[1..];
    PermutationWithin(r, v);
  }

  lemma LeastFirst<T>(cmp: Comparator<T>, x: T, s: seq<T>)
    requires SortedBy(cmp, s) && forall i :: 0 <= i < |s| ==> cmp(x, s[i]) <= 0
    ensures SortedBy(cmp, [x] + s)
  {
  }

  lemma {:induction false} SortSorted<T>(cmp: Comparator<T>, s: seq<T>)
    requires Consistent(cmp, s)
    ensures SortedBy(cmp, SortSeq(cmp, s))
  {
    if s != [] {
      var t := SortSeq(cmp, s[1..]);
      assert Within(s[1..], s);
      ConsistentWithin(cmp, s[1..], s);
      SortSorted(cmp, s[1..]);
      SortElements(cmp, s[1..]);
      PermutationWithin(t, s[1..]);
      assert Within([s[0]] + t, s);
      ConsistentWithin(cmp, [s[0]] + t, s);
      InsertSorted(cmp, s[0], t);
    }
  }

  /** In an ordered array the comparison with a needle that fits is compatible. */
  lemma SortedCompatible<T>(cmp: Comparator<T>, s: seq<T>, needle: T)
    requires SortedBy(cmp, s) && Fits(cmp, s, needle)
    ensures Compatible(cmp, s, needle)
  {
  }

  // ----- selecting elements -----

  function Keep<T>(p: T -> bool, s: seq<T>): seq<T> {
    if s == [] then [] else Keep(p, s[..|s| - 1]) + if p(s[|s| - 1]) then [s[|s| - 1]] else []
  }

  lemma {:induction false} KeepAppend<T>(p: T -> bool, a: seq<T>, b: seq<T>)
    ensures Keep(p, a + b) == Keep(p, a) + Keep(p, b)
  {
    if b == [] {
      assert a + b == a;
    } else {
      assert (a + b)[..|a + b| - 1] == a + b[..|b| - 1];
      KeepAppend(p, a, b[..|b| - 1]);
    }
  }

  lemma KeepNext<T>(p: T -> bool, s: seq<T>, start: nat, elem: nat)
    requires start <= elem < |s|
    ensures Keep(p, s[start..elem + 1]) == Keep(p, s[start..elem]) + if p(s[elem]) then [s[elem]] else []
  {
    assert s[start..elem + 1][..elem - start] == s[start..elem];
  }

  lemma KeepParts<T>(p: T -> bool, s: seq<T>, start: nat, end: nat)
    requires start <= end <= |s|
    requires Keep(p, s[..start]) == [] && Keep(p, s[end..]) == []
    ensures Keep(p, s) == Keep(p, s[start..end])
  {
    hide Keep;
    assert s == s[..start] + (s[start..end] + s[end..]);
    KeepAppend(p, s[..start], s[start..end] + s[end..]);
    KeepAppend(p, s[start..end], s[end..]);
  }

  lemma {:induction false} KeepCount<T>(p: T -> bool, s: seq<T>, x: T)
    ensures multiset(Keep(p, s))[x] == if p(x) then multiset(s)[x] else 0
  {
    if s != [] {
      KeepCount(p, s[..|s| - 1], x);
      assert s == s[..|s| - 1] + [s[|s| - 1]];
    }
  }

  lemma KeepPermuted<T(!new)>(p: T -> bool, a: seq<T>, b: seq<T>)
    requires multiset(a) == multiset(b)
    ensures multiset(Keep(p, a)) == multiset(Keep(p, b))
  {
    hide Keep;
    forall x ensures multiset(Keep(p, a))[x] == multiset(Keep(p, b))[x] {
      KeepCount(p, a, x);
      KeepCount(p, b, x);
    }
    assert multiset(Keep(p, a)) == multiset(Keep(p, b));
  }

  lemma {:induction false} KeepCounts<T>(keep: T -> bool, s: seq<T>)
    ensures forall x :: multiset(Keep(keep, s))[x] == if keep(x) then multiset(s)[x] else 0
  {
    if s != [] {
      var r := s[..|s| - 1];
      assert s == r + [s[|s| - 1]];
      KeepCounts(keep, r);
    }
  }

  lemma KeepElements<T(!new)>(p: T -> bool, s: seq<T>)
    ensures forall x :: x in Keep(p, s) <==> x in s && p(x)
  {
    hide Keep;
    forall x ensures x in Keep(p, s) <==> x in s && p(x) {
      KeepCount(p, s, x);
      assert x in Keep(p, s) <==> x in multiset(Keep(p, s));
      assert x in s <==> x in multiset(s);
    }
  }

  lemma {:induction false} KeepSorted<T(!new)>(p: T -> bool, s: seq<T>, cmp: Comparator<T>)
    requires SortedBy(cmp, s)
    ensures SortedBy(cmp, Keep(p, s))
  {
    if s != [] {
      var r := Keep(p, s[..|s| - 1]);
      KeepSorted(p, s[..|s| - 1], cmp);
      KeepElements(p, s[..|s| - 1]);
      forall i | 0 <= i < |r| ensures cmp(r[i], s[|s| - 1]) <= 0 {
        assert r[i] in s[..|s| - 1];
      }
    }
  }

  lemma {:induction false} KeepDistinct<T(!new)>(p: T -> bool, s: seq<T>)
    requires NoRepeats(s)
    ensures NoRepeats(Keep(p, s))
  {
    if s != [] {
      KeepDistinct(p, s[..|s| - 1]);
      KeepElements(p, s[..|s| - 1]);
    }
  }

  lemma {:induction false} KeepNone<T>(p: T -> bool, s: seq<T>)
    requires forall i :: 0 <= i < |s| ==> !p(s[i])
    ensures Keep(p, s) == []
  {
    if s != [] {
      KeepNone(p, s[..|s| - 1]);
    }
  }

  lemma {:induction false} KeepAll<T>(p: T -> bool, s: seq<T>)
    requires forall i :: 0 <= i < |s| ==> p(s[i])
    ensures Keep(p, s) == s
  {
    if s != [] {
      KeepAll(p, s[..|s| - 1]);
    }
  }

  // ----- repetitions -----

  ghost predicate NoRepeats<T>(s: seq<T>) {
    forall i, j :: 0 <= i < j < |s| ==> s[i] != s[j]
  }

  lemma {:induction false} CountsWhenDistinct<T>(s: seq<T>)
    requires NoRepeats(s)
    ensures forall i :: 0 <= i < |s| ==> multiset(s)[s[i]] == 1
  {
    if s != [] {
      var r, x := s[..|s| - 1], s[|s| - 1];
      CountsWhenDistinct(r);
      assert s == r + [x];
      assert x !in multiset(r);
      forall i | 0 <= i < |s| ensures multiset(s)[s[i]] == 1 {
        assert i < |r| ==> r[i] == s[i] != x;
      }
    }
  }

  lemma DistinctByCounts<T>(s: seq<T>)
    requires forall i :: 0 <= i < |s| ==> multiset(s)[s[i]] == 1
    ensures NoRepeats(s)
  {
    forall i, j | 0 <= i < j < |s| ensures s[i] != s[j] {
      assert s == s[..j] + s[j..];
      assert s[..j][i] == s[i] && s[j..][0] == s[j];
      assert s[i] in multiset(s[..j]) && s[j] in multiset(s[j..]);
    }
  }

  lemma RepeatsPermuted<T>(a: seq<T>, b: seq<T>)
    requires multiset(a) == multiset(b) && NoRepeats(a)
    ensures NoRepeats(b)
  {
    CountsWhenDistinct(a);
    PermutationWithin(b, a);
    forall i | 0 <= i < |b| ensures multiset(b)[b[i]] == 1 {
      var j :| 0 <= j < |a| && a[j] == b[i];
    }
    DistinctByCounts(b);
  }

  /** Two lists of the same names, neither with repetitions, are permutations of each other. */
  lemma SameNames<T>(a: seq<T>, b: seq<T>)
    requires NoRepeats(a) && NoRepeats(b)
    requires forall x :: x in a <==> x in b
    ensures multiset(a) == multiset(b)
  {
    CountsWhenDistinct(a);
    CountsWhenDistinct(b);
    hide NoRepeats;
    forall x ensures multiset(a)[x] == multiset(b)[x] {
      CountOne(a, x);
      CountOne(b, x);
    }
  }

  lemma CountOne<T>(s: seq<T>, x: T)
    requires forall i :: 0 <= i < |s| ==> multiset(s)[s[i]] == 1
    ensures multiset(s)[x] == if x in s then 1 else 0
  {
    if x in s {
      var i :| 0 <= i < |s| && s[i] == x;
    } else {
      assert x !in multiset(s);
    }
  }

  lemma RemoveOne<T>(a: seq<T>, b: seq<T>, i: nat)
    requires multiset(a) == multiset(b) && a != [] && i < |b| && b[i] == a[0]
    ensures multiset(a[1..]) == multiset(b[..i] + b[i + 1..])
  {
    assert a == [a[0]] + a[1..] && b == b[..i] + [b[i]] + b[i + 1..];
    var x, y := multiset(a[1..]), multiset(b[..i] + b[i + 1..]);
    forall e ensures x[e] == y[e] {
      assert multiset(a)[e] == multiset{a[0]}[e] + x[e];
      assert multiset(b)[e] == multiset{a[0]}[e] + y[e];
    }
  }

  // ----- the array -----

  class Array<T> {
    var eles: seq<T>
    var sorted: bool

    constructor ()
      ensures eles == [] && !sorted
    {
      eles, sorted := [], false;
    }

    /** What the flag promises, under the one comparator the array is used with. */
    ghost predicate InOrder(cmp: Comparator<T>)
      reads this
    {
      sorted ==> SortedBy(cmp, eles)
    }

    method Append(data: T)
      modifies this
      ensures eles == old(eles) + [data] && !sorted
    {
      eles := eles + [data];
      sorted := false;
    }

    /** array_remove: the later elements move down by one; the flag stays. */
    method Remove(elem: nat) returns (r: Option<T>)
      modifies this
      ensures elem < |old(eles)| ==> r == Some(old(eles)[elem]) && eles == old(eles)[..elem] + old(eles)[elem + 1..]
      ensures elem >= |old(eles)| ==> r == None && eles == old(eles)
      ensures sorted == old(sorted)
      ensures forall cmp :: old(InOrder(cmp)) ==> InOrder(cmp)
    {
      if elem >= |eles| {
        return None;
      }
      r := Some(eles[elem]);
      eles := eles[..elem] + eles[elem + 1..];
    }

    /** array_move: all elements of `src` go to the end of this array. */
    method MoveFrom(src: Array<T>)
      requires src != this
      modifies this, src
      ensures eles == old(eles) + old(src.eles) && src.eles == []
      ensures sorted == (old(sorted) && old(src.eles) == []) && src.sorted == old(src.sorted)
      ensures forall cmp :: (old(InOrder(cmp)) ==> InOrder(cmp)) && (old(src.InOrder(cmp)) ==> src.InOrder(cmp))
    {
      if |src.eles| == 0 {
        assert eles + [] == eles;
        return;
      }
      var n := 0;
      while n < |src.eles|
        invariant n <= |src.eles| && src.eles == old(src.eles) && src.sorted == old(src.sorted)
        invariant eles == old(eles) + src.eles[..n]
        invariant n > 0 ==> !sorted
      {
        Append(src.eles[n]);
        n := n + 1;
      }
      src.eles := [];
    }

    /** array_sort. */
    method Sort(cmp: Comparator<T>)
      requires InOrder(cmp) && Consistent(cmp, eles)
      modifies this
      ensures sorted && InOrder(cmp)
      ensures multiset(eles) == multiset(old(eles))
      ensures old(sorted) ==> eles == old(eles)
    {
      if !sorted {
        SortElements(cmp, eles);
        SortSorted(cmp, eles);
        eles := SortSeq(cmp, eles);
        sorted := true;
      }
    }

    /** array_binsearch on elements that are in order: the first one equal to the needle, and
        none exactly when none is equal. */
    method Search(needle: T, cmp: Comparator<T>) returns (r: Option<nat>)
      requires Compatible(cmp, eles, needle)
      ensures r.Some? ==> r.value < |eles| && cmp(eles[r.value], needle) == 0
      ensures r.Some? ==> forall i :: 0 <= i < r.value ==> cmp(eles[i], needle) < 0
      ensures r.None? ==> forall i :: 0 <= i < |eles| ==> cmp(eles[i], needle) != 0
    {
      var low, high := 0, |eles|;
      while low != high
        invariant 0 <= low <= high <= |eles|
        invariant forall i :: 0 <= i < low ==> cmp(eles[i], needle) < 0
        invariant forall i :: high <= i < |eles| ==> cmp(eles[i], needle) >= 0
        invariant forall i :: high <= i < |eles| && cmp(eles[i], needle) == 0 ==> low < high && cmp(eles[high - 1], needle) == 0
        decreases high - low
      {
        var elem := low + (high - low) / 2;
        var c := cmp(eles[elem], needle);
        if c == 0 {
          if elem > low && cmp(eles[elem - 1], needle) == 0 {
            high := elem;
          } else {
            return Some(elem);
          }
        } else if c > 0 {
          high := elem;
        } else {
          low := elem + 1;
        }
      }
      r := None;
    }

    /** array_binsearch: sorts first when the flag is not set. */
    method BinSearch(needle: T, cmp: Comparator<T>) returns (r: Option<nat>)
      requires InOrder(cmp) && Consistent(cmp, eles) && Fits(cmp, eles, needle)
      modifies this
      ensures sorted && InOrder(cmp) && multiset(eles) == multiset(old(eles))
      ensures r.Some? ==> r.value < |eles| && cmp(eles[r.value], needle) == 0
      ensures r.Some? ==> forall i :: 0 <= i < r.value ==> cmp(eles[i], needle) < 0
      ensures r.None? ==> forall i :: 0 <= i < |eles| ==> cmp(eles[i], needle) != 0
    {
      ghost var was := eles;
      Sort(cmp);
      PermutationWithin(eles, was);
      FitsWithin(cmp, eles, was, needle);
      SortedCompatible(cmp, eles, needle);
      r := Search(needle, cmp);
    }
  }
}
