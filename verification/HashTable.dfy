/** The hash set and map of `libq/set.c`: 128 buckets of chained elements. */
module HashTable {
  import opened CStrings
  import Arrays

  const BUCKETS: nat := 128

  /** A char as an unsigned int, the sign extended. */
  function CharWord(c: char): bv32 {
    if 128 <= c as int < 256 then c as bv32 | 0xFFFF_FF00 else c as bv32
  }

  function Mix(h: bv32, c: char): bv32 {
    (h ^ CharWord(c)) * 16777619
  }

  /** fnv1a32. */
  function Fnv(s: string): bv32 {
    if s == [] then 2166136261 else Mix(Fnv(s[..|s| - 1]), s[|s| - 1])
  }

  method Fnv1a32(s: string) returns (ret: bv32)
    ensures ret == Fnv(s)
  {
    hide Mix;
    ret := 2166136261;
    var i := 0;
    while i < |s|
      invariant i <= |s| && ret == Fnv(s[..i])
    {
      assert s[..i + 1][..i] == s[..i];
      ret := Mix(ret, s[i]);
      i := i + 1;
    }
    assert s[..i] == s;
  }

  /** The words that are mixed in: characters are signed. */
  lemma SignedWords()
    ensures CharWord('\U{7F}') == 0x7F && CharWord('\U{80}') == 0xFFFF_FF80
    ensures CharWord('\U{E9}') == 0xFFFF_FFE9 && CharWord('\U{FF}') == 0xFFFF_FFFF
  {
  }

  /** Published values of the 32-bit FNV-1a hash. */
  lemma FnvVectors()
    ensures Fnv("") == 0x811C_9DC5
    ensures Fnv("a") == 0xE40C_292C
    ensures Fnv("fo") == 0x6222_E842
  {
    assert "a"[..0] == "" && "fo"[..1] == "f" && "f"[..0] == "";
    assert CharWord('a') == 0x61 && CharWord('f') == 0x66 && CharWord('o') == 0x6F;
  }

  lemma PosOf(key: string, hash: bv32)
    requires hash == Fnv(key)
    ensures Pos(key) == (hash as int) % BUCKETS
  {
  }

  function Pos(s: string): (p: nat)
    ensures p < BUCKETS
  {
    (Fnv(s) as int) % BUCKETS
  }

  /** setelem_; None stands for a NULL value. */
  class Elem<V> {
    const name: string
    const hash: bv32
    var val: Option<V>
    var next: Elem?<V>

    constructor (name: string, hash: bv32, val: Option<V>)
      ensures this.name == name && this.hash == hash && this.val == val && next == null
    {
      this.name, this.hash, this.val, next := name, hash, val, null;
    }
  }

  /** Elements that may be in bucket `i`: hashed to it, no name twice. Names and hashes never change. */
  ghost predicate Named<V>(i: nat, chain: seq<Elem<V>>) {
    && (forall j :: 0 <= j < |chain| ==> Pos(chain[j].name) == i && chain[j].hash == Fnv(chain[j].name))
    && (forall j, k :: 0 <= j < k < |chain| ==> chain[j].name != chain[k].name)
  }

  ghost function NextOf<V>(chain: seq<Elem<V>>, j: nat): Elem?<V> {
    if j + 1 < |chain| then chain[j + 1] else null
  }

  /** The elements of bucket `i` in order, linked up. */
  ghost predicate ChainOk<V>(i: nat, head: Elem?<V>, chain: seq<Elem<V>>)
    reads chain`next
  {
    && head == (if chain == [] then null else chain[0])
    && Named(i, chain)
    && (forall j :: 0 <= j < |chain| ==> chain[j].next == NextOf(chain, j))
  }

  ghost predicate Inside<V>(chain: seq<Elem<V>>, nodes: set<Elem<V>>) {
    forall j :: 0 <= j < |chain| ==> chain[j] in nodes
  }

  ghost predicate InMap<V>(chain: seq<Elem<V>>, m: map<string, Option<V>>)
    reads chain`val
  {
    forall j :: 0 <= j < |chain| ==> chain[j].name in m && m[chain[j].name] == chain[j].val
  }

  /** As far as the elements other than `w` go; no other one has its name. */
  ghost predicate InMapBut<V>(chain: seq<Elem<V>>, m: map<string, Option<V>>, w: Elem<V>)
    reads (set e | e in chain && e != w)`val
  {
    forall j :: 0 <= j < |chain| && chain[j] != w ==>
      chain[j].name != w.name && chain[j].name in m && m[chain[j].name] == chain[j].val
  }

  lemma StoredIn<V>(chain: seq<Elem<V>>, m: map<string, Option<V>>, w: Elem<V>)
    requires InMapBut(chain, m, w)
    ensures InMap(chain, m[w.name := w.val])
  {
  }

  lemma NoElements<V>(i: nat)
    ensures ChainOk<V>(i, null, []) && Inside<V>([], {}) && InMap<V>([], map[])
  {
  }

  lemma NotHeldElsewhere<V>(j: nat, chain: seq<Elem<V>>, key: string)
    requires Named(j, chain) && Pos(key) != j
    ensures !Holds(chain, key)
  {
  }

  lemma HoldsFronted<V>(chain: seq<Elem<V>>, e: Elem<V>, key: string)
    ensures Holds([e] + chain, key) <==> Holds(chain, key) || e.name == key
  {
    if e.name == key {
      assert ([e] + chain)[0].name == key;
    }
    if Holds(chain, key) {
      var j :| 0 <= j < |chain| && chain[j].name == key;
      assert ([e] + chain)[j + 1].name == key;
    }
  }

  /** A new element linked before the first one of a bucket. */
  lemma Fronted<V>(i: nat, chain: seq<Elem<V>>, e: Elem<V>)
    requires Named(i, chain) && !Holds(chain, e.name)
    requires Pos(e.name) == i && e.hash == Fnv(e.name)
    requires e.next == if chain == [] then null else chain[0]
    requires forall j :: 0 <= j < |chain| ==> chain[j].next == NextOf(chain, j)
    ensures ChainOk(i, e, [e] + chain)
  {
    hide Fnv, Pos;
    var c := [e] + chain;
    NamedFronted(i, chain, e);
    hide Named, Holds;
    forall j | 0 <= j < |c| ensures c[j].next == NextOf(c, j) {
      if j > 0 {
        assert c[j] == chain[j - 1] && chain[j - 1].next == NextOf(chain, j - 1);
      }
    }
  }

  lemma NamedFronted<V>(i: nat, chain: seq<Elem<V>>, e: Elem<V>)
    requires Named(i, chain) && !Holds(chain, e.name)
    requires Pos(e.name) == i && e.hash == Fnv(e.name)
    ensures Named(i, [e] + chain)
  {
    hide Fnv, Pos;
    var c := [e] + chain;
    forall j, k | 0 <= j < k < |c| ensures c[j].name != c[k].name {
      assert c[k] == chain[k - 1];
      assert j > 0 ==> c[j] == chain[j - 1];
    }
  }

  /** The keys so far, all without a value. */
  ghost predicate Cloned<V>(m: map<string, Option<V>>, names: seq<string>) {
    (forall k :: k in m <==> k in names) && forall k :: k in m ==> m[k] == None
  }

  lemma ClonedSnoc<V>(m: map<string, Option<V>>, names: seq<string>, name: string)
    requires Cloned(m, names) && name !in names
    ensures name !in m && Cloned(m[name := None], names + [name])
  {
  }

  lemma SameSize<V>(a: map<string, Option<V>>, b: map<string, Option<V>>)
    requires forall k :: k in a <==> k in b
    ensures |a| == |b|
  {
    assert a.Keys == b.Keys;
    assert |a| == |a.Keys| && |b| == |b.Keys|;
  }

  ghost predicate Holds<V>(chain: seq<Elem<V>>, key: string) {
    exists j :: 0 <= j < |chain| && chain[j].name == key
  }

  lemma HoldsAppended<V>(chain: seq<Elem<V>>, e: Elem<V>, key: string)
    ensures Holds(chain + [e], key) <==> Holds(chain, key) || e.name == key
  {
    if e.name == key {
      assert (chain + [e])[|chain|].name == key;
    }
    if Holds(chain, key) {
      var j :| 0 <= j < |chain| && chain[j].name == key;
      assert (chain + [e])[j].name == key;
    }
  }

  /** A new element linked behind the last one of a bucket. */
  lemma Appended<V>(i: nat, head: Elem?<V>, chain: seq<Elem<V>>, e: Elem<V>)
    requires Named(i, chain) && !Holds(chain, e.name)
    requires Pos(e.name) == i && e.hash == Fnv(e.name) && e.next == null
    requires head == if chain == [] then e else chain[0]
    requires forall j :: 0 <= j < |chain| - 1 ==> chain[j].next == chain[j + 1]
    requires chain != [] ==> chain[|chain| - 1].next == e
    ensures ChainOk(i, head, chain + [e])
  {
    hide Fnv, Pos;
    var c := chain + [e];
    forall j, k | 0 <= j < k < |c| ensures c[j].name != c[k].name {
      assert k < |chain| ==> c[k] == chain[k];
      assert c[j] == chain[j];
    }
  }

  class Table<V> {
    const buckets: array<Elem?<V>>
    var len: nat
    ghost var chains: seq<seq<Elem<V>>>
    ghost var nodes: set<Elem<V>>
    ghost var m: map<string, Option<V>>

    constructor ()
      ensures Valid() && fresh(buckets) && nodes == {} && m == map[]
    {
      buckets := new Elem?<V>[BUCKETS](_ => null);
      len, nodes, m := 0, {}, map[];
      chains := seq(BUCKETS, _ => []);
    }

    /** The elements are those of the map `m`, each in the bucket of its name. */
    ghost predicate Linked()
      reads `chains, `nodes, `m, buckets, nodes
    {
      && buckets.Length == |chains| == BUCKETS
      && (forall i :: 0 <= i < BUCKETS ==> Inside(chains[i], nodes))
      && (forall i :: 0 <= i < BUCKETS ==> ChainOk(i, buckets[i], chains[i]) && InMap(chains[i], m))
      && forall k :: k in m ==> Holds(chains[Pos(k)], k)
    }

    ghost predicate Valid()
      reads this, buckets, nodes
    {
      Linked() && len == |m|
    }

    /** The walk along a bucket: the element of that name and the one before it. */
    method Find(key: string, hash: bv32, pos: nat) returns (prev: Elem?<V>, w: Elem?<V>, ghost at: nat)
      requires Linked() && hash == Fnv(key) && pos == Pos(key)
      ensures |chains| == BUCKETS && at <= |chains[pos]|
      ensures prev == if at > 0 then chains[pos][at - 1] else null
      ensures if w == null then at == |chains[pos]| else at < |chains[pos]| && w == chains[pos][at]
      ensures w != null <==> key in m
      ensures w != null ==> w.name == key && w.val == m[key] && w in nodes
      ensures prev != null ==> prev in nodes
    {
      hide Fnv, Pos, Linked, Holds, Named;
      Unfold(pos);
      ghost var chain := chains[pos];
      prev, w, at := null, buckets[pos], 0;
      while w != null
        invariant at <= |chain|
        invariant prev == if at > 0 then chain[at - 1] else null
        invariant if w == null then at == |chain| else at < |chain| && w == chain[at]
        invariant forall j :: 0 <= j < at ==> chain[j].name != key
        decreases |chain| - at
      {
        if w.hash == hash && w.name == key {
          ElementIs(pos, at);
          return;
        }
        assert chain[at].next == NextOf(chain, at);
        prev, w, at := w, w.next, at + 1;
      }
      NotHeld(key);
    }

    lemma ElementIs(pos: nat, at: nat)
      requires Linked() && pos < BUCKETS && at < |chains[pos]|
      ensures var e := chains[pos][at]; e.name in m && m[e.name] == e.val && e in nodes
    {
      hide Fnv, Pos, Holds, ChainOk;
      assert Inside(chains[pos], nodes) && InMap(chains[pos], m);
    }

    lemma NotHeld(key: string)
      requires Linked() && forall j :: 0 <= j < |chains[Pos(key)]| ==> chains[Pos(key)][j].name != key
      ensures key !in m
    {
      hide Fnv, Pos, ChainOk;
      assert !Holds(chains[Pos(key)], key);
    }

    /** hash_get. */
    method Get(key: string) returns (val: Option<V>)
      requires Valid()
      ensures val == if key in m then m[key] else None
    {
      var hash := Fnv1a32(key);
      var _, w, _ := Find(key, hash, (hash as int) % BUCKETS);
      val := if w != null then w.val else None;
    }

    /** set_get, as a membership test. */
    method Contains(key: string) returns (found: bool)
      requires Valid()
      ensures found <==> key in m
    {
      var hash := Fnv1a32(key);
      var _, w, _ := Find(key, hash, (hash as int) % BUCKETS);
      found := w != null;
    }

    /** Links a new element behind the last one of bucket `pos`. */
    method Link(prev: Elem?<V>, e: Elem<V>, pos: nat)
      requires Linked() && pos == Pos(e.name) && e.hash == Fnv(e.name) && e.next == null && e.name !in m && e !in nodes
      requires prev == if chains[pos] == [] then null else chains[pos][|chains[pos]| - 1]
      modifies buckets, (if prev == null then {} else {prev})`next
      ensures ChainOk(pos, buckets[pos], chains[pos] + [e])
      ensures forall i :: 0 <= i < BUCKETS && i != pos ==> ChainOk(i, buckets[i], chains[i])
    {
      hide Fnv, Pos, Holds, Inside, ChainOk, Named, InMap;
      Unfold(pos);
      Absent(e.name);
      ghost var chain := chains[pos];
      assert prev != null ==> forall j :: 0 <= j < |chain| - 1 ==> chain[j] != prev;
      if prev == null {
        buckets[pos] := e;
      } else {
        prev.next := e;
      }
      Appended(pos, buckets[pos], chain, e);
      forall i | 0 <= i < BUCKETS && i != pos ensures ChainOk(i, buckets[i], chains[i]) {
        assert prev !in chains[i];
      }
    }

    /** A new element goes to the end of its bucket. */
    method Append(prev: Elem?<V>, e: Elem<V>, pos: nat)
      requires Linked() && pos == Pos(e.name) && e.hash == Fnv(e.name) && e.next == null && e.name !in m && e !in nodes
      requires prev == if chains[pos] == [] then null else chains[pos][|chains[pos]| - 1]
      modifies `chains, `nodes, `m, buckets, (if prev == null then {} else {prev})`next
      ensures Linked() && m == old(m)[e.name := e.val] && nodes == old(nodes) + {e}
    {
      hide Fnv, Pos, Holds, ChainOk, Named, Inside, InMap;
      Extended(pos, e);
      Link(prev, e, pos);
      chains := chains[pos := chains[pos] + [e]];
      nodes := nodes + {e};
      m := m[e.name := e.val];
    }

    /** hash_add: the new value, and the previous one. */
    method Add(key: string, val: Option<V>) returns (prevval: Option<V>)
      requires Valid()
      modifies this, buckets, nodes
      ensures Valid() && m == old(m)[key := val] && fresh(nodes - old(nodes))
      ensures prevval == if key in old(m) then old(m)[key] else None
    {
      hide Fnv, Pos, Linked;
      var hash := Fnv1a32(key);
      var pos := (hash as int) % BUCKETS;
      PosOf(key, hash);
      var ll, w, at := Find(key, hash, pos);
      if w != null {
        prevval := w.val;
        Store(w, pos, at, val);
        return;
      }
      var e := new Elem(key, hash, val);
      Append(ll, e, pos);
      len := len + 1;
      prevval := None;
    }

    /** set_add_unique: whether the name was new. */
    method AddUnique(key: string) returns (unique: bool)
      requires Valid()
      modifies this, buckets, nodes
      ensures Valid() && fresh(nodes - old(nodes))
      ensures unique <==> key !in old(m)
      ensures m == if key in old(m) then old(m) else old(m)[key := None]
    {
      hide Fnv, Pos, Linked;
      var hash := Fnv1a32(key);
      var pos := (hash as int) % BUCKETS;
      PosOf(key, hash);
      var ll, w, _ := Find(key, hash, pos);
      unique := w == null;
      if unique {
        var e := new Elem(key, hash, None);
        Append(ll, e, pos);
        len := len + 1;
      }
    }

    /** The value of an element that is there. */
    method Store(w: Elem<V>, ghost pos: nat, ghost at: nat, val: Option<V>)
      requires Valid() && pos < BUCKETS && at < |chains[pos]| && w == chains[pos][at] && w.name in m
      modifies this`m, w`val
      ensures Valid() && m == old(m)[w.name := val]
    {
      hide Fnv, Pos, Holds, ChainOk, Named, Inside, InMap, InMapBut;
      forall i | 0 <= i < BUCKETS ensures InMapBut(chains[i], m, w) {
        OneOfAKind(i, pos, at);
      }
      w.val := val;
      m := m[w.name := val];
      forall i | 0 <= i < BUCKETS ensures InMap(chains[i], m) {
        StoredIn(chains[i], old(m), w);
      }
    }

    lemma OneOfAKind(i: nat, pos: nat, at: nat)
      requires Linked() && i < BUCKETS && pos < BUCKETS && at < |chains[pos]|
      ensures InMapBut(chains[i], m, chains[pos][at])
    {
      hide Fnv, Pos, Holds, ChainOk, Named, Inside;
      Unfold(pos);
      assert InMap(chains[i], m);
    }

    /** set_delete, hash_delete_chk: the value that was removed, and whether one was. */
    method Delete(key: string) returns (ret: Option<V>, removed: bool)
      requires Valid()
      modifies this, buckets, nodes
      ensures Valid() && m == old(m) - {key} && nodes <= old(nodes)
      ensures removed <==> key in old(m)
      ensures ret == if key in old(m) then old(m)[key] else None
    {
      hide Fnv, Pos, Linked;
      var hash := Fnv1a32(key);
      var pos := (hash as int) % BUCKETS;
      PosOf(key, hash);
      var ll, w, at := Find(key, hash, pos);
      if w == null {
        assert m - {key} == m;
        return None, false;
      }
      ret, removed := w.val, true;
      SizeWithout(m, key);
      Unlink(ll, w, pos, at);
      len := len - 1;
    }

    /** Links the element before to the one after. */
    method Bypass(prev: Elem?<V>, w: Elem<V>, pos: nat, ghost at: nat)
      requires Linked() && pos < BUCKETS && at < |chains[pos]| && w == chains[pos][at]
      requires prev == if at > 0 then chains[pos][at - 1] else null
      modifies buckets, (if prev == null then {} else {prev})`next
      ensures ChainOk(pos, buckets[pos], chains[pos][..at] + chains[pos][at + 1..])
      ensures forall i :: 0 <= i < BUCKETS && i != pos ==> ChainOk(i, buckets[i], chains[i])
    {
      hide Fnv, Pos, Holds, Inside, InMap, ChainOk, Named;
      Unfold(pos);
      ghost var chain := chains[pos];
      assert at > 0 ==> forall j :: 0 <= j < |chain| && j != at - 1 ==> chain[j] != prev;
      if prev == null {
        buckets[pos] := w.next;
      } else {
        prev.next := w.next;
      }
      Removed(pos, buckets[pos], chain, at);
      forall i | 0 <= i < BUCKETS && i != pos ensures ChainOk(i, buckets[i], chains[i]) {
        assert prev !in chains[i];
      }
    }

    /** Takes an element out of its bucket. */
    method Unlink(prev: Elem?<V>, w: Elem<V>, pos: nat, ghost at: nat)
      requires Linked() && pos == Pos(w.name) && at < |chains[pos]| && w == chains[pos][at]
      requires prev == if at > 0 then chains[pos][at - 1] else null
      modifies this`chains, this`m, this`nodes, buckets, (if prev == null then {} else {prev})`next
      ensures Linked() && m == old(m) - {w.name} && nodes == old(nodes) - {w}
    {
      hide Fnv, Pos, Holds, Inside, InMap, ChainOk, Named;
      Shorter(pos, at);
      Bypass(prev, w, pos, at);
      chains := chains[pos := chains[pos][..at] + chains[pos][at + 1..]];
      nodes := nodes - {w};
      m := m - {w.name};
    }

    /** What the map and the sets of elements are without one element of bucket `pos`. */
    lemma Shorter(pos: nat, at: nat)
      requires Linked() && pos < BUCKETS && at < |chains[pos]|
      ensures var w := chains[pos][at];
        var c, n, u := chains[pos := chains[pos][..at] + chains[pos][at + 1..]], nodes - {w}, m - {w.name};
        && (forall i :: 0 <= i < BUCKETS ==> Inside(c[i], n) && InMap(c[i], u))
        && (forall k :: k in u ==> Holds(c[Pos(k)], k))
    {
      hide Fnv, Pos, Holds, Inside, InMap;
      var w := chains[pos][at];
      var c, n, u := chains[pos := chains[pos][..at] + chains[pos][at + 1..]], nodes - {w}, m - {w.name};
      Unfold(pos);
      forall i | 0 <= i < BUCKETS ensures Inside(c[i], n) && InMap(c[i], u) {
        if i == pos {
          LessInside(chains[i], at, nodes, m);
        } else {
          ApartInside(chains[i], w, nodes, m);
        }
      }
      forall k | k in u ensures Holds(c[Pos(k)], k) {
        if Pos(k) == pos {
          HoldsWithout(chains[pos], at, k);
        }
      }
    }

    /** clear_set. */
    method Clear()
      requires Valid()
      modifies this, buckets
      ensures Valid() && m == map[] && nodes == {}
    {
      hide Fnv, Pos, Holds, ChainOk, Named, Inside, InMap;
      var i := 0;
      while i < BUCKETS
        invariant buckets.Length == BUCKETS && i <= BUCKETS && forall j :: 0 <= j < i ==> buckets[j] == null
      {
        buckets[i] := null;
        i := i + 1;
      }
      len, m, nodes := 0, map[], {};
      chains := seq(BUCKETS, _ => []);
      forall j | 0 <= j < BUCKETS
        ensures ChainOk(j, buckets[j], chains[j]) && Inside(chains[j], nodes) && InMap(chains[j], m)
      {
        NoElements<V>(j);
      }
    }

    /** A new element goes to the front of its bucket, as in set_clone. */
    method Prepend(e: Elem<V>, pos: nat)
      requires Linked() && pos == Pos(e.name) && e.hash == Fnv(e.name) && e.name !in m && e !in nodes
      modifies `chains, `nodes, `m, buckets, e`next
      ensures Linked() && m == old(m)[e.name := e.val] && nodes == old(nodes) + {e}
    {
      hide Fnv, Pos, Holds, ChainOk, Named, Inside, InMap;
      Unfold(pos);
      Absent(e.name);
      ExtendedFront(pos, e);
      LinkFront(e, pos);
      chains := chains[pos := [e] + chains[pos]];
      nodes := nodes + {e};
      m := m[e.name := e.val];
    }

    method LinkFront(e: Elem<V>, pos: nat)
      requires Linked() && pos == Pos(e.name) && e.hash == Fnv(e.name) && e.name !in m && e !in nodes
      modifies buckets, e`next
      ensures ChainOk(pos, buckets[pos], [e] + chains[pos])
      ensures forall i :: 0 <= i < BUCKETS && i != pos ==> ChainOk(i, buckets[i], chains[i])
    {
      hide Fnv, Pos, Holds, ChainOk, Named, InMap;
      Unfold(pos);
      Absent(e.name);
      assert e !in chains[pos];
      e.next := buckets[pos];
      buckets[pos] := e;
      Fronted(pos, chains[pos], e);
      forall i | 0 <= i < BUCKETS && i != pos ensures ChainOk(i, buckets[i], chains[i]) {
        assert e !in chains[i];
      }
    }

    lemma ExtendedFront(pos: nat, e: Elem<V>)
      requires Linked() && pos == Pos(e.name) && e.name !in m
      ensures var c, n, u := chains[pos := [e] + chains[pos]], nodes + {e}, m[e.name := e.val];
        && (forall i :: 0 <= i < BUCKETS ==> Inside(c[i], n) && InMap(c[i], u))
        && (forall k :: k in u ==> Holds(c[Pos(k)], k))
    {
      hide Fnv, Pos, Holds, ChainOk, Named;
      var c, n, u := chains[pos := [e] + chains[pos]], nodes + {e}, m[e.name := e.val];
      forall i | 0 <= i < BUCKETS ensures Inside(c[i], n) && InMap(c[i], u) {
        assert Inside(chains[i], nodes) && InMap(chains[i], m);
      }
      forall k | k in u ensures Holds(c[Pos(k)], k) {
        HoldsFronted(chains[pos], e, k);
      }
    }

    /** set_clone: the names in a table of their own, without values. */
    method Clone() returns (ret: Table<V>)
      requires Valid()
      ensures ret.Valid() && fresh(ret) && fresh(ret.buckets) && fresh(ret.nodes)
      ensures ret.m == map k | k in m :: None
    {
      hide Fnv, Pos, Linked;
      ret := new Table();
      var i := 0;
      Links(0);
      while i < BUCKETS
        invariant i <= BUCKETS && ret.Linked() && fresh(ret) && fresh(ret.buckets) && fresh(ret.nodes)
        invariant Cloned(ret.m, FlatNames(chains, i))
      {
        CloneBucket(ret, i);
        i := i + 1;
      }
      KeyOrderIs();
      ret.len := len;
      SameSize(m, ret.m);
    }

    method CloneBucket(ret: Table<V>, i: nat)
      requires Linked() && ret.Linked() && i < BUCKETS && ret != this && ret.buckets != buckets && ret.nodes !! nodes
      requires Cloned(ret.m, FlatNames(chains, i))
      modifies ret`chains, ret`nodes, ret`m, ret.buckets
      ensures ret.Linked() && fresh(ret.nodes - old(ret.nodes))
      ensures Cloned(ret.m, FlatNames(chains, i + 1))
    {
      hide Fnv, Pos, Linked, Cloned, Named, NamesOf, FlatNames;
      Links(i);
      ghost var at, chain, names := 0, chains[i], FlatNames(chains, i);
      var w := buckets[i];
      NoNames(names, chain);
      while w != null
        invariant if w == null then at == |chain| else at < |chain| && w == chain[at]
        invariant ret.Linked() && fresh(ret.nodes - old(ret.nodes))
        invariant Cloned(ret.m, names + NamesOf(chain[..at]))
        decreases |chain| - at
      {
        CopyElem(ret, i, at, w);
        assert chain[at].next == NextOf(chain, at);
        w := w.next;
        at := at + 1;
      }
      FlatNext(chains, i);
      assert chain[..at] == chain;
    }

    /** One element of the bucket goes into the copy. */
    method CopyElem(ret: Table<V>, i: nat, ghost at: nat, w: Elem<V>)
      requires Linked() && ret.Linked() && i < BUCKETS && ret != this && ret.buckets != buckets && ret.nodes !! nodes
      requires |chains| == BUCKETS && at < |chains[i]| && w == chains[i][at]
      requires Cloned(ret.m, FlatNames(chains, i) + NamesOf(chains[i][..at]))
      modifies ret`chains, ret`nodes, ret`m, ret.buckets
      ensures ret.Linked() && fresh(ret.nodes - old(ret.nodes))
      ensures Cloned(ret.m, FlatNames(chains, i) + NamesOf(chains[i][..at + 1]))
    {
      hide Fnv, Pos, Linked, Cloned, Named, NamesOf, FlatNames;
      ghost var names, before := FlatNames(chains, i), NamesOf(chains[i][..at]);
      HashKept(i, at);
      NotYet(i, at);
      NamesSnoc(chains[i], at);
      Assoc(names, before, [w.name]);
      ClonedSnoc(ret.m, names + before, w.name);
      var e := new Elem(w.name, w.hash, None);
      ret.Prepend(e, i);
    }

    lemma HashKept(i: nat, at: nat)
      requires Linked() && i < BUCKETS && at < |chains[i]|
      ensures chains[i][at].hash == Fnv(chains[i][at].name) && chains[i][at] in nodes
    {
      hide Fnv;
      assert Named(i, chains[i]);
    }

    /** The pointers of one bucket. */
    lemma Links(pos: nat)
      requires Linked() && pos < BUCKETS
      ensures |chains| == BUCKETS == buckets.Length
      ensures var c := chains[pos];
        && buckets[pos] == (if c == [] then null else c[0])
        && (forall j :: 0 <= j < |c| ==> c[j].next == NextOf(c, j))
    {
      hide Fnv, Pos;
    }

    /** A name has not been met before the walk reaches its element. */
    lemma NotYet(i: nat, at: nat)
      requires Linked() && i < BUCKETS && at < |chains[i]|
      ensures chains[i][at].name !in FlatNames(chains, i) + NamesOf(chains[i][..at])
      ensures Pos(chains[i][at].name) == i
    {
      hide Fnv, Pos, Holds, Inside, InMap;
      var key := chains[i][at].name;
      assert Named(i, chains[i]);
      InFlat(chains, i, key);
      forall j | 0 <= j < i ensures !Holds(chains[j], key) {
        assert Named(j, chains[j]);
        NotHeldElsewhere(j, chains[j], key);
      }
    }

    // ----- the elements in bucket order -----

    /** The names in the order in which the buckets list them. */
    ghost function KeyOrder(): seq<string>
      reads this
    {
      FlatNames(chains, |chains|)
    }

    /** That order has every key of the map once. */
    lemma KeyOrderIs()
      requires Linked()
      ensures Arrays.NoRepeats(KeyOrder()) && (forall k :: k in KeyOrder() <==> k in m) && |KeyOrder()| == |m|
    {
      hide Fnv, Pos, InMap, Inside, Named;
      forall i | 0 <= i < |chains| ensures Named(i, chains[i]) {
        Unfold(i);
      }
      FlatDistinct(chains, |chains|);
      forall k ensures k in KeyOrder() <==> k in m {
        KeyIn(k);
      }
      SizeOfDistinct(KeyOrder());
      assert (set k | k in KeyOrder()) == m.Keys;
    }

    lemma KeyIn(k: string)
      requires Linked()
      ensures k in FlatNames(chains, |chains|) <==> k in m
    {
      hide Fnv, Pos, Inside;
      InFlat(chains, |chains|, k);
      if k in m {
        assert Holds(chains[Pos(k)], k);
      }
    }

    /** hash_keys. */
    method Keys() returns (ret: seq<string>)
      requires Valid()
      ensures ret == KeyOrder()
    {
      hide Fnv, Pos, Linked, Named, Holds, NamesOf, FlatNames;
      ret := [];
      var i := 0;
      Links(0);
      NoNamesYet(chains);
      while i < BUCKETS
        invariant i <= BUCKETS && ret == FlatNames(chains, i)
      {
        var w := buckets[i];
        ghost var at, chain := 0, chains[i];
        Links(i);
        NoNames(ret, chain);
        while w != null
          invariant if w == null then at == |chain| else at < |chain| && w == chain[at]
          invariant ret == FlatNames(chains, i) + NamesOf(chain[..at])
          decreases |chain| - at
        {
          NamesSnoc(chain, at);
          Assoc(FlatNames(chains, i), NamesOf(chain[..at]), [w.name]);
          ret := ret + [w.name];
          assert chain[at].next == NextOf(chain, at);
          w := w.next;
          at := at + 1;
        }
        assert chain[..at] == chain;
        FlatNext(chains, i);
        i := i + 1;
      }
    }

    /** hash_values: the values in the order of the keys. */
    method Values() returns (ret: seq<Option<V>>)
      requires Valid()
      ensures |ret| == |KeyOrder()|
      ensures forall n :: 0 <= n < |ret| ==> KeyOrder()[n] in m && ret[n] == m[KeyOrder()[n]]
    {
      hide Fnv, Pos, Linked;
      ret := [];
      var i := 0;
      Links(0);
      while i < BUCKETS
        invariant i <= BUCKETS && ValuesOf(ret, FlatNames(chains, i))
      {
        ret := AppendValues(ret, i);
        i := i + 1;
      }
    }

    method AppendValues(before: seq<Option<V>>, i: nat) returns (ret: seq<Option<V>>)
      requires Linked() && i < BUCKETS && ValuesOf(before, FlatNames(chains, i))
      ensures ValuesOf(ret, FlatNames(chains, i + 1))
    {
      hide Fnv, Pos, Linked, ValuesOf, Named;
      Links(i);
      ghost var at, chain, names := 0, chains[i], FlatNames(chains, i);
      var w := buckets[i];
      ret := before;
      NoNames(names, chain);
      while w != null
        invariant if w == null then at == |chain| else at < |chain| && w == chain[at]
        invariant ValuesOf(ret, names + NamesOf(chain[..at]))
        decreases |chain| - at
      {
        ElementIs(i, at);
        NamesSnoc(chain, at);
        Assoc(names, NamesOf(chain[..at]), [w.name]);
        ValuesSnoc(ret, names + NamesOf(chain[..at]), w.val, w.name);
        ret := ret + [w.val];
        assert chain[at].next == NextOf(chain, at);
        w := w.next;
        at := at + 1;
      }
      assert chain[..at] == chain;
    }

    lemma ValuesSnoc(vs: seq<Option<V>>, ks: seq<string>, v: Option<V>, k: string)
      requires ValuesOf(vs, ks) && k in m && m[k] == v
      ensures ValuesOf(vs + [v], ks + [k])
    {
    }

    ghost predicate ValuesOf(vs: seq<Option<V>>, ks: seq<string>)
      reads this
    {
      |vs| == |ks| && forall n :: 0 <= n < |vs| ==> ks[n] in m && vs[n] == m[ks[n]]
    }

    /** What the map and the sets of elements are with one more element in bucket `pos`. */
    lemma Extended(pos: nat, e: Elem<V>)
      requires |chains| == BUCKETS && pos == Pos(e.name) && e.name !in m
      requires forall i :: 0 <= i < BUCKETS ==> Inside(chains[i], nodes) && InMap(chains[i], m)
      requires forall k :: k in m ==> Holds(chains[Pos(k)], k)
      ensures var c, n, u := chains[pos := chains[pos] + [e]], nodes + {e}, m[e.name := e.val];
        && (forall i :: 0 <= i < BUCKETS ==> Inside(c[i], n) && InMap(c[i], u))
        && (forall k :: k in u ==> Holds(c[Pos(k)], k))
    {
      hide Fnv, Pos, Holds, Inside, InMap;
      var c, n, u := chains[pos := chains[pos] + [e]], nodes + {e}, m[e.name := e.val];
      forall i | 0 <= i < BUCKETS ensures Inside(c[i], n) && InMap(c[i], u) {
        if i == pos {
          MoreInside(chains[i], e, nodes, m);
        } else {
          StillInside(chains[i], nodes, n, m, e.name, e.val);
        }
      }
      forall k | k in u ensures Holds(c[Pos(k)], k) {
        HoldsAppended(chains[pos], e, k);
      }
    }

    lemma Absent(key: string)
      requires Linked() && key !in m
      ensures !Holds(chains[Pos(key)], key)
    {
      hide Fnv, Pos;
    }

    /** What a bucket's validity means for its elements and for those of other buckets. */
    lemma Unfold(pos: nat)
      requires Linked() && pos < BUCKETS
      ensures Named(pos, chains[pos])
      ensures var c := chains[pos];
        && buckets[pos] == (if c == [] then null else c[0])
        && (forall j :: 0 <= j < |c| ==> c[j].next == NextOf(c, j))
        && (forall j, k :: 0 <= j < k < |c| ==> c[j] != c[k] && c[j].name != c[k].name)
      ensures forall i, j, k :: 0 <= i < BUCKETS && i != pos && 0 <= j < |chains[i]| && 0 <= k < |chains[pos]| ==>
        chains[i][j].name != chains[pos][k].name
      ensures forall i, j :: 0 <= i < BUCKETS && 0 <= j < |chains[i]| ==> chains[i][j] in nodes
      ensures |chains| == BUCKETS == buckets.Length
      ensures forall j :: 0 <= j < |chains[pos]| ==> chains[pos][j].hash == Fnv(chains[pos][j].name)
    {
      hide Fnv, Pos;
    }
  }

  lemma MoreInside<V>(chain: seq<Elem<V>>, e: Elem<V>, nodes: set<Elem<V>>, m: map<string, Option<V>>)
    requires Inside(chain, nodes) && InMap(chain, m) && e.name !in m
    ensures Inside(chain + [e], nodes + {e}) && InMap(chain + [e], m[e.name := e.val])
  {
  }

  lemma LessInside<V>(chain: seq<Elem<V>>, at: nat, nodes: set<Elem<V>>, m: map<string, Option<V>>)
    requires Inside(chain, nodes) && InMap(chain, m) && at < |chain|
    requires forall j, k :: 0 <= j < k < |chain| ==> chain[j] != chain[k] && chain[j].name != chain[k].name
    ensures var c, w := chain[..at] + chain[at + 1..], chain[at];
      Inside(c, nodes - {w}) && InMap(c, m - {w.name})
  {
    var c := chain[..at] + chain[at + 1..];
    assert forall j :: 0 <= j < |c| ==> c[j] == chain[if j < at then j else j + 1];
  }

  lemma ApartInside<V>(chain: seq<Elem<V>>, w: Elem<V>, nodes: set<Elem<V>>, m: map<string, Option<V>>)
    requires Inside(chain, nodes) && InMap(chain, m) && forall j :: 0 <= j < |chain| ==> chain[j].name != w.name
    ensures Inside(chain, nodes - {w}) && InMap(chain, m - {w.name})
  {
  }

  lemma HoldsWithout<V>(chain: seq<Elem<V>>, at: nat, key: string)
    requires at < |chain| && chain[at].name != key && Holds(chain, key)
    ensures Holds(chain[..at] + chain[at + 1..], key)
  {
    var j :| 0 <= j < |chain| && chain[j].name == key;
    assert (chain[..at] + chain[at + 1..])[if j < at then j else j - 1] == chain[j];
  }

  /** An element taken out of its bucket. */
  lemma Removed<V>(i: nat, head: Elem?<V>, chain: seq<Elem<V>>, at: nat)
    requires Named(i, chain) && at < |chain|
    requires forall j :: 0 <= j < |chain| && j + 1 != at ==> chain[j].next == NextOf(chain, j)
    requires at > 0 ==> head == chain[0] && chain[at - 1].next == NextOf(chain, at)
    requires at == 0 ==> head == NextOf(chain, 0)
    ensures ChainOk(i, head, chain[..at] + chain[at + 1..])
  {
    NamedWithout(i, chain, at);
    hide Named;
    var c := chain[..at] + chain[at + 1..];
    forall j | 0 <= j < |c| ensures c[j].next == NextOf(c, j) {
      if j < at {
        assert c[j] == chain[j];
      } else {
        assert c[j] == chain[j + 1];
      }
    }
  }

  lemma NamedWithout<V>(i: nat, chain: seq<Elem<V>>, at: nat)
    requires Named(i, chain) && at < |chain|
    ensures Named(i, chain[..at] + chain[at + 1..])
  {
    hide Fnv, Pos;
    var c := chain[..at] + chain[at + 1..];
    assert forall j :: 0 <= j < |c| ==> c[j] == chain[if j < at then j else j + 1];
  }

  lemma SizeWithout<V>(m: map<string, V>, key: string)
    requires key in m
    ensures |m - {key}| == |m| - 1
  {
    assert (m - {key}).Keys == m.Keys - {key};
    assert |m - {key}| == |(m - {key}).Keys| && |m| == |m.Keys|;
  }

  ghost function NamesOf<V>(chain: seq<Elem<V>>): (r: seq<string>)
    ensures |r| == |chain| && forall j :: 0 <= j < |chain| ==> r[j] == chain[j].name
  {
    if chain == [] then [] else NamesOf(chain[..|chain| - 1]) + [chain[|chain| - 1].name]
  }

  lemma NamesSnoc<V>(chain: seq<Elem<V>>, at: nat)
    requires at < |chain|
    ensures NamesOf(chain[..at + 1]) == NamesOf(chain[..at]) + [chain[at].name]
  {
    assert chain[..at + 1][..at] == chain[..at];
  }

  lemma NoNames<V>(names: seq<string>, chain: seq<Elem<V>>)
    ensures names + NamesOf(chain[..0]) == names
  {
  }

  lemma NoNamesYet<V>(cs: seq<seq<Elem<V>>>)
    ensures FlatNames(cs, 0) == []
  {
  }

  lemma FlatNext<V>(cs: seq<seq<Elem<V>>>, n: nat)
    requires n < |cs|
    ensures FlatNames(cs, n + 1) == FlatNames(cs, n) + NamesOf(cs[n])
  {
  }

  ghost function FlatNames<V>(cs: seq<seq<Elem<V>>>, n: nat): seq<string>
    requires n <= |cs|
  {
    if n == 0 then [] else FlatNames(cs, n - 1) + NamesOf(cs[n - 1])
  }

  lemma {:induction false} InFlat<V>(cs: seq<seq<Elem<V>>>, n: nat, key: string)
    requires n <= |cs|
    ensures key in FlatNames(cs, n) <==> exists i :: 0 <= i < n && Holds(cs[i], key)
  {
    if n > 0 {
      InFlat(cs, n - 1, key);
      assert key in NamesOf(cs[n - 1]) <==> Holds(cs[n - 1], key);
    }
  }

  lemma {:induction false} FlatDistinct<V>(cs: seq<seq<Elem<V>>>, n: nat)
    requires n <= |cs| && forall i :: 0 <= i < |cs| ==> Named(i, cs[i])
    ensures Arrays.NoRepeats(FlatNames(cs, n)) && forall j :: 0 <= j < |FlatNames(cs, n)| ==> Pos(FlatNames(cs, n)[j]) < n
  {
    hide Fnv, Pos;
    if n > 0 {
      FlatDistinct(cs, n - 1);
      assert Named(n - 1, cs[n - 1]);
    }
  }

  lemma {:induction false} SizeOfDistinct(s: seq<string>)
    requires Arrays.NoRepeats(s)
    ensures |set x | x in s| == |s|
  {
    if s != [] {
      var r, x := s[..|s| - 1], s[|s| - 1];
      SizeOfDistinct(r);
      assert s == r + [x];
      assert (set y | y in s) == (set y | y in r) + {x};
    }
  }

  lemma StillInside<V>(chain: seq<Elem<V>>, was: set<Elem<V>>, nodes: set<Elem<V>>, m: map<string, Option<V>>,
                       key: string, val: Option<V>)
    requires Inside(chain, was) && was <= nodes && InMap(chain, m) && key !in m
    ensures Inside(chain, nodes) && InMap(chain, m[key := val])
  {
  }

  // ----- runs -----

  datatype Op<V> = AddOp(key: string, val: Option<V>) | AddUniqueOp(name: string) | GetOp(wanted: string)
    | ContainsOp(member: string) | DeleteOp(gone: string) | ClearOp

  /** A value that is stored or was removed, NULL for none, and the flag: new, contained or removed. */
  datatype Reply<V> = Reply(val: Option<V>, flag: bool)

  function ValueAt<V>(m: map<string, Option<V>>, key: string): Option<V> {
    if key in m then m[key] else None
  }

  /** What an operation does to a map, and what it replies. */
  function Effect<V>(m: map<string, Option<V>>, op: Op<V>): (map<string, Option<V>>, Reply<V>) {
    match op
    case AddOp(k, v) => (m[k := v], Reply(ValueAt(m, k), false))
    case AddUniqueOp(n) => (if n in m then m else m[n := None], Reply(None, n !in m))
    case GetOp(k) => (m, Reply(ValueAt(m, k), false))
    case ContainsOp(k) => (m, Reply(None, k in m))
    case DeleteOp(k) => (m - {k}, Reply(ValueAt(m, k), k in m))
    case ClearOp => (map[], Reply(None, false))
  }

  function Effects<V>(ops: seq<Op<V>>): (map<string, Option<V>>, seq<Reply<V>>) {
    if ops == [] then (map[], [])
    else
      var (m, rs) := Effects(ops[..|ops| - 1]);
      var (n, r) := Effect(m, ops[|ops| - 1]);
      (n, rs + [r])
  }

  lemma EffectsNext<V>(ops: seq<Op<V>>, op: Op<V>)
    ensures Effects(ops + [op]) == (Effect(Effects(ops).0, op).0, Effects(ops).1 + [Effect(Effects(ops).0, op).1])
  {
    hide Effect;
    assert (ops + [op])[..|ops|] == ops;
  }

  /** One operation on the table. */
  method Step<V>(t: Table<V>, op: Op<V>) returns (r: Reply<V>)
    requires t.Valid()
    modifies t, t.buckets, t.nodes
    ensures t.Valid() && fresh(t.nodes - old(t.nodes))
    ensures (t.m, r) == Effect(old(t.m), op)
  {
    hide Table.Linked;
    r := Reply(None, false);
    match op {
      case AddOp(k, v) =>
        var prev := t.Add(k, v);
        r := r.(val := prev);
      case AddUniqueOp(n) =>
        var unique := t.AddUnique(n);
        r := r.(flag := unique);
      case GetOp(k) =>
        var val := t.Get(k);
        r := r.(val := val);
      case ContainsOp(k) =>
        var found := t.Contains(k);
        r := r.(flag := found);
      case DeleteOp(k) =>
        var val, removed := t.Delete(k);
        r := Reply(val, removed);
      case ClearOp =>
        t.Clear();
    }
  }

  /** Over any run of operations the table refines a finite map: same replies on the way, the map's keys
      listed once each at the end, and their number as the count. */
  method Run<V>(ops: seq<Op<V>>) returns (t: Table<V>, replies: seq<Reply<V>>, keys: seq<string>)
    ensures fresh(t) && t.Valid() && t.m == Effects(ops).0 && replies == Effects(ops).1
    ensures Arrays.NoRepeats(keys) && (forall k :: k in keys <==> k in Effects(ops).0)
    ensures t.len == |Effects(ops).0| == |keys|
  {
    hide Effects, Effect, Table.Linked;
    t := new Table();
    replies := [];
    var i := 0;
    NoEffects<V>();
    assert ops[..0] == [];
    while i < |ops|
      invariant i <= |ops| && t.Valid() && fresh(t) && fresh(t.buckets) && fresh(t.nodes)
      invariant (t.m, replies) == Effects(ops[..i])
    {
      assert ops[..i + 1] == ops[..i] + [ops[i]];
      EffectsNext(ops[..i], ops[i]);
      var r := Step(t, ops[i]);
      replies := replies + [r];
      i := i + 1;
    }
    assert ops[..i] == ops;
    keys := t.Keys();
    t.KeyOrderIs();
  }

  lemma NoEffects<V>()
    ensures Effects<V>([]) == (map[], [])
  {
  }
}
