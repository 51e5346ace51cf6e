/** PHP arrays with string keys: ordered maps whose keys are unique and whose
    iteration order is insertion order. Only the builtins the client uses are
    modelled: lookup, `$a[$k] = $v`, `unset`, `array_merge` and `ksort`. */
module PhpArray {
  import opened Text

  predicate UniqueKeys<V>(m: seq<(ByteString, V)>)
  {
    forall i, j | 0 <= i < j < |m| :: m[i].0 != m[j].0
  }

  /** A string-keyed PHP array, entries in iteration order. */
  type Assoc<V> = m: seq<(ByteString, V)> | UniqueKeys(m) witness []

  function Keys<V>(m: seq<(ByteString, V)>): (ks: seq<ByteString>)
    ensures |ks| == |m| && forall i | 0 <= i < |m| :: ks[i] == m[i].0
  {
    if m == [] then [] else [m[0].0] + Keys(m[1..])
  }

  lemma KeysAppend<V>(m: seq<(ByteString, V)>, k: ByteString, v: V)
    ensures Keys(m + [(k, v)]) == Keys(m) + [k]
  {
  }

  /** `$m[$k] ?? null`. */
  function Get<V>(m: seq<(ByteString, V)>, k: ByteString): (r: Option<V>)
    ensures r.None? <==> k !in Keys(m)
    ensures r.Some? ==> (k, r.value) in m
  {
    if m == [] then None
    else if m[0].0 == k then Some(m[0].1)
    else Get(m[1..], k)
  }

  /** In an array with unique keys, an entry is found under its own key. */
  lemma {:induction false} GetEntry<V>(m: Assoc<V>, i: nat)
    requires i < |m|
    ensures Get(m, m[i].0) == Some(m[i].1)
  {
    if i > 0 {
      assert m[0].0 != m[i].0;
      GetEntry(m[1..], i - 1);
    }
  }

  /** `$m[$k] = $v`: an existing key keeps its position and takes the new value;
      a new key is appended. */
  function Put<V>(m: Assoc<V>, k: ByteString, v: V): (r: Assoc<V>)
    ensures k in Keys(m) ==> Keys(r) == Keys(m)
    ensures k !in Keys(m) ==> Keys(r) == Keys(m) + [k]
  {
    if m == [] then [(k, v)]
    else if m[0].0 == k then
      assert Keys([(k, v)] + m[1..]) == Keys(m);
      [(k, v)] + m[1..]
    else
      var t := Put(m[1..], k, v);
      assert m[0].0 !in Keys(m[1..]);
      assert m[0].0 !in Keys(t);
      ConsUnique(m[0], t);
      [m[0]] + t
  }

  /** Putting an entry with a new key in front keeps the keys unique. */
  lemma ConsUnique<V>(e: (ByteString, V), t: Assoc<V>)
    requires e.0 !in Keys(t)
    ensures UniqueKeys([e] + t) && Keys([e] + t) == [e.0] + Keys(t)
  {
    var r := [e] + t;
    forall i, j | 0 <= i < j < |r| ensures r[i].0 != r[j].0 {
      if i == 0 {
        assert r[j].0 == Keys(t)[j - 1];
      } else {
        assert r[i] == t[i - 1] && r[j] == t[j - 1];
      }
    }
  }

  /** After `$m[$k] = $v`, `k` holds `v` and every other key what it held before. */
  lemma {:induction false} PutGet<V>(m: Assoc<V>, k: ByteString, v: V)
    ensures Get(Put(m, k, v), k) == Some(v)
    ensures forall k' | k' != k :: Get(Put(m, k, v), k') == Get(m, k')
  {
    if m != [] && m[0].0 != k {
      PutGet(m[1..], k, v);
      var r := Put(m, k, v);
      assert r[1..] == Put(m[1..], k, v);
    }
  }

  /** Writing a key the array does not hold appends the entry. */
  lemma {:induction false} PutNew<V>(m: Assoc<V>, k: ByteString, v: V)
    requires k !in Keys(m)
    ensures Put(m, k, v) == m + [(k, v)]
  {
    if m != [] {
      var t: Assoc<V> := m[1..];
      assert m[0].0 == Keys(m)[0] != k;
      assert k !in Keys(t) by {
        forall i | 0 <= i < |t| ensures Keys(t)[i] != k {
          assert Keys(t)[i] == Keys(m)[i + 1];
        }
      }
      PutNew(t, k, v);
      assert Put(m, k, v) == [m[0]] + Put(t, k, v);
      assert m == [m[0]] + t;
    }
  }

  /** `unset($m[$k])`. */
  function Unset<V>(m: Assoc<V>, k: ByteString): (r: Assoc<V>)
    ensures Get(r, k) == None
    ensures forall k' | k' != k :: Get(r, k') == Get(m, k')
    ensures forall e | e in r :: e in m
  {
    if m == [] then []
    else if m[0].0 == k then m[1..]
    else
      var t := Unset(m[1..], k);
      assert m[0].0 !in Keys(m[1..]);
      [m[0]] + t
  }

  /** `array_merge($a, $b)` for string keys: the entries of `b` are written into
      `a` in order, so on a shared key the value of `b` wins and the key keeps
      its position in `a`. */
  function Merge<V>(a: Assoc<V>, b: Assoc<V>): Assoc<V>
    decreases |b|
  {
    if b == [] then a else Merge(Put(a, b[0].0, b[0].1), b[1..])
  }

  /** After `array_merge($a, $b)`, a key holds its value in `b` when `b` has
      it, and its value in `a` otherwise. */
  lemma {:induction false} MergeGet<V>(a: Assoc<V>, b: Assoc<V>)
    ensures forall k :: Get(Merge(a, b), k) == if Get(b, k).Some? then Get(b, k) else Get(a, k)
    decreases |b|
  {
    if b != [] {
      var t: Assoc<V> := b[1..];
      var a' := Put(a, b[0].0, b[0].1);
      MergeGet(a', t);
      PutGet(a, b[0].0, b[0].1);
      assert b[0].0 !in Keys(t);
      forall k ensures Get(Merge(a, b), k) == if Get(b, k).Some? then Get(b, k) else Get(a, k) {
        if k != b[0].0 {
          assert Get(b, k) == Get(t, k);
        }
      }
    }
  }

  /** `array_merge` keeps the keys of its first argument first, in their order. */
  lemma {:induction false} MergeKeepsOrder<V>(a: Assoc<V>, b: Assoc<V>)
    ensures |Merge(a, b)| >= |a| && Keys(Merge(a, b))[..|a|] == Keys(a)
    decreases |b|
  {
    if b != [] {
      var a' := Put(a, b[0].0, b[0].1);
      MergeKeepsOrder(a', b[1..]);
      assert Keys(a')[..|a|] == Keys(a);
    }
  }

  /** The keys of `ns` that are not among `ks`, in the order of `ns`. */
  function NewKeys(ks: seq<ByteString>, ns: seq<ByteString>): seq<ByteString>
  {
    if ns == [] then []
    else if ns[0] in ks then NewKeys(ks, ns[1..])
    else [ns[0]] + NewKeys(ks, ns[1..])
  }

  /** A key is new exactly when it is in `ns` and not in `ks`. */
  lemma {:induction false} NewKeysMembers(ks: seq<ByteString>, ns: seq<ByteString>)
    ensures forall k :: k in NewKeys(ks, ns) <==> k in ns && k !in ks
  {
    if ns != [] {
      NewKeysMembers(ks, ns[1..]);
      assert ns == [ns[0]] + ns[1..];
    }
  }

  /** Adding a key that `ns` lacks to `ks` changes nothing about the new keys. */
  lemma {:induction false} NewKeysIgnores(ks: seq<ByteString>, x: ByteString, ns: seq<ByteString>)
    requires x !in ns
    ensures NewKeys(ks + [x], ns) == NewKeys(ks, ns)
  {
    if ns != [] {
      assert ns[0] != x;
      assert ns[0] in ks + [x] <==> ns[0] in ks;
      NewKeysIgnores(ks, x, ns[1..]);
    }
  }

  /** `array_merge($a, $b)` lists the keys of `a` in their order, then the keys
      of `b` that `a` lacks, in the order of `b`. */
  lemma {:induction false} MergeKeys<V>(a: Assoc<V>, b: Assoc<V>)
    ensures Keys(Merge(a, b)) == Keys(a) + NewKeys(Keys(a), Keys(b))
    decreases |b|
  {
    if b != [] {
      var t: Assoc<V> := b[1..];
      var k := b[0].0;
      var a' := Put(a, k, b[0].1);
      MergeKeys(a', t);
      assert Keys(b) == [k] + Keys(t);
      assert k !in Keys(t);
      if k !in Keys(a) {
        NewKeysIgnores(Keys(a), k, Keys(t));
      }
    }
  }

  /** Byte-wise lexicographic order on keys, as PHP's `strcmp`. */
  predicate KeyLess(a: ByteString, b: ByteString)
  {
    if a == [] then b != []
    else if b == [] then false
    else if a[0] != b[0] then a[0] < b[0]
    else KeyLess(a[1..], b[1..])
  }

  lemma {:induction false} KeyLessIrreflexive(a: ByteString)
    ensures !KeyLess(a, a)
  {
    if a != [] {
      KeyLessIrreflexive(a[1..]);
    }
  }

  lemma {:induction false} KeyLessTotal(a: ByteString, b: ByteString)
    ensures a == b || KeyLess(a, b) || KeyLess(b, a)
  {
    if a != [] && b != [] && a[0] == b[0] {
      KeyLessTotal(a[1..], b[1..]);
      if a[1..] == b[1..] {
        assert a == [a[0]] + a[1..] && b == [b[0]] + b[1..];
      }
    }
  }

  lemma {:induction false} KeyLessAsymmetric(a: ByteString, b: ByteString)
    requires KeyLess(a, b)
    ensures !KeyLess(b, a)
  {
    if a != [] && b != [] && a[0] == b[0] {
      KeyLessAsymmetric(a[1..], b[1..]);
    }
  }

  lemma {:induction false} KeyLessTransitive(a: ByteString, b: ByteString, c: ByteString)
    requires KeyLess(a, b) && KeyLess(b, c)
    ensures KeyLess(a, c)
  {
    if a != [] && b != [] && c != [] && a[0] == b[0] && b[0] == c[0] {
      KeyLessTransitive(a[1..], b[1..], c[1..]);
    }
  }

  /** Strictly ascending by key. */
  predicate SortedByKey<V>(s: seq<(ByteString, V)>)
  {
    forall i, j | 0 <= i < j < |s| :: KeyLess(s[i].0, s[j].0)
  }

  /** Places `e` in a key-sorted array, before the first larger key. */
  function Insert<V>(e: (ByteString, V), s: seq<(ByteString, V)>): seq<(ByteString, V)>
  {
    if s == [] || KeyLess(e.0, s[0].0) then [e] + s else [s[0]] + Insert(e, s[1..])
  }

  /** Insertion adds `e` and loses nothing. */
  lemma {:induction false} InsertEntries<V>(e: (ByteString, V), s: seq<(ByteString, V)>)
    ensures multiset(Insert(e, s)) == multiset(s) + multiset{e}
  {
    if s != [] && !KeyLess(e.0, s[0].0) {
      InsertEntries(e, s[1..]);
      assert s == [s[0]] + s[1..];
    }
  }

  /** An entry below every key of a sorted array can go in front of it. */
  lemma SortedCons<V>(e: (ByteString, V), s: seq<(ByteString, V)>)
    requires SortedByKey(s)
    requires forall j | 0 <= j < |s| :: KeyLess(e.0, s[j].0)
    ensures SortedByKey([e] + s)
  {
    var r := [e] + s;
    forall i, j | 0 <= i < j < |r| ensures KeyLess(r[i].0, r[j].0) {
      if i > 0 {
        assert r[i] == s[i - 1] && r[j] == s[j - 1];
      }
    }
  }

  /** Insertion into a sorted array with a new key keeps it sorted. */
  lemma {:induction false} InsertSorted<V>(e: (ByteString, V), s: seq<(ByteString, V)>)
    requires SortedByKey(s) && e.0 !in Keys(s)
    ensures SortedByKey(Insert(e, s))
  {
    if s == [] {
    } else if KeyLess(e.0, s[0].0) {
      forall j | 0 <= j < |s| ensures KeyLess(e.0, s[j].0) {
        if j > 0 { KeyLessTransitive(e.0, s[0].0, s[j].0); }
      }
      SortedCons(e, s);
    } else {
      var u := s[1..];
      assert Keys(s)[0] == s[0].0;
      KeyLessTotal(e.0, s[0].0);
      assert e.0 !in Keys(u) by {
        forall j | 0 <= j < |u| ensures Keys(u)[j] != e.0 {
          assert Keys(u)[j] == Keys(s)[j + 1];
        }
      }
      assert SortedByKey(u) by {
        forall i, j | 0 <= i < j < |u| ensures KeyLess(u[i].0, u[j].0) {
          assert u[i] == s[i + 1] && u[j] == s[j + 1];
        }
      }
      InsertSorted(e, u);
      InsertEntries(e, u);
      var t := Insert(e, u);
      forall j | 0 <= j < |t| ensures KeyLess(s[0].0, t[j].0) {
        assert t[j] in multiset(u) + multiset{e};
        if t[j] != e {
          var k :| 0 <= k < |u| && u[k] == t[j];
          assert u[k] == s[k + 1];
        }
      }
      SortedCons(s[0], t);
    }
  }

  lemma SortedHasUniqueKeys<V>(s: seq<(ByteString, V)>)
    requires SortedByKey(s)
    ensures UniqueKeys(s)
  {
    forall i, j | 0 <= i < j < |s| ensures s[i].0 != s[j].0 {
      KeyLessIrreflexive(s[i].0);
    }
  }

  /** Arrays holding the same entries have the same keys. */
  lemma SameEntriesSameKeys<V>(s: seq<(ByteString, V)>, t: seq<(ByteString, V)>, k: ByteString)
    requires multiset(s) == multiset(t)
    ensures k in Keys(s) <==> k in Keys(t)
  {
    if k in Keys(s) {
      var i :| 0 <= i < |s| && s[i].0 == k;
      assert s[i] in multiset(t);
    }
    if k in Keys(t) {
      var i :| 0 <= i < |t| && t[i].0 == k;
      assert t[i] in multiset(s);
    }
  }

  /** PHP `ksort`: the same entries, in ascending key order. */
  function KSort<V>(m: Assoc<V>): (r: Assoc<V>)
    ensures SortedByKey(r)
    ensures multiset(r) == multiset(m)
  {
    if m == [] then []
    else
      var t := KSort(m[1..]);
      SameEntriesSameKeys(t, m[1..], m[0].0);
      assert m[0].0 !in Keys(m[1..]);
      var r := Insert(m[0], t);
      InsertSorted(m[0], t);
      InsertEntries(m[0], t);
      assert m == [m[0]] + m[1..];
      SortedHasUniqueKeys(r);
      r
  }

  /** Two key-sorted arrays holding the same entries are the same array. */
  lemma {:induction false} SortedUnique<V>(s: seq<(ByteString, V)>, t: seq<(ByteString, V)>)
    requires SortedByKey(s) && SortedByKey(t)
    requires forall e :: e in s <==> e in t
    ensures s == t
  {
    if s != [] { assert s[0] in s; }
    if t != [] { assert t[0] in t; }
    if s != [] && t != [] {
      if s[0] != t[0] {
        var i :| 0 <= i < |t| && t[i] == s[0];
        var j :| 0 <= j < |s| && s[j] == t[0];
        assert i > 0 && j > 0;
        KeyLessAsymmetric(t[0].0, s[0].0);
      }
      forall e ensures e in s[1..] <==> e in t[1..] {
        if e in s[1..] {
          var i :| 0 <= i < |s[1..]| && s[1..][i] == e;
          assert KeyLess(s[0].0, s[i + 1].0);
          KeyLessIrreflexive(s[0].0);
          assert e in t;
          var j :| 0 <= j < |t| && t[j] == e;
          assert j != 0;
          assert t[1..][j - 1] == e;
        }
        if e in t[1..] {
          var i :| 0 <= i < |t[1..]| && t[1..][i] == e;
          assert KeyLess(t[0].0, t[i + 1].0);
          KeyLessIrreflexive(t[0].0);
          assert e in s;
          var j :| 0 <= j < |s| && s[j] == e;
          assert j != 0;
          assert s[1..][j - 1] == e;
        }
      }
      SortedUnique(s[1..], t[1..]);
      assert s == [s[0]] + s[1..] && t == [t[0]] + t[1..];
    }
  }

  /** `ksort` forgets the insertion order: two arrays with the same entries sort
      to the same array. */
  lemma KSortOrderIndependent<V>(m: Assoc<V>, n: Assoc<V>)
    requires forall e :: e in m <==> e in n
    ensures KSort(m) == KSort(n)
  {
    var r, s := KSort(m), KSort(n);
    forall e ensures e in r <==> e in s {
      calc {
        e in r;
        e in multiset(r);
        e in multiset(m);
        e in m;
        e in n;
        e in multiset(n);
        e in multiset(s);
        e in s;
      }
    }
    SortedUnique(r, s);
  }
}
