/**
 * Python's built-in `dict` as the inventory code uses it: an insertion-ordered
 * sequence of key/value entries, assignment `d[k] = v` (Put), `d.update(e)`
 * (Update) and the unpacking merge `{**a, **b}` (Merge).
 */
module OrderedDict {
  import opened Wrappers

  /** The entries of a dict in insertion order. */
  type Dict<K, V> = seq<(K, V)>

  /** The keys of `d`, in insertion order. */
  function Keys<K, V>(d: Dict<K, V>): (ks: seq<K>)
    ensures |ks| == |d|
  {
    if d == [] then [] else [d[0].0] + Keys(d[1..])
  }

  /** No element occurs twice in `s`. */
  predicate Distinct<T(==)>(s: seq<T>) {
    s == [] || (s[0] !in s[1..] && Distinct(s[1..]))
  }

  /** Distinctness follows from every pair of positions holding different elements. */
  lemma {:induction false} DistinctPairwise<T>(s: seq<T>)
    requires forall i, j | 0 <= i < j < |s| :: s[i] != s[j]
    ensures Distinct(s)
    decreases |s|
  {
    if s != [] {
      assert forall j | 1 <= j < |s| :: s[0] != s[j];
      assert forall x | x in s[1..] :: x != s[0];
      DistinctPairwise(s[1..]);
    }
  }

  /** A real dict never holds a key twice. */
  predicate UniqueKeys<K(==), V>(d: Dict<K, V>) {
    Distinct(Keys(d))
  }

  /** `d.get(k)`: the value stored under `k`, if any. */
  function Get<K(==), V>(d: Dict<K, V>, k: K): (r: Option<V>)
    ensures r.Some? <==> k in Keys(d)
    ensures r.Some? ==> (k, r.value) in d
  {
    if d == [] then None
    else if d[0].0 == k then Some(d[0].1)
    else Get(d[1..], k)
  }

  /** `d[k] = v`: replaces the value of an existing key where it stands, or appends a new entry. */
  function Put<K(==), V>(d: Dict<K, V>, k: K, v: V): Dict<K, V> {
    if d == [] then [(k, v)]
    else if d[0].0 == k then [(k, v)] + d[1..]
    else [d[0]] + Put(d[1..], k, v)
  }

  /** `d[k] = v` keeps the key order, appending `k` when it is new. */
  lemma {:induction false} PutKeys<K, V>(d: Dict<K, V>, k: K, v: V)
    ensures Keys(Put(d, k, v)) == if k in Keys(d) then Keys(d) else Keys(d) + [k]
    decreases |d|
  {
    if d != [] && d[0].0 != k {
      PutKeys(d[1..], k, v);
    }
  }

  /** After `d[k] = v`, `k` holds `v` and every other key keeps its value. */
  lemma {:induction false} PutGet<K, V>(d: Dict<K, V>, k: K, v: V, k': K)
    ensures Get(Put(d, k, v), k') == if k' == k then Some(v) else Get(d, k')
    decreases |d|
  {
    if d != [] && d[0].0 != k {
      PutGet(d[1..], k, v, k');
    }
  }

  /** `d.update(e)`: puts the entries of `e` into `d`, one after another. */
  function Update<K(==, !new), V>(d: Dict<K, V>, e: Dict<K, V>): Dict<K, V>
    decreases |e|
  {
    if e == [] then d else Update(Put(d, e[0].0, e[0].1), e[1..])
  }

  /** `{**a, **b}`: a fresh dict filled with the entries of `a`, then those of `b`. */
  function Merge<K(==, !new), V>(a: Dict<K, V>, b: Dict<K, V>): Dict<K, V> {
    Update(Update([], a), b)
  }

  /** The keys of `ks` that are not in `present`, in the order of `ks`. */
  function Absent<K(==)>(ks: seq<K>, present: seq<K>): seq<K> {
    if ks == [] then []
    else (if ks[0] in present then [] else [ks[0]]) + Absent(ks[1..], present)
  }

  lemma {:induction false} AbsentMembers<K>(ks: seq<K>, present: seq<K>, x: K)
    ensures x in Absent(ks, present) <==> x in ks && x !in present
    decreases |ks|
  {
    if ks != [] {
      AbsentMembers(ks[1..], present, x);
    }
  }

  lemma {:induction false} KeysAt<K, V>(d: Dict<K, V>, i: nat)
    requires i < |d|
    ensures Keys(d)[i] == d[i].0
    decreases i
  {
    if i > 0 {
      KeysAt(d[1..], i - 1);
    }
  }

  lemma KeysIndexed<K, V>(d: Dict<K, V>)
    ensures forall i | 0 <= i < |d| :: Keys(d)[i] == d[i].0
  {
    forall i | 0 <= i < |d| ensures Keys(d)[i] == d[i].0 {
      KeysAt(d, i);
    }
  }

  lemma {:induction false} KeysAppend<K, V>(a: Dict<K, V>, b: Dict<K, V>)
    ensures Keys(a + b) == Keys(a) + Keys(b)
    decreases |a|
  {
    if a != [] {
      assert (a + b)[1..] == a[1..] + b;
      KeysAppend(a[1..], b);
    } else {
      assert a + b == b;
    }
  }

  lemma {:induction false} DistinctConcat<T>(a: seq<T>, b: seq<T>)
    requires Distinct(a) && Distinct(b)
    requires forall x :: x in b ==> x !in a
    ensures Distinct(a + b)
    decreases |a|
  {
    if a != [] {
      assert (a + b)[1..] == a[1..] + b;
      assert a[0] in a;
      assert a[0] !in b;
      DistinctConcat(a[1..], b);
    } else {
      assert a + b == b;
    }
  }

  /** Both halves of a list without repeats are without repeats, and share no element. */
  lemma {:induction false} DistinctSplit<T>(a: seq<T>, b: seq<T>)
    requires Distinct(a + b)
    ensures Distinct(a) && Distinct(b)
    ensures forall x | x in b :: x !in a
    decreases |a|
  {
    if a == [] {
      assert a + b == b;
    } else {
      assert (a + b)[1..] == a[1..] + b;
      DistinctSplit(a[1..], b);
      assert a[0] !in a[1..] + b;
    }
  }

  lemma {:induction false} AbsentDistinct<K(!new)>(ks: seq<K>, present: seq<K>)
    requires Distinct(ks)
    ensures Distinct(Absent(ks, present))
    decreases |ks|
  {
    if ks != [] {
      AbsentDistinct(ks[1..], present);
      var head: seq<K> := if ks[0] in present then [] else [ks[0]];
      AbsentMembers(ks[1..], present, ks[0]);
      DistinctConcat(head, Absent(ks[1..], present));
    }
  }

  lemma {:induction false} AbsentIgnores<K(!new)>(ks: seq<K>, present: seq<K>, x: K)
    requires x !in ks
    ensures Absent(ks, present + [x]) == Absent(ks, present)
    decreases |ks|
  {
    if ks != [] {
      assert ks[0] in present + [x] <==> ks[0] in present;
      AbsentIgnores(ks[1..], present, x);
    }
  }

  lemma {:induction false} PutFresh<K(!new), V>(d: Dict<K, V>, k: K, v: V)
    requires k !in Keys(d)
    ensures Put(d, k, v) == d + [(k, v)]
    decreases |d|
  {
    if d != [] {
      PutFresh(d[1..], k, v);
    }
  }

  lemma UniqueKeysTail<K, V>(e: Dict<K, V>)
    requires UniqueKeys(e) && e != []
    ensures UniqueKeys(e[1..]) && e[0].0 !in Keys(e[1..])
  {
    assert Keys(e)[1..] == Keys(e[1..]);
  }

  /** Updating gives every key of `e` the value `e` holds for it, and leaves the other keys alone. */
  lemma {:induction false} UpdateGet<K(!new), V>(d: Dict<K, V>, e: Dict<K, V>, k: K)
    requires UniqueKeys(e)
    ensures Get(Update(d, e), k) == if k in Keys(e) then Get(e, k) else Get(d, k)
    decreases |e|
  {
    if e != [] {
      UniqueKeysTail(e);
      PutGet(d, e[0].0, e[0].1, k);
      UpdateGet(Put(d, e[0].0, e[0].1), e[1..], k);
    }
  }

  /** Putting `k0` first and the keys `rest` after it adds to `present` what `Absent` says. */
  lemma AbsentStep<K(!new)>(present: seq<K>, k0: K, rest: seq<K>)
    requires k0 !in rest
    ensures (if k0 in present then present else present + [k0])
              + Absent(rest, if k0 in present then present else present + [k0])
         == present + Absent([k0] + rest, present)
  {
    assert ([k0] + rest)[0] == k0 && ([k0] + rest)[1..] == rest;
    if k0 !in present {
      AbsentIgnores(rest, present, k0);
    }
  }

  /** Updating keeps the old keys in place and appends the new keys of `e` in `e`'s order. */
  lemma {:induction false} UpdateKeys<K(!new), V>(d: Dict<K, V>, e: Dict<K, V>)
    requires UniqueKeys(e)
    ensures Keys(Update(d, e)) == Keys(d) + Absent(Keys(e), Keys(d))
    decreases |e|
  {
    if e != [] {
      var k0, rest := e[0].0, e[1..];
      UniqueKeysTail(e);
      PutKeys(d, k0, e[0].1);
      UpdateKeys(Put(d, k0, e[0].1), rest);
      assert Keys(e) == [k0] + Keys(rest);
      AbsentStep(Keys(d), k0, Keys(rest));
    }
  }

  /** With no key in common, updating is appending. */
  lemma {:induction false} UpdateDisjoint<K(!new), V>(d: Dict<K, V>, e: Dict<K, V>)
    requires UniqueKeys(e)
    requires forall k :: k in Keys(e) ==> k !in Keys(d)
    ensures Update(d, e) == d + e
    decreases |e|
  {
    if e != [] {
      var k0, rest := e[0].0, e[1..];
      UniqueKeysTail(e);
      assert Keys(e) == [k0] + Keys(rest);
      assert k0 !in Keys(d);
      var d' := Put(d, k0, e[0].1);
      PutKeys(d, k0, e[0].1);
      assert Keys(d') == Keys(d) + [k0];
      UpdateDisjoint(d', rest);
      PutFreshThen(d, e);
    }
  }

  lemma PutFreshThen<K(!new), V>(d: Dict<K, V>, e: Dict<K, V>)
    requires e != [] && e[0].0 !in Keys(d)
    ensures Put(d, e[0].0, e[0].1) + e[1..] == d + e
  {
    PutFresh(d, e[0].0, e[0].1);
    assert (e[0].0, e[0].1) == e[0];
    assert d + [e[0]] + e[1..] == d + e;
  }

  /**
   * `{**a, **b}` holds every key of `a` and of `b`: the keys of `a` first, then the
   * keys of `b` that `a` lacks; on a shared key the value of `b` wins.
   */
  lemma MergeSpec<K(!new), V>(a: Dict<K, V>, b: Dict<K, V>)
    requires UniqueKeys(a) && UniqueKeys(b)
    ensures Keys(Merge(a, b)) == Keys(a) + Absent(Keys(b), Keys(a))
    ensures UniqueKeys(Merge(a, b))
    ensures forall k :: Get(Merge(a, b), k) == if k in Keys(b) then Get(b, k) else Get(a, k)
  {
    UpdateDisjoint([], a);
    assert Update([], a) == a;
    UpdateKeys(a, b);
    AbsentDistinct(Keys(b), Keys(a));
    forall x | x in Absent(Keys(b), Keys(a)) ensures x !in Keys(a) {
      AbsentMembers(Keys(b), Keys(a), x);
    }
    DistinctConcat(Keys(a), Absent(Keys(b), Keys(a)));
    forall k ensures Get(Merge(a, b), k) == if k in Keys(b) then Get(b, k) else Get(a, k) {
      UpdateGet(a, b, k);
    }
  }

  /** When the key sets are disjoint, `{**a, **b}` is `a` followed by `b`: sizes add up and keys stay unique. */
  lemma MergeDisjoint<K(!new), V>(a: Dict<K, V>, b: Dict<K, V>)
    requires UniqueKeys(a) && UniqueKeys(b)
    requires forall k | k in Keys(b) :: k !in Keys(a)
    ensures Merge(a, b) == a + b
    ensures |Merge(a, b)| == |a| + |b|
    ensures Keys(Merge(a, b)) == Keys(a) + Keys(b)
    ensures UniqueKeys(Merge(a, b))
  {
    UpdateDisjoint([], a);
    assert Update([], a) == a;
    UpdateDisjoint(a, b);
    KeysAppend(a, b);
    DistinctConcat(Keys(a), Keys(b));
  }

  /** The entry at position `i` of a dict is what `get` finds under its key. */
  lemma {:induction false} GetAt<K, V>(d: Dict<K, V>, i: nat)
    requires UniqueKeys(d) && i < |d|
    ensures Get(d, d[i].0) == Some(d[i].1)
    decreases i
  {
    if i > 0 {
      UniqueKeysTail(d);
      KeysAt(d[1..], i - 1);
      GetAt(d[1..], i - 1);
    }
  }
}
