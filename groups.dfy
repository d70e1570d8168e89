/** Python dicts of lists, as the source builds them with
    `d.setdefault(k, []).append(v)` or `defaultdict(list)`: a sequence of
    (key, members) entries in key insertion order. */
module Groups {
  import opened Base

  type Table<K, V> = seq<(K, seq<V>)>

  function Keys<K, V>(t: Table<K, V>): (ks: seq<K>)
    ensures |ks| == |t| && forall i :: 0 <= i < |t| ==> ks[i] == t[i].0
  {
    if t == [] then [] else [t[0].0] + Keys(t[1..])
  }

  predicate DistinctKeys<K(==), V>(t: Table<K, V>)
  {
    forall i, j :: 0 <= i < j < |t| ==> t[i].0 != t[j].0
  }

  /** All members, entry by entry (`[v for vs in d.values() for v in vs]`). */
  function Flatten<K, V>(t: Table<K, V>): seq<V>
  {
    if t == [] then [] else t[0].1 + Flatten(t[1..])
  }

  /** Every member of every entry is in the flattened sequence. */
  lemma {:induction false} FlattenHas<K, V>(t: Table<K, V>, i: nat, j: nat)
    requires i < |t| && j < |t[i].1|
    ensures t[i].1[j] in Flatten(t)
  {
    if i > 0 {
      FlattenHas(t[1..], i - 1, j);
    }
  }

  /** A member of the flattened sequence belongs to some entry. */
  lemma {:induction false} FlattenMember<K, V>(t: Table<K, V>, x: V)
    requires x in Flatten(t)
    ensures exists i :: 0 <= i < |t| && x in t[i].1
  {
    if x !in t[0].1 {
      FlattenMember(t[1..], x);
      var i :| 0 <= i < |t[1..]| && x in t[1..][i].1;
      assert x in t[i + 1].1;
    }
  }

  /** The total of a weight over a sequence. */
  function SumBy<V>(xs: seq<V>, w: V -> nat): nat
  {
    if xs == [] then 0 else SumBy(xs[..|xs| - 1], w) + w(xs[|xs| - 1])
  }

  lemma {:induction false} SumByAppend<V>(a: seq<V>, b: seq<V>, w: V -> nat)
    ensures SumBy(a + b, w) == SumBy(a, w) + SumBy(b, w)
    decreases |b|
  {
    if b == [] {
      assert a + b == a;
    } else {
      assert (a + b)[..|a + b| - 1] == a + b[..|b| - 1];
      assert (a + b)[|a + b| - 1] == b[|b| - 1];
      SumByAppend(a, b[..|b| - 1], w);
    }
  }

  /** The total does not depend on the order. */
  lemma {:induction false} SumByPermutation<V>(a: seq<V>, b: seq<V>, w: V -> nat)
    requires multiset(a) == multiset(b)
    ensures SumBy(a, w) == SumBy(b, w)
    decreases |a|
  {
    if a == [] {
      assert |b| == |multiset(b)| == 0;
    } else {
      var x := a[|a| - 1];
      assert x in multiset(b);
      var j :| 0 <= j < |b| && b[j] == x;
      var rest := b[..j] + b[j + 1..];
      assert b == b[..j] + [x] + b[j + 1..];
      assert a == a[..|a| - 1] + [x];
      assert multiset(rest) == multiset(b) - multiset{x};
      SumByPermutation(a[..|a| - 1], rest, w);
      SumByAppend(b[..j] + [x], b[j + 1..], w);
      SumByAppend(b[..j], [x], w);
      SumByAppend(b[..j], b[j + 1..], w);
      assert SumBy([x], w) == w(x) by {
        assert [x][..0] == [];
      }
    }
  }

  /** The members of the entries whose key is in `keys` (`b`) or is not
      (`!b`), in table order: `extend` over the items that pass the test. */
  function Pick<K, V>(t: Table<K, V>, keys: set<K>, b: bool): seq<V>
  {
    if t == [] then []
    else Pick(t[..|t| - 1], keys, b) + (if (t[|t| - 1].0 in keys) == b then t[|t| - 1].1 else [])
  }

  /** The two picks share out the flattened table. */
  lemma {:induction false} PickSplits<K, V>(t: Table<K, V>, keys: set<K>)
    ensures multiset(Pick(t, keys, true)) + multiset(Pick(t, keys, false)) == multiset(Flatten(t))
  {
    if t != [] {
      var init := t[..|t| - 1];
      var last := t[|t| - 1];
      PickSplits(init, keys);
      FlattenSnoc(t);
      var yes, no := Pick(init, keys, true), Pick(init, keys, false);
      if last.0 in keys {
        assert Pick(t, keys, true) == yes + last.1 && Pick(t, keys, false) == no + [];
      } else {
        assert Pick(t, keys, true) == yes + [] && Pick(t, keys, false) == no + last.1;
      }
    }
  }

  lemma {:induction false} PickMember<K, V>(t: Table<K, V>, keys: set<K>, b: bool, x: V)
    ensures x in Pick(t, keys, b) <==> exists i :: 0 <= i < |t| && x in t[i].1 && (t[i].0 in keys) == b
  {
    if t != [] {
      var init := t[..|t| - 1];
      PickMember(init, keys, b, x);
      if exists i :: 0 <= i < |t| && x in t[i].1 && (t[i].0 in keys) == b {
        var i :| 0 <= i < |t| && x in t[i].1 && (t[i].0 in keys) == b;
        if i < |init| {
          assert init[i] == t[i];
        }
      }
      if exists i :: 0 <= i < |init| && x in init[i].1 && (init[i].0 in keys) == b {
        var i :| 0 <= i < |init| && x in init[i].1 && (init[i].0 in keys) == b;
        assert t[i] == init[i];
      }
    }
  }

  /** A member of a group carries the group's key and comes from the input. */
  lemma GroupOfMember<K, V>(xs: seq<V>, key: V -> K, i: nat, x: V)
    requires i < |GroupBy(xs, key)| && x in GroupBy(xs, key)[i].1
    ensures x in xs && key(x) == GroupBy(xs, key)[i].0
  {
    var t := GroupBy(xs, key);
    GroupByGroups(xs, key);
    var j :| 0 <= j < |t[i].1| && t[i].1[j] == x;
    SelectMember(xs, key, x);
  }

  /** Every input element sits in the group of its key. */
  lemma MemberOfGroup<K, V>(xs: seq<V>, key: V -> K, x: V) returns (i: nat)
    requires x in xs
    ensures i < |GroupBy(xs, key)| && x in GroupBy(xs, key)[i].1 && GroupBy(xs, key)[i].0 == key(x)
  {
    var t := GroupBy(xs, key);
    GroupByMultiset(xs, key);
    assert x in multiset(Flatten(t));
    FlattenMember(t, x);
    i :| 0 <= i < |t| && x in t[i].1;
    GroupOfMember(xs, key, i, x);
  }

  /** Picking from a grouping selects exactly the elements whose key passes. */
  lemma PickGroupBy<K, V>(xs: seq<V>, key: V -> K, keys: set<K>, b: bool, x: V)
    ensures x in Pick(GroupBy(xs, key), keys, b) <==> x in xs && (key(x) in keys) == b
  {
    var t := GroupBy(xs, key);
    PickMember(t, keys, b, x);
    if x in Pick(t, keys, b) {
      var i :| 0 <= i < |t| && x in t[i].1 && (t[i].0 in keys) == b;
      GroupOfMember(xs, key, i, x);
    }
    if x in xs && (key(x) in keys) == b {
      var i := MemberOfGroup(xs, key, x);
    }
  }

  /** Appending the last element of `ys` to exactly one of three lists that
      share out the rest of `ys` shares out all of `ys`. */
  lemma ShareThree<T>(ys: seq<T>, a: seq<T>, b: seq<T>, c: seq<T>, ia: bool, ib: bool, ic: bool)
    requires ys != [] && multiset(a) + multiset(b) + multiset(c) == multiset(ys[..|ys| - 1])
    requires (ia && !ib && !ic) || (!ia && ib && !ic) || (!ia && !ib && ic)
    ensures var x := ys[|ys| - 1];
      multiset(a + (if ia then [x] else [])) + multiset(b + (if ib then [x] else []))
      + multiset(c + (if ic then [x] else [])) == multiset(ys)
  {
    assert ys == ys[..|ys| - 1] + [ys[|ys| - 1]];
  }

  /** The member lists' lengths. */
  function Sizes<K, V>(t: Table<K, V>): (s: seq<nat>)
    ensures |s| == |t| && forall i :: 0 <= i < |t| ==> s[i] == |t[i].1|
  {
    if t == [] then [] else [|t[0].1|] + Sizes(t[1..])
  }

  /** `d.setdefault(k, []).append(v)`. */
  function Add<K(==), V>(t: Table<K, V>, k: K, v: V): Table<K, V>
  {
    if t == [] then [(k, [v])]
    else if t[0].0 == k then [(k, t[0].1 + [v])] + t[1..]
    else [t[0]] + Add(t[1..], k, v)
  }

  /** `d[k] = vs`: replaces the value in place, or appends a new entry. */
  function Put<K(==), V>(t: Table<K, V>, k: K, vs: seq<V>): Table<K, V>
  {
    if t == [] then [(k, vs)]
    else if t[0].0 == k then [(k, vs)] + t[1..]
    else [t[0]] + Put(t[1..], k, vs)
  }

  /** Appending every element of `xs` under its key, in order. */
  function AddAll<K(==), V>(t: Table<K, V>, xs: seq<V>, key: V -> K): Table<K, V>
  {
    if xs == [] then t else Add(AddAll(t, xs[..|xs| - 1], key), key(xs[|xs| - 1]), xs[|xs| - 1])
  }

  /** Grouping by key into an empty dict. */
  function GroupBy<K(==), V>(xs: seq<V>, key: V -> K): Table<K, V>
  {
    AddAll([], xs, key)
  }

  /** The elements of `xs` whose key is `k`, in input order. */
  function Select<K(==), V>(xs: seq<V>, key: V -> K, k: K): (r: seq<V>)
    ensures forall i :: 0 <= i < |r| ==> key(r[i]) == k
  {
    if xs == [] then []
    else Select(xs[..|xs| - 1], key, k) + (if key(xs[|xs| - 1]) == k then [xs[|xs| - 1]] else [])
  }

  /** Keys in order of first appearance. */
  function FirstKeys<K(==)>(ks: seq<K>): seq<K>
  {
    if ks == [] then []
    else
      var d := FirstKeys(ks[..|ks| - 1]);
      if ks[|ks| - 1] in d then d else d + [ks[|ks| - 1]]
  }

  function MapKey<K, V>(xs: seq<V>, key: V -> K): (ks: seq<K>)
    ensures |ks| == |xs| && forall i :: 0 <= i < |xs| ==> ks[i] == key(xs[i])
  {
    if xs == [] then [] else MapKey(xs[..|xs| - 1], key) + [key(xs[|xs| - 1])]
  }

  lemma MapKeyAppend<K, V>(a: seq<V>, b: seq<V>, key: V -> K)
    ensures MapKey(a + b, key) == MapKey(a, key) + MapKey(b, key)
  {
  }

  /** `d.get(k)`. */
  function Get<K(==), V>(t: Table<K, V>, k: K): (r: Option<seq<V>>)
    ensures r.Some? <==> k in Keys(t)
  {
    if t == [] then None else if t[0].0 == k then Some(t[0].1) else Get(t[1..], k)
  }

  // ---------------------------------------------------------------- lemmas

  lemma {:induction false} KeysAdd<K, V>(t: Table<K, V>, k: K, v: V)
    ensures Keys(Add(t, k, v)) == if k in Keys(t) then Keys(t) else Keys(t) + [k]
  {
    if t != [] && t[0].0 != k {
      KeysAdd(t[1..], k, v);
      assert Keys(t) == [t[0].0] + Keys(t[1..]);
    }
  }

  lemma {:induction false} AddEntries<K, V>(t: Table<K, V>, k: K, v: V)
    requires DistinctKeys(t)
    ensures var t' := Add(t, k, v);
      && |t'| == (if k in Keys(t) then |t| else |t| + 1)
      && (forall i :: 0 <= i < |t| ==> t'[i] == if t[i].0 == k then (k, t[i].1 + [v]) else t[i])
      && (k !in Keys(t) ==> t'[|t|] == (k, [v]))
  {
    KeysAdd(t, k, v);
    if t != [] {
      assert Keys(t) == [t[0].0] + Keys(t[1..]);
      if t[0].0 != k {
        AddEntries(t[1..], k, v);
      }
    }
  }

  lemma {:induction false} FlattenAdd<K, V>(t: Table<K, V>, k: K, v: V)
    ensures multiset(Flatten(Add(t, k, v))) == multiset(Flatten(t)) + multiset{v}
  {
    if t != [] && t[0].0 != k {
      FlattenAdd(t[1..], k, v);
    }
  }

  lemma {:induction false} FlattenAppend<K, V>(a: Table<K, V>, b: Table<K, V>)
    ensures Flatten(a + b) == Flatten(a) + Flatten(b)
  {
    if a == [] {
      assert a + b == b;
    } else {
      assert (a + b)[0] == a[0];
      assert (a + b)[1..] == a[1..] + b;
      FlattenAppend(a[1..], b);
    }
  }

  /** The last entry's members come last. */
  lemma {:induction false} FlattenSnoc<K, V>(t: Table<K, V>)
    requires t != []
    ensures Flatten(t) == Flatten(t[..|t| - 1]) + t[|t| - 1].1
  {
    if |t| == 1 {
      assert t[..0] == [];
      assert Flatten(t[1..]) == [];
    } else {
      var rest := t[1..];
      FlattenSnoc(rest);
      assert rest[..|rest| - 1] == t[..|t| - 1][1..];
      assert t[..|t| - 1][0] == t[0];
      assert Flatten(t) == t[0].1 + (Flatten(rest[..|rest| - 1]) + t[|t| - 1].1);
    }
  }

  lemma {:induction false} SumSizesIsFlattenLength<K, V>(t: Table<K, V>)
    ensures Sum(Sizes(t)) == |Flatten(t)|
  {
    if t != [] {
      SumSizesIsFlattenLength(t[1..]);
      assert Sizes(t) == [|t[0].1|] + Sizes(t[1..]);
      SumAppend([|t[0].1|], Sizes(t[1..]));
    }
  }

  lemma {:induction false} FirstKeysProps<K>(ks: seq<K>)
    ensures forall k :: k in FirstKeys(ks) <==> k in ks
    ensures forall i, j :: 0 <= i < j < |FirstKeys(ks)| ==> FirstKeys(ks)[i] != FirstKeys(ks)[j]
  {
    if ks != [] {
      FirstKeysProps(ks[..|ks| - 1]);
      assert ks == ks[..|ks| - 1] + [ks[|ks| - 1]];
    }
  }

  /** Grouping yields distinct keys, in order of first appearance. */
  lemma {:induction false} GroupByKeys<K, V>(xs: seq<V>, key: V -> K)
    ensures Keys(GroupBy(xs, key)) == FirstKeys(MapKey(xs, key))
    ensures DistinctKeys(GroupBy(xs, key))
  {
    if xs != [] {
      var init := xs[..|xs| - 1];
      var x := xs[|xs| - 1];
      GroupByKeys(init, key);
      KeysAdd(GroupBy(init, key), key(x), x);
      assert MapKey(xs, key)[..|xs| - 1] == MapKey(init, key);
      FirstKeysProps(MapKey(xs, key));
      var g := GroupBy(xs, key);
      forall i, j | 0 <= i < j < |g| ensures g[i].0 != g[j].0 {
        assert g[i].0 == Keys(g)[i] && g[j].0 == Keys(g)[j];
      }
    }
  }

  /** Every group is non-empty and holds exactly the elements carrying its
      key, in input order. */
  lemma {:induction false} GroupByGroups<K, V>(xs: seq<V>, key: V -> K)
    ensures forall i :: 0 <= i < |GroupBy(xs, key)| ==>
      GroupBy(xs, key)[i].1 == Select(xs, key, GroupBy(xs, key)[i].0) && GroupBy(xs, key)[i].1 != []
  {
    if xs != [] {
      var init := xs[..|xs| - 1];
      var x := xs[|xs| - 1];
      GroupByGroups(init, key);
      GroupByKeys(init, key);
      var g0 := GroupBy(init, key);
      AddEntries(g0, key(x), x);
      var g := GroupBy(xs, key);
      assert g == Add(g0, key(x), x);
      forall i | 0 <= i < |g|
        ensures g[i].1 == Select(xs, key, g[i].0) && g[i].1 != []
      {
        if i >= |g0| {
          assert key(x) !in Keys(g0);
          FirstKeysProps(MapKey(init, key));
          forall j | 0 <= j < |init| ensures key(init[j]) != key(x) {
            assert MapKey(init, key)[j] == key(init[j]);
          }
          SelectAbsent(init, key, key(x));
        }
      }
    }
  }

  /** No element is lost or duplicated by grouping. */
  lemma {:induction false} GroupByMultiset<K, V>(xs: seq<V>, key: V -> K)
    ensures multiset(Flatten(GroupBy(xs, key))) == multiset(xs)
  {
    if xs != [] {
      var init := xs[..|xs| - 1];
      GroupByMultiset(init, key);
      FlattenAdd(GroupBy(init, key), key(xs[|xs| - 1]), xs[|xs| - 1]);
      assert xs == init + [xs[|xs| - 1]];
    }
  }

  lemma {:induction false} SelectAbsent<K, V>(xs: seq<V>, key: V -> K, k: K)
    requires forall j :: 0 <= j < |xs| ==> key(xs[j]) != k
    ensures Select(xs, key, k) == []
  {
    if xs != [] {
      SelectAbsent(xs[..|xs| - 1], key, k);
    }
  }

  /** Appending under keys a table does not yet have leaves it as a prefix. */
  lemma {:induction false} AddAllFresh<K, V>(t: Table<K, V>, xs: seq<V>, key: V -> K)
    requires forall j :: 0 <= j < |xs| ==> key(xs[j]) !in Keys(t)
    ensures AddAll(t, xs, key) == t + GroupBy(xs, key)
  {
    if xs != [] {
      AddAllFresh(t, xs[..|xs| - 1], key);
      AddBehind(t, GroupBy(xs[..|xs| - 1], key), key(xs[|xs| - 1]), xs[|xs| - 1]);
    }
  }

  /** Two tables with distinct keys and no key in common concatenate to a
      table with distinct keys. */
  lemma DistinctAppend<K, V>(a: Table<K, V>, b: Table<K, V>)
    requires DistinctKeys(a) && DistinctKeys(b)
    requires forall j :: 0 <= j < |b| ==> b[j].0 !in Keys(a)
    ensures DistinctKeys(a + b)
  {
    var t := a + b;
    forall i, j | 0 <= i < j < |t| ensures t[i].0 != t[j].0 {
      if i < |a| <= j {
        assert t[j] == b[j - |a|];
        assert Keys(a)[i] == t[i].0;
      } else if |a| <= i {
        assert t[i] == b[i - |a|] && t[j] == b[j - |a|];
      }
    }
  }

  lemma {:induction false} AddBehind<K, V>(t: Table<K, V>, u: Table<K, V>, k: K, v: V)
    requires k !in Keys(t)
    ensures Add(t + u, k, v) == t + Add(u, k, v)
  {
    if t == [] {
      assert t + u == u;
    } else {
      assert Keys(t) == [t[0].0] + Keys(t[1..]);
      assert (t + u)[0] == t[0];
      assert (t + u)[1..] == t[1..] + u;
      AddBehind(t[1..], u, k, v);
    }
  }

  lemma {:induction false} GetEntry<K, V>(t: Table<K, V>, i: nat)
    requires DistinctKeys(t) && i < |t|
    ensures Get(t, t[i].0) == Some(t[i].1)
  {
    if i > 0 {
      GetEntry(t[1..], i - 1);
    }
  }

  lemma {:induction false} GetSome<K, V>(t: Table<K, V>, k: K)
    requires Get(t, k).Some?
    ensures exists i :: 0 <= i < |t| && t[i].0 == k && Get(t, k) == Some(t[i].1)
  {
    if t[0].0 != k {
      GetSome(t[1..], k);
      var i :| 0 <= i < |t[1..]| && t[1..][i].0 == k && Get(t[1..], k) == Some(t[1..][i].1);
      assert t[i + 1].0 == k;
    }
  }

  /** Small groupings, spelled out. */
  lemma GroupByOne<K, V>(p: V, key: V -> K)
    ensures GroupBy([p], key) == [(key(p), [p])]
  {
    assert [p][..0] == [];
    assert AddAll([], [p][..0], key) == [];
  }

  lemma GroupByPair<K, V>(p: V, q: V, key: V -> K)
    requires key(p) == key(q)
    ensures GroupBy([p, q], key) == [(key(p), [p, q])]
  {
    assert [p, q][..1] == [p];
    GroupByOne(p, key);
    var t := [(key(p), [p])];
    assert t[0].0 == key(q) && t[1..] == [] && [p] + [q] == [p, q];
    assert Add(t, key(q), q) == [(key(q), [p] + [q])] + t[1..];
  }

  lemma GroupByPairThenOne<K, V>(p: V, q: V, r: V, key: V -> K)
    requires key(p) == key(q) && key(r) != key(p)
    ensures GroupBy([p, q, r], key) == [(key(p), [p, q]), (key(r), [r])]
  {
    assert [p, q, r][..2] == [p, q];
    GroupByPair(p, q, key);
    var t := [(key(p), [p, q])];
    assert Add(t, key(r), r) == [t[0]] + Add(t[1..], key(r), r);
    assert t[1..] == [];
  }

  lemma GroupByInterleaved<K, V>(p: V, q: V, r: V, w: V, key: V -> K)
    requires key(p) == key(r) && key(q) == key(w) && key(p) != key(q)
    ensures GroupBy([p, q, r, w], key) == [(key(p), [p, r]), (key(q), [q, w])]
  {
    assert [p, q, r, w][..3] == [p, q, r] && [p, q, r][..2] == [p, q] && [p, q][..1] == [p];
    GroupByOne(p, key);
    var t1 := [(key(p), [p])];
    assert GroupBy([p, q], key) == t1 + [(key(q), [q])] by {
      assert Add(t1, key(q), q) == [t1[0]] + Add(t1[1..], key(q), q);
      assert t1[1..] == [];
    }
    var t2 := t1 + [(key(q), [q])];
    var t3 := [(key(p), [p, r]), (key(q), [q])];
    assert GroupBy([p, q, r], key) == t3 by {
      assert t2[0].0 == key(r) && t2[1..] == [(key(q), [q])] && [p] + [r] == [p, r];
      assert Add(t2, key(r), r) == [(key(r), t2[0].1 + [r])] + t2[1..];
    }
    assert GroupBy([p, q, r, w], key) == [(key(p), [p, r]), (key(q), [q, w])] by {
      var u := t3[1..];
      assert u == [(key(q), [q])] && u[0].0 == key(w) && u[1..] == [] && [q] + [w] == [q, w];
      assert Add(u, key(w), w) == [(key(w), u[0].1 + [w])] + u[1..];
      assert Add(t3, key(w), w) == [t3[0]] + Add(u, key(w), w);
    }
  }

  lemma SelectMiddlePair<K, V>(a: V, b: V, c: V, d: V, key: V -> K, k: K)
    requires key(a) != k && key(b) == k && key(c) == k && key(d) != k
    ensures Select([a, b, c, d], key, k) == [b, c]
  {
    var xs := [a, b, c, d];
    assert xs[..3] == [a, b, c] && [a, b, c][..2] == [a, b] && [a, b][..1] == [a] && [a][..0] == [];
    assert Select([a], key, k) == [];
    assert Select([a, b], key, k) == [b];
    assert Select([a, b, c], key, k) == [b, c];
  }

  /** Looking up an element's key in `GroupBy` yields that key's whole group. */
  lemma GetGroupBy<K, V>(xs: seq<V>, key: V -> K, x: V)
    requires x in xs
    ensures Get(GroupBy(xs, key), key(x)) == Some(Select(xs, key, key(x)))
  {
    var g := GroupBy(xs, key);
    GroupByKeys(xs, key);
    GroupByGroups(xs, key);
    FirstKeysProps(MapKey(xs, key));
    var i :| 0 <= i < |xs| && xs[i] == x;
    assert MapKey(xs, key)[i] == key(x);
    assert key(x) in MapKey(xs, key);
    assert key(x) in FirstKeys(MapKey(xs, key));
    var m :| 0 <= m < |g| && Keys(g)[m] == key(x);
    GetEntry(g, m);
  }

  /** The first element of a group is the first input element with that key. */
  lemma {:induction false} SelectFirst<K, V>(xs: seq<V>, key: V -> K, k: K, i: nat)
    requires i < |xs| && key(xs[i]) == k
    requires forall j :: 0 <= j < i ==> key(xs[j]) != k
    ensures Select(xs, key, k) != [] && Select(xs, key, k)[0] == xs[i]
  {
    if i < |xs| - 1 {
      SelectFirst(xs[..|xs| - 1], key, k, i);
    } else {
      SelectAbsent(xs[..|xs| - 1], key, k);
    }
  }

  lemma {:induction false} SelectMember<K, V>(xs: seq<V>, key: V -> K, x: V)
    ensures x in Select(xs, key, key(x)) <==> x in xs
  {
    if xs != [] {
      SelectMember(xs[..|xs| - 1], key, x);
      assert xs == xs[..|xs| - 1] + [xs[|xs| - 1]];
    }
  }
}
