/** The array operations the pages call: `filter` by a key, the last element
    pushed, and `sort` with a comparator. Since ECMAScript 2019 `sort` is
    stable; it is modelled by a stable insertion sort, and SortedSelectEqual
    shows that any stable sort under a consistent comparator gives the same
    result. */
module JsArray {
  import opened JsValues

  /** `s.filter(x => key(x) === k)`: the elements whose key is `k`, in input order. */
  function Select<T, K(==)>(s: seq<T>, key: T -> K, k: K): (r: seq<T>)
    ensures |r| <= |s|
  {
    if s == [] then []
    else
      assert s == [s[0]] + s[1..];
      (if key(s[0]) == k then [s[0]] else []) + Select(s[1..], key, k)
  }

  /** The selected elements are exactly the elements of `s` with key `k`. */
  lemma {:induction false} SelectMembers<T, K>(s: seq<T>, key: T -> K, k: K)
    ensures forall x :: x in Select(s, key, k) <==> x in s && key(x) == k
  {
    if s != [] {
      SelectMembers(s[1..], key, k);
      assert s == [s[0]] + s[1..];
    }
  }

  /** Selecting from one more element at the front. */
  lemma SelectCons<T, K>(x: T, s: seq<T>, key: T -> K, k: K)
    ensures Select([x] + s, key, k) == (if key(x) == k then [x] else []) + Select(s, key, k)
  {
    assert ([x] + s)[1..] == s;
  }

  lemma {:induction false} SelectAppend<T, K>(a: seq<T>, b: seq<T>, key: T -> K, k: K)
    ensures Select(a + b, key, k) == Select(a, key, k) + Select(b, key, k)
  {
    if a != [] {
      assert a + b == [a[0]] + (a[1..] + b);
      SelectCons(a[0], a[1..] + b, key, k);
      SelectCons(a[0], a[1..], key, k);
      assert a == [a[0]] + a[1..];
      SelectAppend(a[1..], b, key, k);
      var c := if key(a[0]) == k then [a[0]] else [];
      assert c + (Select(a[1..], key, k) + Select(b, key, k)) == (c + Select(a[1..], key, k)) + Select(b, key, k);
    } else {
      assert a + b == b;
    }
  }

  /** Selecting from one more element at the end, as a loop that pushes does. */
  lemma SelectSnoc<T, K>(s: seq<T>, x: T, key: T -> K, k: K)
    ensures Select(s + [x], key, k) == if key(x) == k then Select(s, key, k) + [x] else Select(s, key, k)
  {
    SelectAppend(s, [x], key, k);
    if key(x) != k {
      assert Select(s, key, k) + [] == Select(s, key, k);
    }
  }

  /** When every element has one of three different keys, the three
      selections together hold every element exactly once. */
  lemma {:induction false} SelectPartition3<T, K>(s: seq<T>, key: T -> K, k1: K, k2: K, k3: K)
    requires k1 != k2 && k1 != k3 && k2 != k3
    requires forall x :: x in s ==> key(x) == k1 || key(x) == k2 || key(x) == k3
    ensures multiset(s) == multiset(Select(s, key, k1)) + multiset(Select(s, key, k2)) + multiset(Select(s, key, k3))
  {
    if s != [] {
      var x, rest := s[0], s[1..];
      assert s == [x] + rest;
      SelectPartition3(rest, key, k1, k2, k3);
      SelectCons(x, rest, key, k1);
      SelectCons(x, rest, key, k2);
      SelectCons(x, rest, key, k3);
    }
  }

  /** The same for four different keys. */
  lemma {:induction false} SelectPartition4<T, K>(s: seq<T>, key: T -> K, k1: K, k2: K, k3: K, k4: K)
    requires k1 != k2 && k1 != k3 && k1 != k4 && k2 != k3 && k2 != k4 && k3 != k4
    requires forall x :: x in s ==> key(x) == k1 || key(x) == k2 || key(x) == k3 || key(x) == k4
    ensures multiset(s) == multiset(Select(s, key, k1)) + multiset(Select(s, key, k2))
      + multiset(Select(s, key, k3)) + multiset(Select(s, key, k4))
  {
    if s != [] {
      var x, rest := s[0], s[1..];
      assert s == [x] + rest;
      SelectPartition4(rest, key, k1, k2, k3, k4);
      SelectCons(x, rest, key, k1);
      SelectCons(x, rest, key, k2);
      SelectCons(x, rest, key, k3);
      SelectCons(x, rest, key, k4);
    }
  }

  /** Everything is selected when every element has the key. */
  lemma {:induction false} SelectAll<T, K>(s: seq<T>, key: T -> K, k: K)
    requires forall x :: x in s ==> key(x) == k
    ensures Select(s, key, k) == s
  {
    if s != [] {
      assert s == [s[0]] + s[1..];
      SelectAll(s[1..], key, k);
    }
  }

  /** Two keys that pick out the same elements select the same list. */
  lemma {:induction false} SelectSameKey<T, K1, K2>(s: seq<T>, key1: T -> K1, k1: K1, key2: T -> K2, k2: K2)
    requires forall x :: x in s ==> (key1(x) == k1 <==> key2(x) == k2)
    ensures Select(s, key1, k1) == Select(s, key2, k2)
  {
    if s != [] {
      assert s == [s[0]] + s[1..];
      SelectSameKey(s[1..], key1, k1, key2, k2);
    }
  }

  /** Nothing is selected when no element has the key. */
  lemma SelectNone<T, K>(s: seq<T>, key: T -> K, k: K)
    requires forall x :: x in s ==> key(x) != k
    ensures Select(s, key, k) == []
  {
    SelectMembers(s, key, k);
  }

  /** Three blocks, each of one key: selecting a key gives back its block. */
  lemma SelectBlocks3<T, K>(a: seq<T>, b: seq<T>, c: seq<T>, key: T -> K, ka: K, kb: K, kc: K, k: K)
    requires ka != kb && kb != kc && ka != kc
    requires forall x :: x in a ==> key(x) == ka
    requires forall x :: x in b ==> key(x) == kb
    requires forall x :: x in c ==> key(x) == kc
    ensures Select(a + b + c, key, k) == if k == ka then a else if k == kb then b else if k == kc then c else []
  {
    SelectAppend(a + b, c, key, k);
    SelectAppend(a, b, key, k);
    if k == ka {
      SelectAll(a, key, k);
      SelectNone(b, key, k);
      SelectNone(c, key, k);
      assert a + [] + [] == a;
    } else if k == kb {
      SelectNone(a, key, k);
      SelectAll(b, key, k);
      SelectNone(c, key, k);
      assert [] + b + [] == b;
    } else if k == kc {
      SelectNone(a, key, k);
      SelectNone(b, key, k);
      SelectAll(c, key, k);
      assert [] + [] + c == c;
    } else {
      SelectNone(a, key, k);
      SelectNone(b, key, k);
      SelectNone(c, key, k);
    }
  }

  /** Three blocks of one key each, with no key before an earlier block's,
      are sorted. */
  lemma SortedBlocks3<T, K>(a: seq<T>, b: seq<T>, c: seq<T>, key: T -> K, lt: (K, K) -> bool, ka: K, kb: K, kc: K)
    requires forall x :: x in a ==> key(x) == ka
    requires forall x :: x in b ==> key(x) == kb
    requires forall x :: x in c ==> key(x) == kc
    requires !lt(ka, ka) && !lt(kb, kb) && !lt(kc, kc)
    requires !lt(kb, ka) && !lt(kc, ka) && !lt(kc, kb)
    ensures SortedBy(a + b + c, key, lt)
  {
    var r := a + b + c;
    forall i | 0 <= i < |r|
      ensures key(r[i]) == if i < |a| then ka else if i < |a| + |b| then kb else kc
    {
      if i < |a| {
        assert r[i] == a[i] && a[i] in a;
      } else if i < |a| + |b| {
        assert r[i] == b[i - |a|] && b[i - |a|] in b;
      } else {
        assert r[i] == c[i - |a| - |b|] && c[i - |a| - |b|] in c;
      }
    }
  }

  /** Selecting by `key2` among the elements selected by `key1` is selecting
      by `key3` when the two conditions together say the same as the third. */
  lemma {:induction false} SelectNested<T, K1, K2, K3>(s: seq<T>, key1: T -> K1, k1: K1, key2: T -> K2, k2: K2, key3: T -> K3, k3: K3)
    requires forall x :: x in s ==> (key1(x) == k1 && key2(x) == k2 <==> key3(x) == k3)
    ensures Select(Select(s, key1, k1), key2, k2) == Select(s, key3, k3)
  {
    if s != [] {
      assert s[0] in s;
      assert forall x :: x in s[1..] ==> x in s;
      SelectNested(s[1..], key1, k1, key2, k2, key3, k3);
      var inner := Select(s[1..], key1, k1);
      if key1(s[0]) == k1 {
        assert Select(s, key1, k1) == [s[0]] + inner;
        SelectCons(s[0], inner, key2, k2);
      } else {
        assert Select(s, key1, k1) == inner;
        assert key3(s[0]) != k3;
      }
    }
  }

  /** The last selected element is the last element of `s` with the key. */
  lemma {:induction false} SelectLast<T, K>(s: seq<T>, key: T -> K, k: K)
    requires Select(s, key, k) != []
    ensures var sel := Select(s, key, k);
      exists i :: 0 <= i < |s| && s[i] == sel[|sel| - 1] && key(s[i]) == k &&
        forall j :: i < j < |s| ==> key(s[j]) != k
  {
    var n := |s| - 1;
    var init := s[..n];
    assert s == init + [s[n]];
    SelectSnoc(init, s[n], key, k);
    var sel := Select(s, key, k);
    if key(s[n]) != k {
      SelectLast(init, key, k);
      var i :| 0 <= i < |init| && init[i] == sel[|sel| - 1] && key(init[i]) == k &&
        forall j :: i < j < |init| ==> key(init[j]) != k;
      assert s[i] == init[i];
      forall j | i < j < |s|
        ensures key(s[j]) != k
      {
        if j < n {
          assert s[j] == init[j];
        }
      }
    } else {
      assert s[n] == sel[|sel| - 1];
    }
  }

  /** The last element of a sequence, or `null` for an empty one. */
  function Last<T>(s: seq<T>): (r: Option<T>)
    ensures r == None <==> s == []
    ensures r.Some? ==> r.value == s[|s| - 1]
  {
    if s == [] then None else Some(s[|s| - 1])
  }

  ghost function KeySet<T, K>(s: seq<T>, key: T -> K): set<K>
  {
    set x | x in s :: key(x)
  }

  /** `lt` is a strict total order on the keys `ks`: the comparator is consistent there. */
  ghost predicate StrictTotalOn<K>(lt: (K, K) -> bool, ks: set<K>)
  {
    && (forall a :: a in ks ==> !lt(a, a))
    && (forall a, b, c :: a in ks && b in ks && c in ks && lt(a, b) && lt(b, c) ==> lt(a, c))
    && (forall a, b :: a in ks && b in ks && a != b ==> lt(a, b) || lt(b, a))
  }

  /** No element is strictly before an earlier one. */
  ghost predicate SortedBy<T, K>(s: seq<T>, key: T -> K, lt: (K, K) -> bool)
  {
    forall i, j :: 0 <= i < j < |s| ==> !lt(key(s[j]), key(s[i]))
  }

  /** `r` keeps, for every key, the elements of `s` with that key in their input order. */
  ghost predicate StableFor<T, K(!new)>(r: seq<T>, s: seq<T>, key: T -> K)
  {
    forall k :: Select(r, key, k) == Select(s, key, k)
  }

  /** Sorting keeps exactly the elements it was given. */
  lemma SortByMembers<T, K>(s: seq<T>, key: T -> K, lt: (K, K) -> bool)
    ensures forall x :: x in SortBy(s, key, lt) <==> x in s
  {
    var r := SortBy(s, key, lt);
    assert forall x :: x in r <==> x in multiset(r);
    assert forall x :: x in s <==> x in multiset(s);
  }

  /** Inserts `x` before the first element of `t` that is not strictly before it. */
  function Insert<T, K>(x: T, t: seq<T>, key: T -> K, lt: (K, K) -> bool): (r: seq<T>)
    ensures multiset(r) == multiset(t) + multiset{x}
  {
    if t == [] || !lt(key(t[0]), key(x)) then [x] + t
    else
      assert t == [t[0]] + t[1..];
      [t[0]] + Insert(x, t[1..], key, lt)
  }

  /** `s.sort((a, b) => cmp(a, b))` where `lt(key(a), key(b))` holds exactly
      when the comparator is negative. */
  function SortBy<T, K>(s: seq<T>, key: T -> K, lt: (K, K) -> bool): (r: seq<T>)
    ensures multiset(r) == multiset(s)
    ensures |r| == |s|
  {
    if s == [] then []
    else
      assert s == [s[0]] + s[1..];
      Insert(s[0], SortBy(s[1..], key, lt), key, lt)
  }

  lemma {:induction false} InsertStable<T, K>(x: T, t: seq<T>, key: T -> K, lt: (K, K) -> bool, k: K)
    requires !lt(key(x), key(x))
    ensures Select(Insert(x, t, key, lt), key, k) == Select([x] + t, key, k)
  {
    if t != [] && lt(key(t[0]), key(x)) {
      var rest := Insert(x, t[1..], key, lt);
      assert Insert(x, t, key, lt) == [t[0]] + rest;
      var cx := if key(x) == k then [x] else [];
      var c0 := if key(t[0]) == k then [t[0]] else [];
      var tail := Select(t[1..], key, k);
      InsertStable(x, t[1..], key, lt, k);
      SelectCons(x, t[1..], key, k);
      SelectCons(t[0], rest, key, k);
      assert Select([t[0]] + rest, key, k) == c0 + (cx + tail);
      assert Select(t, key, k) == c0 + tail;
      SelectCons(x, t, key, k);
      assert Select([x] + t, key, k) == cx + (c0 + tail);
      // the two keys differ, so at most one of the two heads is selected
      if c0 == [] {
        assert c0 + (cx + tail) == cx + tail == cx + (c0 + tail);
      } else {
        assert cx == [];
        assert c0 + (cx + tail) == c0 + tail == cx + (c0 + tail);
      }
    } else {
      assert Insert(x, t, key, lt) == [x] + t;
    }
  }

  /** The sort keeps equal-keyed elements in input order; only an irreflexive
      comparator is needed for that. */
  lemma {:induction false} SortByStable<T, K(!new)>(s: seq<T>, key: T -> K, lt: (K, K) -> bool)
    requires forall x :: x in s ==> !lt(key(x), key(x))
    ensures StableFor(SortBy(s, key, lt), s, key)
  {
    if s != [] {
      var tail := SortBy(s[1..], key, lt);
      SortByStable(s[1..], key, lt);
      forall k
        ensures Select(SortBy(s, key, lt), key, k) == Select(s, key, k)
      {
        InsertStable(s[0], tail, key, lt, k);
        assert ([s[0]] + tail)[1..] == tail;
      }
    }
  }

  lemma {:induction false} InsertSorted<T, K>(x: T, t: seq<T>, key: T -> K, lt: (K, K) -> bool)
    requires SortedBy(t, key, lt)
    requires StrictTotalOn(lt, KeySet(t, key) + {key(x)})
    ensures SortedBy(Insert(x, t, key, lt), key, lt)
  {
    if t == [] {
    } else if !lt(key(t[0]), key(x)) {
      InsertFrontSorted(x, t, key, lt);
    } else {
      var rest := Insert(x, t[1..], key, lt);
      assert KeySet(t[1..], key) <= KeySet(t, key);
      InsertSorted(x, t[1..], key, lt);
      InsertRestAfterHead(x, t, key, lt);
      assert Insert(x, t, key, lt) == [t[0]] + rest;
    }
  }

  /** Putting `x` in front of a sorted list whose head is not before it keeps it sorted. */
  lemma InsertFrontSorted<T, K>(x: T, t: seq<T>, key: T -> K, lt: (K, K) -> bool)
    requires t != [] && !lt(key(t[0]), key(x))
    requires SortedBy(t, key, lt)
    requires StrictTotalOn(lt, KeySet(t, key) + {key(x)})
    ensures SortedBy([x] + t, key, lt)
  {
    var ks := KeySet(t, key) + {key(x)};
    var r := [x] + t;
    forall j | 0 < j < |r|
      ensures !lt(key(r[j]), key(x))
    {
      assert r[j] == t[j - 1] && t[j - 1] in t && t[0] in t;
      assert key(t[j - 1]) in ks && key(t[0]) in ks;
      if j > 1 {
        assert !lt(key(t[j - 1]), key(t[0]));
      }
    }
  }

  /** When `x` goes after the head, nothing inserted into the tail is before the head. */
  lemma InsertRestAfterHead<T, K>(x: T, t: seq<T>, key: T -> K, lt: (K, K) -> bool)
    requires t != [] && lt(key(t[0]), key(x))
    requires SortedBy(t, key, lt)
    requires StrictTotalOn(lt, KeySet(t, key) + {key(x)})
    ensures forall j :: 0 <= j < |Insert(x, t[1..], key, lt)| ==> !lt(key(Insert(x, t[1..], key, lt)[j]), key(t[0]))
  {
    var rest := Insert(x, t[1..], key, lt);
    assert key(t[0]) in KeySet(t, key) + {key(x)};
    forall j | 0 <= j < |rest|
      ensures !lt(key(rest[j]), key(t[0]))
    {
      assert rest[j] in multiset(rest);
      if rest[j] != x {
        assert rest[j] in t[1..];
        var m :| 0 <= m < |t[1..]| && t[1..][m] == rest[j];
        assert t[m + 1] == rest[j];
      }
    }
  }

  /** Under a comparator that is consistent on the keys present, the result is sorted. */
  lemma {:induction false} SortBySorted<T, K>(s: seq<T>, key: T -> K, lt: (K, K) -> bool)
    requires StrictTotalOn(lt, KeySet(s, key))
    ensures SortedBy(SortBy(s, key, lt), key, lt)
  {
    if s != [] {
      var tail := SortBy(s[1..], key, lt);
      assert KeySet(s[1..], key) <= KeySet(s, key);
      SortBySorted(s[1..], key, lt);
      forall y | y in tail
        ensures key(y) in KeySet(s, key)
      {
        assert y in multiset(tail);
        assert y in s[1..];
      }
      assert KeySet(tail, key) + {key(s[0])} <= KeySet(s, key);
      InsertSorted(s[0], tail, key, lt);
    }
  }

  /** A stable rearrangement of a non-empty list is not empty. */
  lemma StableNonEmpty<T, K(!new)>(a: seq<T>, b: seq<T>, key: T -> K)
    requires StableFor(a, b, key) && a != []
    ensures b != []
  {
    SelectMembers(a, key, key(a[0]));
    assert a[0] in Select(a, key, key(a[0]));
    assert Select(b, key, key(a[0])) != [];
  }

  /** Two sorted lists that agree on every key's selection start with the
      same element. */
  lemma SortedSameHead<T, K(!new)>(a: seq<T>, b: seq<T>, key: T -> K, lt: (K, K) -> bool)
    requires a != [] && b != []
    requires SortedBy(a, key, lt) && SortedBy(b, key, lt)
    requires StrictTotalOn(lt, KeySet(a, key) + KeySet(b, key))
    requires StableFor(a, b, key)
    ensures a[0] == b[0]
  {
    var ka, kb := key(a[0]), key(b[0]);
    assert ka in KeySet(a, key) + KeySet(b, key) && kb in KeySet(a, key) + KeySet(b, key);
    if ka != kb {
      // b holds an element with key ka, so ka is not before kb; and the other way round
      SelectMembers(a, key, ka);
      SelectMembers(b, key, ka);
      assert Select(a, key, ka) == Select(b, key, ka);
      assert a[0] in b;
      SelectMembers(a, key, kb);
      SelectMembers(b, key, kb);
      assert false;
    }
    assert Select(a, key, ka) == Select(b, key, ka);
    assert Select(a, key, ka) == [a[0]] + Select(a[1..], key, ka);
    assert Select(b, key, ka) == [b[0]] + Select(b[1..], key, ka);
    assert a[0] == Select(a, key, ka)[0] == b[0];
  }

  /** Dropping the same first element keeps every key's selection equal. */
  lemma StableTails<T, K(!new)>(a: seq<T>, b: seq<T>, key: T -> K)
    requires a != [] && b != [] && a[0] == b[0]
    requires StableFor(a, b, key)
    ensures StableFor(a[1..], b[1..], key)
  {
    forall k
      ensures Select(a[1..], key, k) == Select(b[1..], key, k)
    {
      var c := if key(a[0]) == k then [a[0]] else [];
      assert Select(a, key, k) == c + Select(a[1..], key, k);
      assert Select(b, key, k) == c + Select(b[1..], key, k);
      assert (c + Select(a[1..], key, k))[|c|..] == Select(a[1..], key, k);
      assert (c + Select(b[1..], key, k))[|c|..] == Select(b[1..], key, k);
    }
  }

  /** Two sorted lists that agree on every key's selection are equal. */
  lemma {:induction false} SortedSelectEqual<T, K(!new)>(a: seq<T>, b: seq<T>, key: T -> K, lt: (K, K) -> bool)
    requires SortedBy(a, key, lt) && SortedBy(b, key, lt)
    requires StrictTotalOn(lt, KeySet(a, key) + KeySet(b, key))
    requires StableFor(a, b, key)
    ensures a == b
  {
    if a != [] {
      StableNonEmpty(a, b, key);
    }
    if b != [] {
      assert StableFor(b, a, key);
      StableNonEmpty(b, a, key);
    }
    if a != [] && b != [] {
      SortedSameHead(a, b, key, lt);
      StableTails(a, b, key);
      assert KeySet(a[1..], key) + KeySet(b[1..], key) <= KeySet(a, key) + KeySet(b, key);
      SortedSelectEqual(a[1..], b[1..], key, lt);
      assert a == [a[0]] + a[1..] && b == [b[0]] + b[1..];
    }
  }

  /** Any sorted rearrangement that keeps equal-keyed elements in input order
      is exactly what SortBy returns. */
  lemma SortByUnique<T, K(!new)>(s: seq<T>, r: seq<T>, key: T -> K, lt: (K, K) -> bool)
    requires StrictTotalOn(lt, KeySet(s, key))
    requires SortedBy(r, key, lt) && StableFor(r, s, key)
    ensures r == SortBy(s, key, lt)
  {
    var sorted := SortBy(s, key, lt);
    SortBySorted(s, key, lt);
    SortByStable(s, key, lt);
    forall y | y in r
      ensures key(y) in KeySet(s, key)
    {
      SelectMembers(r, key, key(y));
      SelectMembers(s, key, key(y));
      assert Select(r, key, key(y)) == Select(s, key, key(y));
    }
    forall y | y in sorted
      ensures key(y) in KeySet(s, key)
    {
      assert y in multiset(sorted);
    }
    assert KeySet(r, key) + KeySet(sorted, key) <= KeySet(s, key);
    SortedSelectEqual(r, sorted, key, lt);
  }
}
