/** The array functions the collection's derived operations are built on:
    array_filter, array_map, array_unique and array_slice over the store, and
    the value-rewrite that apply() performs. */
module Transforms {
  import opened Store

  /** a is b with some entries left out, the rest in their original order. */
  ghost predicate Subsequence<T>(a: seq<T>, b: seq<T>)
    decreases |b|
  {
    a == [] || (b != [] && ((a[0] == b[0] && Subsequence(a[1..], b[1..])) || Subsequence(a, b[1..])))
  }

  /** A subsequence of a store with distinct keys has distinct keys. */
  lemma {:induction false} SubsequenceDistinct<V>(a: seq<Entry<V>>, b: seq<Entry<V>>)
    requires Subsequence(a, b) && KeysDistinct(b)
    ensures KeysDistinct(a) && |a| <= |b|
    ensures forall e :: e in a ==> e in b
    decreases |b|
  {
    if a != [] {
      assert KeysDistinct(b[1..]) by {
        assert forall j :: 0 <= j < |b| - 1 ==> b[1..][j] == b[j + 1];
      }
      if a[0] == b[0] && Subsequence(a[1..], b[1..]) {
        SubsequenceDistinct(a[1..], b[1..]);
        assert a == [a[0]] + a[1..];
        forall i, j | 0 <= i < j < |a| ensures a[i].key != a[j].key {
          if i == 0 {
            assert a[j] in a[1..];
            var m :| 0 <= m < |b| - 1 && b[1..][m] == a[j];
            assert b[m + 1] == a[j];
          } else {
            assert a[i] == a[1..][i - 1] && a[j] == a[1..][j - 1];
          }
        }
      } else {
        SubsequenceDistinct(a, b[1..]);
      }
    }
  }

  /** array_filter($array, $fn, ARRAY_FILTER_USE_BOTH): the entries whose
      (value, key) satisfy p, under their original keys. */
  function Filter<V>(s: seq<Entry<V>>, p: (V, Key) -> bool): (r: seq<Entry<V>>)
    ensures |r| <= |s|
  {
    if s == [] then []
    else if p(s[0].value, s[0].key) then [s[0]] + Filter(s[1..], p)
    else Filter(s[1..], p)
  }

  /** Filtering keeps exactly the entries that satisfy p, in their original order. */
  lemma {:induction false} FilterMembers<V>(s: seq<Entry<V>>, p: (V, Key) -> bool)
    ensures forall e :: e in Filter(s, p) ==> e in s && p(e.value, e.key)
    ensures forall e :: e in s && p(e.value, e.key) ==> e in Filter(s, p)
    ensures Subsequence(Filter(s, p), s)
  {
    if s != [] {
      FilterMembers(s[1..], p);
      assert s == [s[0]] + s[1..];
      if p(s[0].value, s[0].key) {
        var rest := Filter(s[1..], p);
        assert ([s[0]] + rest)[1..] == rest;
      }
    }
  }

  /** Filtering a concatenation filters each part. */
  lemma {:induction false} FilterConcat<V>(a: seq<Entry<V>>, b: seq<Entry<V>>, p: (V, Key) -> bool)
    ensures Filter(a + b, p) == Filter(a, p) + Filter(b, p)
  {
    if a != [] {
      assert (a + b)[1..] == a[1..] + b;
      FilterConcat(a[1..], b, p);
    } else {
      assert a + b == b;
    }
  }

  /** Filtering by p and by its negation: the two sizes add up to the size of s. */
  lemma {:induction false} FilterSizes<V>(s: seq<Entry<V>>, p: (V, Key) -> bool, q: (V, Key) -> bool)
    requires forall v, k :: q(v, k) == !p(v, k)
    ensures |Filter(s, p)| + |Filter(s, q)| == |s|
  {
    if s != [] {
      FilterSizes(s[1..], p, q);
    }
  }

  /** Filtering by p and by its negation splits the entries in two: each entry
      lands in exactly one part. */
  lemma FilterPartition<V>(s: seq<Entry<V>>, p: (V, Key) -> bool, q: (V, Key) -> bool)
    requires forall v, k :: q(v, k) == !p(v, k)
    ensures forall e :: e in s ==> (e in Filter(s, p) <==> e !in Filter(s, q))
  {
    FilterMembers(s, p);
    FilterMembers(s, q);
  }

  /** Filtering keeps a key exactly when it was present and its entry satisfies p. */
  lemma FilterFind<V>(s: seq<Entry<V>>, p: (V, Key) -> bool, k: Key)
    requires KeysDistinct(s)
    ensures KeysDistinct(Filter(s, p))
    ensures Find(Filter(s, p), k) == if Find(s, k).Some? && p(Find(s, k).value, k) then Find(s, k) else None
  {
    var r := Filter(s, p);
    assert KeysDistinct(r) by {
      FilterMembers(s, p);
      SubsequenceDistinct(r, s);
    }
    if i :| 0 <= i < |s| && s[i].key == k {
      FindIndex(s, i);
      if p(s[i].value, k) {
        assert s[i] in r by {
          FilterMembers(s, p);
        }
        var j :| 0 <= j < |r| && r[j] == s[i];
        FindIndex(r, j);
      } else {
        FilterNoKey(s, p, k);
      }
    } else {
      FilterNoKey(s, p, k);
    }
  }

  /** A key whose entry is absent or fails p is absent after filtering. */
  lemma FilterNoKey<V>(s: seq<Entry<V>>, p: (V, Key) -> bool, k: Key)
    requires KeysDistinct(s)
    requires forall i :: 0 <= i < |s| && s[i].key == k ==> !p(s[i].value, k)
    ensures Find(Filter(s, p), k).None?
  {
    var r := Filter(s, p);
    FilterMembers(s, p);
    forall j | 0 <= j < |r| ensures r[j].key != k {
      assert r[j] in s;
    }
  }


  /** array_map($fn, $array) with one array: same keys, same order, each value mapped. */
  function MapValues<V, U>(s: seq<Entry<V>>, f: V -> U): (r: seq<Entry<U>>)
    ensures |r| == |s|
  {
    seq(|s|, i requires 0 <= i < |s| => Entry(s[i].key, f(s[i].value)))
  }

  /** Mapping keeps the keys and their order, and a key's value becomes f of its old value. */
  lemma MapValuesFind<V, U>(s: seq<Entry<V>>, f: V -> U, k: Key)
    requires KeysDistinct(s)
    ensures KeysOf(MapValues(s, f)) == KeysOf(s) && KeysDistinct(MapValues(s, f))
    ensures Find(MapValues(s, f), k) == if Find(s, k).Some? then Some(f(Find(s, k).value)) else None
  {
    var r := MapValues(s, f);
    assert KeysOf(r) == KeysOf(s) && KeysDistinct(r) by {
      assert forall i :: 0 <= i < |s| ==> r[i].key == s[i].key;
    }
    if i :| 0 <= i < |s| && s[i].key == k {
      FindIndex(s, i);
      FindIndex(r, i);
    } else {
      assert forall i :: 0 <= i < |r| ==> r[i].key != k;
    }
  }

  /** What apply() leaves in the store: each value replaced by f(value, key). */
  function ApplyEach<V>(s: seq<Entry<V>>, f: (V, Key) -> V): (r: seq<Entry<V>>)
    ensures |r| == |s|
  {
    seq(|s|, i requires 0 <= i < |s| => Entry(s[i].key, f(s[i].value, s[i].key)))
  }

  /** apply() keeps the keys and their order, and a key's value becomes f(old value, key). */
  lemma ApplyEachFind<V>(s: seq<Entry<V>>, f: (V, Key) -> V, k: Key)
    requires KeysDistinct(s)
    ensures KeysOf(ApplyEach(s, f)) == KeysOf(s) && KeysDistinct(ApplyEach(s, f))
    ensures Find(ApplyEach(s, f), k) == if Find(s, k).Some? then Some(f(Find(s, k).value, k)) else None
  {
    var r := ApplyEach(s, f);
    assert KeysOf(r) == KeysOf(s) && KeysDistinct(r) by {
      assert forall i :: 0 <= i < |s| ==> r[i].key == s[i].key;
    }
    if i :| 0 <= i < |s| && s[i].key == k {
      FindIndex(s, i);
      FindIndex(r, i);
    } else {
      assert forall i :: 0 <= i < |r| ==> r[i].key != k;
    }
  }

  /** No value occurs twice. */
  ghost predicate ValuesDistinct<V>(s: seq<Entry<V>>)
  {
    forall i, j :: 0 <= i < j < |s| ==> s[i].value != s[j].value
  }

  /** The entries of s whose value is not in seen and was not met earlier in s. */
  function UniquesFrom<V(==)>(s: seq<Entry<V>>, seen: set<V>): seq<Entry<V>>
  {
    if s == [] then []
    else if s[0].value in seen then UniquesFrom(s[1..], seen)
    else [s[0]] + UniquesFrom(s[1..], seen + {s[0].value})
  }

  /** The entries kept are entries of s, in their order, whose value was not seen. */
  lemma {:induction false} UniquesFromMembers<V>(s: seq<Entry<V>>, seen: set<V>)
    ensures Subsequence(UniquesFrom(s, seen), s)
    ensures forall e :: e in UniquesFrom(s, seen) ==> e in s && e.value !in seen
  {
    if s != [] {
      assert s == [s[0]] + s[1..];
      if s[0].value in seen {
        UniquesFromMembers(s[1..], seen);
      } else {
        var seen' := seen + {s[0].value};
        UniquesFromMembers(s[1..], seen');
        var rest := UniquesFrom(s[1..], seen');
        assert ([s[0]] + rest)[1..] == rest;
      }
    }
  }

  /** array_unique($array): for each value only its first entry, in the original order. */
  function Uniques<V(==)>(s: seq<Entry<V>>): (r: seq<Entry<V>>)
    ensures |r| <= |s|
  {
    UniquesFromCount(s, {});
    UniquesFrom(s, {})
  }

  lemma {:induction false} UniquesFromDistinct<V>(s: seq<Entry<V>>, seen: set<V>)
    ensures ValuesDistinct(UniquesFrom(s, seen))
  {
    if s != [] {
      if s[0].value in seen {
        UniquesFromDistinct(s[1..], seen);
      } else {
        var seen' := seen + {s[0].value};
        var rest := UniquesFrom(s[1..], seen');
        UniquesFromDistinct(s[1..], seen');
        UniquesFromMembers(s[1..], seen');
        var r := UniquesFrom(s, seen);
        assert r == [s[0]] + rest;
        forall i, j | 0 <= i < j < |r| ensures r[i].value != r[j].value {
          assert r[j] == rest[j - 1];
          assert rest[j - 1] in rest;
          if i > 0 {
            assert r[i] == rest[i - 1];
          }
        }
      }
    }
  }

  lemma {:induction false} UniquesFromCovers<V>(s: seq<Entry<V>>, seen: set<V>)
    ensures forall e :: e in s && e.value !in seen ==> exists e' :: e' in UniquesFrom(s, seen) && e'.value == e.value
  {
    if s != [] {
      assert s == [s[0]] + s[1..];
      if s[0].value in seen {
        UniquesFromCovers(s[1..], seen);
      } else {
        var seen' := seen + {s[0].value};
        UniquesFromCovers(s[1..], seen');
        var r := UniquesFrom(s, seen);
        assert r == [s[0]] + UniquesFrom(s[1..], seen');
        assert s[0] in r;
      }
    }
  }

  /** The result of uniques() holds no value twice and still holds every value. */
  lemma UniquesValues<V>(s: seq<Entry<V>>)
    ensures ValuesDistinct(Uniques(s))
    ensures forall e :: e in s ==> exists e' :: e' in Uniques(s) && e'.value == e.value
  {
    UniquesFromDistinct(s, {});
    UniquesFromCovers(s, {});
  }

  lemma {:induction false} UniquesFromFirst<V>(s: seq<Entry<V>>, seen: set<V>, i: nat)
    requires KeysDistinct(s) && i < |s|
    ensures s[i] in UniquesFrom(s, seen) <==>
              s[i].value !in seen && forall j :: 0 <= j < i ==> s[j].value != s[i].value
  {
    var r := UniquesFrom(s, seen);
    UniquesFromMembers(s, seen);
    assert KeysDistinct(s[1..]) by {
      assert forall j :: 0 <= j < |s| - 1 ==> s[1..][j] == s[j + 1];
    }
    if i == 0 {
    } else {
      assert s[1..][i - 1] == s[i];
      assert s[i] != s[0];
      var seen' := if s[0].value in seen then seen else seen + {s[0].value};
      UniquesFromFirst(s[1..], seen', i - 1);
      assert forall j :: 0 <= j < i - 1 ==> s[1..][j] == s[j + 1];
    }
  }

  /** uniques() keeps an entry exactly when no earlier entry has the same value. */
  lemma UniquesKeepsFirst<V>(s: seq<Entry<V>>, i: nat)
    requires KeysDistinct(s) && i < |s|
    ensures s[i] in Uniques(s) <==> forall j :: 0 <= j < i ==> s[j].value != s[i].value
  {
    UniquesFromFirst(s, {}, i);
  }

  lemma {:induction false} UniquesFromCount<V>(s: seq<Entry<V>>, seen: set<V>)
    ensures |UniquesFrom(s, seen)| <= |s|
    ensures |UniquesFrom(s, seen)| == |s| <==> ValuesDistinct(s) && forall e :: e in s ==> e.value !in seen
  {
    if s != [] {
      assert forall j :: 0 <= j < |s| - 1 ==> s[1..][j] == s[j + 1];
      if s[0].value in seen {
        UniquesFromCount(s[1..], seen);
      } else {
        UniquesFromCount(s[1..], seen + {s[0].value});
        if ValuesDistinct(s) {
          forall e | e in s[1..] ensures e.value != s[0].value {
            var j :| 0 <= j < |s| - 1 && s[1..][j] == e;
          }
        }
        if ValuesDistinct(s[1..]) && (forall e :: e in s[1..] ==> e.value !in seen + {s[0].value}) {
          forall i, j | 0 <= i < j < |s| ensures s[i].value != s[j].value {
            assert s[j] in s[1..];
            if i > 0 { assert s[i] == s[1..][i - 1] && s[j] == s[1..][j - 1]; }
          }
        }
      }
    }
  }

  /** uniques() never grows the collection, and keeps its size exactly when no value repeats. */
  lemma UniquesCount<V>(s: seq<Entry<V>>)
    ensures |Uniques(s)| <= |s|
    ensures |Uniques(s)| == |s| <==> ValuesDistinct(s)
  {
    UniquesFromCount(s, {});
  }

  /** The number of integer keys in s. */
  function CountIntKeys<V>(s: seq<Entry<V>>): nat
  {
    if s == [] then 0
    else CountIntKeys(s[..|s| - 1]) + (if s[|s| - 1].key.IntKey? then 1 else 0)
  }

  /** array_slice without preserve_keys re-indexes: string keys are kept, and the
      integer keys become 0, 1, 2, ... in iteration order. */
  function Renumber<V>(s: seq<Entry<V>>): (r: seq<Entry<V>>)
    ensures |r| == |s|
    ensures forall i :: 0 <= i < |s| ==> r[i].value == s[i].value
    ensures forall i :: 0 <= i < |s| && s[i].key.StrKey? ==> r[i].key == s[i].key
    ensures forall i :: 0 <= i < |s| && s[i].key.IntKey? ==> r[i].key == IntKey(CountIntKeys(s[..i]))
  {
    if s == [] then []
    else
      var init := s[..|s| - 1];
      var last := s[|s| - 1];
      var front := Renumber(init);
      assert forall i :: 0 <= i < |s| - 1 ==> init[i] == s[i] && init[..i] == s[..i];
      assert s[..|s| - 1] == init;
      var e := if last.key.IntKey? then Entry(IntKey(CountIntKeys(init)), last.value) else last;
      var r := front + [e];
      assert forall i :: 0 <= i < |s| - 1 ==> r[i] == front[i];
      r
  }

  /** A prefix holds no more integer keys than the whole. */
  lemma {:induction false} CountIntKeysPrefix<V>(s: seq<Entry<V>>, j: nat)
    requires j <= |s|
    ensures CountIntKeys(s[..j]) <= CountIntKeys(s)
  {
    if j < |s| {
      assert s[..|s| - 1][..j] == s[..j];
      CountIntKeysPrefix(s[..|s| - 1], j);
    } else {
      assert s[..j] == s;
    }
  }

  /** An integer key at position i is preceded by fewer integer keys than s holds. */
  lemma CountIntKeysBelow<V>(s: seq<Entry<V>>, i: nat)
    requires i < |s| && s[i].key.IntKey?
    ensures CountIntKeys(s[..i]) < CountIntKeys(s)
  {
    assert s[..i + 1][..i] == s[..i];
    CountIntKeysPrefix(s, i + 1);
  }

  /** Re-indexing keeps distinct keys distinct: two integer keys get different
      numbers, and string keys stay as they were. */
  lemma RenumberDistinct<V>(s: seq<Entry<V>>)
    requires KeysDistinct(s)
    ensures KeysDistinct(Renumber(s))
  {
    var r := Renumber(s);
    forall i, j | 0 <= i < j < |r| ensures r[i].key != r[j].key {
      if s[i].key.IntKey? && s[j].key.IntKey? {
        assert s[..j][..i] == s[..i];
        CountIntKeysBelow(s[..j], i);
      }
    }
  }

  /** The first position array_slice($array, $offset, $length) takes (offset >= 0). */
  function SliceStart(n: nat, offset: nat): nat
  {
    if offset < n then offset else n
  }

  /** One past the last position it takes: to the end when the length is null. */
  function SliceEnd(n: nat, offset: nat, length: Option<nat>): nat
  {
    match length
    case None => n
    case Some(l) => if SliceStart(n, offset) + l < n then SliceStart(n, offset) + l else n
  }

  /** array_slice($array, $offset, $length): the entries at positions offset up
      to offset + length (to the end when the length is null), in order, re-indexed. */
  function Slice<V>(s: seq<Entry<V>>, offset: nat, length: Option<nat>): (r: seq<Entry<V>>)
    ensures |r| <= |s|
    ensures length.Some? ==> |r| <= length.value
  {
    Renumber(s[SliceStart(|s|, offset)..SliceEnd(|s|, offset, length)])
  }

  /** slice() takes the entries from position offset on, at most length of them
      (all of them when the length is null), keeps their values, their order and
      their string keys, and yields distinct keys. */
  lemma SliceEntries<V>(s: seq<Entry<V>>, offset: nat, length: Option<nat>)
    ensures var r := Slice(s, offset, length);
      && |r| == (if offset >= |s| then 0
                 else match length
                      case None => |s| - offset
                      case Some(l) => if l < |s| - offset then l else |s| - offset)
      && (forall i :: 0 <= i < |r| ==> offset + i < |s| && r[i].value == s[offset + i].value)
      && (forall i :: 0 <= i < |r| && s[offset + i].key.StrKey? ==> r[i].key == s[offset + i].key)
  {
    var part := s[SliceStart(|s|, offset)..SliceEnd(|s|, offset, length)];
    assert forall i :: 0 <= i < |part| ==> part[i] == s[offset + i];
  }

  /** slice() of a store yields a store: the re-indexed keys are distinct. */
  lemma SliceDistinct<V>(s: seq<Entry<V>>, offset: nat, length: Option<nat>)
    requires KeysDistinct(s)
    ensures KeysDistinct(Slice(s, offset, length))
  {
    var part := s[SliceStart(|s|, offset)..SliceEnd(|s|, offset, length)];
    assert KeysDistinct(part);
    RenumberDistinct(part);
  }

  /** The store of the traversal scenario once `apply` has doubled it:
      one => 2, two => 4, three => 6, four => 8, duplicated => 4. */
  function Doubled(): seq<Entry<int>>
  {
    [Entry(StrKey("one"), 2), Entry(StrKey("two"), 4), Entry(StrKey("three"), 6),
     Entry(StrKey("four"), 8), Entry(StrKey("duplicated"), 4)]
  }

  /** slice(2) of that store keeps its last three entries, string keys and all. */
  lemma SliceFromTwo()
    ensures Slice(Doubled(), 2, None)
            == [Entry(StrKey("three"), 6), Entry(StrKey("four"), 8), Entry(StrKey("duplicated"), 4)]
  {
    var s := Doubled();
    SliceEntries(s, 2, None);
    var r := Slice(s, 2, None);
    assert r[0] == Entry(StrKey("three"), 6);
    assert r[1] == Entry(StrKey("four"), 8);
    assert r[2] == Entry(StrKey("duplicated"), 4);
  }

  /** The store of the traversal scenario once `add('duplicated', 2)` has run:
      one => 1, two => 2, three => 3, four => 4, duplicated => 2. */
  function WithDuplicate(): seq<Entry<int>>
  {
    [Entry(StrKey("one"), 1), Entry(StrKey("two"), 2), Entry(StrKey("three"), 3),
     Entry(StrKey("four"), 4), Entry(StrKey("duplicated"), 2)]
  }

  /** One step of array_unique: the first entry is kept exactly when its value is new. */
  lemma UniquesFromCons<V>(e: Entry<V>, rest: seq<Entry<V>>, seen: set<V>)
    ensures UniquesFrom([e] + rest, seen)
            == if e.value in seen then UniquesFrom(rest, seen) else [e] + UniquesFrom(rest, seen + {e.value})
  {
    assert ([e] + rest)[1..] == rest;
  }

  /** uniques() of that store drops the later duplicate and keeps the other four entries. */
  lemma UniquesDropsDuplicated()
    ensures Uniques(WithDuplicate()) == WithDuplicate()[..4]
  {
    var e1, e2, e3, e4, e5 := Entry(StrKey("one"), 1), Entry(StrKey("two"), 2), Entry(StrKey("three"), 3),
                              Entry(StrKey("four"), 4), Entry(StrKey("duplicated"), 2);
    var t4, t3, t2 := [e5], [e4, e5], [e3, e4, e5];
    assert UniquesFrom(t4, {1, 2, 3, 4}) == [] by {
      UniquesFromCons(e5, [], {1, 2, 3, 4});
      assert [e5] + [] == t4;
    }
    assert UniquesFrom(t3, {1, 2, 3}) == [e4] by {
      UniquesFromCons(e4, t4, {1, 2, 3});
      assert {1, 2, 3} + {4} == {1, 2, 3, 4} && [e4] + t4 == t3;
    }
    assert UniquesFrom(t2, {1, 2}) == [e3, e4] by {
      UniquesFromCons(e3, t3, {1, 2});
      assert {1, 2} + {3} == {1, 2, 3} && [e3] + t3 == t2;
    }
    assert UniquesFrom([e2] + t2, {1}) == [e2, e3, e4] by {
      UniquesFromCons(e2, t2, {1});
      assert {1} + {2} == {1, 2};
    }
    assert Uniques(WithDuplicate()) == [e1, e2, e3, e4] by {
      UniquesFromCons(e1, [e2] + t2, {});
      assert {} + {1} == {1} && WithDuplicate() == [e1] + ([e2] + t2);
    }
  }
}
