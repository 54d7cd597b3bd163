/** Collection: an ArrayObject whose backing array is the field `entries`,
    with the helper operations of src/Collection.php layered on top. */
module Collections {
  import opened Store
  import opened Errors
  import opened Transforms

  /** The closure remove() filters with: keep the values that are not v. */
  function Differs<V(==)>(v: V): (V, Key) -> bool
  {
    (a: V, k: Key) => a != v
  }

  /** The closure removeAll() filters with: keep the values that the other
      collection (as it was when the call began) does not contain. */
  function NotIn<V(==)>(other: seq<Entry<V>>): (V, Key) -> bool
  {
    (a: V, k: Key) => !ContainsValue(other, a)
  }

  /** removeIf()'s predicate, and its negation, over (value, key). */
  function Holds<V>(p: V -> bool): (V, Key) -> bool
  {
    (a: V, k: Key) => p(a)
  }

  function Fails<V>(p: V -> bool): (V, Key) -> bool
  {
    (a: V, k: Key) => !p(a)
  }

  /** One step of apply(): overwriting the next snapshot key in place. */
  lemma ApplyStep<V>(cur: seq<Entry<V>>, snapshot: seq<Entry<V>>, i: nat, f: (V, Key) -> V)
    requires i < |snapshot| && KeysDistinct(cur)
    requires cur == ApplyEach(snapshot[..i], f) + snapshot[i..]
    ensures Put(cur, snapshot[i].key, f(snapshot[i].value, snapshot[i].key))
            == ApplyEach(snapshot[..i + 1], f) + snapshot[i + 1..]
  {
    var e, rest := snapshot[i], snapshot[i + 1..];
    var done := ApplyEach(snapshot[..i], f);
    assert cur == done + [e] + rest by {
      assert snapshot[i..] == [e] + rest;
    }
    PutMiddle(done, e, rest, f(e.value, e.key));
    assert ApplyEach(snapshot[..i + 1], f) == done + [Entry(e.key, f(e.value, e.key))];
  }

  /** Filtering one more entry appends it exactly when it passes. */
  lemma FilterSnoc<V>(a: seq<Entry<V>>, e: Entry<V>, p: (V, Key) -> bool)
    ensures Transforms.Filter(a + [e], p) == Transforms.Filter(a, p) + (if p(e.value, e.key) then [e] else [])
  {
    FilterConcat(a, [e], p);
    assert [e][1..] == [];
  }

  /** One step of removeIf() on the returned collection. */
  lemma RemovedStep<V>(removed: seq<Entry<V>>, snapshot: seq<Entry<V>>, i: nat, p: V -> bool)
    requires i < |snapshot| && KeysDistinct(snapshot)
    requires removed == Transforms.Filter(snapshot[..i], Holds(p))
    ensures Transforms.Filter(snapshot[..i + 1], Holds(p))
            == if p(snapshot[i].value) then Put(removed, snapshot[i].key, snapshot[i].value) else removed
  {
    var e := snapshot[i];
    assert snapshot[..i + 1] == snapshot[..i] + [e];
    FilterSnoc(snapshot[..i], e, Holds(p));
    if p(e.value) {
      FilterMembers(snapshot[..i], Holds(p));
      forall j | 0 <= j < |removed| ensures removed[j].key != e.key {
        assert removed[j] in snapshot[..i];
      }
    }
  }

  /** One step of removeIf() on the receiver. */
  lemma KeptStep<V>(cur: seq<Entry<V>>, snapshot: seq<Entry<V>>, i: nat, p: V -> bool)
    requires i < |snapshot| && KeysDistinct(cur)
    requires cur == Transforms.Filter(snapshot[..i], Fails(p)) + snapshot[i..]
    ensures Transforms.Filter(snapshot[..i + 1], Fails(p)) + snapshot[i + 1..]
            == if p(snapshot[i].value) then Unset(cur, snapshot[i].key) else cur
  {
    var e, rest := snapshot[i], snapshot[i + 1..];
    var kept := Transforms.Filter(snapshot[..i], Fails(p));
    assert snapshot[..i + 1] == snapshot[..i] + [e];
    FilterSnoc(snapshot[..i], e, Fails(p));
    assert cur == kept + [e] + rest by {
      assert snapshot[i..] == [e] + rest;
    }
    if p(e.value) {
      UnsetMiddle(kept, e, rest);
    }
  }

  /** removeIf() splits the store in two: every entry lands in exactly one of
      the removed part (predicate true) and the kept part (predicate false),
      and the two sizes add up to the original size. */
  lemma RemoveIfPartition<V>(s: seq<Entry<V>>, p: V -> bool)
    ensures |Transforms.Filter(s, Holds(p))| + |Transforms.Filter(s, Fails(p))| == |s|
    ensures forall e :: e in s ==> (e in Transforms.Filter(s, Holds(p)) <==> p(e.value))
    ensures forall e :: e in s ==> (e in Transforms.Filter(s, Fails(p)) <==> !p(e.value))
  {
    FilterSizes(s, Holds(p), Fails(p));
    FilterPartition(s, Holds(p), Fails(p));
    FilterMembers(s, Holds(p));
    FilterMembers(s, Fails(p));
  }

  class Collection<V(==)> {
    /** ArrayObject's storage, in iteration order. */
    var entries: seq<Entry<V>>

    ghost predicate Valid()
      reads this
    {
      KeysDistinct(entries)
    }

    /** new Collection($data): the store starts as the given array. */
    constructor (data: seq<Entry<V>>)
      requires KeysDistinct(data)
      ensures Valid() && entries == data
    {
      entries := data;
    }

    /** count(): the number of keys present. */
    function Count(): (n: nat)
      reads this
      ensures Valid() ==> n == |KeySet(entries)|
    {
      KeySetSize(entries);
      |entries|
    }

    // ---- ArrayObject primitives the helpers are written with ----

    method OffsetSet(k: Key, v: V)
      requires Valid()
      modifies this
      ensures Valid() && entries == Put(old(entries), k, v)
    {
      PutDistinct(entries, k, v);
      entries := Put(entries, k, v);
    }

    method OffsetUnset(k: Key)
      requires Valid()
      modifies this
      ensures Valid() && entries == Unset(old(entries), k)
    {
      UnsetDistinct(entries, k);
      entries := Unset(entries, k);
    }

    method ExchangeArray(data: seq<Entry<V>>)
      requires KeysDistinct(data)
      modifies this
      ensures Valid() && entries == data
    {
      entries := data;
    }

    // ---- Collection ----

    /** has($key): whether some entry has the key. */
    function Has(k: Key): (r: bool)
      reads this
      ensures r <==> exists i :: 0 <= i < |entries| && entries[i].key == k
    {
      Find(entries, k).Some?
    }

    /** get($key): the stored value, or UndefinedCollectionKeyException naming the key. */
    function Get(k: Key): (r: Result<V>)
      reads this
      requires Valid()
      ensures r.Ok? <==> Has(k)
      ensures forall i :: 0 <= i < |entries| && entries[i].key == k ==> r == Ok(entries[i].value)
      ensures r.Err? ==> r.error == UndefinedCollectionKey(MissingKeyMessage(k))
    {
      match Find(entries, k)
      case Some(v) => Ok(v)
      case None => Err(UndefinedCollectionKey(MissingKeyMessage(k)))
    }

    /** set($key, $value): insert or overwrite; nothing else changes. */
    method Set(k: Key, v: V)
      requires Valid()
      modifies this
      ensures Valid() && entries == Put(old(entries), k, v)
      ensures Has(k) && Get(k) == Ok(v)
      ensures forall k' :: k' != k ==> Get(k') == old(Get(k'))
      ensures Count() == if old(Has(k)) then old(Count()) else old(Count()) + 1
    {
      ghost var before := entries;
      OffsetSet(k, v);
      PutFind(before, k, v, k);
      forall k' | k' != k ensures Get(k') == old(Get(k')) {
        PutFind(before, k, v, k');
      }
    }

    /** add($key, $value): alias of set(). */
    method Add(k: Key, v: V)
      requires Valid()
      modifies this
      ensures Valid() && entries == Put(old(entries), k, v)
    {
      Set(k, v);
    }

    /** addAll($collection): add each pair of the source in its order. */
    method AddAll(src: seq<Entry<V>>)
      requires Valid()
      modifies this
      ensures Valid() && entries == PutAll(old(entries), src)
    {
      for i := 0 to |src|
        invariant Valid()
        invariant entries == PutAll(old(entries), src[..i])
      {
        assert src[..i + 1][..i] == src[..i];
        Add(src[i].key, src[i].value);
      }
      assert src[..|src|] == src;
    }

    /** contains($value): strict in_array over the values. */
    function Contains(v: V): (r: bool)
      reads this
      ensures r <==> exists i :: 0 <= i < |entries| && entries[i].value == v
    {
      ContainsValue(entries, v)
    }

    /** map($fn): a new collection with the same keys and fn applied to each value. */
    method Map<U(==)>(f: V -> U) returns (c: Collection<U>)
      requires Valid()
      ensures fresh(c) && c.Valid() && c.entries == MapValues(entries, f)
    {
      MapValuesFind(entries, f, StrKey(""));
      c := new Collection(MapValues(entries, f));
    }

    /** filter($fn): a new collection of the pairs whose (value, key) satisfy fn. */
    method Filter(p: (V, Key) -> bool) returns (c: Collection<V>)
      requires Valid()
      ensures fresh(c) && c.Valid() && c.entries == Transforms.Filter(entries, p)
    {
      FilterFind(entries, p, StrKey(""));
      c := new Collection(Transforms.Filter(entries, p));
    }

    /** uniques(): a new collection with the first pair for each distinct value. */
    method Uniques() returns (c: Collection<V>)
      requires Valid()
      ensures fresh(c) && c.Valid() && c.entries == Transforms.Uniques(entries)
      ensures c.Count() <= Count()
    {
      UniquesFromMembers(entries, {});
      SubsequenceDistinct(Transforms.Uniques(entries), entries);
      c := new Collection(Transforms.Uniques(entries));
    }

    /** slice($offset, $length): a new collection over a range of positions. */
    method Slice(offset: nat, length: Option<nat>) returns (c: Collection<V>)
      requires Valid()
      ensures fresh(c) && c.Valid() && c.entries == Transforms.Slice(entries, offset, length)
    {
      SliceDistinct(entries, offset, length);
      c := new Collection(Transforms.Slice(entries, offset, length));
    }

    /** apply($fn): over a snapshot of the pairs, set each key to fn(value, key). */
    method Apply(f: (V, Key) -> V)
      requires Valid()
      modifies this
      ensures Valid() && entries == ApplyEach(old(entries), f)
    {
      var snapshot := entries;
      assert snapshot[..0] == [] && snapshot[0..] == snapshot;
      for i := 0 to |snapshot|
        invariant Valid()
        invariant entries == ApplyEach(snapshot[..i], f) + snapshot[i..]
      {
        var e := snapshot[i];
        ApplyStep(entries, snapshot, i, f);
        OffsetSet(e.key, f(e.value, e.key));
      }
      assert snapshot[..|snapshot|] == snapshot;
      assert entries == ApplyEach(snapshot, f) by {
        var applied := ApplyEach(snapshot, f);
        assert snapshot[|snapshot|..] == [] && applied + [] == applied;
      }
    }

    /** getOrCreate($key, $value): the stored value, inserting the default first
        when the key is absent. */
    method GetOrCreate(key: string, d: V) returns (r: V)
      requires Valid()
      modifies this
      ensures Valid()
      ensures old(Has(StrKey(key))) ==> entries == old(entries) && old(Get(StrKey(key))) == Ok(r)
      ensures !old(Has(StrKey(key))) ==> entries == old(entries) + [Entry(StrKey(key), d)] && r == d
      ensures Get(StrKey(key)) == Ok(r)
    {
      if !Has(StrKey(key)) {
        Set(StrKey(key), d);
      }
      var got := Get(StrKey(key));
      r := got.value;
    }

    /** isEmpty(): count() === 0. */
    function IsEmpty(): (r: bool)
      reads this
      ensures r <==> forall k :: !Has(k)
    {
      assert entries != [] ==> Has(entries[0].key);
      Count() == 0
    }

    /** remove($value): keep only the pairs whose value is not $value, keys untouched. */
    method Remove(v: V)
      requires Valid()
      modifies this
      ensures Valid() && entries == Transforms.Filter(old(entries), Differs(v))
      ensures !Contains(v)
    {
      var filtered := Filter(Differs(v));
      FilterMembers(entries, Differs(v));
      ExchangeArray(filtered.entries);
    }

    /** removeAll($collection): keep only the pairs whose value the other collection lacks. */
    method RemoveAll(other: Collection<V>)
      requires Valid()
      modifies this
      ensures Valid() && entries == Transforms.Filter(old(entries), NotIn(old(other.entries)))
      ensures forall i :: 0 <= i < |entries| ==> !ContainsValue(old(other.entries), entries[i].value)
    {
      var filtered := Filter(NotIn(other.entries));
      FilterMembers(entries, NotIn(other.entries));
      ExchangeArray(filtered.entries);
    }

    /** removeIf($predicate): move the pairs whose value satisfies the predicate
        into a new collection, under their keys, and return it. */
    method RemoveIf(p: V -> bool) returns (removed: Collection<V>)
      requires Valid()
      modifies this
      ensures Valid() && fresh(removed) && removed.Valid()
      ensures removed.entries == Transforms.Filter(old(entries), Holds(p))
      ensures entries == Transforms.Filter(old(entries), Fails(p))
      ensures removed.Count() + Count() == old(Count())
    {
      removed := new Collection([]);
      var snapshot := entries;
      assert snapshot[..0] == [] && snapshot[0..] == snapshot;
      for i := 0 to |snapshot|
        invariant Valid() && removed.Valid() && fresh(removed)
        invariant removed.entries == Transforms.Filter(snapshot[..i], Holds(p))
        invariant entries == Transforms.Filter(snapshot[..i], Fails(p)) + snapshot[i..]
      {
        MoveIfHolds(removed, snapshot, i, p);
      }
      assert snapshot[..|snapshot|] == snapshot;
      assert entries == Transforms.Filter(snapshot, Fails(p)) by {
        var kept := Transforms.Filter(snapshot, Fails(p));
        assert snapshot[|snapshot|..] == [] && kept + [] == kept;
      }
      FilterSizes(snapshot, Holds(p), Fails(p));
    }

    /** One iteration of removeIf(): the i-th pair of the snapshot moves to
        removed when its value satisfies the predicate. */
    method MoveIfHolds(removed: Collection<V>, snapshot: seq<Entry<V>>, i: nat, p: V -> bool)
      requires removed != this && Valid() && removed.Valid()
      requires i < |snapshot| && KeysDistinct(snapshot)
      requires removed.entries == Transforms.Filter(snapshot[..i], Holds(p))
      requires entries == Transforms.Filter(snapshot[..i], Fails(p)) + snapshot[i..]
      modifies this, removed
      ensures Valid() && removed.Valid()
      ensures removed.entries == Transforms.Filter(snapshot[..i + 1], Holds(p))
      ensures entries == Transforms.Filter(snapshot[..i + 1], Fails(p)) + snapshot[i + 1..]
    {
      var e := snapshot[i];
      RemovedStep(removed.entries, snapshot, i, p);
      KeptStep(entries, snapshot, i, p);
      if p(e.value) {
        removed.Set(e.key, e.value);
        OffsetUnset(e.key);
      }
    }

    /** clear(): exchange the store for the empty array. */
    method Clear()
      requires Valid()
      modifies this
      ensures Valid() && entries == [] && IsEmpty()
    {
      ExchangeArray([]);
    }

    /** jsonSerialize(): the ordered pairs of the store, as handed to json_encode. */
    function JsonSerialize(): (r: seq<Entry<V>>)
      reads this
      requires Valid()
      ensures KeysDistinct(r) && forall k :: Find(r, k) == Find(entries, k)
      ensures KeysOf(r) == KeysOf(entries)
    {
      entries
    }
  }

  /** getOrCreate() twice with the same key: the second call returns what the
      first returned and changes nothing. */
  method GetOrCreateTwice<V(==)>(c: Collection<V>, key: string, d1: V, d2: V) returns (first: V, second: V)
    requires c.Valid()
    modifies c
    ensures c.Valid() && second == first
    ensures c.entries == if old(c.Has(StrKey(key))) then old(c.entries) else old(c.entries) + [Entry(StrKey(key), d1)]
  {
    first := c.GetOrCreate(key, d1);
    second := c.GetOrCreate(key, d2);
  }

  /** Collection([1, 2, 3, 2, 1]) after remove(1): three entries, none of them 1. */
  method RemoveOne() returns (count: nat, stillHasOne: bool)
    ensures count == 3 && !stillHasOne
  {
    var c := new Collection([Entry(IntKey(0), 1), Entry(IntKey(1), 2), Entry(IntKey(2), 3),
                             Entry(IntKey(3), 2), Entry(IntKey(4), 1)]);
    c.Remove(1);
    count := c.Count();
    stillHasOne := c.Contains(1);
  }

  /** get() of a key that is absent throws, and the message names the key. */
  method GetUnknown() returns (r: Result<int>)
    ensures r == Err(UndefinedCollectionKey("No unknown key in the collection"))
  {
    var c := new Collection([Entry(IntKey(0), 1), Entry(StrKey("test"), 2)]);
    r := c.Get(StrKey("unknown"));
    assert MissingKeyMessage(StrKey("unknown")) == "No unknown key in the collection";
  }
}
