/** The backing store of a collection: a PHP array, i.e. an insertion-ordered
    map from integer or string keys to values, written as a sequence of entries
    in iteration order whose keys are pairwise distinct. */
module Store {

  /** A PHP array key. */
  datatype Key = IntKey(n: int) | StrKey(s: string)

  datatype Entry<V> = Entry(key: Key, value: V)

  datatype Option<T> = None | Some(value: T)

  /** No key occurs twice: the sequence is an ordered map. */
  ghost predicate KeysDistinct<V>(s: seq<Entry<V>>)
  {
    forall i, j :: 0 <= i < j < |s| ==> s[i].key != s[j].key
  }

  /** The keys present, as a set. */
  ghost function KeySet<V>(s: seq<Entry<V>>): set<Key>
  {
    set i | 0 <= i < |s| :: s[i].key
  }

  /** With distinct keys there are as many keys present as entries. */
  lemma {:induction false} KeySetSize<V>(s: seq<Entry<V>>)
    ensures KeysDistinct(s) ==> |KeySet(s)| == |s|
  {
    if s != [] && KeysDistinct(s) {
      var init := s[..|s| - 1];
      assert KeysDistinct(init);
      KeySetSize(init);
      assert KeySet(s) == KeySet(init) + {s[|s| - 1].key};
      assert s[|s| - 1].key !in KeySet(init);
    }
  }

  /** The keys in iteration order. */
  function KeysOf<V>(s: seq<Entry<V>>): seq<Key>
  {
    seq(|s|, i requires 0 <= i < |s| => s[i].key)
  }

  /** Lookup (ArrayObject::offsetExists / offsetGet). */
  function Find<V>(s: seq<Entry<V>>, k: Key): (r: Option<V>)
    ensures r.None? <==> forall i :: 0 <= i < |s| ==> s[i].key != k
    ensures r.Some? ==> exists i :: 0 <= i < |s| && s[i] == Entry(k, r.value)
  {
    if s == [] then None
    else if s[0].key == k then Some(s[0].value)
    else Find(s[1..], k)
  }

  /** With distinct keys, the lookup of the key at position i finds that entry's value. */
  lemma FindIndex<V>(s: seq<Entry<V>>, i: nat)
    requires KeysDistinct(s) && i < |s|
    ensures Find(s, s[i].key) == Some(s[i].value)
  {
    var r := Find(s, s[i].key);
    var j :| 0 <= j < |s| && s[j] == Entry(s[i].key, r.value);
    assert j == i;
  }

  /** Insert or overwrite (ArrayObject::offsetSet with a key): an existing key
      keeps its position, a new key goes to the end. */
  function Put<V>(s: seq<Entry<V>>, k: Key, v: V): (r: seq<Entry<V>>)
    ensures Find(s, k).None? ==> r == s + [Entry(k, v)]
    ensures |r| == if Find(s, k).Some? then |s| else |s| + 1
  {
    if s == [] then [Entry(k, v)]
    else if s[0].key == k then [Entry(k, v)] + s[1..]
    else
      var rest := Put(s[1..], k, v);
      assert s == [s[0]] + s[1..];
      [s[0]] + rest
  }

  /** A Put adds no entry but the new one. */
  lemma {:induction false} PutMembers<V>(s: seq<Entry<V>>, k: Key, v: V)
    ensures forall e :: e in Put(s, k, v) ==> e == Entry(k, v) || e in s
  {
    if s != [] && s[0].key != k {
      PutMembers(s[1..], k, v);
      assert s == [s[0]] + s[1..];
    }
  }

  /** After a Put, the key holds the new value and every other key is as before. */
  lemma {:induction false} PutFind<V>(s: seq<Entry<V>>, k: Key, v: V, k': Key)
    ensures Find(Put(s, k, v), k') == if k' == k then Some(v) else Find(s, k')
  {
    if s != [] && s[0].key != k {
      var rest := Put(s[1..], k, v);
      assert ([s[0]] + rest)[1..] == rest;
      PutFind(s[1..], k, v, k');
    } else if s != [] {
      assert ([Entry(k, v)] + s[1..])[1..] == s[1..];
    }
  }

  /** Removal of a key (ArrayObject::offsetUnset); an absent key is a no-op. */
  function Unset<V>(s: seq<Entry<V>>, k: Key): (r: seq<Entry<V>>)
    ensures Find(s, k).None? ==> r == s
    ensures |r| == if Find(s, k).Some? then |s| - 1 else |s|
    ensures forall e :: e in r ==> e in s
  {
    if s == [] then []
    else if s[0].key == k then s[1..]
    else
      var rest := Unset(s[1..], k);
      assert s == [s[0]] + s[1..];
      [s[0]] + rest
  }

  /** Overwriting the key at position i rewrites that entry in place. */
  lemma {:induction false} PutExisting<V>(s: seq<Entry<V>>, i: nat, v: V)
    requires KeysDistinct(s) && i < |s|
    ensures Put(s, s[i].key, v) == s[..i] + [Entry(s[i].key, v)] + s[i+1..]
  {
    var k := s[i].key;
    if i > 0 {
      var t := s[1..];
      assert t[i-1] == s[i];
      assert KeysDistinct(t);
      PutExisting(t, i - 1, v);
      assert Put(s, k, v) == [s[0]] + Put(t, k, v) by {
        assert s[0].key != k;
      }
      assert t[..i-1] == s[1..i] && t[i..] == s[i+1..];
      assert s[..i] == [s[0]] + s[1..i];
    }
  }

  /** Unsetting the key at position i drops exactly that entry. */
  lemma {:induction false} UnsetExisting<V>(s: seq<Entry<V>>, i: nat)
    requires KeysDistinct(s) && i < |s|
    ensures Unset(s, s[i].key) == s[..i] + s[i+1..]
  {
    var k := s[i].key;
    if i > 0 {
      var t := s[1..];
      assert t[i-1] == s[i];
      assert KeysDistinct(t);
      UnsetExisting(t, i - 1);
      assert t[..i-1] == s[1..i] && t[i..] == s[i+1..];
      calc {
        Unset(s, k);
        { assert s[0].key != k; }
        [s[0]] + Unset(t, k);
        [s[0]] + (s[1..i] + s[i+1..]);
        { assert s[..i] == [s[0]] + s[1..i]; }
        s[..i] + s[i+1..];
      }
    }
  }



  /** Overwriting the key at position i leaves every position's key as it was. */
  lemma PutExistingKeys<V>(s: seq<Entry<V>>, i: nat, v: V)
    requires KeysDistinct(s) && i < |s|
    ensures |Put(s, s[i].key, v)| == |s|
    ensures forall j :: 0 <= j < |s| ==> Put(s, s[i].key, v)[j].key == s[j].key
  {
    PutExisting(s, i, v);
    var r := s[..i] + [Entry(s[i].key, v)] + s[i+1..];
    assert forall j :: 0 <= j < |s| ==> r[j].key == s[j].key by {
      forall j | 0 <= j < |s| ensures r[j].key == s[j].key {
        if j < i {
          assert r[j] == s[..i][j];
        } else if j > i {
          assert r[j] == s[i+1..][j - i - 1];
        }
      }
    }
  }

  /** Overwriting a present key keeps the key order. */
  lemma PutKeys<V>(s: seq<Entry<V>>, k: Key, v: V)
    requires KeysDistinct(s) && Find(s, k).Some?
    ensures KeysOf(Put(s, k, v)) == KeysOf(s)
  {
    var i :| 0 <= i < |s| && s[i].key == k;
    PutExistingKeys(s, i, v);
  }

  /** Put keeps the keys distinct. */
  lemma PutDistinct<V>(s: seq<Entry<V>>, k: Key, v: V)
    requires KeysDistinct(s)
    ensures KeysDistinct(Put(s, k, v))
  {
    var r := Put(s, k, v);
    if Find(s, k).Some? {
      var i :| 0 <= i < |s| && s[i].key == k;
      PutExistingKeys(s, i, v);
    } else {
      assert forall j :: 0 <= j < |s| ==> r[j] == s[j];
    }
  }

  /** Overwriting the key of an entry between a and b rewrites just that entry. */
  lemma PutMiddle<V>(a: seq<Entry<V>>, e: Entry<V>, b: seq<Entry<V>>, v: V)
    requires KeysDistinct(a + [e] + b)
    ensures Put(a + [e] + b, e.key, v) == a + [Entry(e.key, v)] + b
  {
    var s := a + [e] + b;
    assert s[|a|] == e;
    PutExisting(s, |a|, v);
    assert s[..|a|] == a && s[|a| + 1..] == b;
  }

  /** Unsetting the key of an entry between a and b leaves a + b. */
  lemma UnsetMiddle<V>(a: seq<Entry<V>>, e: Entry<V>, b: seq<Entry<V>>)
    requires KeysDistinct(a + [e] + b)
    ensures Unset(a + [e] + b, e.key) == a + b
  {
    var s := a + [e] + b;
    assert s[|a|] == e;
    UnsetExisting(s, |a|);
    assert s[..|a|] == a && s[|a| + 1..] == b;
  }

  /** Unsetting the key at position i shifts every later entry down by one. */
  lemma UnsetShift<V>(s: seq<Entry<V>>, i: nat)
    requires KeysDistinct(s) && i < |s|
    ensures |Unset(s, s[i].key)| == |s| - 1
    ensures forall a :: 0 <= a < i ==> Unset(s, s[i].key)[a] == s[a]
    ensures forall a :: i <= a < |s| - 1 ==> Unset(s, s[i].key)[a] == s[a + 1]
  {
    UnsetExisting(s, i);
  }

  /** Unset keeps the keys distinct. */
  lemma UnsetDistinct<V>(s: seq<Entry<V>>, k: Key)
    requires KeysDistinct(s)
    ensures KeysDistinct(Unset(s, k))
  {
    if Find(s, k).Some? {
      var i :| 0 <= i < |s| && s[i].key == k;
      UnsetShift(s, i);
    }
  }

  /** After an Unset the key is gone, and every other key is as before. */
  lemma {:induction false} UnsetFind<V>(s: seq<Entry<V>>, k: Key, k': Key)
    requires KeysDistinct(s)
    ensures Find(Unset(s, k), k') == if k' == k then None else Find(s, k')
  {
    if s == [] {
    } else if s[0].key == k {
      assert forall j :: 0 <= j < |s| - 1 ==> s[1..][j] == s[j + 1];
    } else {
      var rest := Unset(s[1..], k);
      assert ([s[0]] + rest)[1..] == rest;
      assert KeysDistinct(s[1..]) by {
        assert forall j :: 0 <= j < |s| - 1 ==> s[1..][j] == s[j + 1];
      }
      UnsetFind(s[1..], k, k');
    }
  }

  /** The value the last entry of src with key k carries (a later duplicate
      key in an iterated source overwrites an earlier one). */
  function FindLast<V>(src: seq<Entry<V>>, k: Key): Option<V>
  {
    if src == [] then None
    else if src[|src| - 1].key == k then Some(src[|src| - 1].value)
    else FindLast(src[..|src| - 1], k)
  }

  /** Put every entry of src in turn, in src's order. */
  function PutAll<V>(s: seq<Entry<V>>, src: seq<Entry<V>>): (r: seq<Entry<V>>)
    ensures |s| <= |r| <= |s| + |src|
  {
    if src == [] then s
    else Put(PutAll(s, src[..|src| - 1]), src[|src| - 1].key, src[|src| - 1].value)
  }

  /** After PutAll, a key of src holds the value of its last occurrence in src;
      any other key is as before. */
  lemma {:induction false} PutAllFind<V>(s: seq<Entry<V>>, src: seq<Entry<V>>, k: Key)
    ensures Find(PutAll(s, src), k) == if FindLast(src, k).Some? then FindLast(src, k) else Find(s, k)
  {
    if src != [] {
      var last := src[|src| - 1];
      PutAllFind(s, src[..|src| - 1], k);
      PutFind(PutAll(s, src[..|src| - 1]), last.key, last.value, k);
    }
  }

  /** PutAll keeps the keys distinct, leaves the keys already present where they
      were, and appends the new ones after them. */
  lemma {:induction false} PutAllKeys<V>(s: seq<Entry<V>>, src: seq<Entry<V>>)
    requires KeysDistinct(s)
    ensures KeysDistinct(PutAll(s, src))
    ensures |s| <= |PutAll(s, src)| && KeysOf(PutAll(s, src))[..|s|] == KeysOf(s)
  {
    if src != [] {
      var last := src[|src| - 1];
      var before := PutAll(s, src[..|src| - 1]);
      PutAllKeys(s, src[..|src| - 1]);
      PutDistinct(before, last.key, last.value);
      var r := Put(before, last.key, last.value);
      if Find(before, last.key).Some? {
        PutKeys(before, last.key, last.value);
      } else {
        assert KeysOf(r)[..|before|] == KeysOf(before);
      }
      assert KeysOf(r)[..|s|] == KeysOf(r)[..|before|][..|s|];
    }
  }

  /** The smallest integer key above every integer key of s, and at least 0:
      where an append stores its value. */
  function NextFree<V>(s: seq<Entry<V>>): (n: int)
    ensures n >= 0
    ensures forall i :: 0 <= i < |s| && s[i].key.IntKey? ==> s[i].key.n < n
  {
    if s == [] then 0
    else
      var m := NextFree(s[..|s| - 1]);
      var last := s[|s| - 1];
      assert forall i :: 0 <= i < |s| - 1 ==> s[..|s| - 1][i] == s[i];
      if last.key.IntKey? && last.key.n + 1 > m then last.key.n + 1 else m
  }

  /** The key an append (ArrayObject::append, offsetSet(null, v)) uses. */
  function NextIndex<V>(s: seq<Entry<V>>): (k: Key)
    ensures k.IntKey? && k.n >= 0 && Find(s, k).None?
  {
    IntKey(NextFree(s))
  }

  /** in_array($v, $array, true): strict comparison. */
  function ContainsValue<V(==)>(s: seq<Entry<V>>, v: V): (r: bool)
    ensures r <==> exists i :: 0 <= i < |s| && s[i].value == v
  {
    if s == [] then false
    else if s[0].value == v then true
    else
      assert forall i :: 0 < i < |s| ==> s[1..][i-1] == s[i];
      ContainsValue(s[1..], v)
  }
}
