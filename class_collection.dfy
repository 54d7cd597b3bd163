/** ClassCollection: a collection whose insertions are gated by a class check.
    PHP's `$value instanceof $className` is the relation `instanceOf`, given to
    the constructor together with the class name. */
module ClassCollections {
  import opened Store
  import opened Errors

  class ClassCollection<V> {
    /** The required class; assigned once, by the constructor. */
    const className: string
    /** The runtime's instanceof test against a class named by a string. */
    const instanceOf: (V, string) -> bool
    /** The store inherited from Collection / ArrayObject. */
    var entries: seq<Entry<V>>

    ghost predicate Valid()
      reads this
    {
      KeysDistinct(entries)
    }

    /** Every stored value is an instance of the required class. */
    ghost predicate AllInstances()
      reads this
    {
      forall e :: e in entries ==> instanceOf(e.value, className)
    }

    /** new ClassCollection($className, $data): the data goes to the store
        unchecked; only later insertions pass the gate. */
    constructor (className: string, instanceOf: (V, string) -> bool, data: seq<Entry<V>>)
      requires KeysDistinct(data)
      ensures Valid() && entries == data
      ensures this.className == className && this.instanceOf == instanceOf
    {
      this.className := className;
      this.instanceOf := instanceOf;
      entries := data;
    }

    function Count(): nat
      reads this
    {
      |entries|
    }

    /** ensureValidValue($value): passes exactly for instances of the class,
        and otherwise throws InvalidValueTypeException naming the class. */
    function EnsureValidValue(v: V): (r: Outcome)
      ensures r.Pass? <==> instanceOf(v, className)
      ensures r.Fail? ==> r.error == InvalidValueType(InvalidTypeMessage(className))
    {
      if instanceOf(v, className) then Pass else Fail(InvalidValueType(InvalidTypeMessage(className)))
    }

    /** offsetSet($key, $value): the check first, then the parent's insert. A
        rejected value leaves the store as it was; an accepted one is stored as
        Collection stores it; either way every stored value stays an instance. */
    method OffsetSet(k: Key, v: V) returns (r: Outcome)
      requires Valid()
      modifies this
      ensures Valid()
      ensures r == EnsureValidValue(v)
      ensures r.Pass? ==> entries == Put(old(entries), k, v)
      ensures r.Fail? ==> entries == old(entries)
      ensures old(AllInstances()) ==> AllInstances()
    {
      r := EnsureValidValue(v);
      if r.Pass? {
        PutDistinct(entries, k, v);
        PutMembers(entries, k, v);
        entries := Put(entries, k, v);
      }
    }

    /** append($value), i.e. offsetSet(null, $value): the same gate, then the
        value goes under the next integer key. */
    method Append(v: V) returns (r: Outcome)
      requires Valid()
      modifies this
      ensures Valid()
      ensures r == EnsureValidValue(v)
      ensures r.Pass? ==> entries == old(entries) + [Entry(NextIndex(old(entries)), v)]
      ensures r.Fail? ==> entries == old(entries)
      ensures old(AllInstances()) ==> AllInstances()
    {
      r := OffsetSet(NextIndex(entries), v);
    }
  }
}
