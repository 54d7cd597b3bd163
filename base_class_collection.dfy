/** BaseClassCollection: the concrete AbstractClassCollection whose class name
    is fixed by its constructor. */
module BaseClassCollections {
  import opened Store
  import opened Errors
  import AbstractClassCollections

  class BaseClassCollection<V> {
    /** Assigned once, by the constructor, before the parent constructor runs. */
    const className: string
    const instanceOf: (V, string) -> bool
    /** The store inherited from Collection / ArrayObject. */
    var entries: seq<Entry<V>>

    ghost predicate Valid()
      reads this
    {
      KeysDistinct(entries)
    }

    ghost predicate AllInstances()
      reads this
    {
      AbstractClassCollections.AllInstances(instanceOf, GetClassName(), entries)
    }

    /** new BaseClassCollection($className, $data): fixes the class name, then
        hands the data to the store unchecked. */
    constructor (className: string, instanceOf: (V, string) -> bool, data: seq<Entry<V>>)
      requires KeysDistinct(data)
      ensures Valid() && entries == data
      ensures GetClassName() == className && this.instanceOf == instanceOf
    {
      this.className := className;
      this.instanceOf := instanceOf;
      entries := data;
    }

    /** getClassName(): the class name the constructor was given. */
    function GetClassName(): (name: string)
      ensures name == className
    {
      className
    }

    function Count(): nat
      reads this
    {
      |entries|
    }

    /** offsetSet($key, $value), inherited from AbstractClassCollection: the gate
        on GetClassName(), then the parent's insert; a rejected value changes nothing. */
    method OffsetSet(k: Key, v: V) returns (r: Outcome)
      requires Valid()
      modifies this
      ensures Valid()
      ensures r == AbstractClassCollections.EnsureValidValue(instanceOf, GetClassName(), v)
      ensures r.Pass? ==> entries == Put(old(entries), k, v)
      ensures r.Fail? ==> entries == old(entries)
      ensures old(AllInstances()) ==> AllInstances()
    {
      var res := AbstractClassCollections.OffsetSet(instanceOf, GetClassName(), entries, k, v);
      match res
      case Ok(s) =>
        PutDistinct(entries, k, v);
        PutMembers(entries, k, v);
        entries := s;
        r := Pass;
      case Err(e) =>
        r := Fail(e);
    }

    /** append($value): offsetSet(null, $value), the value going under the next integer key. */
    method Append(v: V) returns (r: Outcome)
      requires Valid()
      modifies this
      ensures Valid()
      ensures r == AbstractClassCollections.EnsureValidValue(instanceOf, GetClassName(), v)
      ensures r.Pass? ==> entries == old(entries) + [Entry(NextIndex(old(entries)), v)]
      ensures r.Fail? ==> entries == old(entries)
      ensures old(AllInstances()) ==> AllInstances()
    {
      r := OffsetSet(NextIndex(entries), v);
    }
  }

  /** Three instances appended to an empty collection of class "stdClass" give a
      count of three; a fourth value that is not an instance is refused with
      "Value must be instance of stdClass" and the count stays three. */
  method AppendInstances<V>(instanceOf: (V, string) -> bool, a: V, b: V, c: V, other: V)
    returns (countAfterThree: nat, refused: Outcome, countAfterRefusal: nat)
    requires instanceOf(a, "stdClass") && instanceOf(b, "stdClass") && instanceOf(c, "stdClass")
    requires !instanceOf(other, "stdClass")
    ensures countAfterThree == 3 && countAfterRefusal == 3
    ensures refused == Fail(InvalidValueType("Value must be instance of stdClass"))
  {
    var coll := new BaseClassCollection("stdClass", instanceOf, []);
    var r1 := coll.Append(a);
    var r2 := coll.Append(b);
    var r3 := coll.Append(c);
    countAfterThree := coll.Count();
    refused := coll.Append(other);
    countAfterRefusal := coll.Count();
  }
}
