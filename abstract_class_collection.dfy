/** AbstractClassCollection: the class gate of ClassCollection, with the class
    name taken from the abstract getClassName() that each subclass implements.
    Its members are written here over the store and the name getClassName()
    returns; BaseClassCollection, the concrete subclass, runs them on its own
    store with its own getClassName(). */
module AbstractClassCollections {
  import opened Store
  import opened Errors

  /** ensureValidValue($value): checks the value against the class that
      getClassName() names; the exception message names that class. */
  function EnsureValidValue<V>(instanceOf: (V, string) -> bool, getClassName: string, v: V): (r: Outcome)
    ensures r.Pass? <==> instanceOf(v, getClassName)
    ensures r.Fail? ==> r.error == InvalidValueType(InvalidTypeMessage(getClassName))
  {
    if instanceOf(v, getClassName) then Pass else Fail(InvalidValueType(InvalidTypeMessage(getClassName)))
  }

  /** offsetSet($key, $value) on store s: the new store when the gate passes
      (the parent's insert, unchanged), the exception otherwise. */
  function OffsetSet<V>(instanceOf: (V, string) -> bool, getClassName: string,
                        s: seq<Entry<V>>, k: Key, v: V): (r: Result<seq<Entry<V>>>)
    ensures r.Ok? <==> instanceOf(v, getClassName)
    ensures r.Ok? ==> r.value == Put(s, k, v)
    ensures r.Err? ==> Fail(r.error) == EnsureValidValue(instanceOf, getClassName, v)
  {
    match EnsureValidValue(instanceOf, getClassName, v)
    case Pass => Ok(Put(s, k, v))
    case Fail(e) => Err(e)
  }

  /** Every value of s is an instance of the class. */
  ghost predicate AllInstances<V>(instanceOf: (V, string) -> bool, className: string, s: seq<Entry<V>>)
  {
    forall e :: e in s ==> instanceOf(e.value, className)
  }

  /** A successful offsetSet keeps every stored value an instance of the class,
      and keeps the keys distinct. */
  lemma OffsetSetPreserves<V>(instanceOf: (V, string) -> bool, getClassName: string,
                              s: seq<Entry<V>>, k: Key, v: V)
    requires KeysDistinct(s) && AllInstances(instanceOf, getClassName, s)
    requires OffsetSet(instanceOf, getClassName, s, k, v).Ok?
    ensures var s' := OffsetSet(instanceOf, getClassName, s, k, v).value;
      KeysDistinct(s') && AllInstances(instanceOf, getClassName, s')
  {
    PutMembers(s, k, v);
    PutDistinct(s, k, v);
  }
}
