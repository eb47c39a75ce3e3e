/**
 * A dictionary whose key set is fixed by a single initialisation: afterwards `d[k] = v`
 * may overwrite the value of an existing key but never add a key.
 */
module FrozenKeys {
  import opened Wrappers

  /** The exceptions the dictionary raises: `RuntimeError("Initialization is over")` and `KeyError`. */
  datatype DictError<K> = InitializationIsOver | InvalidKey(key: K)

  class FrozenKeysDict<K(==), V> {
    /** True until the first initialisation. */
    var uninitialized: bool
    var data: map<K, V>

    /** Nothing can have entered `data` before the initialisation. */
    ghost predicate Valid()
      reads this
    {
      uninitialized ==> data == map[]
    }

    /** A new dictionary is uninitialised and empty. */
    constructor ()
      ensures Valid()
      ensures uninitialized && data == map[]
    {
      uninitialized := true;
      data := map[];
    }

    /** `initialize_from_kwargs(**kwargs)`: the keyword arguments arrive as one dictionary. */
    method InitializeFromKwargs(kwargs: map<K, V>) returns (err: Option<DictError<K>>)
      requires Valid()
      modifies this
      ensures Valid()
      ensures old(uninitialized) ==> err == None && data == kwargs && !uninitialized
      ensures !old(uninitialized) ==> err == Some(InitializationIsOver) && unchanged(this)
    {
      if !uninitialized {
        return Some(InitializationIsOver);
      }
      data := kwargs;
      uninitialized := false;
      return None;
    }

    /** `initialize_from_dict(value)`. */
    method InitializeFromDict(value: map<K, V>) returns (err: Option<DictError<K>>)
      requires Valid()
      modifies this
      ensures Valid()
      ensures old(uninitialized) ==> err == None && data == value && !uninitialized
      ensures !old(uninitialized) ==> err == Some(InitializationIsOver) && unchanged(this)
    {
      if !uninitialized {
        return Some(InitializationIsOver);
      }
      data := value;
      uninitialized := false;
      return None;
    }

    /** `d[key] = value`: only a key already present may be written. */
    method SetItem(key: K, value: V) returns (err: Option<DictError<K>>)
      requires Valid()
      modifies this`data
      ensures Valid()
      ensures key !in old(data) ==> err == Some(InvalidKey(key)) && data == old(data)
      ensures key in old(data) ==> err == None && data == old(data)[key := value]
      ensures data.Keys == old(data).Keys
      ensures forall k :: k in data && k != key ==> data[k] == old(data)[k]
      ensures old(uninitialized) ==> err.Some?
    {
      if key !in data {
        return Some(InvalidKey(key));
      }
      data := data[key := value];
      return None;
    }
  }
}
