/** An optional value: Python's `Optional[T]`, where `None` means absent. */
module Wrappers {

  datatype Option<+T> = None | Some(value: T)

  /** Python's `dict.get(key)`: the value stored under `key`, or `None`. */
  function Get<K, V>(m: map<K, V>, key: K): (r: Option<V>)
    ensures r.Some? <==> key in m
    ensures r.Some? ==> m[key] == r.value
  {
    if key in m then Some(m[key]) else None
  }
}
