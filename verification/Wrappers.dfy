// Optional values, used where the program returns an iterator, npos or std::optional.

module Wrappers {
  datatype Option<+T> = None | Some(value: T)

  function LookUp<V>(m: map<string, V>, k: string): Option<V> {
    if k in m then Some(m[k]) else None
  }
}
