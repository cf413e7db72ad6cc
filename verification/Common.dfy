module Common {

  datatype Option<+T> = None | Some(value: T)

  /** The last entry put under a key. */
  function Lookup<V>(list: seq<(string, V)>, key: string): Option<V> {
    if list == [] then None
    else if list[|list| - 1].0 == key then Some(list[|list| - 1].1)
    else Lookup(list[..|list| - 1], key)
  }
}
