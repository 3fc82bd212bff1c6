/** The device's persistent key-value storage (React Native's AsyncStorage),
    reduced to a map from keys to string values. Reads and writes are
    modelled as completing at once and never failing. */
module Storage {
  import opened Wrappers

  /** The key under which dismissing the login screen is remembered. */
  const HideLoginKey: string := "hideLogin"

  /** The value `getItem` yields: the stored string, or nothing (`null`). */
  function Lookup(items: map<string, string>, key: string): (v: Option<string>)
    ensures v.Some? <==> key in items
    ensures v.Some? ==> v.value == items[key]
  {
    if key in items then Some(items[key]) else None
  }

  class Store {
    var items: map<string, string>

    constructor (initial: map<string, string>)
      ensures items == initial
    {
      items := initial;
    }

    /** `setItem(key, value)`: stores `value` under `key`, replacing any
        earlier value; every other key keeps its value. */
    method SetItem(key: string, value: string)
      modifies this
      ensures items == old(items)[key := value]
      ensures Lookup(items, key) == Some(value)
      ensures forall k :: k != key ==> Lookup(items, k) == Lookup(old(items), k)
    {
      items := items[key := value];
    }
  }
}
