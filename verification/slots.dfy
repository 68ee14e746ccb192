/** The cells of the backing array of `HashTable`. A Java cell is either
    `null`, or a `HashTableElement` whose `isDeleted` flag is clear (a live
    pair) or set (a tombstone that still carries its key and value). */
module Slots {

  datatype Slot<K, V> = Empty | Live(key: K, value: V) | Tomb(key: K, value: V)
  {
    /** The element's own `isNotDeleted`; an empty cell holds no element,
        so the question is only whether the element is a tombstone. */
    function IsNotDeleted(): (r: bool)
      requires !Empty?
      ensures r <==> !Tomb?
    {
      Live?
    }

    /** The element's `Delete`: the cell becomes a tombstone that keeps the
        key and the value, so `remove` can still return the value. */
    function Delete(): (s: Slot<K, V>)
      requires !Empty?
      ensures !s.Empty? && !s.IsNotDeleted()
      ensures s.key == key && s.value == value
    {
      Tomb(key, value)
    }
  }
}
