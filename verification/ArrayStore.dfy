/** The growable store behind a JSON array. */
module ArrayStore {
  import opened Text
  import ObjectStore

  class JsonArray<V(0)> {
    var items: array<V>
    var count: nat
    var capacity: nat

    ghost predicate Valid()
      reads this, items
    {
      items.Length == capacity && count <= capacity
    }

    function Contents(): (s: seq<V>)
      requires count <= items.Length
      reads this, items
      ensures |s| == count
    {
      items[..count]
    }

    /** json_array_init */
    constructor ()
      ensures Valid() && fresh(items) && Contents() == [] && capacity == 0
    {
      items := new V[0];
      count, capacity := 0, 0;
    }

    /** json_array_resize, also called with the count to trim. */
    method Resize(newCapacity: nat) returns (ok: bool)
      requires Valid() && (newCapacity == 0 || count <= newCapacity)
      modifies this
      ensures Valid() && ok == (newCapacity != 0)
      ensures Contents() == old(Contents()) && capacity == (if ok then newCapacity else old(capacity))
      ensures items == old(items) || fresh(items)
    {
      if newCapacity == 0 {
        return false;
      }
      var newItems := new V[newCapacity];
      forall i | 0 <= i < count {
        newItems[i] := items[i];
      }
      items, capacity := newItems, newCapacity;
      return true;
    }

    /** json_array_add */
    method Add(value: V)
      requires Valid()
      modifies this, items
      ensures Valid() && Contents() == old(Contents()) + [value]
      ensures capacity == if old(count) >= old(capacity) then ObjectStore.Grown(old(capacity)) else old(capacity)
      ensures items == old(items) || fresh(items)
    {
      if count >= capacity {
        var _ := Resize(ObjectStore.Grown(capacity));
      }
      items[count] := value;
      count := count + 1;
    }

    /** json_array_remove: the items after `ix` move one place down. */
    method Remove(ix: nat) returns (ok: bool)
      requires Valid()
      modifies this, items
      ensures Valid() && items == old(items) && capacity == old(capacity) && ok == (ix < old(count))
      ensures Contents() == if ok then old(Contents())[..ix] + old(Contents())[ix + 1..] else old(Contents())
    {
      if ix >= count {
        return false;
      }
      forall i | ix <= i < count - 1 {
        items[i] := items[i + 1];
      }
      count := count - 1;
      return true;
    }
  }
}
