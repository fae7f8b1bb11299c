/** A JSON array as the library stores it: one buffer of items that grows by doubling. */
module ArrayTable {
  import opened ObjectTable

  class JsonArray<V(0)> {
    var items: array?<V>
    var count: nat
    var capacity: nat

    ghost predicate Valid()
      reads this
    {
      && count <= capacity
      && (items == null <==> capacity == 0)
      && (items != null ==> items.Length == capacity)
    }

    ghost function Contents(): seq<V>
      reads this, items
    {
      if items != null && count <= items.Length then items[..count] else []
    }

    constructor ()
      ensures Valid() && Contents() == [] && capacity == 0 && items == null
    {
      items := null;
      count, capacity := 0, 0;
    }

    method Resize(newCapacity: nat) returns (ok: bool)
      requires Valid() && count <= newCapacity
      modifies this
      ensures Valid() && Contents() == old(Contents()) && count == old(count)
      ensures ok == (newCapacity != 0)
      ensures ok ==> capacity == newCapacity && fresh(items)
      ensures !ok ==> capacity == old(capacity) && items == old(items)
    {
      if newCapacity == 0 {
        return false;
      }
      var newItems := new V[newCapacity];
      var oldItems := items;
      if oldItems != null && count > 0 {
        for i := 0 to count
          invariant newItems[..i] == oldItems[..i]
          invariant unchanged(this) && unchanged(oldItems)
        {
          newItems[i] := oldItems[i];
        }
      }
      items, capacity := newItems, newCapacity;
      return true;
    }

    method Add(value: V) returns (ok: bool)
      requires Valid()
      modifies this, items
      ensures Valid() && ok
      ensures Contents() == old(Contents()) + [value]
      ensures items == old(items) || fresh(items)
    {
      if count >= capacity {
        var newCapacity := if capacity * 2 > STARTING_CAPACITY then capacity * 2 else STARTING_CAPACITY;
        var resized := Resize(newCapacity);
        if !resized {
          return false;
        }
      }
      ghost var before := Contents();
      items[count] := value;
      count := count + 1;
      assert Contents() == before + [value];
      return true;
    }

    method ReplaceAt(ix: nat, value: V) returns (ok: bool)
      requires Valid()
      modifies this, items
      ensures Valid() && items == old(items) && capacity == old(capacity)
      ensures ok == (ix < |old(Contents())|)
      ensures Contents() == if ok then old(Contents())[ix := value] else old(Contents())
    {
      if ix >= count {
        return false;
      }
      items[ix] := value;
      return true;
    }

    /** Removal closes the gap with memmove, so the order of the rest is kept. */
    method RemoveAt(ix: nat) returns (ok: bool)
      requires Valid()
      modifies this, items
      ensures Valid() && items == old(items) && capacity == old(capacity)
      ensures ok == (ix < |old(Contents())|)
      ensures Contents() == if ok then old(Contents())[..ix] + old(Contents())[ix + 1..] else old(Contents())
    {
      if ix >= count {
        return false;
      }
      ghost var before := Contents();
      ghost var after := before[..ix] + before[ix + 1..];
      for i := ix to count - 1
        invariant unchanged(this)
        invariant forall k | 0 <= k < i :: items[k] == after[k]
        invariant forall k | i <= k < count :: items[k] == before[k]
      {
        assert after[i] == before[i + 1] == items[i + 1];
        items[i] := items[i + 1];
      }
      count := count - 1;
      assert Contents() == after;
      return true;
    }

    method Clear()
      requires Valid()
      modifies this
      ensures Valid() && Contents() == [] && items == old(items) && capacity == old(capacity)
    {
      count := 0;
    }
  }
}
