/** The growable name/value store behind a JSON object: two parallel arrays, a count and a capacity. */
module ObjectStore {
  import opened Text
  import opened JsonValue

  const STARTING_CAPACITY := 16

  /** The capacity after a store that was full has grown. */
  function Grown(capacity: nat): nat {
    if capacity * 2 > STARTING_CAPACITY then capacity * 2 else STARTING_CAPACITY
  }

  // ---------- What each operation does to the entries

  /** The first index with this name, or the number of entries. */
  function IndexOf<V>(es: seq<Entry<V>>, name: bytes): (i: nat)
    ensures i <= |es|
    ensures i < |es| ==> es[i].name == name && Find(es, name) == Some(es[i].value)
    ensures i == |es| ==> Find(es, name) == None
  {
    if es == [] || es[0].name == name then 0 else 1 + IndexOf(es[1..], name)
  }

  lemma {:induction false} IndexOfFirst<V>(es: seq<Entry<V>>, i: nat)
    requires i < |es| && forall k :: 0 <= k < i ==> es[k].name != es[i].name
    ensures IndexOf(es, es[i].name) == i
  {
    if i > 0 {
      assert es[0].name != es[i].name;
      IndexOfFirst(es[1..], i - 1);
    }
  }

  function Added<V>(es: seq<Entry<V>>, name: bytes, value: V): seq<Entry<V>> {
    if Find(es, name).Some? then es else es + [Entry(name, value)]
  }

  function Assigned<V>(es: seq<Entry<V>>, name: bytes, value: V): seq<Entry<V>> {
    var i := IndexOf(es, name);
    if i < |es| then es[i := Entry(name, value)] else es + [Entry(name, value)]
  }

  /** The last entry takes the place of the removed one. */
  function Removed<V>(es: seq<Entry<V>>, name: bytes): seq<Entry<V>> {
    var i := IndexOf(es, name);
    if i == |es| then es
    else
      var last := |es| - 1;
      es[i := es[last]][..last]
  }

  /** The entries that two parallel sequences hold. */
  function Zip<V>(names: seq<bytes>, values: seq<V>): (es: seq<Entry<V>>)
    requires |names| == |values|
    ensures |es| == |names| && forall k :: 0 <= k < |es| ==> es[k] == Entry(names[k], values[k])
  {
    if names == [] then []
    else
      var last := |names| - 1;
      Zip(names[..last], values[..last]) + [Entry(names[last], values[last])]
  }

  class JsonObject<V(0)> {
    var names: array<bytes>
    var values: array<V>
    var count: nat
    var capacity: nat
    ghost var entries: seq<Entry<V>>

    ghost predicate Valid()
      reads this, names, values
    {
      names as object != values && names.Length == values.Length == capacity && count <= capacity &&
      Holds() && DistinctNames(entries)
    }

    ghost predicate Holds()
      reads this, names, values
    {
      |entries| == count && count <= names.Length && count <= values.Length &&
      forall k :: 0 <= k < |entries| ==> entries[k].name == names[k] && entries[k].value == values[k]
    }

    /** Nothing but the arrays at hand or new ones holds the entries. */
    twostate predicate KeepsOrRenewsArrays()
      reads this
    {
      (names == old(names) && values == old(values)) || (fresh(names) && fresh(values))
    }

    function Entries(): (es: seq<Entry<V>>)
      requires Valid()
      reads this, names, values
      ensures es == entries
    {
      Zip(names[..count], values[..count])
    }

    /** json_object_init */
    constructor ()
      ensures Valid() && fresh(names) && fresh(values)
      ensures entries == [] && capacity == 0
    {
      names := new bytes[0];
      values := new V[0];
      count, capacity, entries := 0, 0, [];
    }

    /** json_object_getn_value */
    method Get(name: bytes) returns (r: Option<V>)
      requires Valid()
      ensures r == Find(entries, name)
    {
      for i := 0 to count
        invariant forall k :: 0 <= k < i ==> entries[k].name != name
      {
        if names[i] == name {
          assert entries[i].name == name;
          FindFirst(entries, i);
          return Some(values[i]);
        }
      }
      FindNone(entries, name);
      return None;
    }

    /** json_object_resize, also called with the count to trim. */
    method Resize(newCapacity: nat) returns (ok: bool)
      requires Valid() && (newCapacity == 0 || count <= newCapacity)
      modifies this`names, this`values, this`capacity
      ensures Valid() && ok == (newCapacity != 0)
      ensures capacity == (if ok then newCapacity else old(capacity))
      ensures KeepsOrRenewsArrays()
    {
      if newCapacity == 0 {
        return false;
      }
      var newNames := new bytes[newCapacity];
      var newValues := new V[newCapacity];
      forall i | 0 <= i < count {
        newNames[i] := names[i];
      }
      forall i | 0 <= i < count {
        newValues[i] := values[i];
      }
      names, values, capacity := newNames, newValues, newCapacity;
      return true;
    }

    /** json_object_addn */
    method Add(name: bytes, value: V) returns (ok: bool)
      requires Valid()
      modifies this, names, values
      ensures Valid() && ok == (Find(old(entries), name) == None)
      ensures entries == Added(old(entries), name, value)
      ensures KeepsOrRenewsArrays()
      ensures capacity == if ok && old(count) >= old(capacity) then Grown(old(capacity)) else old(capacity)
    {
      var present := Get(name);
      if present.Some? {
        return false;
      }
      if count >= capacity {
        var _ := Resize(Grown(capacity));
      }
      Append(name, value);
      return true;
    }

    /** The end of json_object_addn, once there is room for a new name. */
    method Append(name: bytes, value: V)
      requires Valid() && count < capacity && Find(entries, name) == None
      modifies this`count, this`entries, names, values
      ensures Valid() && entries == old(entries) + [Entry(name, value)]
    {
      DistinctAdd(entries, Entry(name, value));
      names[count] := name;
      values[count] := value;
      count, entries := count + 1, entries + [Entry(name, value)];
    }

    /** The scan with strcmp that json_object_set_value and json_object_remove_internal make for a present name. */
    method PositionOf(name: bytes) returns (i: nat)
      requires Valid() && Find(entries, name).Some?
      ensures i < count && i == IndexOf(entries, name)
    {
      i := 0;
      FindNone(entries, name);
      while names[i] != name
        invariant i < count
        invariant forall k :: 0 <= k < i ==> entries[k].name != name
        decreases count - i
      {
        i := i + 1;
      }
      IndexOfFirst(entries, i);
    }

    /** json_object_set_value; `attached` says that the value already has a parent. */
    method Set(name: bytes, value: V, attached: bool) returns (ok: bool)
      requires Valid()
      modifies this, names, values
      ensures Valid() && ok == !attached
      ensures entries == if ok then Assigned(old(entries), name, value) else old(entries)
      ensures KeepsOrRenewsArrays()
    {
      if attached {
        return false;
      }
      var present := Get(name);
      if present.Some? {
        var i := PositionOf(name);
        AssignedIsDistinct(entries, name, value);
        values[i] := value;
        entries := entries[i := Entry(name, value)];
        return true;
      }
      ok := Add(name, value);
    }

    /** Drops the last entry after moving it to position `i`. */
    method TakeLast(i: nat)
      requires Valid() && i < count
      modifies this`count, this`entries, names, values
      ensures Holds() && entries == old(entries)[i := old(entries)[old(count) - 1]][..old(count) - 1]
    {
      var lastItemIndex := count - 1;
      entries := entries[i := entries[lastItemIndex]][..lastItemIndex];
      if i != lastItemIndex {
        names[i] := names[lastItemIndex];
        values[i] := values[lastItemIndex];
      }
      count := count - 1;
    }

    /** json_object_remove_internal */
    method Remove(name: bytes) returns (ok: bool)
      requires Valid()
      modifies this, names, values
      ensures Valid() && ok == Find(old(entries), name).Some?
      ensures entries == Removed(old(entries), name)
      ensures names == old(names) && values == old(values) && capacity == old(capacity)
    {
      var present := Get(name);
      if present.None? {
        return false;
      }
      var i := PositionOf(name);
      RemovedIsDistinct(entries, name);
      TakeLast(i);
      return true;
    }

    /** json_object_clear */
    method Clear()
      requires Valid()
      modifies this
      ensures Valid() && entries == []
      ensures names == old(names) && values == old(values) && capacity == old(capacity)
    {
      count, entries := 0, [];
    }
  }

  lemma AssignedIsDistinct<V>(es: seq<Entry<V>>, name: bytes, value: V)
    requires DistinctNames(es)
    ensures DistinctNames(Assigned(es, name, value))
  {
    var i := IndexOf(es, name);
    if i < |es| {
      DistinctNamesMeansPairwise(es);
      DistinctNamesMeansPairwise(es[i := Entry(name, value)]);
    } else {
      DistinctAdd(es, Entry(name, value));
    }
  }

  lemma RemovedIsDistinct<V>(es: seq<Entry<V>>, name: bytes)
    requires DistinctNames(es)
    ensures DistinctNames(Removed(es, name))
  {
    DistinctNamesMeansPairwise(es);
    DistinctNamesMeansPairwise(Removed(es, name));
  }

  // ---------- The store as a finite map

  function Names<V>(es: seq<Entry<V>>): set<bytes> {
    set i | 0 <= i < |es| :: es[i].name
  }

  lemma NamesAreFound<V>(es: seq<Entry<V>>, name: bytes)
    ensures name in Names(es) <==> Find(es, name).Some?
  {
    FindNone(es, name);
  }

  function AsMap<V>(es: seq<Entry<V>>): (m: map<bytes, V>)
    ensures forall name :: name in m <==> Find(es, name).Some?
    ensures forall name :: name in m ==> Find(es, name) == Some(m[name])
  {
    assert forall name :: name in Names(es) <==> Find(es, name).Some? by {
      forall name ensures name in Names(es) <==> Find(es, name).Some? {
        NamesAreFound(es, name);
      }
    }
    map name | name in Names(es) :: Find(es, name).value
  }

  lemma {:induction false} FindAfterAppend<V>(es: seq<Entry<V>>, e: Entry<V>, name: bytes)
    ensures Find(es + [e], name)
         == if Find(es, name).Some? then Find(es, name) else if e.name == name then Some(e.value) else None
  {
    if es == [] {
      assert es + [e] == [e];
    } else {
      assert (es + [e])[1..] == es[1..] + [e];
      FindAfterAppend(es[1..], e, name);
    }
  }

  lemma FindAfterAssign<V>(es: seq<Entry<V>>, name: bytes, value: V, n: bytes)
    requires DistinctNames(es)
    ensures Find(Assigned(es, name, value), n) == if n == name then Some(value) else Find(es, n)
  {
    var i, after := IndexOf(es, name), Assigned(es, name, value);
    if i < |es| {
      AssignedIsDistinct(es, name, value);
      SameBindings(es, after, n, i);
      FindByIndex(after, i);
    } else {
      FindAfterAppend(es, Entry(name, value), n);
    }
  }

  /** Replacing one entry leaves every other name's binding alone. */
  lemma SameBindings<V>(es: seq<Entry<V>>, after: seq<Entry<V>>, n: bytes, i: nat)
    requires DistinctNames(es) && DistinctNames(after) && i < |es| == |after|
    requires after == es[i := after[i]] && after[i].name == es[i].name
    ensures n != es[i].name ==> Find(after, n) == Find(es, n)
  {
    if n != es[i].name {
      var j := IndexOf(es, n);
      if j < |es| {
        FindByIndex(after, j);
      } else {
        FindNone(es, n);
        FindNone(after, n);
      }
    }
  }

  lemma FindAfterRemove<V>(es: seq<Entry<V>>, name: bytes, n: bytes)
    requires DistinctNames(es)
    ensures Find(Removed(es, name), n) == if n == name then None else Find(es, n)
  {
    var i, last, after := IndexOf(es, name), |es| - 1, Removed(es, name);
    if i < |es| {
      RemovedIsDistinct(es, name);
      DistinctNamesMeansPairwise(es);
      var j := IndexOf(es, n);
      FindNone(after, n);
      if n != name && j < |es| {
        FindByIndex(after, if j == last then i else j);
      } else if n != name {
        FindNone(es, n);
      }
    }
  }

  datatype Op<V> =
    | OpAdd(name: bytes, value: V)
    | OpSet(name: bytes, value: V, attached: bool)
    | OpRemove(name: bytes)
    | OpClear
    | OpResize

  function Apply<V>(es: seq<Entry<V>>, op: Op<V>): seq<Entry<V>> {
    match op
    case OpAdd(name, value) => Added(es, name, value)
    case OpSet(name, value, attached) => if attached then es else Assigned(es, name, value)
    case OpRemove(name) => Removed(es, name)
    case OpClear => []
    case OpResize => es
  }

  function ApplyToMap<V>(m: map<bytes, V>, op: Op<V>): map<bytes, V> {
    match op
    case OpAdd(name, value) => if name in m then m else m[name := value]
    case OpSet(name, value, attached) => if attached then m else m[name := value]
    case OpRemove(name) => m - {name}
    case OpClear => map[]
    case OpResize => m
  }

  lemma AddRefinesMap<V>(es: seq<Entry<V>>, name: bytes, value: V)
    requires DistinctNames(es)
    ensures DistinctNames(Added(es, name, value))
    ensures AsMap(Added(es, name, value)) == if name in AsMap(es) then AsMap(es) else AsMap(es)[name := value]
  {
    DistinctAdd(es, Entry(name, value));
    var before, after := AsMap(es), AsMap(Added(es, name, value));
    if name !in before {
      forall n ensures n in after <==> n in before[name := value]
               ensures n in after ==> after[n] == before[name := value][n] {
        FindAfterAppend(es, Entry(name, value), n);
      }
    }
  }

  lemma AssignRefinesMap<V>(es: seq<Entry<V>>, name: bytes, value: V)
    requires DistinctNames(es)
    ensures DistinctNames(Assigned(es, name, value))
    ensures AsMap(Assigned(es, name, value)) == AsMap(es)[name := value]
  {
    AssignedIsDistinct(es, name, value);
    var before, after := AsMap(es), AsMap(Assigned(es, name, value));
    forall n ensures n in after <==> n in before[name := value]
             ensures n in after ==> after[n] == before[name := value][n] {
      FindAfterAssign(es, name, value, n);
    }
  }

  lemma RemoveRefinesMap<V>(es: seq<Entry<V>>, name: bytes)
    requires DistinctNames(es)
    ensures DistinctNames(Removed(es, name)) && AsMap(Removed(es, name)) == AsMap(es) - {name}
  {
    RemovedIsDistinct(es, name);
    var before, after := AsMap(es), AsMap(Removed(es, name));
    forall n ensures n in after <==> n in before && n != name
             ensures n in after ==> after[n] == before[n] {
      FindAfterRemove(es, name, n);
    }
  }

  lemma StepRefinesMap<V>(es: seq<Entry<V>>, op: Op<V>)
    requires DistinctNames(es)
    ensures DistinctNames(Apply(es, op)) && AsMap(Apply(es, op)) == ApplyToMap(AsMap(es), op)
  {
    match op {
      case OpAdd(name, value) => AddRefinesMap(es, name, value);
      case OpSet(name, value, _) => AssignRefinesMap(es, name, value);
      case OpRemove(name) => RemoveRefinesMap(es, name);
      case OpClear =>
      case OpResize =>
    }
  }

  function Run<V>(es: seq<Entry<V>>, ops: seq<Op<V>>): seq<Entry<V>>
    decreases |ops|
  {
    if ops == [] then es else Run(Apply(es, ops[0]), ops[1..])
  }

  function RunOnMap<V>(m: map<bytes, V>, ops: seq<Op<V>>): map<bytes, V>
    decreases |ops|
  {
    if ops == [] then m else RunOnMap(ApplyToMap(m, ops[0]), ops[1..])
  }

  /** Any sequence of operations acts on the store as it does on a finite map, and names stay unique. */
  lemma {:induction false} RunRefinesMap<V>(es: seq<Entry<V>>, ops: seq<Op<V>>)
    requires DistinctNames(es)
    ensures DistinctNames(Run(es, ops)) && AsMap(Run(es, ops)) == RunOnMap(AsMap(es), ops)
    decreases |ops|
  {
    if ops != [] {
      StepRefinesMap(es, ops[0]);
      RunRefinesMap(Apply(es, ops[0]), ops[1..]);
    }
  }
}
