/** A JSON object as the library stores it: two parallel arrays of names and values that grow by
    doubling and lose an entry by moving the last one into its place. */
module ObjectTable {
  import opened Bytes

  const STARTING_CAPACITY: nat := 16

  datatype Entry<+V> = Entry(name: bytes, value: V)

  // ---------- The entry sequence and the operations on it ----------

  /** Index of the first entry called `name`, or the number of entries. */
  function Find<V>(es: seq<Entry<V>>, name: bytes): (k: nat)
    ensures k <= |es|
    ensures k < |es| ==> es[k].name == name
  {
    if es == [] then 0
    else if es[0].name == name then 0
    else 1 + Find(es[1..], name)
  }

  lemma FindIsFirst<V>(es: seq<Entry<V>>, name: bytes)
    ensures forall j | 0 <= j < Find(es, name) :: es[j].name != name
  {
    if es != [] && es[0].name != name {
      FindIsFirst(es[1..], name);
      assert forall j | 0 < j < Find(es, name) :: es[j] == es[1..][j - 1];
    }
  }

  lemma OwnNameIsFound<V>(es: seq<Entry<V>>, k: nat)
    requires k < |es|
    ensures Find(es, es[k].name) <= k
  {
    FindIsFirst(es, es[k].name);
  }

  lemma FindEquals<V>(es: seq<Entry<V>>, name: bytes, k: nat)
    requires k <= |es| && (k < |es| ==> es[k].name == name)
    requires forall j | 0 <= j < k :: es[j].name != name
    ensures Find(es, name) == k
  {
    FindIsFirst(es, name);
  }

  function Lookup<V>(es: seq<Entry<V>>, name: bytes): Option<V> {
    var k := Find(es, name);
    if k < |es| then Some(es[k].value) else None
  }

  ghost predicate Distinct<V>(es: seq<Entry<V>>) {
    forall i, j | 0 <= i < j < |es| :: es[i].name != es[j].name
  }

  /** Adding fails on a name already present. */
  function AddEntry<V>(es: seq<Entry<V>>, name: bytes, value: V): Option<seq<Entry<V>>> {
    if Find(es, name) < |es| then None else Some(es + [Entry(name, value)])
  }

  function SetEntry<V>(es: seq<Entry<V>>, name: bytes, value: V): seq<Entry<V>> {
    var k := Find(es, name);
    if k < |es| then es[k := Entry(name, value)] else es + [Entry(name, value)]
  }

  function RemoveEntry<V>(es: seq<Entry<V>>, name: bytes): Option<seq<Entry<V>>> {
    var k := Find(es, name);
    if k == |es| then None
    else Some(es[k := es[|es| - 1]][..|es| - 1])
  }

  // ---------- The map the entries stand for ----------

  ghost function Names<V>(es: seq<Entry<V>>): set<bytes> {
    set e <- es :: e.name
  }

  ghost function ToMap<V>(es: seq<Entry<V>>): map<bytes, V> {
    map n | n in Names(es) && Find(es, n) < |es| :: es[Find(es, n)].value
  }

  lemma NameIffFound<V>(es: seq<Entry<V>>, name: bytes)
    ensures name in Names(es) <==> Find(es, name) < |es|
  {
    if Find(es, name) < |es| {
      assert es[Find(es, name)] in es;
    }
  }

  lemma LookupInMap<V>(es: seq<Entry<V>>, name: bytes)
    ensures Lookup(es, name).Some? <==> name in ToMap(es)
    ensures name in ToMap(es) ==> Lookup(es, name) == Some(ToMap(es)[name])
  {
    NameIffFound(es, name);
  }

  lemma FindIsUnique<V>(es: seq<Entry<V>>, k: nat)
    requires Distinct(es) && k < |es|
    ensures Find(es, es[k].name) == k
  {
    FindEquals(es, es[k].name, k);
  }

  /** Two maps over the same lookups are the same map. */
  lemma SameLookups<V>(es: seq<Entry<V>>, m: map<bytes, V>)
    requires forall n :: Lookup(es, n) == if n in m then Some(m[n]) else None
    ensures ToMap(es) == m
  {
    forall n ensures n in ToMap(es) <==> n in m
             ensures n in m ==> ToMap(es)[n] == m[n]
    {
      LookupInMap(es, n);
      assert Lookup(es, n) == if n in m then Some(m[n]) else None;
    }
  }

  lemma LookupAfterAppend<V>(es: seq<Entry<V>>, name: bytes, value: V, n: bytes)
    requires Find(es, name) == |es|
    ensures Lookup(es + [Entry(name, value)], n) == if n == name then Some(value) else Lookup(es, n)
  {
    var es' := es + [Entry(name, value)];
    var k := Find(es, n);
    FindIsFirst(es, n);
    FindEquals(es', n, if k < |es| || n == name then k else |es'|);
  }

  lemma LookupAfterReplace<V>(es: seq<Entry<V>>, name: bytes, value: V, n: bytes)
    requires Find(es, name) < |es|
    ensures Lookup(es[Find(es, name) := Entry(name, value)], n) == if n == name then Some(value) else Lookup(es, n)
  {
    FindIsFirst(es, n);
    FindEquals(es[Find(es, name) := Entry(name, value)], n, Find(es, n));
  }

  lemma LookupBy<V>(es: seq<Entry<V>>, k: nat)
    requires Distinct(es) && k < |es|
    ensures Lookup(es, es[k].name) == Some(es[k].value)
  {
    FindIsUnique(es, k);
  }

  lemma LookupAfterRemove<V>(es: seq<Entry<V>>, name: bytes, n: bytes)
    requires Distinct(es) && Find(es, name) < |es|
    ensures Lookup(RemoveEntry(es, name).value, n) == if n == name then None else Lookup(es, n)
  {
    var i, last, k := Find(es, name), |es| - 1, Find(es, n);
    DistinctAfterRemove(es, name);
    if n != name && k < |es| {
      KeptAfterRemove(es, name, k);
    } else {
      var es' := RemoveEntry(es, name).value;
      FindIsFirst(es, n);
      forall j | 0 <= j < |es'| ensures es'[j].name != n {
        if n == name {
          assert es[i].name == n;
        }
      }
    }
  }

  lemma KeptAfterRemove<V>(es: seq<Entry<V>>, name: bytes, k: nat)
    requires Distinct(es) && Find(es, name) < |es| && k < |es| && es[k].name != name
    ensures RemoveEntry(es, name).Some?
    ensures Lookup(RemoveEntry(es, name).value, es[k].name) == Some(es[k].value) == Lookup(es, es[k].name)
  {
    DistinctAfterRemove(es, name);
    var w := if k == |es| - 1 then Find(es, name) else k;
    LookupBy(RemoveEntry(es, name).value, w);
    LookupBy(es, k);
  }

  lemma DistinctAfterAppend<V>(es: seq<Entry<V>>, name: bytes, value: V)
    requires Distinct(es) && Find(es, name) == |es|
    ensures Distinct(es + [Entry(name, value)])
  {
    FindIsFirst(es, name);
  }

  lemma DistinctAfterRemove<V>(es: seq<Entry<V>>, name: bytes)
    requires Distinct(es) && Find(es, name) < |es|
    ensures Distinct(RemoveEntry(es, name).value)
  {
    var i, last := Find(es, name), |es| - 1;
    var es' := RemoveEntry(es, name).value;
    assert forall j | 0 <= j < last :: es'[j] == if j == i then es[last] else es[j];
  }

  lemma AddRefines<V>(es: seq<Entry<V>>, name: bytes, value: V)
    requires Distinct(es)
    ensures AddEntry(es, name, value).None? <==> name in ToMap(es)
    ensures var r := AddEntry(es, name, value);
            r.Some? ==> Distinct(r.value) && ToMap(r.value) == ToMap(es)[name := value]
  {
    LookupInMap(es, name);
    if Find(es, name) == |es| {
      DistinctAfterAppend(es, name, value);
      var m := ToMap(es)[name := value];
      forall n ensures Lookup(es + [Entry(name, value)], n) == if n in m then Some(m[n]) else None {
        LookupAfterAppend(es, name, value, n);
        LookupInMap(es, n);
      }
      SameLookups(es + [Entry(name, value)], m);
    }
  }

  lemma SetRefines<V>(es: seq<Entry<V>>, name: bytes, value: V)
    requires Distinct(es)
    ensures Distinct(SetEntry(es, name, value))
    ensures ToMap(SetEntry(es, name, value)) == ToMap(es)[name := value]
  {
    var m := ToMap(es)[name := value];
    if Find(es, name) == |es| {
      AddRefines(es, name, value);
    } else {
      var es' := SetEntry(es, name, value);
      forall n ensures Lookup(es', n) == if n in m then Some(m[n]) else None {
        LookupAfterReplace(es, name, value, n);
        LookupInMap(es, n);
      }
      SameLookups(es', m);
    }
  }

  /** Moving the last entry into the hole changes only the order. */
  lemma RemoveRefines<V>(es: seq<Entry<V>>, name: bytes)
    requires Distinct(es)
    ensures RemoveEntry(es, name).None? <==> name !in ToMap(es)
    ensures var r := RemoveEntry(es, name);
            r.Some? ==> Distinct(r.value) && ToMap(r.value) == ToMap(es) - {name}
  {
    LookupInMap(es, name);
    if Find(es, name) < |es| {
      DistinctAfterRemove(es, name);
      var es' := RemoveEntry(es, name).value;
      var m := ToMap(es) - {name};
      forall n ensures Lookup(es', n) == if n in m then Some(m[n]) else None {
        LookupAfterRemove(es, name, n);
        LookupInMap(es, n);
      }
      SameLookups(es', m);
    }
  }

  // ---------- Runs ----------

  datatype Op<V> =
    | Add(name: bytes, value: V)
    | Set(name: bytes, value: V)
    | Get(name: bytes)
    | Remove(name: bytes)
    | Clear

  datatype Reply<V> = Status(ok: bool) | Found(value: Option<V>)

  function StepEntries<V>(es: seq<Entry<V>>, op: Op<V>): (seq<Entry<V>>, Reply<V>) {
    match op
    case Add(n, v) =>
      var r := AddEntry(es, n, v);
      (if r.Some? then r.value else es, Status(r.Some?))
    case Set(n, v) => (SetEntry(es, n, v), Status(true))
    case Get(n) => (es, Found(Lookup(es, n)))
    case Remove(n) =>
      var r := RemoveEntry(es, n);
      (if r.Some? then r.value else es, Status(r.Some?))
    case Clear => ([], Status(true))
  }

  function StepMap<V>(m: map<bytes, V>, op: Op<V>): (map<bytes, V>, Reply<V>) {
    match op
    case Add(n, v) => if n in m then (m, Status(false)) else (m[n := v], Status(true))
    case Set(n, v) => (m[n := v], Status(true))
    case Get(n) => (m, Found(if n in m then Some(m[n]) else None))
    case Remove(n) => if n in m then (m - {n}, Status(true)) else (m, Status(false))
    case Clear => (map[], Status(true))
  }

  function RunEntries<V>(es: seq<Entry<V>>, ops: seq<Op<V>>): (seq<Entry<V>>, seq<Reply<V>>)
    decreases |ops|
  {
    if ops == [] then (es, [])
    else
      var (es1, reply) := StepEntries(es, ops[0]);
      var (es2, replies) := RunEntries(es1, ops[1..]);
      (es2, [reply] + replies)
  }

  function RunMap<V>(m: map<bytes, V>, ops: seq<Op<V>>): (map<bytes, V>, seq<Reply<V>>)
    decreases |ops|
  {
    if ops == [] then (m, [])
    else
      var (m1, reply) := StepMap(m, ops[0]);
      var (m2, replies) := RunMap(m1, ops[1..]);
      (m2, [reply] + replies)
  }

  lemma StepRefines<V>(es: seq<Entry<V>>, op: Op<V>)
    requires Distinct(es)
    ensures var (es', reply) := StepEntries(es, op);
            Distinct(es') && StepMap(ToMap(es), op) == (ToMap(es'), reply)
  {
    match op
    case Add(n, v) => AddRefines(es, n, v);
    case Set(n, v) => SetRefines(es, n, v);
    case Get(n) => LookupInMap(es, n);
    case Remove(n) => RemoveRefines(es, n);
    case Clear => SameLookups<V>([], map[]);
  }

  /** Every run of the table is a run of a finite map, with the same replies. */
  lemma {:induction false} RunRefinesMap<V>(es: seq<Entry<V>>, ops: seq<Op<V>>)
    requires Distinct(es)
    ensures var (es', replies) := RunEntries(es, ops);
            Distinct(es') && RunMap(ToMap(es), ops) == (ToMap(es'), replies)
    decreases |ops|
  {
    if ops != [] {
      StepRefines(es, ops[0]);
      RunRefinesMap(StepEntries(es, ops[0]).0, ops[1..]);
    }
  }

  // ---------- The arrays ----------

  function Zip<V>(ns: seq<bytes>, vs: seq<V>): (es: seq<Entry<V>>)
    requires |ns| == |vs|
    ensures |es| == |ns| && forall i | 0 <= i < |es| :: es[i] == Entry(ns[i], vs[i])
  {
    seq(|ns|, i requires 0 <= i < |ns| => Entry(ns[i], vs[i]))
  }

  class JsonObject<V(0)> {
    var names: array?<bytes>
    var values: array?<V>
    var count: nat
    var capacity: nat

    ghost predicate Valid()
      reads this, names, values
    {
      && count <= capacity
      && (names == null <==> capacity == 0)
      && (values == null <==> capacity == 0)
      && (names != null && values != null ==>
            names.Length == values.Length == capacity && names as object != values as object)
      && Distinct(Entries())
    }

    ghost function Entries(): seq<Entry<V>>
      reads this, names, values
    {
      if names != null && values != null && count <= names.Length && count <= values.Length then
        Zip(names[..count], values[..count])
      else []
    }

    constructor ()
      ensures Valid() && Entries() == [] && capacity == 0 && names == null && values == null
    {
      names, values := null, null;
      count, capacity := 0, 0;
    }

    method Resize(newCapacity: nat) returns (ok: bool)
      requires Valid() && count <= newCapacity
      modifies this
      ensures Valid() && Entries() == old(Entries()) && count == old(count)
      ensures ok == (newCapacity != 0)
      ensures ok ==> capacity == newCapacity && fresh(names) && fresh(values)
      ensures !ok ==> capacity == old(capacity) && names == old(names) && values == old(values)
    {
      if newCapacity == 0 {
        return false;
      }
      var newNames := new bytes[newCapacity];
      var newValues := new V[newCapacity];
      var oldNames, oldValues := names, values;
      if oldNames != null && oldValues != null && count > 0 {
        for i := 0 to count
          invariant newNames[..i] == oldNames[..i] && newValues[..i] == oldValues[..i]
          invariant unchanged(this) && unchanged(oldNames) && unchanged(oldValues)
        {
          newNames[i] := oldNames[i];
          newValues[i] := oldValues[i];
        }
      }
      names, values, capacity := newNames, newValues, newCapacity;
      assert Entries() == old(Entries());
      return true;
    }

    method GetN(name: bytes) returns (r: Option<V>)
      requires Valid()
      ensures r == Lookup(Entries(), name)
    {
      var i := 0;
      while i < count
        invariant i <= count
        invariant forall j | 0 <= j < i :: Entries()[j].name != name
      {
        if |names[i]| == |name| && names[i] == name {
          FindEquals(Entries(), name, i);
          return Some(values[i]);
        }
        i := i + 1;
      }
      FindEquals(Entries(), name, i);
      return None;
    }

    method AddN(name: bytes, value: V) returns (ok: bool)
      requires Valid()
      modifies this, names, values
      ensures Valid()
      ensures ok == AddEntry(old(Entries()), name, value).Some?
      ensures ok ==> Entries() == AddEntry(old(Entries()), name, value).value
      ensures !ok ==> Entries() == old(Entries())
      ensures names == old(names) || fresh(names)
      ensures values == old(values) || fresh(values)
      ensures capacity == if ok && old(count) == old(capacity)
                          then (if old(capacity) * 2 > STARTING_CAPACITY then old(capacity) * 2 else STARTING_CAPACITY)
                          else old(capacity)
    {
      var present := GetN(name);
      if present.Some? {
        return false;
      }
      if count >= capacity {
        var newCapacity := if capacity * 2 > STARTING_CAPACITY then capacity * 2 else STARTING_CAPACITY;
        var resized := Resize(newCapacity);
        if !resized {
          return false;
        }
      }
      ghost var before := Entries();
      var index := count;
      names[index] := name;
      values[index] := value;
      count := count + 1;
      assert Entries() == before + [Entry(name, value)];
      DistinctAfterAppend(before, name, value);
      return true;
    }

    /** The search by strcmp that set and remove repeat. */
    method IndexOf(name: bytes) returns (i: nat)
      requires Valid()
      ensures i == Find(Entries(), name)
    {
      i := 0;
      while i < count
        invariant i <= count == |Entries()|
        invariant forall j | 0 <= j < i :: Entries()[j].name != name
      {
        assert Entries()[i].name == names[i];
        if names[i] == name {
          FindEquals(Entries(), name, i);
          return i;
        }
        i := i + 1;
      }
      FindEquals(Entries(), name, i);
    }

    method SetValue(name: bytes, value: V) returns (ok: bool)
      requires Valid()
      modifies this, names, values
      ensures Valid() && ok
      ensures Entries() == SetEntry(old(Entries()), name, value)
      ensures names == old(names) || fresh(names)
      ensures values == old(values) || fresh(values)
    {
      hide Find;
      var present := GetN(name);
      if present.Some? {
        var i := IndexOf(name);
        if i < count {
          ghost var before, ns, vs := Entries(), names[..count], values[..count];
          values[i] := value;
          assert values[..count] == vs[i := value];
          assert Entries() == before[i := Entry(name, value)];
          return true;
        }
      }
      ok := AddN(name, value);
    }

    method Remove(name: bytes) returns (ok: bool)
      requires Valid()
      modifies this, names, values
      ensures Valid()
      ensures ok == RemoveEntry(old(Entries()), name).Some?
      ensures ok ==> Entries() == RemoveEntry(old(Entries()), name).value
      ensures !ok ==> Entries() == old(Entries())
      ensures names == old(names) && values == old(values) && capacity == old(capacity)
    {
      hide Find;
      var present := GetN(name);
      if present.None? {
        return false;
      }
      var lastItemIndex := count - 1;
      var i := IndexOf(name);
      if i == count {
        return false;
      }
      DistinctAfterRemove(Entries(), name);
      ghost var ns, vs := names[..count], values[..count];
      if i != lastItemIndex {
        names[i] := names[lastItemIndex];
        values[i] := values[lastItemIndex];
      }
      count := count - 1;
      assert names[..count] == ns[i := ns[lastItemIndex]][..lastItemIndex];
      assert values[..count] == vs[i := vs[lastItemIndex]][..lastItemIndex];
      return true;
    }

    /** The entries as a value, read off the two arrays. */
    method Freeze() returns (es: seq<Entry<V>>)
      requires Valid()
      ensures es == Entries()
    {
      if names == null || values == null {
        return [];
      }
      return Zip(names[..count], values[..count]);
    }

    method Clear()
      requires Valid()
      modifies this
      ensures Valid() && Entries() == []
      ensures names == old(names) && values == old(values) && capacity == old(capacity)
    {
      count := 0;
    }
  }
}
