/** The object table answers lookups as a finite map, after any sequence of operations. */
module ObjectTheorems {
  import opened Common
  import opened ObjectTable

  datatype Op<V> = Insert(key: string, value: V) | Assign(key: string, value: V) | Delete(key: string)

  /** What `Object.Add`, `Object.SetValue` and `Object.Remove` do to the items. */
  function Step<V>(items: Items<V>, op: Op<V>): Items<V> {
    match op
    case Insert(key, value) => if IndexOf(items, key) < 0 then items + [(key, value)] else items
    case Assign(key, value) => SetItem(items, key, value)
    case Delete(key) => RemoveItem(items, key)
  }

  function MapStep<V>(m: map<string, V>, op: Op<V>): map<string, V> {
    match op
    case Insert(key, value) => if key in m then m else m[key := value]
    case Assign(key, value) => m[key := value]
    case Delete(key) => m - {key}
  }

  function Run<V>(ops: seq<Op<V>>): Items<V> {
    if ops == [] then [] else Step(Run(ops[..|ops| - 1]), ops[|ops| - 1])
  }

  function MapRun<V>(ops: seq<Op<V>>): map<string, V> {
    if ops == [] then map[] else MapStep(MapRun(ops[..|ops| - 1]), ops[|ops| - 1])
  }

  function Find<V>(m: map<string, V>, key: string): Option<V> {
    if key in m then Some(m[key]) else None
  }

  /** A key is found at the only place it occurs. */
  lemma FoundAt<V>(items: Items<V>, key: string, i: int)
    requires Distinct(items) && 0 <= i < |items| && items[i].0 == key
    ensures Lookup(items, key) == Some(items[i].1)
  {
    IndexUnique(items, i);
  }

  lemma StepDistinct<V>(items: Items<V>, op: Op<V>)
    requires Distinct(items)
    ensures Distinct(Step(items, op))
  {
    if op.Delete? && IndexOf(items, op.key) >= 0 {
      var i, last := IndexOf(items, op.key), |items| - 1;
      var r := DropItem(items, i);
      assert forall t :: 0 <= t < last ==> r[t] == (if t == i then items[last] else items[t]);
    }
  }

  lemma SetLookup<V>(items: Items<V>, key: string, value: V, k: string)
    requires Distinct(items)
    ensures Lookup(SetItem(items, key, value), k) == if k == key then Some(value) else Lookup(items, k)
  {
    var r := SetItem(items, key, value);
    StepDistinct(items, Assign(key, value));
    var i, j := IndexOf(items, key), IndexOf(items, k);
    if k == key {
      FoundAt(r, k, if i >= 0 then i else |items|);
    } else if j >= 0 {
      assert r[j] == items[j];
      FoundAt(r, k, j);
    }
  }

  lemma RemoveLookup<V>(items: Items<V>, key: string, k: string)
    requires Distinct(items)
    ensures Lookup(RemoveItem(items, key), k) == if k == key then None else Lookup(items, k)
  {
    var r, i, j := RemoveItem(items, key), IndexOf(items, key), IndexOf(items, k);
    if i >= 0 {
      StepDistinct(items, Delete(key));
      var last := |items| - 1;
      assert forall t :: 0 <= t < last ==> r[t] == (if t == i then items[last] else items[t]);
      if k != key && j >= 0 {
        FoundAt(r, k, if j == last then i else j);
      }
    }
  }

  lemma InsertLookup<V>(items: Items<V>, key: string, value: V, k: string)
    requires Distinct(items)
    ensures Lookup(Step(items, Insert(key, value)), k)
         == if k == key && IndexOf(items, key) < 0 then Some(value) else Lookup(items, k)
  {
    var r, j := Step(items, Insert(key, value)), IndexOf(items, k);
    StepDistinct(items, Insert(key, value));
    if IndexOf(items, key) < 0 {
      if k == key {
        FoundAt(r, k, |items|);
      } else if j >= 0 {
        FoundAt(r, k, j);
      }
    }
  }

  /** After any sequence of additions, assignments and removals the items have distinct keys and yield exactly what
      a plain map would. */
  lemma {:induction false} ItemsAreMap<V>(ops: seq<Op<V>>)
    ensures Distinct(Run(ops))
    ensures forall k :: Lookup(Run(ops), k) == Find(MapRun(ops), k)
  {
    if ops != [] {
      var before, op := ops[..|ops| - 1], ops[|ops| - 1];
      ItemsAreMap(before);
      StepDistinct(Run(before), op);
      forall k
        ensures Lookup(Run(ops), k) == Find(MapRun(ops), k)
      {
        assert Lookup(Run(before), k) == Find(MapRun(before), k);
        assert Lookup(Run(before), op.key) == Find(MapRun(before), op.key);
        match op
        case Insert(key, value) => InsertLookup(Run(before), key, value, k);
        case Assign(key, value) => SetLookup(Run(before), key, value, k);
        case Delete(key) => RemoveLookup(Run(before), key, k);
      }
    }
  }

  /** One operation on the table. */
  method Apply<V(0)>(table: Object<V>, op: Op<V>)
    requires table.Valid()
    modifies table, table.Repr()
    ensures table.Valid() && fresh(table.Repr() - old(table.Repr())) && table.Items() == Step(old(table.Items()), op)
  {
    if op.Insert? {
      var ok := table.Add(op.key, op.value);
    } else if op.Assign? {
      table.SetValue(op.key, op.value);
    } else {
      var ok := table.Remove(op.key);
    }
  }

  /** Operations one after the other, on an empty table. */
  method ApplyAll<V(0)>(table: Object<V>, ops: seq<Op<V>>)
    requires table.Valid() && table.Items() == []
    modifies table, table.Repr()
    ensures table.Valid() && fresh(table.Repr() - old(table.Repr())) && table.Items() == Run(ops)
    decreases |ops|
  {
    if |ops| > 0 {
      ApplyAll(table, ops[..|ops| - 1]);
      ghost var middle := table.Repr();
      Apply(table, ops[|ops| - 1]);
      assert table.Repr() - old(table.Repr()) <= (table.Repr() - middle) + (middle - old(table.Repr()));
    }
  }

  /** For any hash function and any operations, with the growth and the shifting of cells they cause, a lookup in
      the table answers as a plain map would. */
  method LookupAfter<V(0)>(hash: string -> nat, ops: seq<Op<V>>, key: string) returns (r: Option<V>)
    ensures r == Find(MapRun(ops), key)
  {
    var table := new Object<V>(hash, 0);
    ApplyAll(table, ops);
    r := table.GetValue(key);
    ItemsAreMap(ops);
  }
}
