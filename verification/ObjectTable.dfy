/** Parson's object table: an insertion-ordered list of items with a hash index beside it, updated in
    place.  The hash function is arbitrary. */
module ObjectTable {
  import opened Common
  import opened Probing
  import Bytes

  // -------------------------------------------------------- the specification

  /** Items in storage order. */
  type Items<V> = seq<(string, V)>

  function IndexOf<V>(items: Items<V>, key: string): (r: int)
    ensures -1 <= r < |items|
    ensures r >= 0 ==> items[r].0 == key
    ensures r < 0 ==> forall i :: 0 <= i < |items| ==> items[i].0 != key
  {
    if items == [] then -1
    else if items[|items| - 1].0 == key then |items| - 1
    else IndexOf(items[..|items| - 1], key)
  }

  function Lookup<V>(items: Items<V>, key: string): Option<V> {
    var i := IndexOf(items, key);
    if i >= 0 then Some(items[i].1) else None
  }

  ghost predicate Distinct<V>(items: Items<V>) {
    forall i, j :: 0 <= i < j < |items| ==> items[i].0 != items[j].0
  }

  function SetItem<V>(items: Items<V>, key: string, value: V): Items<V> {
    var i := IndexOf(items, key);
    if i >= 0 then items[i := (key, value)] else items + [(key, value)]
  }

  /** Removal moves the last item into the freed place. */
  function DropItem<V>(items: Items<V>, i: nat): Items<V>
    requires i < |items|
  {
    var last := |items| - 1;
    items[i := items[last]][..last]
  }

  function RemoveItem<V>(items: Items<V>, key: string): Items<V> {
    var i := IndexOf(items, key);
    if i < 0 then items else DropItem(items, i)
  }

  lemma IndexUnique<V>(items: Items<V>, i: nat)
    requires Distinct(items) && i < |items|
    ensures IndexOf(items, items[i].0) == i
  {
  }

  // ---------------------------------------------------------------- the table

  class Object<V(0)> {
    const hash: string -> nat
    var cells: array<int>
    var names: array<string>
    var values: array<V>
    var cellIxs: array<int>
    var hashes: array<int>
    var count: nat
    var cellCapacity: nat
    var itemCapacity: nat

    ghost predicate Shape()
      reads this
    {
      && cells.Length == cellCapacity && itemCapacity == cellCapacity * 7 / 10
      && names.Length == values.Length == cellIxs.Length == hashes.Length == itemCapacity
      && cells != cellIxs && cells != hashes && cellIxs != hashes
      && values as object !in {cells as object, names, cellIxs, hashes}
      && count <= itemCapacity && (cellCapacity == 0 || cellCapacity >= 16)
    }

    ghost function Items(): Items<V>
      requires Shape()
      reads this, names, values
    {
      Zip(names[..count], values[..count])
    }

    /** The index agrees with the items, and every item is reachable by probing. */
    ghost predicate Valid()
      reads this, cells, names, values, cellIxs, hashes
    {
      Shape() && Indexed(hash, cells[..], names[..count], cellIxs[..count], hashes[..count])
    }

    ghost function Repr(): set<object>
      reads this
    {
      {cells as object, names, values, cellIxs, hashes}
    }

    constructor (hash: string -> nat, capacity: nat)
      requires capacity == 0 || capacity >= 16
      ensures Valid() && Items() == [] && this.hash == hash && cellCapacity == capacity && fresh(Repr())
    {
      this.hash := hash;
      count, cellCapacity, itemCapacity := 0, capacity, capacity * 7 / 10;
      cells := new int[capacity](_ => EMPTY);
      names := new string[capacity * 7 / 10];
      values := new V[capacity * 7 / 10];
      cellIxs := new int[capacity * 7 / 10];
      hashes := new int[capacity * 7 / 10];
    }

    /** The cell of `key`, or the empty cell where probing for it ends; -1 if there is neither. */
    method GetCellIx(key: string, h: nat) returns (cell: int, found: bool)
      requires Valid() && h == hash(key)
      ensures found ==> 0 <= cell < cellCapacity && 0 <= cells[cell] < count && names[cells[cell]] == key
      ensures !found ==> Absent(names[..count], key)
      ensures !found && count < cellCapacity ==> Slot(cells[..], Home(h, cellCapacity), cell)
    {
      found := false;
      if cellCapacity == 0 {
        return -1, false;
      }
      ghost var cs, ns, start := cells[..], names[..count], h % cellCapacity;
      ghost var at, hm := cellIxs[..count], HomesOf(hashes[..count], cellCapacity);
      HomesMatch(hash, ns, hashes[..count], cellCapacity, key);
      var i := 0;
      while i < cellCapacity
        invariant 0 <= i <= cellCapacity && Searched(cs, ns, key, start, i)
      {
        var ix := (h % cellCapacity + i) % cellCapacity;
        RingStep(start, i, cellCapacity);
        cell := cells[ix];
        assert cs[ix] == cell;
        if cell == EMPTY {
          SearchEnds(cs, at, hm, ns, key, start, i, ix);
          SlotFound(cs, ns, key, start, i, ix);
          return ix, false;
        }
        assert 0 <= cell < count && ns[cell] == names[cell] && hashes[..count][cell] == hashes[cell];
        if h == hashes[cell] && key == names[cell] {
          return ix, true;
        }
        SearchStep(cs, ns, key, start, i, ix);
        i := i + 1;
      }
      SearchEnds(cs, at, hm, ns, key, start, i, 0);
      if count < cellCapacity {
        ghost var e := EmptyCell(cs, at, hm);
        assert false;
      }
      cell := -1;
    }

    method GetValue(key: string) returns (r: Option<V>)
      requires Valid()
      ensures r == Lookup(Items(), key)
    {
      var cell, found := GetCellIx(key, hash(key));
      if !found {
        AbsentItems(names[..count], values[..count], key);
        return None;
      }
      PresentItem(names[..count], values[..count], cells[cell]);
      r := Some(values[cells[cell]]);
    }

    /** Writes a new item at the end of the lists and in a cell. */
    method Store(key: string, value: V, cell: int, h: nat)
      requires Shape() && count < itemCapacity && 0 <= cell < cellCapacity
      modifies this`count, Repr()
      ensures Shape() && count == old(count) + 1
      ensures cells[..] == old(cells[..])[cell := old(count)] && cellIxs[..count] == old(cellIxs[..count]) + [cell]
      ensures names[..count] == old(names[..count]) + [key] && values[..count] == old(values[..count]) + [value]
      ensures hashes[..count] == old(hashes[..count]) + [h]
    {
      names[count] := key;
      cells[cell] := count;
      values[count] := value;
      cellIxs[count] := cell;
      hashes[count] := h;
      assert values[..count] == old(values[..count]);
      count := count + 1;
    }

    /** Appends an item whose key is absent, in the slot found for it. */
    method Place(key: string, value: V, cell: int, h: nat)
      requires Valid() && count < itemCapacity && h == hash(key)
      requires Absent(names[..count], key) && Slot(cells[..], Home(h, cellCapacity), cell)
      modifies this`count, Repr()
      ensures Valid() && Items() == old(Items()) + [(key, value)] && Repr() == old(Repr())
    {
      IndexedInsert(hash, cells[..], names[..count], cellIxs[..count], hashes[..count], key, cell);
      ZipAppend(names[..count], values[..count], key, value);
      Store(key, value, cell, h);
    }

    /** Grows a full table; the cell for `key` is searched again if the table moved. */
    method MakeRoom(key: string, h: nat, cell: int) returns (room: int)
      requires Valid() && h == hash(key) && Absent(names[..count], key)
      requires count < itemCapacity ==> Slot(cells[..], Home(h, cellCapacity), cell)
      modifies this, Repr()
      ensures Valid() && fresh(Repr() - old(Repr())) && Items() == old(Items()) && count < itemCapacity
      ensures Absent(names[..count], key) && Slot(cells[..], Home(h, cellCapacity), room)
      ensures old(count < itemCapacity) ==> cellCapacity == old(cellCapacity)
      decreases if count >= itemCapacity then 1 else 0, 2
    {
      room := cell;
      if count >= itemCapacity {
        AbsentItems(names[..count], values[..count], key);
        Grow();
        AbsentNames(names[..count], values[..count], key);
        var found;
        room, found := GetCellIx(key, h);
      }
    }

    /** Appends an item whose key is absent, growing the table first if it is full. */
    method Append(key: string, value: V, cell: int)
      requires Valid() && Absent(names[..count], key)
      requires count < itemCapacity ==> Slot(cells[..], Home(hash(key), cellCapacity), cell)
      modifies this, Repr()
      ensures Valid() && fresh(Repr() - old(Repr())) && Items() == old(Items()) + [(key, value)]
      ensures old(count < itemCapacity) ==> cellCapacity == old(cellCapacity)
      decreases if count >= itemCapacity then 1 else 0, 3
    {
      ghost var items := Items();
      var room := MakeRoom(key, hash(key), cell);
      assert Items() == items;
      Place(key, value, room, hash(key));
    }

    /** `json_object_add`: fails if the key is present. */
    method Add(key: string, value: V) returns (ok: bool)
      requires Valid()
      modifies this, Repr()
      ensures Valid() && fresh(Repr() - old(Repr()))
      ensures ok <==> IndexOf(old(Items()), key) < 0
      ensures Items() == if ok then old(Items()) + [(key, value)] else old(Items())
      ensures old(count < itemCapacity) ==> cellCapacity == old(cellCapacity)
      decreases if count >= itemCapacity then 1 else 0, 4
    {
      var cell, item := Locate(key);
      ok := item < 0;
      if ok {
        Append(key, value, cell);
      }
    }

    /** The index of `key` among the items, and the cell where probing for it ended. */
    method Locate(key: string) returns (cell: int, item: int)
      requires Valid()
      ensures item == IndexOf(Items(), key) && item < count && (item >= 0 ==> names[item] == key)
      ensures item < 0 ==> Absent(names[..count], key)
      ensures item < 0 && count < itemCapacity ==> Slot(cells[..], Home(hash(key), cellCapacity), cell)
    {
      var found;
      cell, found := GetCellIx(key, hash(key));
      item := if found then cells[cell] else -1;
      if found {
        PresentItem(names[..count], values[..count], cells[cell]);
      } else {
        AbsentItems(names[..count], values[..count], key);
      }
    }

    /** `json_object_set_value`: replaces in place, or appends. */
    method SetValue(key: string, value: V)
      requires Valid()
      modifies this, Repr()
      ensures Valid() && fresh(Repr() - old(Repr())) && Items() == SetItem(old(Items()), key, value)
    {
      var cell, item := Locate(key);
      if item >= 0 {
        Overwrite(item, value);
      } else {
        Append(key, value, cell);
      }
    }

    method Overwrite(item: nat, value: V)
      requires Valid() && item < count
      modifies values
      ensures Valid() && Items() == old(Items())[item := (names[item], value)]
    {
      values[item] := value;
      assert names[..count] == old(names[..count]) && cells[..] == old(cells[..]);
      assert cellIxs[..count] == old(cellIxs[..count]) && hashes[..count] == old(hashes[..count]);
    }

    /** `json_object_grow_and_rehash`: doubles the capacity and adds every item again, in order. */
    method Grow()
      requires Valid()
      modifies this, Repr()
      ensures Valid() && fresh(Repr()) && Items() == old(Items()) && count < itemCapacity
      decreases 1, 1
    {
      var next := Rehash();
      Become(next);
    }

    /** A table of twice the capacity with the same items. */
    method Rehash() returns (next: Object<V>)
      requires Valid()
      ensures next.Valid() && fresh(next) && fresh(next.Repr()) && next.hash == hash && next.Items() == Items()
      ensures next.count < next.itemCapacity
      decreases 1, 0
    {
      var capacity := if 2 * cellCapacity > 16 then 2 * cellCapacity else 16;
      next := new Object<V>(hash, capacity);
      AddAllTo(next);
      assert |next.Items()| == next.count && |Items()| == count;
    }

    /** The struct assignment that ends `json_object_grow_and_rehash`. */
    method Become(next: Object<V>)
      requires next.Valid() && next.hash == hash && next != this
      modifies this
      ensures Valid() && Repr() == next.Repr() && Items() == next.Items()
      ensures cellCapacity == next.cellCapacity && count == next.count && itemCapacity == next.itemCapacity
    {
      ghost var cs, ns, vs := next.cells[..], next.names[..next.count], next.values[..next.count];
      ghost var at, hs := next.cellIxs[..next.count], next.hashes[..next.count];
      cells, names, values, cellIxs, hashes := next.cells, next.names, next.values, next.cellIxs, next.hashes;
      count, cellCapacity, itemCapacity := next.count, next.cellCapacity, next.itemCapacity;
      assert cells[..] == cs && names[..count] == ns && values[..count] == vs;
      assert cellIxs[..count] == at && hashes[..count] == hs;
    }

    method AddAllTo(next: Object<V>)
      requires Valid() && next.Valid() && next.Items() == [] && next.hash == hash && count < next.itemCapacity
      requires next != this && next.Repr() !! Repr()
      modifies next, next.Repr()
      ensures next.Valid() && fresh(next.Repr() - old(next.Repr())) && next.Items() == Items()
      ensures next.cellCapacity == old(next.cellCapacity)
      decreases 0, 6
    {
      ghost var items := Items();
      DistinctItems(names[..count], values[..count]);
      var i := 0;
      while i < count
        invariant 0 <= i <= count && next.Valid() && fresh(next.Repr() - old(next.Repr()))
        invariant next.cellCapacity == old(next.cellCapacity) && next.Items() == items[..i]
      {
        AddOneTo(next, i, items);
        i := i + 1;
      }
      AppendAll(items);
    }

    /** Adds item `i`. */
    method AddOneTo(next: Object<V>, i: nat, ghost items: Items<V>)
      requires Valid() && items == Items() && Distinct(items) && i < count
      requires next.Valid() && next.hash == hash && next.Items() == items[..i] && count < next.itemCapacity
      modifies next, next.Repr()
      ensures next.Valid() && fresh(next.Repr() - old(next.Repr())) && next.Items() == items[..i + 1]
      ensures next.cellCapacity == old(next.cellCapacity)
      decreases 0, 5
    {
      assert items[i] == (names[i], values[i]);
      assert |next.Items()| == next.count;
      NotYet(items, i);
      AppendNext(items, i);
      var ok := next.Add(names[i], values[i]);
    }

    /** Takes the last item out of the lists, giving its identity to `item`. */
    method Rename(item: nat)
      requires Valid() && item < count
      modifies this`count, Repr()
      ensures Shape() && count == old(count) - 1
      ensures cellIxs[..count] == Renamed(old(cellIxs[..count]), item)
      ensures hashes[..count] == Renamed(old(hashes[..count]), item)
      ensures names[..count] == old(names[..count])[item := old(names[count - 1])][..count]
      ensures values[..count] == old(values[..count])[item := old(values[count - 1])][..count]
      ensures cells[..] == (if item < count then old(cells[..])[old(cellIxs[count - 1]) := item] else old(cells[..]))
    {
      var last := count - 1;
      assert 0 <= cellIxs[..count][last] < cellCapacity;
      if item < last {
        names[item] := names[last];
        values[item] := values[last];
        cellIxs[item] := cellIxs[last];
        hashes[item] := hashes[last];
        cells[cellIxs[item]] := item;
      }
      count := count - 1;
    }

    /** Moves the item at cell `j` back into the hole `i`. */
    method FillHole(i: nat, j: nat)
      requires Shape() && i < cellCapacity && j < cellCapacity && 0 <= cells[j] < count
      modifies cells, cellIxs
      ensures cells[..] == old(cells[..])[i := old(cells[j])]
      ensures cellIxs[..count] == old(cellIxs[..count])[old(cells[j]) := i]
    {
      cellIxs[cells[j]] := i;
      cells[i] := cells[j];
    }

    /** The loop of `json_object_remove_internal` and the final clearing of the hole. */
    method BackwardShift(start: nat, ghost e: int)
      requires Shape() && start < cellCapacity
      requires Shifting(cells[..], cellIxs[..count], HomesOf(hashes[..count], cellCapacity), start, start, 0, e)
      modifies cells, cellIxs
      ensures Linked(cells[..], cellIxs[..count], HomesOf(hashes[..count], cellCapacity), -1)
      ensures Reachable(cells[..], cellIxs[..count], HomesOf(hashes[..count], cellCapacity))
    {
      ghost var hm := HomesOf(hashes[..count], cellCapacity);
      var i, j, x := start, start, 0;
      while x < cellCapacity - 1
        invariant 0 <= x < cellCapacity && 0 <= j < cellCapacity && Dist(start, j, cellCapacity) == x
        invariant Shifting(cells[..], cellIxs[..count], hm, start, i, x, e)
        invariant hashes[..count] == old(hashes[..count])
      {
        RingNext(start, j, x, cellCapacity);
        j := (j + 1) % cellCapacity;
        ghost var cs, at := cells[..], cellIxs[..count];
        if cells[j] == EMPTY {
          ShiftDone(cs, at, hm, start, i, x, e, j);
          break;
        }
        var u := cells[j];
        assert cs[j] == u && 0 <= u < count && hashes[..count][u] == hashes[u];
        var k := hashes[u] % cellCapacity;
        CodeTestIsOnPath(i, j, k, cellCapacity);
        if (j > i && (k <= i || k > j)) || (j < i && (k <= i && k > j)) {
          ShiftMove(cs, at, hm, start, i, x, e, j);
          FillHole(i, j);
          i := j;
        } else {
          ShiftKeep(cs, at, hm, start, i, x, e, j);
        }
        x := x + 1;
      }
      ghost var cs := cells[..];
      cells[i] := EMPTY;
      assert cells[..] == cs[i := EMPTY];
    }

    /** Takes the item of `cell` out of the lists; its cell becomes a hole. */
    method OpenHole(cell: nat) returns (ghost e: int)
      requires Valid() && cell < cellCapacity && 0 <= cells[cell] < count
      modifies this`count, Repr()
      ensures Shape() && Items() == DropItem(old(Items()), old(cells[cell]))
      ensures Opened(hash, cells[..], names[..count], cellIxs[..count], hashes[..count], cell, e)
    {
      var item := cells[cell];
      e := HoleOpens(hash, cells[..], names[..count], values[..count], cellIxs[..count], hashes[..count], cell);
      ghost var ns, vs, at, hs := names[..count], values[..count], cellIxs[..count], hashes[..count];
      ghost var last, cs := count - 1, cells[..];
      Rename(item);
      SameOpened(hash, if item < last then cs[at[last] := item] else cs, ns[item := ns[last]][..last],
                 Renamed(at, item), Renamed(hs, item), cells[..], names[..count],
                 cellIxs[..count], hashes[..count], cell, e);
    }

    /** Removes the item stored in `cell`: the last item takes the freed place in the lists and the probe
        sequences are closed up. */
    method RemoveAt(cell: nat)
      requires Valid() && cell < cellCapacity && 0 <= cells[cell] < count
      modifies this`count, Repr()
      ensures Valid() && Items() == DropItem(old(Items()), old(cells[cell]))
    {
      ghost var e := OpenHole(cell);
      ghost var ns, vs, hs := names[..count], values[..count], hashes[..count];
      BackwardShift(cell, e);
      assert names[..count] == ns && values[..count] == vs && hashes[..count] == hs;
    }

    /** `json_object_remove`: fails if the key is absent. */
    method Remove(key: string) returns (ok: bool)
      requires Valid()
      modifies this`count, Repr()
      ensures Valid() && Items() == RemoveItem(old(Items()), key)
      ensures ok <==> IndexOf(old(Items()), key) >= 0
    {
      var cell, found := GetCellIx(key, hash(key));
      if !found {
        AbsentItems(names[..count], values[..count], key);
        return false;
      }
      PresentItem(names[..count], values[..count], cells[cell]);
      RemoveAt(cell);
      ok := true;
    }
  }

  // ------------------------------------------------------- views of the arrays

  function Zip<V>(names: seq<string>, values: seq<V>): (r: Items<V>)
    requires |names| == |values|
    ensures |r| == |names| && forall i :: 0 <= i < |r| ==> r[i] == (names[i], values[i])
  {
    seq(|names|, i requires 0 <= i < |names| => (names[i], values[i]))
  }

  /** The starting cell of a hash; the capacity is a power of two, so this is the C code's mask. */
  function Home(h: int, capacity: nat): int {
    if capacity == 0 then 0 else h % capacity
  }

  function HomesOf(hashes: seq<int>, capacity: nat): (r: seq<int>)
    ensures |r| == |hashes| && forall i :: 0 <= i < |r| ==> r[i] == Home(hashes[i], capacity)
  {
    seq(|hashes|, i requires 0 <= i < |hashes| => Home(hashes[i], capacity))
  }

  ghost predicate Unique(names: seq<string>) {
    forall i, j :: 0 <= i < j < |names| ==> names[i] != names[j]
  }

  ghost predicate Hashed(hash: string -> nat, names: seq<string>, hashes: seq<int>) {
    |names| == |hashes| && forall i :: 0 <= i < |names| ==> hashes[i] == hash(names[i])
  }

  ghost predicate Absent(names: seq<string>, key: string) {
    forall t :: 0 <= t < |names| ==> names[t] != key
  }

  /** An empty cell reached from `start` over occupied cells only. */
  ghost predicate Slot(cells: seq<int>, start: int, cell: int) {
    && 0 <= cell < |cells| && cells[cell] == EMPTY
    && forall d :: 0 <= d < |cells| && OnPath(d, start, cell, |cells|) ==> cells[d] != EMPTY
  }

  lemma SlotFound(cells: seq<int>, names: seq<string>, key: string, start: int, i: int, ix: int)
    requires Searched(cells, names, key, start, i)
    requires 0 <= ix < |cells| && Dist(start, ix, |cells|) == i && cells[ix] == EMPTY
    ensures Slot(cells, start, ix)
  {
  }

  /** The representation invariant, on the contents of the arrays. */
  ghost predicate Indexed(hash: string -> nat, cells: seq<int>, names: seq<string>, at: seq<int>, hashes: seq<int>) {
    && Unique(names) && Hashed(hash, names, hashes)
    && Linked(cells, at, HomesOf(hashes, |cells|), -1) && Reachable(cells, at, HomesOf(hashes, |cells|))
  }

  lemma IndexedInsert(hash: string -> nat, cells: seq<int>, names: seq<string>, at: seq<int>, hashes: seq<int>,
                      key: string, cell: int)
    requires Indexed(hash, cells, names, at, hashes) && |cells| > 0
    requires Absent(names, key) && Slot(cells, Home(hash(key), |cells|), cell)
    ensures Indexed(hash, cells[cell := |at|], names + [key], at + [cell], hashes + [hash(key)])
  {
    var h := hash(key);
    InsertAtEmpty(cells, at, HomesOf(hashes, |cells|), cell, Home(h, |cells|));
    assert HomesOf(hashes + [h], |cells|) == HomesOf(hashes, |cells|) + [Home(h, |cells|)];
  }

  lemma ZipAppend<V>(names: seq<string>, values: seq<V>, key: string, value: V)
    requires |names| == |values|
    ensures Zip(names + [key], values + [value]) == Zip(names, values) + [(key, value)]
  {
  }

  lemma PresentItem<V>(names: seq<string>, values: seq<V>, i: nat)
    requires |names| == |values| && i < |names| && Unique(names)
    ensures IndexOf(Zip(names, values), names[i]) == i && Distinct(Zip(names, values))
  {
    IndexUnique(Zip(names, values), i);
  }

  lemma AbsentItems<V>(names: seq<string>, values: seq<V>, key: string)
    requires |names| == |values| && Absent(names, key)
    ensures IndexOf(Zip(names, values), key) < 0
  {
  }

  lemma AbsentNames<V>(names: seq<string>, values: seq<V>, key: string)
    requires |names| == |values| && IndexOf(Zip(names, values), key) < 0
    ensures Absent(names, key)
  {
    assert forall t :: 0 <= t < |names| ==> names[t] == Zip(names, values)[t].0;
  }

  lemma DistinctItems<V>(names: seq<string>, values: seq<V>)
    requires |names| == |values| && Unique(names)
    ensures Distinct(Zip(names, values))
  {
  }

  lemma AppendNext<V>(items: Items<V>, i: nat)
    requires i < |items|
    ensures items[..i] + [(items[i].0, items[i].1)] == items[..i + 1]
  {
  }

  lemma AppendAll<V>(items: Items<V>)
    ensures items[..|items|] == items
  {
  }

  /** The lists after the last item took the place of `item`. */
  lemma RenamedLists<V>(hash: string -> nat, names: seq<string>, values: seq<V>, hashes: seq<int>, capacity: nat,
                        item: nat)
    requires |names| == |values| && item < |names| && Unique(names) && Hashed(hash, names, hashes)
    ensures var last := |names| - 1;
            var names', values' := names[item := names[last]][..last], values[item := values[last]][..last];
            && Unique(names') && Hashed(hash, names', Renamed(hashes, item))
            && Renamed(HomesOf(hashes, capacity), item) == HomesOf(Renamed(hashes, item), capacity)
            && Zip(names', values') == Zip(names, values)[item := Zip(names, values)[last]][..last]
  {
    var last := |names| - 1;
    var names' := names[item := names[last]][..last];
    assert forall t :: 0 <= t < last ==> names'[t] == (if t == item then names[last] else names[t]);
  }

  /** The lists without one item, whose cell is now a hole, before any shift. */
  ghost predicate Opened(hash: string -> nat, cells: seq<int>, names: seq<string>, at: seq<int>, hashes: seq<int>,
                         hole: int, e: int) {
    && Unique(names) && Hashed(hash, names, hashes)
    && Shifting(cells, at, HomesOf(hashes, |cells|), hole, hole, 0, e)
  }

  lemma HoleOpens<V>(hash: string -> nat, cells: seq<int>, names: seq<string>, values: seq<V>, at: seq<int>,
                     hashes: seq<int>, cell: nat)
    returns (e: int)
    requires Indexed(hash, cells, names, at, hashes) && |names| == |values| == |at| == |hashes| < |cells|
    requires cell < |cells| && 0 <= cells[cell] < |at|
    ensures var item, last := cells[cell], |at| - 1;
            && 0 <= at[last] < |cells|
            && Opened(hash, if item < last then cells[at[last] := item] else cells, names[item := names[last]][..last],
                      Renamed(at, item), Renamed(hashes, item), cell, e)
            && Zip(names[item := names[last]][..last], values[item := values[last]][..last])
            == DropItem(Zip(names, values), item)
  {
    e := HoleShifts(hash, cells, names, at, hashes, cell);
    RenamedLists(hash, names, values, hashes, |cells|, cells[cell]);
  }

  lemma HoleShifts(hash: string -> nat, cells: seq<int>, names: seq<string>, at: seq<int>, hashes: seq<int>, cell: nat)
    returns (e: int)
    requires Indexed(hash, cells, names, at, hashes) && |at| == |hashes| < |cells| && cell < |cells|
    requires 0 <= cells[cell] < |at|
    ensures var item, last := cells[cell], |at| - 1;
            && 0 <= at[last] < |cells|
            && Shifting(if item < last then cells[at[last] := item] else cells, Renamed(at, item),
                        HomesOf(Renamed(hashes, item), |cells|), cell, cell, 0, e)
  {
    var item := cells[cell];
    e := EmptyCell(cells, at, HomesOf(hashes, |cells|));
    RenamedHomes(hashes, |cells|, item);
    HoleOf(cells, at, HomesOf(hashes, |cells|), HomesOf(Renamed(hashes, item), |cells|), item, cell, e);
  }

  lemma RenamedHomes(hashes: seq<int>, capacity: nat, item: nat)
    requires item < |hashes|
    ensures Renamed(HomesOf(hashes, capacity), item) == HomesOf(Renamed(hashes, item), capacity)
  {
  }

  lemma HoleOf(cells: seq<int>, at: seq<int>, home: seq<int>, home': seq<int>, item: int, cell: int, e: int)
    requires Linked(cells, at, home, -1) && Reachable(cells, at, home) && 0 <= item < |at|
    requires home' == Renamed(home, item)
    requires 0 <= cell < |cells| && cells[cell] == item && 0 <= e < |cells| && cells[e] == EMPTY
    ensures var last := |at| - 1;
            && 0 <= at[last] < |cells|
            && Shifting(if item < last then cells[at[last] := item] else cells, Renamed(at, item), home',
                        cell, cell, 0, e)
  {
    ShiftStart(cells, at, home, item, e);
    assert at[item] == cell;
  }

  lemma SameOpened(hash: string -> nat, cs: seq<int>, ns: seq<string>, at: seq<int>, hs: seq<int>,
                   cs': seq<int>, ns': seq<string>, at': seq<int>, hs': seq<int>, hole: int, e: int)
    requires cs == cs' && ns == ns' && at == at' && hs == hs' && Opened(hash, cs, ns, at, hs, hole, e)
    ensures Opened(hash, cs', ns', at', hs', hole, e)
  {
  }

  lemma RingNext(start: int, j: int, x: int, n: int)
    requires 0 <= start < n && 0 <= j < n && Dist(start, j, n) == x && x + 1 < n
    ensures 0 <= (j + 1) % n < n && Dist(start, (j + 1) % n, n) == x + 1
  {
    if j + 1 == n {
      Bytes.Unique(j + 1, n, 1, 0);
    } else {
      Bytes.Unique(j + 1, n, 0, j + 1);
    }
  }

  lemma NotYet<V>(items: Items<V>, i: nat)
    requires i < |items| && Distinct(items)
    ensures IndexOf(items[..i], items[i].0) < 0
  {
  }

  lemma HomesMatch(hash: string -> nat, names: seq<string>, hashes: seq<int>, capacity: nat, key: string)
    requires Hashed(hash, names, hashes)
    ensures forall t :: 0 <= t < |names| && names[t] == key ==>
              HomesOf(hashes, capacity)[t] == Home(hash(key), capacity)
  {
  }

  lemma RingStep(start: int, i: int, n: int)
    requires 0 <= start < n && 0 <= i < n
    ensures 0 <= (start + i) % n < n && Dist(start, (start + i) % n, n) == i
  {
    if start + i < n {
      Bytes.Unique(start + i, n, 0, start + i);
    } else {
      Bytes.Unique(start + i, n, 1, start + i - n);
    }
  }
}
