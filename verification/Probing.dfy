/** Open addressing with linear probing and backward-shift deletion, on sequences.

    `cells[c]` is the item stored in cell `c` or `EMPTY`; `at[t]` is the cell of item `t` and `home[t]`
    the cell at which probing for it starts. */
module Probing {
  import opened Common

  const EMPTY: int := -1

  /** Steps from `a` forward to `b` around a ring of `n` cells. */
  function Dist(a: int, b: int, n: int): int {
    if b >= a then b - a else b - a + n
  }

  /** Cell `c` is visited before `p` when probing from `h`. */
  predicate OnPath(c: int, h: int, p: int, n: int) {
    Dist(h, c, n) < Dist(h, p, n)
  }

  /** Cells and items point at each other, except that cell `hole` (if not negative) is unused. */
  ghost predicate Linked(cells: seq<int>, at: seq<int>, home: seq<int>, hole: int) {
    && |at| == |home|
    && (forall t :: 0 <= t < |at| ==>
          0 <= at[t] < |cells| && 0 <= home[t] < |cells| && at[t] != hole && cells[at[t]] == t)
    && (forall c :: 0 <= c < |cells| && c != hole ==>
          cells[c] == EMPTY || (0 <= cells[c] < |at| && at[cells[c]] == c))
  }

  /** Every item is found by probing from its home: no cell on the way is empty. */
  ghost predicate Reachable(cells: seq<int>, at: seq<int>, home: seq<int>)
    requires |at| == |home|
  {
    forall t, c :: 0 <= t < |at| && 0 <= c < |cells| && OnPath(c, home[t], at[t], |cells|) ==> cells[c] != EMPTY
  }

  // ---------------------------------------------------------- an empty cell

  /** The numbers below `n`. */
  function Below(n: nat): (r: set<int>)
    ensures |r| == n && forall c :: c in r <==> 0 <= c < n
  {
    if n == 0 then {} else Below(n - 1) + {n - 1}
  }

  lemma {:induction false} SetOfSeq(s: seq<int>)
    ensures |set x | x in s| <= |s|
  {
    if s != [] {
      SetOfSeq(s[1..]);
      assert s == [s[0]] + s[1..];
      assert (set x | x in s) == (set x | x in s[1..]) + {s[0]};
    }
  }

  /** A table with fewer items than cells has an empty cell. */
  lemma EmptyCell(cells: seq<int>, at: seq<int>, home: seq<int>) returns (e: int)
    requires Linked(cells, at, home, -1) && |at| < |cells|
    ensures 0 <= e < |cells| && cells[e] == EMPTY
  {
    var all, used := Below(|cells|), set x | x in at;
    SetOfSeq(at);
    if all <= used {
      SubsetCard(all, used);
      assert false;
    }
    e :| e in all && e !in used;
  }

  // ------------------------------------------------------------ lookup and insertion

  /** The first `i` cells from `start` hold items with other keys. */
  ghost predicate Searched<K>(cells: seq<int>, names: seq<K>, key: K, start: int, i: int) {
    forall d :: 0 <= d < |cells| && Dist(start, d, |cells|) < i ==>
      0 <= cells[d] < |names| && names[cells[d]] != key
  }

  lemma SearchStep<K>(cells: seq<int>, names: seq<K>, key: K, start: int, i: int, ix: int)
    requires Searched(cells, names, key, start, i) && 0 <= start < |cells|
    requires 0 <= ix < |cells| && Dist(start, ix, |cells|) == i
    requires 0 <= cells[ix] < |names| && names[cells[ix]] != key
    ensures Searched(cells, names, key, start, i + 1)
  {
    assert forall d :: 0 <= d < |cells| && Dist(start, d, |cells|) == i ==> d == ix;
  }

  /** A search that ends at an empty cell, or has seen every cell, proves the key absent. */
  lemma SearchEnds<K>(cells: seq<int>, at: seq<int>, home: seq<int>, names: seq<K>, key: K, start: int, i: int, ix: int)
    requires Linked(cells, at, home, -1) && Reachable(cells, at, home) && |names| == |at|
    requires forall t :: 0 <= t < |at| && names[t] == key ==> home[t] == start
    requires Searched(cells, names, key, start, i) && 0 <= start < |cells|
    requires i < |cells| ==> 0 <= ix < |cells| && Dist(start, ix, |cells|) == i && cells[ix] == EMPTY
    ensures forall t :: 0 <= t < |at| ==> names[t] != key
  {
    forall t | 0 <= t < |at|
      ensures names[t] != key
    {
      if Dist(start, at[t], |cells|) < i {
        assert names[cells[at[t]]] != key;
      }
    }
  }

  /** A new item placed where its search ended is reachable, and disturbs no other. */
  lemma InsertAtEmpty(cells: seq<int>, at: seq<int>, home: seq<int>, c: int, h: int)
    requires Linked(cells, at, home, -1) && Reachable(cells, at, home)
    requires 0 <= c < |cells| && cells[c] == EMPTY && 0 <= h < |cells|
    requires forall d :: 0 <= d < |cells| && OnPath(d, h, c, |cells|) ==> cells[d] != EMPTY
    ensures Linked(cells[c := |at|], at + [c], home + [h], -1)
    ensures Reachable(cells[c := |at|], at + [c], home + [h])
  {
  }

  // ---------------------------------------------------------------- deletion

  /** The state of the backward shift after `x` cells past `start` were examined: `hole` is to be filled or
      emptied; items not yet examined may still have the hole on their path, the others may not. */
  ghost predicate Shifting(cells: seq<int>, at: seq<int>, home: seq<int>, start: int, hole: int, x: int, e: int) {
    var n := |cells|;
    && Linked(cells, at, home, hole)
    && 0 <= start < n && 0 <= hole < n && Dist(start, hole, n) <= x < n
    && 0 <= e < n && e != hole && cells[e] == EMPTY && Dist(start, e, n) > x
    && (forall t, c :: 0 <= t < |at| && 0 <= c < n && c != hole && OnPath(c, home[t], at[t], n) ==> cells[c] != EMPTY)
    && (forall t :: 0 <= t < |at| && OnPath(hole, home[t], at[t], n) ==> Dist(start, at[t], n) > x)
  }

  /** Item `item` takes the identity of the last item: its cell becomes the hole. */
  function Renamed(s: seq<int>, item: int): (r: seq<int>)
    requires 0 <= item < |s|
    ensures |r| == |s| - 1 && forall t :: 0 <= t < |r| ==> r[t] == (if t == item then s[|s| - 1] else s[t])
  {
    s[item := s[|s| - 1]][..|s| - 1]
  }

  lemma RenameLinked(cells: seq<int>, at: seq<int>, home: seq<int>, item: int)
    requires Linked(cells, at, home, -1) && 0 <= item < |at|
    ensures var last := |at| - 1;
            var cells' := if item < last then cells[at[last] := item] else cells;
            Linked(cells', Renamed(at, item), Renamed(home, item), at[item])
  {
    var last := |at| - 1;
    var cells' := if item < last then cells[at[last] := item] else cells;
    var at' := Renamed(at, item);
    forall c | 0 <= c < |cells| && c != at[item]
      ensures cells'[c] == EMPTY || (0 <= cells'[c] < last && at'[cells'[c]] == c)
    {
      if cells[c] != EMPTY && cells[c] != last {
        assert at[cells[c]] == c && cells[c] != item;
      }
    }
  }

  /** Removing an item opens a hole at its cell. */
  lemma ShiftStart(cells: seq<int>, at: seq<int>, home: seq<int>, item: int, e: int)
    requires Linked(cells, at, home, -1) && Reachable(cells, at, home)
    requires 0 <= item < |at| && 0 <= e < |cells| && cells[e] == EMPTY
    ensures var last := |at| - 1;
            var cells' := if item < last then cells[at[last] := item] else cells;
            Shifting(cells', Renamed(at, item), Renamed(home, item), at[item], at[item], 0, e)
  {
    var last := |at| - 1;
    var cells' := if item < last then cells[at[last] := item] else cells;
    RenameLinked(cells, at, home, item);
    RenamedReach(cells, cells', at, home, item);
    assert cells[at[item]] == item;
    ShiftingFirst(cells', Renamed(at, item), Renamed(home, item), at[item], e);
  }

  lemma RenamedReach(cells: seq<int>, cells': seq<int>, at: seq<int>, home: seq<int>, item: int)
    requires Linked(cells, at, home, -1) && Reachable(cells, at, home) && 0 <= item < |at|
    requires cells' == if item < |at| - 1 then cells[at[|at| - 1] := item] else cells
    ensures Reachable(cells', Renamed(at, item), Renamed(home, item))
  {
    var at', home' := Renamed(at, item), Renamed(home, item);
    forall t, c | 0 <= t < |at'| && 0 <= c < |cells| && OnPath(c, home'[t], at'[t], |cells|)
      ensures cells'[c] != EMPTY
    {
      RenamedPath(cells, at, home, item, t, c);
    }
  }

  lemma ShiftingFirst(cells: seq<int>, at: seq<int>, home: seq<int>, hole: int, e: int)
    requires Linked(cells, at, home, hole) && Reachable(cells, at, home) && 0 <= hole < |cells|
    requires 0 <= e < |cells| && e != hole && cells[e] == EMPTY
    ensures Shifting(cells, at, home, hole, hole, 0, e)
  {
  }

  lemma RenamedPath(cells: seq<int>, at: seq<int>, home: seq<int>, item: int, t: int, c: int)
    requires Linked(cells, at, home, -1) && Reachable(cells, at, home) && 0 <= item < |at|
    requires 0 <= t < |at| - 1 && 0 <= c < |cells| && OnPath(c, Renamed(home, item)[t], Renamed(at, item)[t], |cells|)
    ensures cells[c] != EMPTY
  {
    var u := if t == item then |at| - 1 else t;
    assert OnPath(c, home[u], at[u], |cells|);
  }

  /** The test of `json_object_remove_internal` in raw cell numbers. */
  predicate CodeTest(i: int, j: int, k: int) {
    (j > i && (k <= i || k > j)) || (j < i && (k <= i && k > j))
  }

  /** It decides whether the hole `i` lies on the probe path from `k` to `j`. */
  lemma CodeTestIsOnPath(i: int, j: int, k: int, n: int)
    requires 0 <= i < n && 0 <= j < n && 0 <= k < n && i != j
    ensures CodeTest(i, j, k) <==> OnPath(i, k, j, n)
  {
  }

  /** Filling the hole with the item at `j`, whose path crosses it, moves the hole to `j`. */
  lemma ShiftMove(cells: seq<int>, at: seq<int>, home: seq<int>, start: int, hole: int, x: int, e: int, j: int)
    requires Shifting(cells, at, home, start, hole, x, e) && x + 1 < |cells|
    requires 0 <= j < |cells| && Dist(start, j, |cells|) == x + 1 && j != hole && cells[j] != EMPTY
    requires OnPath(hole, home[cells[j]], j, |cells|)
    ensures var u := cells[j]; Shifting(cells[hole := u], at[u := hole], home, start, j, x + 1, e)
  {
    var n, u := |cells|, cells[j];
    var cells', at' := cells[hole := u], at[u := hole];
    assert at[u] == j;
    forall t, c | 0 <= t < |at'| && 0 <= c < n && c != j && OnPath(c, home[t], at'[t], n)
      ensures cells'[c] != EMPTY
    {
      assert t == u ==> OnPath(c, home[u], at[u], n);
    }
    forall t | 0 <= t < |at'| && OnPath(j, home[t], at'[t], n)
      ensures Dist(start, at'[t], n) > x + 1
    {
      assert t != u;
      assert OnPath(hole, home[t], at[t], n) || OnPath(e, home[t], at[t], n) || Dist(start, at[t], n) > x + 1;
    }
  }

  /** An item whose path does not cross the hole stays. */
  lemma ShiftKeep(cells: seq<int>, at: seq<int>, home: seq<int>, start: int, hole: int, x: int, e: int, j: int)
    requires Shifting(cells, at, home, start, hole, x, e) && x + 1 < |cells|
    requires 0 <= j < |cells| && Dist(start, j, |cells|) == x + 1 && j != hole && cells[j] != EMPTY
    requires !OnPath(hole, home[cells[j]], j, |cells|)
    ensures Shifting(cells, at, home, start, hole, x + 1, e)
  {
    var n := |cells|;
    forall t | 0 <= t < |at|
      ensures OnPath(hole, home[t], at[t], n) ==> Dist(start, at[t], n) > x + 1
    {
      assert at[t] == j ==> cells[j] == t;
    }
  }

  /** At an empty cell the shift is complete: emptying the hole keeps every item reachable. */
  lemma ShiftDone(cells: seq<int>, at: seq<int>, home: seq<int>, start: int, hole: int, x: int, e: int, j: int)
    requires Shifting(cells, at, home, start, hole, x, e) && x + 1 < |cells|
    requires 0 <= j < |cells| && Dist(start, j, |cells|) == x + 1 && cells[j] == EMPTY && j != hole
    ensures var r := cells[hole := EMPTY]; Linked(r, at, home, -1) && Reachable(r, at, home)
  {
    var n := |cells|;
    forall t | 0 <= t < |at|
      ensures !OnPath(hole, home[t], at[t], n)
    {
      Crosses(start, hole, home[t], at[t], j, x, n);
    }
  }

  /** A path that crosses the hole and ends beyond distance x + 1 also crosses the cell there. */
  lemma Crosses(start: int, hole: int, home: int, at: int, j: int, x: int, n: int)
    requires 0 <= start < n && 0 <= hole < n && 0 <= home < n && 0 <= at < n && 0 <= j < n && j != at
    requires Dist(start, hole, n) <= x && Dist(start, j, n) == x + 1
    ensures OnPath(hole, home, at, n) && Dist(start, at, n) > x ==> OnPath(j, home, at, n)
  {
  }
}
