/** A linked list of timestamped data whose first node stays in place; an empty list is an unused node. */
module SmartDataLists {
  import opened History

  datatype Cell = Cell(element: Item, key: int, used: bool)

  // ---- what the operations do to the chain of nodes ----------------------------------

  /** A list in order: all nodes in use, or a single unused one. */
  predicate Clean(cells: seq<Cell>) {
    cells != [] && ((forall i :: 0 <= i < |cells| ==> cells[i].used) || |cells| == 1)
  }

  /** What a list in order contains. */
  function Contents(cells: seq<Cell>): seq<Cell>
    requires cells != []
  {
    if cells[0].used then cells else []
  }

  function Added(cells: seq<Cell>, x: Cell): seq<Cell>
    requires cells != []
  {
    if !cells[0].used then cells[0 := x] else cells + [x]
  }

  function AddedInOrder(cells: seq<Cell>, x: Cell): seq<Cell>
    requires cells != []
  {
    if !cells[0].used then cells[0 := x]
    else if cells[0].element.time > x.element.time then [x, cells[0]] + cells[1..]
    else if |cells| == 1 then [cells[0], x]
    else [cells[0]] + AddedInOrder(cells[1..], x)
  }

  /** The node after takes the place of the removed one; the last node is only marked unused. */
  function Removed(cells: seq<Cell>, n: nat): seq<Cell>
    requires n < |cells|
  {
    if n + 1 < |cells| then cells[..n] + [cells[n + 1].(used := cells[n].used)] + cells[n + 2..]
    else cells[n := cells[n].(used := false)]
  }

  lemma AddedInOrderIs(cells: seq<Cell>, x: Cell)
    requires cells != []
    ensures AddedInOrder(cells, x)
            == if !cells[0].used then cells[0 := x]
               else if cells[0].element.time > x.element.time then [x, cells[0]] + cells[1..]
               else if |cells| == 1 then [cells[0], x]
               else [cells[0]] + AddedInOrder(cells[1..], x)
  {
  }

  lemma UnusedIsAlone(cells: seq<Cell>)
    requires Clean(cells) && !cells[0].used
    ensures |cells| == 1
  {
  }

  // ---- what that means for the contents ----------------------------------------------

  ghost predicate Ordered(items: seq<Cell>) {
    forall i, j :: 0 <= i < j < |items| ==> items[i].element.time <= items[j].element.time
  }

  lemma RemovedRest(cells: seq<Cell>, n: nat)
    requires 0 < n < |cells|
    ensures Removed(cells, n) == [cells[0]] + Removed(cells[1..], n - 1)
  {
    var rest := cells[1..];
    assert cells == [cells[0]] + rest;
    if n + 1 < |cells| {
      assert cells[..n] == [cells[0]] + rest[..n - 1] && cells[n + 2..] == rest[n + 1..];
    }
  }

  lemma CleanRest(cells: seq<Cell>)
    requires Clean(cells) && |cells| > 1
    ensures cells[0].used && Clean(cells[1..])
  {
  }

  lemma AddAppends(cells: seq<Cell>, x: Cell)
    requires Clean(cells) && x.used
    ensures Clean(Added(cells, x)) && Contents(Added(cells, x)) == Contents(cells) + [x]
  {
  }

  /** Ordered insertion puts the item after everything that is not newer and before all that is, without
      touching the order of the rest. */
  lemma {:induction false} AddInOrderInserts(cells: seq<Cell>, x: Cell) returns (n: nat)
    requires Clean(cells) && x.used && Ordered(Contents(cells))
    ensures var items := Contents(cells);
            && Clean(AddedInOrder(cells, x)) && n <= |items|
            && Contents(AddedInOrder(cells, x)) == items[..n] + [x] + items[n..]
            && (forall i :: 0 <= i < n ==> items[i].element.time <= x.element.time)
            && (forall i :: n <= i < |items| ==> items[i].element.time > x.element.time)
    decreases |cells|
  {
    AddedInOrderIs(cells, x);
    hide AddedInOrder;
    if !cells[0].used || cells[0].element.time > x.element.time {
      n := 0;
    } else if |cells| == 1 {
      n := 1;
    } else {
      hide Clean;
      var rest := cells[1..];
      CleanRest(cells);
      AllLater(cells);
      var m := AddInOrderInserts(rest, x);
      n := m + 1;
      InsertedBehind(cells[0], rest, m, x);
      CleanCons(cells[0], AddedInOrder(rest, x));
    }
  }

  lemma AllLater(cells: seq<Cell>)
    requires Clean(cells) && |cells| > 1 && Ordered(Contents(cells))
    ensures Contents(cells) == cells && Contents(cells[1..]) == cells[1..] && Ordered(cells[1..])
  {
  }

  lemma InsertedBehind(first: Cell, rest: seq<Cell>, m: nat, x: Cell)
    requires m <= |rest|
    ensures var all := [first] + rest;
            [first] + (rest[..m] + [x] + rest[m..]) == all[..m + 1] + [x] + all[m + 1..]
  {
  }

  lemma CleanCons(first: Cell, rest: seq<Cell>)
    requires first.used && Clean(rest) && rest[0].used
    ensures Clean([first] + rest) && Contents([first] + rest) == [first] + Contents(rest)
  {
  }

  lemma AddInOrderKeepsOrder(cells: seq<Cell>, x: Cell)
    requires Clean(cells) && x.used && Ordered(Contents(cells))
    ensures Ordered(Contents(AddedInOrder(cells, x)))
  {
    hide AddedInOrder, Clean;
    var n := AddInOrderInserts(cells, x);
  }

  /** Removal by position does what it says exactly for the first item and for one that is not the last:
      removing the last of several leaves an unused node in the list. */
  lemma RemoveWorksIff(cells: seq<Cell>, n: nat)
    requires Clean(cells) && n < |Contents(cells)|
    ensures Clean(Removed(cells, n)) <==> n == 0 || n + 1 < |cells|
    ensures n == 0 || n + 1 < |cells| ==>
              Contents(Removed(cells, n)) == Contents(cells)[..n] + Contents(cells)[n + 1..]
    ensures !(n == 0 || n + 1 < |cells|) ==> |Removed(cells, n)| == |cells| && !Removed(cells, n)[n].used
  {
    if n == 0 && |cells| == 1 {
      assert Contents(cells)[..0] + Contents(cells)[1..] == [];
    }
    if !(n == 0 || n + 1 < |cells|) {
      assert !Removed(cells, n)[n].used;
    }
  }

  /** An item that was removed from the end comes back, and is counted, once those before it are removed. */
  lemma RemovedComesBack(cells: seq<Cell>)
    requires Clean(cells) && |Contents(cells)| == 2
    ensures var after := Removed(Removed(cells, 1), 0);
            Clean(after) && Contents(after) == [cells[1]]
  {
  }

  // ---- the nodes ---------------------------------------------------------------------

  class SmartDataList {
    var Next: SmartDataList?
    var Key: int
    var Element: Item
    var Used: bool

    constructor ()
      ensures Next == null && !Used
    {
      Next, Key, Element, Used := null, 0, BLANK, false;
    }

    constructor With(pa: Item, key: int)
      ensures Next == null && Node() == Cell(pa, key, true)
    {
      Next, Key, Element, Used := null, key, pa, true;
    }

    function Node(): Cell
      reads this
    {
      Cell(Element, Key, Used)
    }

    /** `nodes` are the nodes from this one to the end. */
    ghost predicate Chain(nodes: seq<SmartDataList>)
      reads this, nodes
    {
      && nodes != [] && nodes[0] == this
      && (forall i :: 0 <= i < |nodes| ==> nodes[i].Next == Following(nodes, i))
      && (forall i, j :: 0 <= i < j < |nodes| ==> nodes[i] != nodes[j])
    }

    static function Following(nodes: seq<SmartDataList>, i: nat): SmartDataList?
      requires i < |nodes|
    {
      if i + 1 < |nodes| then nodes[i + 1] else null
    }

    lemma ChainRest(nodes: seq<SmartDataList>)
      requires Chain(nodes)
      ensures nodes != [] && nodes[0] == this && (Next == null <==> |nodes| == 1)
      ensures |nodes| > 1 ==> Next == nodes[1] && nodes[1].Chain(nodes[1..]) && this !in nodes[1..]
      ensures |nodes| > 1 ==> nodes[1] !in nodes[2..]
    {
    }

    lemma ChainOn(rest: seq<SmartDataList>)
      requires Next != null && Next.Chain(rest) && this !in rest
      ensures Chain([this] + rest)
    {
    }

    static ghost function Cells(nodes: seq<SmartDataList>): (cells: seq<Cell>)
      reads nodes
      ensures |cells| == |nodes|
      ensures forall i :: 0 <= i < |nodes| ==> cells[i] == nodes[i].Node()
    {
      if nodes == [] then [] else [nodes[0].Node()] + Cells(nodes[1..])
    }

    /** Counts the nodes, so an empty list has length one. */
    method GetLength(ghost nodes: seq<SmartDataList>) returns (n: int)
      requires Chain(nodes)
      ensures n == |nodes|
      ensures Clean(Cells(nodes)) ==> n == if Used then |Contents(Cells(nodes))| else |Contents(Cells(nodes))| + 1
    {
      var p := this;
      n := 1;
      while p.Next != null
        invariant 1 <= n <= |nodes| && p == nodes[n - 1]
        decreases |nodes| - n
      {
        p := p.Next;
        n := n + 1;
      }
    }

    /** Adds at the end. */
    method Add(pa: Item, key: int, ghost nodes: seq<SmartDataList>) returns (r: int, ghost after: seq<SmartDataList>)
      requires Chain(nodes)
      modifies nodes
      ensures Chain(after) && Cells(after) == Added(old(Cells(nodes)), Cell(pa, key, true))
      ensures forall x :: x in after ==> x in nodes || fresh(x)
      ensures r == if old(Used) then |after| else 1
    {
      hide Cells;
      after := nodes;
      if !Used {
        Key := key;
        Element := pa;
        Used := true;
        return 1, nodes;
      }
      var p := this;
      var n := 1;
      while p.Next != null
        invariant 1 <= n <= |nodes| && p == nodes[n - 1]
        modifies {}
        decreases |nodes| - n
      {
        p := p.Next;
        n := n + 1;
      }
      var node := new SmartDataList.With(pa, key);
      p.Next := node;
      after := nodes + [node];
      r := n + 1;
    }

    /** Makes this node hold the new item and a new second node what this one held. */
    method PutInFront(pa: Item, key: int, ghost nodes: seq<SmartDataList>) returns (ghost after: seq<SmartDataList>)
      requires Chain(nodes) && Used
      modifies this
      ensures Chain(after) && |after| == |nodes| + 1
      ensures Cells(after) == [Cell(pa, key, true), old(Node())] + old(Cells(nodes))[1..]
      ensures forall x :: x in after ==> x in nodes || fresh(x)
    {
      hide Cells;
      var sdl := Next;
      Next := new SmartDataList.With(Element, Key);
      after := [this, Next] + nodes[1..];
      Next.Next := sdl;
      Element := pa;
      Key := key;
    }

    /** Gives an unused node the new item. */
    method FillIn(pa: Item, key: int, ghost nodes: seq<SmartDataList>)
      requires Chain(nodes)
      modifies this
      ensures Chain(nodes) && Cells(nodes) == old(Cells(nodes))[0 := Cell(pa, key, true)]
    {
      hide Cells;
      Key := key;
      Element := pa;
      Used := true;
    }

    /** Links a new node behind this last one. */
    method PutBehind(pa: Item, key: int, ghost nodes: seq<SmartDataList>) returns (ghost after: seq<SmartDataList>)
      requires Chain(nodes) && Next == null
      modifies this
      ensures Chain(after) && |after| == 2 && Cells(after) == [old(Node()), Cell(pa, key, true)]
      ensures forall x :: x in after ==> x == this || fresh(x)
    {
      hide Cells;
      Next := new SmartDataList.With(pa, key);
      after := [this, Next];
    }

    /** Adds before the first newer item. */
    method AddOrdered(pa: Item, key: int, ghost nodes: seq<SmartDataList>)
      returns (r: int, ghost after: seq<SmartDataList>)
      requires Chain(nodes)
      modifies nodes
      ensures Chain(after) && Cells(after) == AddedInOrder(old(Cells(nodes)), Cell(pa, key, true))
      ensures forall x :: x in after ==> x in nodes || fresh(x)
      ensures Clean(old(Cells(nodes))) ==> r == |after|
      decreases |nodes|
    {
      hide Cells, Clean, Chain, AddedInOrder;
      ChainRest(nodes);
      ghost var cells := Cells(nodes);
      AddedInOrderIs(cells, Cell(pa, key, true));
      if Clean(cells) && |nodes| > 1 { CleanRest(cells); }
      if !Used {
        if Clean(cells) { UnusedIsAlone(cells); }
        FillIn(pa, key, nodes);
        return 1, nodes;
      }
      if Element.time > pa.time {
        after := PutInFront(pa, key, nodes);
        r := GetLength(after);
        return;
      }
      if Next != null {
        ghost var rest := nodes[1..];
        assert Cells(rest) == cells[1..];
        r, after := Next.AddOrdered(pa, key, rest);
        ChainOn(after);
        after := [this] + after;
        r := 1 + r;
        return;
      }
      after := PutBehind(pa, key, nodes);
      r := 2;
    }

    /** Copies the n-th item out; fails past the end. */
    method Get(n: nat, ghost nodes: seq<SmartDataList>) returns (r: int, pa: Item, key: int)
      requires Chain(nodes)
      ensures r == 0 <==> n < |nodes| && nodes[n].Used
      ensures Clean(Cells(nodes)) ==> (r == 0 <==> n < |Contents(Cells(nodes))|)
      ensures n < |nodes| && r == 0 ==> Cell(pa, key, true).(used := nodes[n].Used) == Cells(nodes)[n]
      decreases |nodes|
    {
      hide Cells;
      if n == 0 {
        if Used { return 0, Element, Key; }
        return 1, BLANK, 0;
      }
      ChainRest(nodes);
      if Next != null {
        r, pa, key := Next.Get(n - 1, nodes[1..]);
        return;
      }
      return 1, BLANK, 0;
    }

    /** Moves what the next node holds into this one and drops the next node. */
    method TakeFromNext(ghost nodes: seq<SmartDataList>) returns (ghost after: seq<SmartDataList>)
      requires Chain(nodes) && Next != null
      modifies this, Next
      ensures Chain(after) && after == [this] + nodes[2..]
      ensures Cells(after) == Removed(old(Cells(nodes)), 0)
    {
      hide Cells;
      Element := Next.Element;
      Key := Next.Key;
      var tmp := Next;
      Next := Next.Next;
      tmp.Next := null;
      after := [this] + nodes[2..];
    }

    method MarkUnused(ghost nodes: seq<SmartDataList>)
      requires Chain(nodes) && Next == null
      modifies this`Used
      ensures Chain(nodes) && Cells(nodes) == Removed(old(Cells(nodes)), 0)
    {
      hide Cells;
      ChainRest(nodes);
      Used := false;
    }

    /** Takes the n-th node out, or marks it unused if it is the last. */
    method Remove(n: nat, ghost nodes: seq<SmartDataList>) returns (r: int, ghost after: seq<SmartDataList>)
      requires Chain(nodes) && n < |nodes|
      modifies nodes
      ensures r == 0 && Chain(after) && Cells(after) == Removed(old(Cells(nodes)), n)
      ensures forall x :: x in after ==> x in nodes
      decreases |nodes|
    {
      hide Cells, Removed, Chain;
      after := nodes;
      ChainRest(nodes);
      if n == 0 {
        if Next != null {
          after := TakeFromNext(nodes);
        } else {
          MarkUnused(nodes);
        }
      } else {
        ghost var rest := nodes[1..];
        assert Cells(rest) == Cells(nodes)[1..];
        RemovedRest(Cells(nodes), n);
        r, after := Next.Remove(n - 1, rest);
        ChainOn(after);
        after := [this] + after;
        if r != 0 { return 1, after; }
      }
      return 0, after;
    }
  }
}
