/**
  Moving cells between nodes of the same capacity, and halving a node (split_node in src/ibtree_alg.c and
  src/btree_alg.c).
*/
module NodeMove {
  import opened Node
  import opened Overflow

  /** The capacity of every node that is not on page 1. */
  function NodeCapacity(pageSize: nat): int { Capacity(pageSize, 0) }

  /** A node within its heap, none of whose cells takes more than a quarter of it. */
  ghost predicate Fits(pageSize: nat, node: Node) {
    && pageSize >= MIN_PAGE_SIZE
    && HeapUsed(node.cells) <= NodeCapacity(pageSize)
    && forall i :: 0 <= i < |node.cells| ==> HeapRequired(node.cells[i].body) <= MaxCellSize(NodeCapacity(pageSize))
  }

  ghost predicate NodesFit(pageSize: nat, pages: Pages) {
    forall id :: id in pages && id != 1 && pages[id].NodeBody? ==> Fits(pageSize, pages[id].node)
  }

  /**
    btree_node_move_cell_from_data for a cell that was small enough for a node of this capacity.
    A larger one, which only a move to page 1 can meet, would have to be spilled.
  */
  function MoveCell(capacity: int, node: Node, at: nat, cell: Cell): (Status, Node)
    requires at <= |node.cells| && capacity >= 0 && DiskSize(cell.body) <= MaxCellSize(capacity)
  {
    InsertCell(capacity, node, at, cell)
  }

  lemma {:induction false} HeapUsedSlice(cells: seq<Cell>, from: nat, to: nat)
    requires from <= to <= |cells|
    ensures HeapUsed(cells[from..to]) <= HeapUsed(cells)
  {
    assert cells == cells[..from] + cells[from..to] + cells[to..];
    HeapUsedConcat(cells[..from], cells[from..to]);
    HeapUsedConcat(cells[..from] + cells[from..to], cells[to..]);
  }

  /** Appends the cells `from..to` of a node to an empty node. */
  method MoveCells(pageSize: nat, source: Node, from: nat, to: nat) returns (dest: Node)
    requires Fits(pageSize, source) && from <= to <= |source.cells|
    ensures dest == Node(false, source.cells[from..to], 0)
  {
    dest := EMPTY_NODE;
    for i := from to to
      invariant dest == Node(false, source.cells[from..i], 0)
    {
      HeapUsedSlice(source.cells, from, i + 1);
      assert source.cells[from..i + 1][..i - from] == source.cells[from..i];
      var moved := MoveCell(NodeCapacity(pageSize), dest, |dest.cells|, source.cells[i]);
      dest := moved.1;
      assert source.cells[from..i] + [source.cells[i]] + [] == source.cells[from..i + 1];
    }
  }

  lemma {:induction false} FitsSlice(pageSize: nat, node: Node, from: nat, to: nat, leaf: bool, right: nat)
    requires Fits(pageSize, node) && from <= to <= |node.cells|
    ensures Fits(pageSize, Node(leaf, node.cells[from..to], right))
  {
    HeapUsedSlice(node.cells, from, to);
  }

  lemma {:induction false} FitsInsert(pageSize: nat, node: Node, at: nat, cell: Cell)
    requires Fits(pageSize, node) && at <= |node.cells|
    requires HeapRequired(cell.body) <= MaxCellSize(NodeCapacity(pageSize))
    requires HeapUsed(node.cells) + HeapRequired(cell.body) <= NodeCapacity(pageSize)
    ensures Fits(pageSize, node.(cells := InsertAt(node.cells, at, cell)))
  {
    HeapUsedInsert(node.cells, at, cell);
    var cells := InsertAt(node.cells, at, cell);
    assert forall i :: 0 <= i < |cells| ==>
      cells[i] == if i < at then node.cells[i] else if i == at then cell else node.cells[i - 1];
  }

  /** With cells of at most a quarter of the capacity, a node without room for another one holds at least four. */
  lemma {:induction false} RefusalMeansFourCells(pageSize: nat, node: Node, cost: nat)
    requires Fits(pageSize, node) && cost <= MaxCellSize(NodeCapacity(pageSize))
    requires HeapUsed(node.cells) + cost > NodeCapacity(pageSize)
    ensures |node.cells| >= 4
  {
    HeapUsedBound(node.cells, MaxCellSize(NodeCapacity(pageSize)));
  }

  lemma {:induction false} HeapUsedBound(cells: seq<Cell>, most: nat)
    requires forall i :: 0 <= i < |cells| ==> HeapRequired(cells[i].body) <= most
    ensures HeapUsed(cells) <= |cells| * most
  {
    if cells != [] {
      HeapUsedBound(cells[..|cells| - 1], most);
      assert (|cells| - 1) * most + most == |cells| * most;
    }
  }

  lemma {:induction false} RemovedFits(pageSize: nat, node: Node, at: nat)
    requires Fits(pageSize, node) && at < |node.cells|
    ensures Fits(pageSize, node.(cells := RemoveAt(node.cells, at)))
  {
    var cells := RemoveAt(node.cells, at);
    assert HeapUsed(cells) <= HeapUsed(node.cells) by {
      assert InsertAt(cells, at, node.cells[at]) == node.cells;
      HeapUsedInsert(cells, at, node.cells[at]);
    }
    forall i | 0 <= i < |cells| ensures HeapRequired(cells[i].body) <= MaxCellSize(NodeCapacity(pageSize)) {
      assert cells[i] == node.cells[if i < at then i else i + 1];
    }
  }
}
