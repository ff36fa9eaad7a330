/**
 The sparse storage of a DRAM bank (gems-lib/ruby_clean/DRAM/Bank.C): for every column a
 linked list of the rows written so far.
 */
module Bank {

  const TRACER: nat := 0xdeadbeef

  datatype PacketType = Read | ReadPrecharge | Write | WritePrecharge | Activate | Precharge | Refresh | Data

  /** A data buffer that packets and list nodes point to. */
  class Buffer {
    var words: seq<nat>

    constructor (contents: seq<nat>)
      ensures words == contents
    {
      words := contents;
    }
  }

  class BusPacket {
    var packetType: PacketType
    var column: nat
    var row: nat
    var data: Buffer?

    constructor (packetType: PacketType, column: nat, row: nat, data: Buffer?)
      ensures this.packetType == packetType && this.column == column && this.row == row && this.data == data
    {
      this.packetType, this.column, this.row, this.data := packetType, column, row, data;
    }
  }

  class DataStruct {
    var row: nat
    var data: Buffer?
    var next: DataStruct?

    constructor (row: nat, data: Buffer?, next: DataStruct?)
      ensures this.row == row && this.data == data && this.next == next
    {
      this.row, this.data, this.next := row, data, next;
    }
  }

  // ---------- What a column stores ----------

  /** What one node of a column's list says. */
  datatype Cell = Cell(row: nat, data: Buffer?)

  datatype Option<T> = None | Some(value: T)

  ghost predicate RowsDiffer(cells: seq<Cell>)
  {
    forall i, j :: 0 <= i < j < |cells| ==> cells[i].row != cells[j].row
  }

  /** The place of the first cell for the row; the length of the list if there is none. */
  ghost function Index(cells: seq<Cell>, row: nat): (k: nat)
    ensures k <= |cells| && (k < |cells| ==> cells[k].row == row)
    ensures forall j :: 0 <= j < k ==> cells[j].row != row
  {
    if cells == [] || cells[0].row == row then 0 else 1 + Index(cells[1..], row)
  }

  ghost function Lookup(cells: seq<Cell>, row: nat): Option<Buffer?>
  {
    var k := Index(cells, row);
    if k < |cells| then Some(cells[k].data) else None
  }

  /** What writing makes of a column: new data in the row's cell, or a new cell in front. */
  ghost function Put(cells: seq<Cell>, row: nat, data: Buffer?): seq<Cell>
  {
    var k := Index(cells, row);
    if k < |cells| then cells[k := Cell(row, data)] else [Cell(row, data)] + cells
  }

  lemma PutKeepsRowsDifferent(cells: seq<Cell>, row: nat, data: Buffer?)
    requires RowsDiffer(cells)
    ensures RowsDiffer(Put(cells, row, data))
  {
    var k, put := Index(cells, row), Put(cells, row, data);
    forall i, j | 0 <= i < j < |put|
      ensures put[i].row != put[j].row
    {
      assert k == |cells| && i == 0 ==> cells[j - 1].row != row;
    }
  }

  /** With all rows different, the cell with the row is the one that is found. */
  lemma IndexIsOnly(cells: seq<Cell>, row: nat, k: nat)
    requires RowsDiffer(cells) && k < |cells| && cells[k].row == row
    ensures Index(cells, row) == k
  {
  }

  lemma NoIndex(cells: seq<Cell>, row: nat)
    requires forall k :: 0 <= k < |cells| ==> cells[k].row != row
    ensures Index(cells, row) == |cells|
  {
  }

  lemma LookupAfterOverwrite(cells: seq<Cell>, row: nat, data: Buffer?, other: nat)
    requires RowsDiffer(cells) && Index(cells, row) < |cells|
    ensures Lookup(Put(cells, row, data), other) == if other == row then Some(data) else Lookup(cells, other)
  {
    var put, k, i := Put(cells, row, data), Index(cells, row), Index(cells, other);
    assert forall j :: 0 <= j < |cells| ==> put[j].row == cells[j].row;
    if i < |cells| {
      IndexIsOnly(put, other, i);
    } else {
      NoIndex(put, other);
    }
  }

  lemma LookupAfterPrepend(cells: seq<Cell>, row: nat, data: Buffer?, other: nat)
    requires Index(cells, row) == |cells|
    ensures Lookup(Put(cells, row, data), other) == if other == row then Some(data) else Lookup(cells, other)
  {
    var put := Put(cells, row, data);
    assert put[1..] == cells && put[0] == Cell(row, data);
  }

  /** Reading back: the row written has the new data, every other row is as before. */
  lemma LookupAfterPut(cells: seq<Cell>, row: nat, data: Buffer?, other: nat)
    requires RowsDiffer(cells)
    ensures Lookup(Put(cells, row, data), other) == if other == row then Some(data) else Lookup(cells, other)
  {
    if Index(cells, row) < |cells| {
      LookupAfterOverwrite(cells, row, data, other);
    } else {
      LookupAfterPrepend(cells, row, data, other);
    }
  }

  // ---------- What a run of writes leaves ----------

  /** What one packet asks to store. */
  datatype Request = Request(column: nat, row: nat, data: Buffer?)

  /** The columns after one write; a column out of bounds changes nothing. */
  ghost function Written(columns: seq<seq<Cell>>, w: Request): seq<seq<Cell>>
  {
    if w.column < |columns| then columns[w.column := Put(columns[w.column], w.row, w.data)] else columns
  }

  ghost function AfterWrites(columns: seq<seq<Cell>>, writes: seq<Request>): (r: seq<seq<Cell>>)
    ensures |r| == |columns|
  {
    if writes == [] then columns
    else Written(AfterWrites(columns, writes[..|writes| - 1]), writes[|writes| - 1])
  }

  ghost function LastWritten(writes: seq<Request>, column: nat, row: nat): Option<Buffer?>
  {
    if writes == [] then None
    else
      var last := writes[|writes| - 1];
      if last.column == column && last.row == row then Some(last.data)
      else LastWritten(writes[..|writes| - 1], column, row)
  }

  /**
   After any writes, to the columns in any order, no column stores a row twice, and every row of every
   column has the data that was last written to it there, or what it had before.
   */
  lemma {:induction false} StoresLastWritten(columns: seq<seq<Cell>>, writes: seq<Request>, column: nat, row: nat)
    requires column < |columns| && RowsDiffer(columns[column])
    ensures RowsDiffer(AfterWrites(columns, writes)[column])
    ensures Lookup(AfterWrites(columns, writes)[column], row) ==
            match LastWritten(writes, column, row)
            case Some(data) => Some(data)
            case None => Lookup(columns[column], row)
  {
    if writes != [] {
      var before, last := writes[..|writes| - 1], writes[|writes| - 1];
      StoresLastWritten(columns, before, column, row);
      var cells := AfterWrites(columns, before)[column];
      if last.column == column {
        PutKeepsRowsDifferent(cells, last.row, last.data);
        LookupAfterPut(cells, last.row, last.data, row);
      }
    }
  }

  // ---------- The linked lists ----------

  /** `node` is the first of the nodes from place `k` on. */
  ghost predicate At(node: DataStruct?, list: seq<DataStruct>, k: nat)
  {
    node == if k < |list| then list[k] else null
  }

  /** The nodes are linked in this order and say what the cells say. */
  ghost predicate Mirrors(list: seq<DataStruct>, cells: seq<Cell>)
    reads list
  {
    && |list| == |cells|
    && forall k :: 0 <= k < |list| ==>
                     list[k].row == cells[k].row && list[k].data == cells[k].data && At(list[k].next, list, k + 1)
  }

  lemma PrependMirrors(node: DataStruct, list: seq<DataStruct>, cells: seq<Cell>)
    requires Mirrors(list, cells) && At(node.next, list, 0)
    ensures Mirrors([node] + list, [Cell(node.row, node.data)] + cells)
  {
    var all, said := [node] + list, [Cell(node.row, node.data)] + cells;
    forall k | 0 <= k < |all|
      ensures all[k].row == said[k].row && all[k].data == said[k].data && At(all[k].next, all, k + 1)
    {
      if k > 0 {
        assert all[k] == list[k - 1] && said[k] == cells[k - 1];
      }
    }
  }

  lemma OnlyNode(list: seq<DataStruct>, cells: seq<Cell>, k: nat)
    requires Mirrors(list, cells) && RowsDiffer(cells) && k < |list|
    ensures forall j :: 0 <= j < |list| && j != k ==> list[j] != list[k]
  {
  }

  /** All nodes but one say what the cells say; that one has new data. */
  lemma OverwriteMirrors(list: seq<DataStruct>, cells: seq<Cell>, k: nat, data: Buffer?)
    requires |list| == |cells| && k < |list| && list[k].data == data
    requires forall j :: 0 <= j < |list| ==> list[j].row == cells[j].row && At(list[j].next, list, j + 1)
    requires forall j :: 0 <= j < |list| && j != k ==> list[j].data == cells[j].data
    ensures Mirrors(list, cells[k := Cell(cells[k].row, data)])
  {
  }

  /** Every column has nodes of its own. */
  ghost predicate OwnNodes(lists: seq<seq<DataStruct>>, nodes: set<DataStruct>)
  {
    && (forall c, n :: 0 <= c < |lists| && n in lists[c] ==> n in nodes)
    && (forall c, d, n :: 0 <= c < |lists| && 0 <= d < |lists| && n in lists[c] && n in lists[d] ==> c == d)
  }

  lemma PrependOwn(lists: seq<seq<DataStruct>>, nodes: set<DataStruct>, c: nat, node: DataStruct)
    requires OwnNodes(lists, nodes) && c < |lists| && node !in nodes
    ensures OwnNodes(lists[c := [node] + lists[c]], nodes + {node})
  {
    var after := lists[c := [node] + lists[c]];
    forall d, n | 0 <= d < |lists| && n in after[d]
      ensures n in lists[d] || (d == c && n == node)
    {
    }
  }

  lemma IndexFrom(cells: seq<Cell>, row: nat, k: nat)
    requires k <= |cells| && forall j :: 0 <= j < k ==> cells[j].row != row
    ensures k < |cells| && cells[k].row == row ==> Index(cells, row) == k
    ensures k == |cells| ==> Index(cells, row) == k
  {
  }

  /** Finds the node with the row, if the list has one. */
  method SearchForRow(row: nat, start: DataStruct?, ghost list: seq<DataStruct>, ghost cells: seq<Cell>)
    returns (found: DataStruct?)
    requires Mirrors(list, cells) && At(start, list, 0)
    ensures At(found, list, Index(cells, row))
  {
    var head := start;
    ghost var k := 0;
    while head != null
      invariant 0 <= k <= |list| && At(head, list, k)
      invariant forall j :: 0 <= j < k ==> cells[j].row != row
      decreases |list| - k
    {
      if head.row == row {
        IndexFrom(cells, row, k);
        return head;
      }
      head := head.next;
      k := k + 1;
    }
    IndexFrom(cells, row, k);
    return null;
  }

  class Bank {
    const burstWords: nat
    var rowEntries: array<DataStruct?>
    ghost var lists: seq<seq<DataStruct>>
    ghost var nodes: set<DataStruct>
    /** For every column, what its list stores. */
    ghost var columns: seq<seq<Cell>>

    ghost predicate Valid()
      reads this, rowEntries, nodes
    {
      && burstWords > 0 && |columns| == |lists| == rowEntries.Length
      && OwnNodes(lists, nodes)
      && (forall c :: 0 <= c < |lists| ==>
                        At(rowEntries[c], lists[c], 0) && Mirrors(lists[c], columns[c]) && RowsDiffer(columns[c]))
    }

    constructor (numCols: nat, burstWords: nat)
      requires burstWords > 0
      ensures Valid() && rowEntries.Length == numCols && columns == seq(numCols, _ => [])
      ensures fresh(rowEntries) && fresh(nodes)
    {
      this.burstWords := burstWords;
      rowEntries := new DataStruct?[numCols](_ => null);
      lists, nodes, columns := seq(numCols, _ => []), {}, seq(numCols, _ => []);
    }

    /** The packet gets the data last written to its row and column, or a fresh buffer that starts with the tracer. */
    method Read(busPacket: BusPacket)
      requires Valid() && busPacket.column < rowEntries.Length
      modifies busPacket`data, busPacket`packetType
      ensures Valid() && busPacket.packetType == Data
      ensures match Lookup(columns[busPacket.column], busPacket.row)
              case Some(data) => busPacket.data == data
              case None => busPacket.data != null && fresh(busPacket.data) &&
                           busPacket.data.words == [TRACER] + seq(burstWords - 1, _ => 0)
    {
      var c := busPacket.column;
      var found := SearchForRow(busPacket.row, rowEntries[c], lists[c], columns[c]);
      if found == null {
        var garbage := new Buffer([TRACER] + seq(burstWords - 1, _ => 0));
        busPacket.data := garbage;
      } else {
        busPacket.data := found.data;
      }
      busPacket.packetType := Data;
    }

    /** Puts a new node at the head of a column that has none for the row. */
    method Prepend(row: nat, c: nat, data: Buffer?)
      requires Valid() && c < rowEntries.Length && Index(columns[c], row) == |columns[c]|
      modifies this, rowEntries
      ensures Valid() && rowEntries == old(rowEntries) && fresh(nodes - old(nodes))
      ensures columns == Written(old(columns), Request(c, row, data))
    {
      PutKeepsRowsDifferent(columns[c], row, data);
      var newRowNode := new DataStruct(row, data, rowEntries[c]);
      PrependOwn(lists, nodes, c, newRowNode);
      PrependMirrors(newRowNode, lists[c], columns[c]);
      rowEntries[c] := newRowNode;
      lists := lists[c := [newRowNode] + lists[c]];
      nodes := nodes + {newRowNode};
      columns := columns[c := [Cell(row, data)] + columns[c]];
    }

    /** Puts new data in the node of the row. */
    method Overwrite(found: DataStruct, row: nat, c: nat, data: Buffer?)
      requires Valid() && c < rowEntries.Length && At(found, lists[c], Index(columns[c], row))
      modifies found`data, `columns
      ensures Valid() && columns == Written(old(columns), Request(c, row, data))
    {
      PutKeepsRowsDifferent(columns[c], row, data);
      ghost var list, cells := lists[c], columns[c];
      OnlyNode(list, cells, Index(cells, row));
      assert forall d :: 0 <= d < |lists| && d != c ==> found !in lists[d];
      found.data := data;
      OverwriteMirrors(list, cells, Index(cells, row), data);
      columns := columns[c := Put(cells, row, data)];
    }

    /** Stores the packet's data under its row and column; a column out of bounds is an error and changes nothing. */
    method Write(busPacket: BusPacket) returns (ok: bool)
      requires Valid()
      modifies this, rowEntries, nodes
      ensures Valid() && rowEntries == old(rowEntries) && fresh(nodes - old(nodes))
      ensures ok <==> busPacket.column < rowEntries.Length
      ensures columns == Written(old(columns), Request(busPacket.column, busPacket.row, old(busPacket.data)))
    {
      var c := busPacket.column;
      if c >= rowEntries.Length {
        return false;
      }
      var found := SearchForRow(busPacket.row, rowEntries[c], lists[c], columns[c]);
      if found == null {
        Prepend(busPacket.row, c, busPacket.data);
      } else {
        Overwrite(found, busPacket.row, c, busPacket.data);
      }
      return true;
    }
  }
}
