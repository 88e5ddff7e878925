/**
 Memory on the far side of the native interface: live cells by address, and the linked lists that
 the library builds from them. Address 0 is the null pointer.
 */
module NativeHeap {
  import opened Common

  type Address = nat

  /** The contents of a value object; each constructor is one MMS type. */
  datatype MmsContent =
    | DataAccessError(code: int)
    | Boolean(b: bool)
    | Float(bits: int)
    | VisibleString(s: string)
    | MmsString(s: string)
    | BitString(n: nat)
    | UtcTime(t: int)
    | Integer(i: int)
    | OctetString(o: seq<bv8>)
    | OtherValue

  datatype FileEntry = FileEntry(name: string, size: nat, lastModified: nat)

  datatype Cell =
    | Node(data: Address, next: Address)
    | Str(s: string)
    | File(entry: FileEntry)
    | JournalEntry(id: seq<bv8>)
    | Value(content: MmsContent)

  type Cells = map<Address, Cell>

  // ---------- Lists in memory ----------

  /** The chain from `p` consists of `nodes`, carrying `data`. */
  ghost predicate Chain(cells: Cells, p: Address, nodes: seq<Address>, data: seq<Address>)
    decreases |nodes|
  {
    |nodes| == |data| &&
    if nodes == [] then p == 0
    else p != 0 && p == nodes[0] && p in cells && cells[p].Node? && cells[p].data == data[0]
         && Chain(cells, cells[p].next, nodes[1..], data[1..])
  }

  function AsSet(ps: seq<Address>): set<Address> {
    set p | p in ps
  }

  /** A list has a head node without data; head, nodes and data are all different live cells. */
  ghost predicate IsList(cells: Cells, head: Address, nodes: seq<Address>, data: seq<Address>) {
    && head != 0 && head in cells && cells[head].Node? && cells[head].data == 0
    && Chain(cells, cells[head].next, nodes, data)
    && Distinct([head] + nodes) && Distinct(data)
    && AsSet([head] + nodes) !! AsSet(data)
    && forall d :: d in data ==> d != 0 && d in cells
  }

  lemma {:induction false} ChainFrame(before: Cells, after: Cells, p: Address, nodes: seq<Address>, data: seq<Address>)
    requires Chain(before, p, nodes, data)
    requires forall q :: q in nodes && q in before ==> q in after && after[q] == before[q]
    ensures Chain(after, p, nodes, data)
    decreases |nodes|
  {
    if nodes != [] {
      ChainFrame(before, after, before[p].next, nodes[1..], data[1..]);
    }
  }

  lemma {:induction false} ChainMembers(cells: Cells, p: Address, nodes: seq<Address>, data: seq<Address>)
    requires Chain(cells, p, nodes, data)
    ensures |data| == |nodes|
    ensures forall q :: q in nodes ==> q != 0 && q in cells && cells[q].Node?
    ensures forall i :: 0 <= i < |nodes| ==> nodes[i] != 0
    decreases |nodes|
  {
    if nodes != [] {
      ChainMembers(cells, cells[p].next, nodes[1..], data[1..]);
      assert nodes == [nodes[0]] + nodes[1..];
    }
  }

  lemma DistinctTail(ps: seq<Address>)
    requires Distinct(ps) && ps != []
    ensures Distinct(ps[1..]) && ps[0] !in ps[1..]
  {
  }

  lemma DistinctAppend(ps: seq<Address>, p: Address)
    requires Distinct(ps) && p !in ps
    ensures Distinct(ps + [p])
  {
  }

  /** Where a chain stands after `i` of its nodes. */
  lemma {:induction false} ChainAt(cells: Cells, p: Address, nodes: seq<Address>, data: seq<Address>, i: nat)
    requires Chain(cells, p, nodes, data) && i < |nodes|
    ensures nodes[i] != 0 && nodes[i] in cells && cells[nodes[i]].Node? && cells[nodes[i]].data == data[i]
    ensures Chain(cells, cells[nodes[i]].next, nodes[i + 1..], data[i + 1..])
    ensures Chain(cells, nodes[i], nodes[i..], data[i..])
    decreases i
  {
    if i > 0 {
      ChainAt(cells, cells[p].next, nodes[1..], data[1..], i - 1);
      assert nodes[1..][i - 1] == nodes[i] && nodes[1..][i..] == nodes[i + 1..] && nodes[1..][i - 1..] == nodes[i..];
      assert data[1..][i - 1] == data[i] && data[1..][i..] == data[i + 1..] && data[1..][i - 1..] == data[i..];
    } else {
      assert nodes[0..] == nodes && data[0..] == data;
    }
  }

  predicate AtMost(s: set<Address>, bound: nat) {
    forall p :: p in s ==> p <= bound
  }

  lemma {:induction false} AddressesAreBounded(s: set<Address>)
    ensures exists bound: nat :: AtMost(s, bound)
  {
    if s == {} {
      assert AtMost(s, 0);
    } else {
      var q :| q in s;
      AddressesAreBounded(s - {q});
      var bound: nat :| AtMost(s - {q}, bound);
      assert forall p :: p in s ==> p == q || p in s - {q};
      assert AtMost(s, if q > bound then q else bound);
    }
  }

  // ---------- The heap object ----------

  class Heap {
    var cells: Cells

    constructor ()
      ensures cells == map[]
    {
      cells := map[];
    }

    /** Any unused address may come back, also one that was freed before. */
    method Alloc(c: Cell) returns (p: Address)
      modifies this
      ensures p != 0 && p !in old(cells) && cells == old(cells)[p := c]
    {
      AddressesAreBounded(cells.Keys);
      ghost var bound: nat :| AtMost(cells.Keys, bound);
      assert bound + 1 !in cells;
      p :| p != 0 && p !in cells;
      cells := cells[p := c];
    }

    /** Freeing needs a live cell, so whoever calls this proves that nothing is freed twice. */
    method Free(p: Address)
      requires p in cells
      modifies this
      ensures cells == old(cells) - {p}
    {
      cells := cells - {p};
    }

    method GetNext(p: Address) returns (next: Address)
      requires p in cells && cells[p].Node?
      ensures next == cells[p].next
    {
      next := cells[p].next;
    }

    method GetData(p: Address) returns (data: Address)
      requires p in cells && cells[p].Node?
      ensures data == cells[p].data
    {
      data := cells[p].data;
    }

    method LinkedListCreate() returns (list: Address)
      modifies this
      ensures list != 0 && list !in old(cells) && cells == old(cells)[list := Node(0, 0)]
      ensures IsList(cells, list, [], [])
    {
      list := Alloc(Node(0, 0));
    }

    method GetLastElement(list: Address, ghost nodes: seq<Address>, ghost data: seq<Address>) returns (last: Address)
      requires IsList(cells, list, nodes, data)
      ensures last == ([list] + nodes)[|nodes|]
      ensures last in cells && cells[last].Node? && cells[last].next == 0
    {
      last := list;
      ghost var i := 0;
      while cells[last].next != 0
        invariant i <= |nodes| && last == ([list] + nodes)[i] && last in cells && cells[last].Node?
        invariant Chain(cells, cells[last].next, nodes[i..], data[i..])
        decreases |nodes| - i
      {
        ChainAt(cells, cells[list].next, nodes, data, i);
        last := cells[last].next;
        i := i + 1;
      }
    }

    /** Appends at the end, which it finds by walking the list. */
    method LinkedListAdd(list: Address, d: Address, ghost nodes: seq<Address>, ghost data: seq<Address>)
      returns (element: Address)
      requires IsList(cells, list, nodes, data) && d != 0 && d in cells && d !in [list] + nodes + data
      modifies this
      ensures IsList(cells, list, nodes + [element], data + [d])
      ensures element !in old(cells) && cells.Keys == old(cells).Keys + {element}
      ensures forall p :: p in old(cells) && p !in [list] + nodes ==> cells[p] == old(cells)[p]
    {
      ChainMembers(cells, cells[list].next, nodes, data);
      element := LinkedListCreate();
      cells := cells[element := Node(d, 0)];
      ChainFrame(old(cells), cells, old(cells)[list].next, nodes, data);
      var listEnd := GetLastElement(list, nodes, data);
      ghost var before := cells;
      cells := cells[listEnd := cells[listEnd].(next := element)];
      ChainAppend(before, cells, list, nodes, data, element, d);
      assert [list] + (nodes + [element]) == [list] + nodes + [element];
      DistinctAppend([list] + nodes, element);
      DistinctAppend(data, d);
      assert AsSet([list] + (nodes + [element])) == AsSet([list] + nodes) + {element};
      assert AsSet(data + [d]) == AsSet(data) + {d};
      assert d !in AsSet([list] + nodes) && element !in AsSet(data);
    }

    /** The do-while loop of the library: frees the data, if there is any, and then the node. */
    method LinkedListDestroyDeep(list: Address, ghost nodes: seq<Address>, ghost data: seq<Address>)
      requires IsList(cells, list, nodes, data)
      modifies this
      ensures cells == old(cells) - AsSet([list] + nodes) - AsSet(data)
    {
      ghost var all := [list] + nodes;
      var nextElement := list;
      ghost var i := 0;
      while nextElement != 0
        invariant i <= |all| && (i == |all| <==> nextElement == 0)
        invariant i < |all| ==> nextElement == all[i]
        invariant cells == old(cells) - AsSet(all[..i]) - AsSet(data[..if i == 0 then 0 else i - 1])
        decreases |all| - i
      {
        var currentElement := nextElement;
        ListElement(old(cells), list, nodes, data, i);
        assert currentElement !in all[..i] && currentElement !in data;
        nextElement := cells[currentElement].next;
        if cells[currentElement].data != 0 {
          assert data[i - 1] !in all && data[i - 1] !in data[..i - 1];
          Free(cells[currentElement].data);
        }
        Free(currentElement);
        assert all[..i + 1] == all[..i] + [currentElement];
        assert i > 0 ==> data[..i] == data[..i - 1] + [data[i - 1]];
        i := i + 1;
      }
      assert all[..|all|] == all && data[..|all| - 1] == data;
    }

    /** The same without the data. */
    method LinkedListDestroyStatic(list: Address, ghost nodes: seq<Address>, ghost data: seq<Address>)
      requires list != 0 && list in cells && cells[list].Node?
      requires Chain(cells, cells[list].next, nodes, data) && Distinct([list] + nodes)
      modifies this
      ensures cells == old(cells) - AsSet([list] + nodes)
    {
      ghost var all := [list] + nodes;
      var nextElement := list;
      ghost var i := 0;
      while nextElement != 0
        invariant i <= |all| && (i == |all| <==> nextElement == 0)
        invariant i < |all| ==> nextElement == all[i]
        invariant cells == old(cells) - AsSet(all[..i])
        decreases |all| - i
      {
        var currentElement := nextElement;
        ChainElement(old(cells), list, nodes, data, i);
        assert currentElement !in all[..i];
        nextElement := cells[currentElement].next;
        Free(currentElement);
        assert all[..i + 1] == all[..i] + [currentElement];
        i := i + 1;
      }
      assert all[..|all|] == all;
    }
  }

  /** The node at position `i` of a list with its head, and where it points. */
  lemma ChainElement(cells: Cells, list: Address, nodes: seq<Address>, data: seq<Address>, i: nat)
    requires list != 0 && list in cells && cells[list].Node? && Chain(cells, cells[list].next, nodes, data)
    requires i <= |nodes|
    ensures
      var p := ([list] + nodes)[i];
      && p != 0 && p in cells && cells[p].Node?
      && (i > 0 ==> cells[p].data == data[i - 1])
      && cells[p].next == (if i == |nodes| then 0 else nodes[i])
      && (i < |nodes| ==> nodes[i] != 0)
  {
    if i > 0 {
      ChainAt(cells, cells[list].next, nodes, data, i - 1);
    }
  }

  lemma ListElement(cells: Cells, list: Address, nodes: seq<Address>, data: seq<Address>, i: nat)
    requires IsList(cells, list, nodes, data) && i <= |nodes|
    ensures
      var p := ([list] + nodes)[i];
      && p != 0 && p in cells && cells[p].Node?
      && cells[p].data == (if i == 0 then 0 else data[i - 1])
      && cells[p].next == (if i == |nodes| then 0 else nodes[i])
      && (i < |nodes| ==> nodes[i] != 0)
      && p in AsSet([list] + nodes)
      && (i > 0 ==> data[i - 1] in AsSet(data))
  {
    ChainElement(cells, list, nodes, data, i);
  }

  lemma {:induction false} ChainAppend(before: Cells, after: Cells, p: Address, nodes: seq<Address>, data: seq<Address>,
                                       element: Address, d: Address)
    requires p in before && before[p].Node? && Chain(before, before[p].next, nodes, data) && Distinct([p] + nodes)
    requires element != 0 && element !in [p] + nodes && element in before && before[element] == Node(d, 0)
    requires
      var last := ([p] + nodes)[|nodes|];
      last in before && before[last].Node? && after == before[last := before[last].(next := element)]
    ensures p in after && after[p].Node? && after[p].data == before[p].data
    ensures Chain(after, after[p].next, nodes + [element], data + [d])
    decreases |nodes|
  {
    if nodes == [] {
      assert Chain(after, 0, [], []);
      assert ([] + [element])[1..] == [] && ([] + [d])[1..] == [];
    } else {
      var q := nodes[0];
      assert ([q] + nodes[1..]) == nodes;
      assert ([p] + nodes)[|nodes|] == ([q] + nodes[1..])[|nodes[1..]|];
      assert ([p] + nodes)[1..] == nodes;
      DistinctTail([p] + nodes);
      ChainAppend(before, after, q, nodes[1..], data[1..], element, d);
      assert (nodes + [element])[1..] == nodes[1..] + [element] && (data + [d])[1..] == data[1..] + [d];
    }
  }
}
