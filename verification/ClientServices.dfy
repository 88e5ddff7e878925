/**
 The read, directory, log and data set services of the client wrapper, and who frees the native
 memory they touch. Each service call takes the answer of the server as a parameter.
 */
module ClientServices {
  import opened Common
  import opened NativeHeap

  /** Answer to a read: the library returns an object only when it reports no error. */
  datatype Reply = ServiceError(error: int) | NothingFound | Received(content: MmsContent)

  /** Answer to a service that returns a list. */
  datatype ListReply<T> = Rejected(error: int) | Listed(items: seq<T>)

  /** The outcome of a wrapper method; an exception carries an error code. */
  datatype Outcome<T> = Returned(value: T) | Thrown(code: int)

  /** A wrapper object that deletes its native value when it is finalised. */
  class MmsValue {
    const valueReference: Address
    constructor (valueReference: Address)
      ensures this.valueReference == valueReference
    {
      this.valueReference := valueReference;
    }
  }

  class MmsJournalEntry {
    var self: Address
    constructor (self: Address)
      ensures this.self == self
    {
      this.self := self;
    }
  }

  class IedServices {
    const heap: Heap
    // who will delete each live native cell: a value wrapper, an entry wrapper, or nobody
    ghost var values: map<Address, MmsValue>
    ghost var entries: map<Address, MmsJournalEntry>
    ghost var lost: set<Address>

    /** Every live cell has exactly one keeper, and every keeper's cell is live. */
    ghost predicate Valid()
      reads this, heap, entries.Values
    {
      && heap.cells.Keys == values.Keys + entries.Keys + lost
      && values.Keys !! entries.Keys && values.Keys !! lost && entries.Keys !! lost
      && (forall p :: p in values ==> values[p].valueReference == p)
      && (forall p :: p in entries ==> p != 0 && entries[p].self == p)
    }

    constructor ()
      ensures Valid() && fresh(heap) && heap.cells == map[] && lost == {}
    {
      heap := new Heap();
      values, entries, lost := map[], map[], {};
    }

    // ---------- Reading one value ----------

    method ReadObjectInternal(reply: Reply) returns (r: Outcome<Address>)
      modifies heap
      ensures match r
              case Returned(p) => reply.Received? && p != 0 && p !in old(heap.cells)
                                  && heap.cells == old(heap.cells)[p := Value(reply.content)]
              case Thrown(code) => heap.cells == old(heap.cells)
                                   && (reply == ServiceError(code) || (reply.NothingFound? && code == 0))
    {
      if reply.ServiceError? {
        return Thrown(reply.error);
      }
      if reply.NothingFound? {
        return Thrown(0);
      }
      var mmsValue := heap.Alloc(Value(reply.content));
      return Returned(mmsValue);
    }

    method ReadObjectChecked(reply: Reply) returns (r: Outcome<Address>)
      modifies heap
      ensures match r
              case Returned(p) => reply.Received? && !reply.content.DataAccessError? && p != 0 && p !in old(heap.cells)
                                  && heap.cells == old(heap.cells)[p := Value(reply.content)]
              case Thrown(code) => heap.cells == old(heap.cells)
                                   && (reply == ServiceError(code) || (reply.NothingFound? && code == 0)
                                       || reply == Received(DataAccessError(code)))
    {
      r := ReadObjectInternal(reply);
      if r.Thrown? {
        return;
      }
      var content := heap.cells[r.value].content;
      if content.DataAccessError? {
        heap.Free(r.value);
        return Thrown(content.code);
      }
    }

    /** All exits leave the heap as it was. */
    method ReadBooleanValue(reply: Reply) returns (r: Outcome<bool>)
      requires Valid()
      modifies heap
      ensures Valid() && heap.cells == old(heap.cells)
      ensures r == match reply
                   case Received(Boolean(b)) => Returned(b)
                   case ServiceError(e) => Thrown(e)
                   case Received(DataAccessError(c)) => Thrown(c)
                   case NothingFound => Thrown(0)
                   case Received(_) => Thrown(0)
    {
      var mmsValue := ReadObjectChecked(reply);
      if mmsValue.Thrown? {
        return Thrown(mmsValue.code);
      }
      var content := heap.cells[mmsValue.value].content;
      if !content.Boolean? {
        heap.Free(mmsValue.value);
        return Thrown(0);
      }
      r := Returned(content.b);
      heap.Free(mmsValue.value);
    }

    method ReadFloatValue(reply: Reply) returns (r: Outcome<int>)
      requires Valid()
      modifies heap
      ensures Valid() && heap.cells == old(heap.cells)
      ensures r == match reply
                   case Received(Float(bits)) => Returned(bits)
                   case ServiceError(e) => Thrown(e)
                   case Received(DataAccessError(c)) => Thrown(c)
                   case NothingFound => Thrown(0)
                   case Received(_) => Thrown(0)
    {
      var mmsValue := ReadObjectChecked(reply);
      if mmsValue.Thrown? {
        return Thrown(mmsValue.code);
      }
      var content := heap.cells[mmsValue.value].content;
      if !content.Float? {
        heap.Free(mmsValue.value);
        return Thrown(0);
      }
      r := Returned(content.bits);
      heap.Free(mmsValue.value);
    }

    /** Both string types are taken. */
    method ReadStringValue(reply: Reply) returns (r: Outcome<string>)
      requires Valid()
      modifies heap
      ensures Valid() && heap.cells == old(heap.cells)
      ensures r == match reply
                   case Received(VisibleString(s)) => Returned(s)
                   case Received(MmsString(s)) => Returned(s)
                   case ServiceError(e) => Thrown(e)
                   case Received(DataAccessError(c)) => Thrown(c)
                   case NothingFound => Thrown(0)
                   case Received(_) => Thrown(0)
    {
      var mmsValue := ReadObjectChecked(reply);
      if mmsValue.Thrown? {
        return Thrown(mmsValue.code);
      }
      var content := heap.cells[mmsValue.value].content;
      if !(content.VisibleString? || content.MmsString?) {
        heap.Free(mmsValue.value);
        return Thrown(0);
      }
      r := Returned(content.s);
      heap.Free(mmsValue.value);
    }

    /** ReadQualityValue and ReadBitStringValue: the unsigned number is cast to a signed one. */
    method ReadBitStringValue(reply: Reply) returns (r: Outcome<int>)
      requires Valid()
      modifies heap
      ensures Valid() && heap.cells == old(heap.cells)
      ensures r == match reply
                   case Received(BitString(n)) => Returned(ToInt32(n))
                   case ServiceError(e) => Thrown(e)
                   case Received(DataAccessError(c)) => Thrown(c)
                   case NothingFound => Thrown(0)
                   case Received(_) => Thrown(0)
    {
      var mmsValue := ReadObjectChecked(reply);
      if mmsValue.Thrown? {
        return Thrown(mmsValue.code);
      }
      var content := heap.cells[mmsValue.value].content;
      if content.BitString? {
        r := Returned(ToInt32(content.n));
        heap.Free(mmsValue.value);
      } else {
        heap.Free(mmsValue.value);
        return Thrown(0);
      }
    }

    method Wrap(p: Address) returns (w: MmsValue)
      requires p in heap.cells && p !in values && p !in entries && p !in lost
      requires heap.cells.Keys - {p} == values.Keys + entries.Keys + lost
      requires values.Keys !! entries.Keys && values.Keys !! lost && entries.Keys !! lost
      requires forall q :: q in values ==> values[q].valueReference == q
      requires forall q :: q in entries ==> q != 0 && entries[q].self == q
      modifies this`values
      ensures Valid() && fresh(w) && w.valueReference == p && values == old(values)[p := w]
    {
      w := new MmsValue(p);
      values := values[p := w];
    }

    /** The value goes to the caller inside a wrapper, whatever its type, even an access error. */
    method ReadValue(reply: Reply) returns (r: Outcome<MmsValue>)
      requires Valid()
      modifies this`values, heap
      ensures Valid()
      ensures r.Thrown? <==> !reply.Received?
      ensures r.Thrown? ==> heap.cells == old(heap.cells) && values == old(values)
      ensures r.Thrown? ==> r.code == match reply case ServiceError(e) => e case _ => 0
      ensures r.Returned? ==> fresh(r.value) && values == old(values)[r.value.valueReference := r.value]
                              && heap.cells == old(heap.cells)[r.value.valueReference := Value(reply.content)]
    {
      var mmsValue := ReadObjectInternal(reply);
      if mmsValue.Thrown? {
        return Thrown(mmsValue.code);
      }
      var w := Wrap(mmsValue.value);
      r := Returned(w);
    }

    /**
     ReadIntegerValue, and ReadTimestampValue with the other type: the wrapper keeps the value also
     when the type is wrong and the method throws, and deletes it when it is finalised.
     */
    method ReadIntegerValue(reply: Reply) returns (r: Outcome<int>, ghost w: Option<MmsValue>)
      requires Valid()
      modifies this`values, heap
      ensures Valid()
      ensures r == match reply
                   case Received(Integer(i)) => Returned(i)
                   case ServiceError(e) => Thrown(e)
                   case Received(DataAccessError(c)) => Thrown(c)
                   case NothingFound => Thrown(0)
                   case Received(_) => Thrown(0)
      ensures w.Some? <==> reply.Received? && !reply.content.DataAccessError?
      ensures w.None? ==> heap.cells == old(heap.cells) && values == old(values)
      ensures w.Some? ==> fresh(w.value) && values == old(values)[w.value.valueReference := w.value]
                          && heap.cells == old(heap.cells)[w.value.valueReference := Value(reply.content)]
    {
      w := None;
      var mmsValue := ReadObjectChecked(reply);
      if mmsValue.Thrown? {
        return Thrown(mmsValue.code), None;
      }
      var wrapper := Wrap(mmsValue.value);
      w := Some(wrapper);
      var content := heap.cells[wrapper.valueReference].content;
      if content.Integer? {
        r := Returned(content.i);
      } else {
        r := Thrown(0);
      }
    }

    method ReadTimestampValue(reply: Reply) returns (r: Outcome<MmsValue>, ghost w: Option<MmsValue>)
      requires Valid()
      modifies this`values, heap
      ensures Valid()
      ensures r.Returned? <==> reply.Received? && reply.content.UtcTime?
      ensures r.Returned? ==> w == Some(r.value)
      ensures r.Thrown? ==>
                r.code == match reply
                          case ServiceError(e) => e
                          case Received(DataAccessError(c)) => c
                          case _ => 0
      ensures w.Some? <==> reply.Received? && !reply.content.DataAccessError?
      ensures w.None? ==> heap.cells == old(heap.cells) && values == old(values)
      ensures w.Some? ==> fresh(w.value) && values == old(values)[w.value.valueReference := w.value]
                          && heap.cells == old(heap.cells)[w.value.valueReference := Value(reply.content)]
    {
      w := None;
      var mmsValue := ReadObjectChecked(reply);
      if mmsValue.Thrown? {
        return Thrown(mmsValue.code), None;
      }
      var wrapper := Wrap(mmsValue.value);
      w := Some(wrapper);
      if heap.cells[wrapper.valueReference].content.UtcTime? {
        r := Returned(wrapper);
      } else {
        r := Thrown(0);
      }
    }

    /** The finaliser of a value wrapper: it runs once, and then the value is gone. */
    method FinaliseValue(w: MmsValue)
      requires Valid() && w.valueReference in values && values[w.valueReference] == w
      modifies this`values, heap
      ensures Valid() && values == old(values) - {w.valueReference}
      ensures heap.cells == old(heap.cells) - {w.valueReference}
    {
      heap.Free(w.valueReference);
      values := values - {w.valueReference};
    }

    // ---------- Lists ----------

    /** The native list carries these items in this order. */
    ghost predicate Carries(cells: Cells, list: Address, nodes: seq<Address>, data: seq<Address>, items: seq<Cell>) {
      && IsList(cells, list, nodes, data) && |data| == |items|
      && forall i :: 0 <= i < |items| ==> cells[data[i]] == items[i]
    }

    /** The list occupies exactly the cells that `after` has beyond `before`. */
    ghost predicate Adds(before: Cells, after: Cells, list: Address, nodes: seq<Address>, data: seq<Address>) {
      && after.Keys == before.Keys + AsSet([list] + nodes) + AsSet(data)
      && before.Keys !! AsSet([list] + nodes) + AsSet(data)
      && forall p :: p in before ==> p in after && after[p] == before[p]
    }

    method AddItem(list: Address, item: Cell,
                   ghost nodes: seq<Address>, ghost data: seq<Address>, ghost items: seq<Cell>)
      returns (element: Address, handle: Address)
      requires Carries(heap.cells, list, nodes, data, items)
      modifies heap
      ensures Carries(heap.cells, list, nodes + [element], data + [handle], items + [item])
      ensures handle !in old(heap.cells) && element !in old(heap.cells)
      ensures heap.cells.Keys == old(heap.cells).Keys + {element} + {handle}
      ensures forall p :: p in old(heap.cells) && p !in [list] + nodes ==> heap.cells[p] == old(heap.cells)[p]
    {
      ChainMembers(heap.cells, heap.cells[list].next, nodes, data);
      handle := heap.Alloc(item);
      ChainFrame(old(heap.cells), heap.cells, old(heap.cells)[list].next, nodes, data);
      ghost var before := heap.cells;
      element := heap.LinkedListAdd(list, handle, nodes, data);
      forall i | 0 <= i < |items|
        ensures heap.cells[data[i]] == items[i]
      {
        assert data[i] in AsSet(data) && data[i] in before;
        assert data[i] !in AsSet([list] + nodes);
      }
    }

    /** Appending an item turns what a list occupies into what the longer list occupies. */
    lemma AddsMore(before: Cells, mid: Cells, after: Cells, list: Address, nodes: seq<Address>, data: seq<Address>,
                   element: Address, handle: Address)
      requires Adds(before, mid, list, nodes, data)
      requires handle !in mid && element !in mid && after.Keys == mid.Keys + {element} + {handle}
      requires forall p :: p in mid && p !in [list] + nodes ==> after[p] == mid[p]
      ensures Adds(before, after, list, nodes + [element], data + [handle])
    {
      assert AsSet([list] + (nodes + [element])) == AsSet([list] + nodes) + {element};
      assert AsSet(data + [handle]) == AsSet(data) + {handle};
      forall p | p in before ensures p in after && after[p] == before[p] {
        assert p in mid && p !in AsSet([list] + nodes);
      }
    }

    /** The same for a list that occupies what has been added to `before`. */
    method AppendItem(list: Address, item: Cell, ghost before: Cells,
                      ghost nodes: seq<Address>, ghost data: seq<Address>, ghost items: seq<Cell>)
      returns (element: Address, handle: Address)
      requires Carries(heap.cells, list, nodes, data, items) && Adds(before, heap.cells, list, nodes, data)
      modifies heap
      ensures Carries(heap.cells, list, nodes + [element], data + [handle], items + [item])
      ensures Adds(before, heap.cells, list, nodes + [element], data + [handle])
    {
      ghost var mid := heap.cells;
      element, handle := AddItem(list, item, nodes, data, items);
      AddsMore(before, mid, heap.cells, list, nodes, data, element, handle);
    }

    method NewEmptyList() returns (list: Address)
      modifies heap
      ensures Carries(heap.cells, list, [], [], []) && Adds(old(heap.cells), heap.cells, list, [], [])
    {
      list := heap.LinkedListCreate();
      assert AsSet([list] + []) == {list} && AsSet([]) == {};
    }

    /** Allocates the items one by one and appends each to a new list. */
    method NewNativeList(items: seq<Cell>) returns (list: Address, ghost nodes: seq<Address>, ghost data: seq<Address>)
      modifies heap
      ensures Carries(heap.cells, list, nodes, data, items)
      ensures Adds(old(heap.cells), heap.cells, list, nodes, data)
    {
      list := NewEmptyList();
      nodes, data := [], [];
      for i := 0 to |items|
        invariant Carries(heap.cells, list, nodes, data, items[..i])
        invariant Adds(old(heap.cells), heap.cells, list, nodes, data)
      {
        ghost var element, handle := AppendItem(list, items[i], old(heap.cells), nodes, data, items[..i]);
        assert items[..i + 1] == items[..i] + [items[i]];
        nodes, data := nodes + [element], data + [handle];
      }
      assert items[..|items|] == items;
    }

    /** The walk that every string query does over its result. */
    method CopyStrings(list: Address, ghost nodes: seq<Address>, ghost data: seq<Address>, ghost items: seq<string>)
      returns (newList: seq<string>)
      requires IsList(heap.cells, list, nodes, data) && |data| == |items|
      requires forall i :: 0 <= i < |items| ==> heap.cells[data[i]] == Str(items[i])
      ensures newList == items
    {
      newList := [];
      ListElement(heap.cells, list, nodes, data, 0);
      ChainMembers(heap.cells, heap.cells[list].next, nodes, data);
      var element := heap.GetNext(list);
      ghost var i := 0;
      while element != 0
        invariant i <= |nodes| && newList == items[..i]
        invariant element == (if i == |nodes| then 0 else nodes[i])
        decreases |nodes| - i
      {
        ListElement(heap.cells, list, nodes, data, i + 1);
        var p := heap.GetData(element);
        newList := newList + [heap.cells[p].s];
        element := heap.GetNext(element);
        i := i + 1;
      }
      assert items[..|items|] == items;
    }

    /** All queries that return strings: the caller gets the list's strings, the heap is as before. */
    method StringDirectory(reply: ListReply<string>) returns (r: Outcome<seq<string>>)
      requires Valid()
      modifies heap
      ensures Valid() && heap.cells == old(heap.cells)
      ensures r == match reply case Rejected(error) => Thrown(error) case Listed(items) => Returned(items)
    {
      if reply.Rejected? {
        return Thrown(reply.error);
      }
      var linkedList, nodes, data :=
        NewNativeList(seq(|reply.items|, i requires 0 <= i < |reply.items| => Str(reply.items[i])));
      var newList := CopyStrings(linkedList, nodes, data, reply.items);
      heap.LinkedListDestroyDeep(linkedList, nodes, data);
      r := Returned(newList);
    }

    /** Copies the file entries of a list and frees each as soon as it is copied. */
    method CopyAndFreeEntries(list: Address,
                              ghost nodes: seq<Address>, ghost data: seq<Address>, ghost items: seq<FileEntry>)
      returns (newList: seq<FileEntry>)
      requires IsList(heap.cells, list, nodes, data) && |data| == |items|
      requires forall i :: 0 <= i < |items| ==> heap.cells[data[i]] == File(items[i])
      modifies heap
      ensures newList == items && heap.cells == old(heap.cells) - AsSet(data)
    {
      newList := [];
      ListElement(heap.cells, list, nodes, data, 0);
      ChainMembers(heap.cells, heap.cells[list].next, nodes, data);
      var element := heap.GetNext(list);
      ghost var i := 0;
      while element != 0
        invariant i <= |nodes| && newList == items[..i]
        invariant heap.cells == old(heap.cells) - AsSet(data[..i])
        invariant element == (if i == |nodes| then 0 else nodes[i])
        decreases |nodes| - i
      {
        ListElement(old(heap.cells), list, nodes, data, i + 1);
        assert nodes[i] in AsSet([list] + nodes) && data[i] !in data[..i];
        var p := heap.GetData(element);
        newList := newList + [heap.cells[p].entry];
        heap.Free(p);
        assert data[..i + 1] == data[..i] + [data[i]];
        element := heap.GetNext(element);
        i := i + 1;
      }
      assert data[..|data|] == data && items[..|items|] == items;
    }

    /** File entries are copied and freed one by one during the walk, the nodes afterwards. */
    method FileDirectory(reply: ListReply<FileEntry>) returns (r: Outcome<seq<FileEntry>>)
      requires Valid()
      modifies heap
      ensures Valid() && heap.cells == old(heap.cells)
      ensures r == match reply case Rejected(error) => Thrown(error) case Listed(items) => Returned(items)
    {
      if reply.Rejected? {
        return Thrown(reply.error);
      }
      var linkedList, nodes, data :=
        NewNativeList(seq(|reply.items|, i requires 0 <= i < |reply.items| => File(reply.items[i])));
      ghost var full := heap.cells;
      var newList := CopyAndFreeEntries(linkedList, nodes, data, reply.items);
      ChainFrame(full, heap.cells, full[linkedList].next, nodes, data);
      heap.LinkedListDestroyStatic(linkedList, nodes, data);
      r := Returned(newList);
    }

    /**
     Sends the strings in order. The list and its strings are freed before the error is looked at,
     so nothing stays behind on either exit. `sent` is what the service was given.
     */
    method CreateDataSet(dataSetElements: seq<string>, error: int) returns (r: Outcome<()>, ghost sent: seq<string>)
      requires Valid()
      modifies heap
      ensures Valid() && heap.cells == old(heap.cells)
      ensures sent == dataSetElements
      ensures r == if error != 0 then Thrown(error) else Returned(())
    {
      var linkedList, nodes, data :=
        NewNativeList(seq(|dataSetElements|, i requires 0 <= i < |dataSetElements| => Str(dataSetElements[i])));
      ghost var cells := heap.cells;
      sent := seq(|data|, i requires 0 <= i < |data| && data[i] in cells && cells[data[i]].Str? => cells[data[i]].s);
      heap.LinkedListDestroyDeep(linkedList, nodes, data);
      if error != 0 {
        return Thrown(error), sent;
      }
      r := Returned(());
    }

    /**
     Each entry of a log query ends up in exactly one wrapper, in order; only the spine of the
     native list is freed.
     */
    method WrapNativeLogQueryResult(list: Address,
                                    ghost nodes: seq<Address>, ghost data: seq<Address>, ghost items: seq<Cell>)
      returns (journalEntries: seq<MmsJournalEntry>)
      requires Carries(heap.cells, list, nodes, data, items)
      modifies heap
      ensures heap.cells == old(heap.cells) - AsSet([list] + nodes)
      ensures |journalEntries| == |items|
      ensures forall i :: 0 <= i < |items| ==> fresh(journalEntries[i]) && journalEntries[i].self == data[i]
    {
      journalEntries := [];
      ListElement(heap.cells, list, nodes, data, 0);
      ChainMembers(heap.cells, heap.cells[list].next, nodes, data);
      var element := heap.GetNext(list);
      while element != 0
        invariant heap.cells == old(heap.cells) && |journalEntries| <= |nodes|
        invariant element == (if |journalEntries| == |nodes| then 0 else nodes[|journalEntries|])
        invariant forall i :: 0 <= i < |journalEntries| ==>
                    fresh(journalEntries[i]) && journalEntries[i].self == data[i]
        decreases |nodes| - |journalEntries|
      {
        ListElement(heap.cells, list, nodes, data, |journalEntries| + 1);
        var p := heap.GetData(element);
        var journalEntry := new MmsJournalEntry(p);
        journalEntries := journalEntries + [journalEntry];
        element := heap.GetNext(element);
      }
      heap.LinkedListDestroyStatic(list, nodes, data);
    }

    /** The native query builds a list of entries; what remains of it is the entries, each in a wrapper. */
    method QueryAndWrap(ids: seq<seq<bv8>>) returns (wrapped: seq<MmsJournalEntry>, ghost data: seq<Address>)
      modifies heap
      ensures |wrapped| == |data| == |ids| && Distinct(data) && 0 !in data
      ensures heap.cells.Keys == old(heap.cells).Keys + AsSet(data) && old(heap.cells).Keys !! AsSet(data)
      ensures forall p :: p in old(heap.cells) ==> heap.cells[p] == old(heap.cells)[p]
      ensures forall i :: 0 <= i < |ids| ==>
                && fresh(wrapped[i]) && wrapped[i].self == data[i]
                && data[i] in heap.cells && heap.cells[data[i]] == JournalEntry(ids[i])
    {
      ghost var nodes;
      var linkedList;
      ghost var items := seq(|ids|, i requires 0 <= i < |ids| => JournalEntry(ids[i]));
      linkedList, nodes, data := NewNativeList(seq(|ids|, i requires 0 <= i < |ids| => JournalEntry(ids[i])));
      ghost var full := heap.cells;
      wrapped := WrapNativeLogQueryResult(linkedList, nodes, data, items);
      assert forall i :: 0 <= i < |data| ==> data[i] in AsSet(data) && full[data[i]] == items[i];
    }

    /** QueryLogByTime: after it the live cells are those of before, plus one per wrapped entry. */
    method QueryLogByTime(reply: ListReply<seq<bv8>>) returns (r: Outcome<seq<MmsJournalEntry>>)
      requires Valid()
      modifies this`entries, heap
      ensures Valid() && values == old(values) && lost == old(lost)
      ensures reply.Rejected? ==> r == Thrown(reply.error) && heap.cells == old(heap.cells) && entries == old(entries)
      ensures forall p :: p in old(heap.cells) ==> p in heap.cells && heap.cells[p] == old(heap.cells)[p]
      ensures reply.Listed? ==>
                && r.Returned? && |r.value| == |reply.items|
                && entries.Keys == old(entries).Keys + (set i | 0 <= i < |r.value| :: r.value[i].self)
                && forall i :: 0 <= i < |r.value| ==>
                     var p := r.value[i].self;
                     p in entries && entries[p] == r.value[i] && heap.cells[p] == JournalEntry(reply.items[i])
    {
      if reply.Rejected? {
        return Thrown(reply.error);
      }
      var wrapped, data := QueryAndWrap(reply.items);
      Adopt(wrapped, data);
      assert AsSet(data) == set i | 0 <= i < |wrapped| :: wrapped[i].self;
      r := Returned(wrapped);
    }

    /** The wrappers become the keepers of the cells they point to. */
    ghost method Adopt(wrapped: seq<MmsJournalEntry>, data: seq<Address>)
      requires |wrapped| == |data| && Distinct(data) && 0 !in data
      requires forall i :: 0 <= i < |data| ==> wrapped[i].self == data[i]
      requires heap.cells.Keys == values.Keys + entries.Keys + lost + AsSet(data)
      requires values.Keys !! entries.Keys && values.Keys !! lost && entries.Keys !! lost
      requires AsSet(data) !! values.Keys + entries.Keys + lost
      requires forall p :: p in values ==> values[p].valueReference == p
      requires forall p :: p in entries ==> p != 0 && entries[p].self == p
      modifies this`entries
      ensures Valid() && entries.Keys == old(entries).Keys + AsSet(data)
      ensures forall i :: 0 <= i < |data| ==> data[i] in entries && entries[data[i]] == wrapped[i]
    {
      var adopted := map i | 0 <= i < |data| :: data[i] := wrapped[i];
      assert adopted.Keys == AsSet(data);
      entries := entries + adopted;
    }

    /**
     QueryLogAfter: an entry id of more than 255 bytes is refused at once. Otherwise the native copy
     of the id has no keeper: each call that gets that far leaves one cell behind for good.
     */
    method QueryLogAfter(entryId: seq<bv8>, reply: ListReply<seq<bv8>>)
      returns (r: Outcome<seq<MmsJournalEntry>>, ghost leak: Option<Address>)
      requires Valid()
      modifies this`entries, this`lost, heap
      ensures Valid() && values == old(values)
      ensures leak.Some? <==> |entryId| <= 255
      ensures leak.None? ==> r == Thrown(0) && heap.cells == old(heap.cells) && lost == old(lost)
      ensures leak.Some? ==> leak.value !in old(heap.cells) && lost == old(lost) + {leak.value}
      ensures leak.Some? && reply.Rejected? ==> r == Thrown(reply.error) && entries == old(entries)
      ensures forall p :: p in old(heap.cells) ==> p in heap.cells && heap.cells[p] == old(heap.cells)[p]
      ensures leak.Some? && reply.Listed? ==>
                && r.Returned? && |r.value| == |reply.items|
                && entries.Keys == old(entries).Keys + (set i | 0 <= i < |r.value| :: r.value[i].self)
                && forall i :: 0 <= i < |r.value| ==>
                     var p := r.value[i].self;
                     p in entries && entries[p] == r.value[i] && heap.cells[p] == JournalEntry(reply.items[i])
    {
      if |entryId| > 255 {
        return Thrown(0), None;
      }
      var entryIdValue := heap.Alloc(Value(OctetString(entryId)));
      leak := Some(entryIdValue);
      lost := lost + {entryIdValue};
      r := QueryLogByTime(reply);
    }

    /** Dispose and the finaliser of a journal entry: a second call finds the handle cleared. */
    method DisposeEntry(e: MmsJournalEntry)
      requires Valid() && (e.self != 0 ==> e.self in entries && entries[e.self] == e)
      modifies this`entries, heap, e
      ensures Valid() && e.self == 0 && values == old(values)
      ensures entries == old(entries) - {old(e.self)}
      ensures heap.cells == old(heap.cells) - (if old(e.self) == 0 then {} else {old(e.self)})
    {
      if e.self != 0 {
        heap.Free(e.self);
        entries := entries - {e.self};
        e.self := 0;
      }
    }
  }
}
