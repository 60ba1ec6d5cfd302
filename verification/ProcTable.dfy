// ProcTable: every process of the system, and the statuses nobody has asked for yet.
module ProcTables {
  import opened ProcessTree

  class ProcTableEntry {
    var hasExited: bool
    var exitStatus: int
    var parentId: int
    var firstChildId: int
    var siblingId: int
    var waitingRoom: set<int>    // the queue of the entry's condition variable: who sleeps on it

    constructor ()
      ensures waitingRoom == {}
    {
      waitingRoom := {};
    }

    ghost function Value(): Slot
      reads this
    {
      Proc(hasExited, exitStatus, parentId, firstChildId, siblingId, waitingRoom)
    }
  }

  class Table {
    const items: array<ProcTableEntry?>

    constructor (numItems: nat)
      requires numItems > 0
      ensures fresh(items) && items.Length == numItems && forall i :: 0 <= i < numItems ==> items[i] == null
    {
      items := new ProcTableEntry?[numItems](i => null);
    }

    method Insert(item: ProcTableEntry) returns (id: int)
      modifies items
      ensures id == -1 ==> items[..] == old(items[..]) && forall i :: 0 <= i < items.Length ==> items[i] != null
      ensures id != -1 ==> 0 <= id < items.Length && old(items[id]) == null && items[..] == old(items[..])[id := item]
      ensures forall i :: 0 <= i < id ==> old(items[i]) != null
    {
      id := 0;
      while id < items.Length
        invariant 0 <= id <= items.Length
        invariant items[..] == old(items[..])
        invariant forall i :: 0 <= i < id ==> items[i] != null
      {
        if items[id] == null {
          items[id] := item;
          return;
        }
        id := id + 1;
      }
      id := -1;
    }

    function Fetch(id: int): ProcTableEntry?
      requires 0 <= id < items.Length
      reads items
    {
      items[id]
    }

    method Remove(id: int)
      requires 0 <= id < items.Length
      modifies items
      ensures items[..] == old(items[..])[id := null]
    {
      items[id] := null;
    }
  }

  /** What a thread asleep in GetProcStatus has on its stack. */
  datatype Suspended = Suspended(childId: int, parentEntry: ProcTableEntry, childEntry: ProcTableEntry,
    previousChildEntry: ProcTableEntry?)

  /** How a call of GetProcStatus goes as far as it gets without sleeping. */
  datatype Answer = NotAChild | Status(status: int) | Asleep

  /** The entry before position `i` of a list of children, or null if that is the first. */
  ghost function Previous(items: seq<ProcTableEntry?>, list: seq<int>, i: nat): ProcTableEntry?
    requires i <= |list|
  {
    if i == 0 || !(0 <= list[i - 1] < |items|) then null else items[list[i - 1]]
  }

  /** The pointers a sleeping parent `p` has kept are still its own entry, its child's, and the child's
      predecessor in the list. */
  ghost predicate Holding(items: seq<ProcTableEntry?>, list: seq<int>, p: int, s: Suspended) {
    && 0 <= p < |items| && items[p] == s.parentEntry
    && 0 <= s.childId < |items| && items[s.childId] == s.childEntry
    && exists i :: 0 <= i < |list| && list[i] == s.childId && Previous(items, list, i) == s.previousChildEntry
  }

  ghost predicate Frames(items: seq<ProcTableEntry?>, kids: seq<seq<int>>, waits: map<int, int>,
                         joins: map<int, Suspended>) {
    && waits.Keys == joins.Keys
    && forall p :: p in joins ==>
      0 <= p < |kids| && waits[p] == joins[p].childId && Holding(items, kids[p], p, joins[p])
  }

  /** `u` is `items` without the entries of the processes in `list` that had exited. */
  ghost predicate Reaped(items: seq<ProcTableEntry?>, u: seq<ProcTableEntry?>, slots: seq<Slot>, list: seq<int>) {
    && |u| == |items| == |slots|
    && forall i :: 0 <= i < |items| ==>
      u[i] == if i in list && slots[i].Proc? && slots[i].hasExited then null else items[i]
  }

  /** What GetProcStatus makes of the table: nothing for what is no child of the caller; sleep on one that is
      running; and of one that has exited the very status it left, and then it is forgotten. */
  ghost predicate Answers(a: Answer, childId: int, parentId: int, slots: seq<Slot>, after: seq<Slot>,
                          joins: map<int, Suspended>, later: map<int, Suspended>) {
    match a
    case NotAChild => !ChildOf(slots, childId, parentId) && after == slots && later == joins
    case Asleep =>
      && ChildOf(slots, childId, parentId) && Live(slots, childId) && Processes(after) == Processes(slots)
      && parentId in later && later == joins[parentId := later[parentId]] && later[parentId].childId == childId
    case Status(status) =>
      && ChildOf(slots, childId, parentId) && !Live(slots, childId) && later == joins
      && 0 <= childId < |slots| && Processes(slots)[childId] == Exited(parentId, status)
      && Processes(after) == Processes(slots)[childId := None]
  }

  class ProcTable {
    const table: Table
    var joins: map<int, Suspended>    // the parents asleep in GetProcStatus
    var woken: set<int>               // those of them made ready to run again

    ghost var slots: seq<Slot>
    ghost var kids: seq<seq<int>>
    ghost var waits: map<int, int>
    ghost var Repr: set<object>

    /** The slots are what the objects say, and no two slots share an object. */
    ghost predicate Mirrored()
      reads this`slots, this`Repr, Repr
    {
      MirroredBut(-1)
    }

    ghost predicate MirroredBut(skip: int)
      reads this`slots, this`Repr, Repr
    {
      && table.items in Repr && table.items.Length == |slots|
      && (forall i :: 0 <= i < |slots| && table.items[i] != null ==> table.items[i] in Repr)
      && (forall i :: 0 <= i < |slots| && i != skip ==>
        slots[i] == if table.items[i] == null then Vacant else table.items[i].Value())
      && (forall i, j :: 0 <= i < j < |slots| && table.items[i] != null ==> table.items[i] != table.items[j])
    }

    ghost predicate Valid()
      reads this, Repr
    {
      this !in Repr && Mirrored() && Inv(slots, kids, waits, woken) && Frames(table.items[..], kids, waits, joins)
    }

    /** Is there a thread of process `p`, and not asleep in GetProcStatus? */
    predicate Active(p: int)
      requires Valid()
      reads this, Repr
      ensures Active(p) <==> Live(slots, p) && p !in joins
    {
      0 <= p < table.items.Length && table.items[p] != null && !table.items[p].hasExited && p !in joins
    }

    constructor ()
      ensures Valid() && fresh(Repr) && joins == map[] && woken == {}
      ensures Processes(slots) == seq(MAX_NUM_PROCESSES, i => None)
    {
      table := new Table(MAX_NUM_PROCESSES);
      joins, woken := map[], {};
      slots, kids, waits := seq(MAX_NUM_PROCESSES, i => Vacant), seq(MAX_NUM_PROCESSES, i => []), map[];
      Repr := {};
      new;
      Repr := {table.items};
    }

    method GetNewProcId(parentId: int) returns (id: int)
      requires Valid() && (parentId >= 0 ==> Live(slots, parentId) && parentId !in joins)
      modifies this, Repr
      ensures Valid() && fresh(Repr - old(Repr)) && joins == old(joins) && woken == old(woken)
      ensures id == -1 <==> forall i :: 0 <= i < MAX_NUM_PROCESSES ==> Processes(old(slots))[i] != None
      ensures id == -1 ==> slots == old(slots) && kids == old(kids)
      ensures id != -1 ==>
                0 <= id < MAX_NUM_PROCESSES && Processes(old(slots))[id] == None
                && forall i :: 0 <= i < id ==> Processes(old(slots))[i] != None
      ensures id != -1 ==>
                Processes(slots) == Processes(old(slots))[id := Running(parentId)]
                && kids == BornKids(old(kids), id, parentId)
    {
      assert |slots| == |kids| == MAX_NUM_PROCESSES;
      hide Inv, Frames, Linked;
      ghost var items := table.items[..];
      var entry := new ProcTableEntry();
      id := table.Insert(entry);
      if id < 0 {
        id := -1;
        return;
      }
      Repr := Repr + {entry};
      assert slots[id] == Vacant;
      AddNew(entry, id, parentId, items);
    }

    /** GetNewProcId once there is room: `items` is the table before the insertion. */
    method AddNew(entry: ProcTableEntry, id: nat, parentId: int, ghost items: seq<ProcTableEntry?>)
      requires this !in Repr && MirroredBut(id) && id < |slots| && slots[id] == Vacant && entry.waitingRoom == {}
               && entry in Repr
      requires |items| == |slots| && table.items[..] == items[id := entry]
      requires Inv(slots, kids, waits, woken) && Frames(items, kids, waits, joins)
      requires parentId >= 0 ==> Live(slots, parentId) && parentId !in joins
      modifies this`slots, this`kids, Repr - {table.items}
      ensures Valid()
      ensures Processes(slots) == Processes(old(slots))[id := Running(parentId)]
      ensures |old(kids)| == MAX_NUM_PROCESSES && kids == BornKids(old(kids), id, parentId)
    {
      hide Inv, Frames, Linked, Mirrored, MirroredBut, Processes;
      Sizes(slots, kids, waits, woken);
      if parentId >= 0 {
        EntryThereBut(parentId, id);
      }
      ghost var s := slots;
      LinkNew(entry, id, parentId);
      BornKeeps(s, kids, waits, woken, id, entry.exitStatus, parentId);
      BornFrames(s, kids, waits, woken, joins, items, id, entry, parentId);
      kids := BornKids(kids, id, parentId);
    }

    /** Fill in the new entry and put it at the head of its parent's list. */
    method LinkNew(entry: ProcTableEntry, id: nat, parentId: int)
      requires MirroredBut(id) && id < |slots| && table.items[id] == entry && entry.waitingRoom == {}
      requires parentId < |slots| && parentId != id && (parentId >= 0 ==> slots[parentId].Proc?)
      modifies this`slots, entry, if parentId >= 0 then {table.items[parentId]} else {}
      ensures Mirrored() && slots == Born(old(slots), id, entry.exitStatus, parentId)
    {
      var parentEntry: ProcTableEntry? := null;
      if parentId >= 0 {
        parentEntry := table.Fetch(parentId);
        assert parentEntry != null;
      }
      entry.hasExited := false;
      entry.parentId := parentId;
      entry.firstChildId := -1;
      if parentId >= 0 {
        entry.siblingId := parentEntry.firstChildId;
        parentEntry.firstChildId := id;
      } else {
        entry.siblingId := -1;
      }
      slots := Born(slots, id, entry.exitStatus, parentId);
    }

    /** One turn of the loop of ProcIsDone: delete a child that is done, and tell one that is not that
        its parent is no more. */
    method BereaveChild(childId: nat) returns (next: int)
      requires this !in Repr && Mirrored() && childId < |slots| && slots[childId].Proc?
      modifies this`slots, Repr
      ensures Mirrored() && next == old(slots[childId]).siblingId
      ensures slots == old(slots)[childId := Bereaved(old(slots[childId]))]
      ensures table.items[..] == if old(slots[childId]).hasExited then old(table.items[..])[childId := null]
              else old(table.items[..])
    {
      var childEntry := table.Fetch(childId);
      assert childEntry != null;
      if childEntry.hasExited {
        table.Remove(childId);
        next := childEntry.siblingId;
      } else {
        childEntry.parentId := -1;
        next := childEntry.siblingId;
      }
      slots := slots[childId := Bereaved(slots[childId])];
    }

    method BereaveChildren(entry: ProcTableEntry, id: nat)
      requires this !in Repr && Mirrored() && |kids| == |slots| && id < |slots| && table.items[id] == entry
      requires slots[id].Proc? && Linked(slots, slots[id].firstChildId, kids[id]) && id !in kids[id]
      modifies this`slots, Repr
      ensures Mirrored() && table.items[id] == entry
      ensures forall k :: 0 <= k < |kids[id]| ==> 0 <= kids[id][k] < |old(slots)|
      ensures slots == BereaveAll(old(slots), kids[id])
      ensures Reaped(old(table.items[..]), table.items[..], old(slots), kids[id])
    {
      ghost var s, list, k, items, head := slots, kids[id], 0, table.items[..], slots[id].firstChildId;
      var childId := entry.firstChildId;
      assert childId == First(list) && BereaveAll(s, list[..0]) == s;
      LinkedDistinct(s, slots[id].firstChildId, list);
      hide Mirrored, MirroredBut, Linked, Reaped, Bereaved, BereaveAll;
      while childId >= 0
        invariant 0 <= k <= |list| && childId == if k < |list| then list[k] else -1
        invariant Mirrored() && table.items.Length == |items|
        invariant slots == BereaveAll(s, list[..k])
        invariant Reaped(items, table.items[..], s, list[..k])
        decreases |list| - k
      {
        LinkedNext(s, head, list, k);
        BereaveAllStep(s, list, k);
        ghost var u := table.items[..];
        childId := BereaveChild(childId);
        ReapedStep(items, u, table.items[..], s, list, k);
        k := k + 1;
      }
      assert list[..k] == list;
      assert table.items[id] == entry by { ReapedOther(items, table.items[..], s, list, id); }
    }

    /** The end of ProcIsDone: delete the entry if there is no parent to ask for the status; otherwise
        record the status and wake whoever waits for it. */
    method Depart(entry: ProcTableEntry, id: nat, status: int)
      requires this !in Repr && Mirrored() && id < |slots| && table.items[id] == entry
      modifies this`slots, this`woken, Repr
      ensures Mirrored()
      ensures old(slots[id]).Proc? && slots == old(slots)[id := DepartedEntry(old(slots[id]), status)]
      ensures table.items[..] == if old(slots[id]).parentId < 0 then old(table.items[..])[id := null]
              else old(table.items[..])
      ensures woken == old(woken) + if old(slots[id]).parentId < 0 then {} else old(slots[id]).waiting
    {
      ghost var s := slots;
      assert s[id] == entry.Value();
      if entry.parentId < 0 {
        table.Remove(id);
      } else {
        entry.hasExited := true;
        entry.exitStatus := status;
        woken := woken + entry.waitingRoom;
        entry.waitingRoom := {};
      }
      slots := slots[id := DepartedEntry(s[id], status)];
    }

    method ProcIsDone(id: int, status: int)
      requires Valid() && Live(slots, id) && id !in joins
      modifies this, Repr
      ensures Valid() && Repr == old(Repr) && kids == old(kids) && joins == old(joins)
      ensures forall i :: 0 <= i < MAX_NUM_PROCESSES ==>
              Processes(slots)[i] == AfterExit(Processes(old(slots)), id, status, i)
      ensures woken == old(woken) + set p | p in joins && joins[p].childId == id
    {
      hide Inv, Frames, Linked, Mirrored, MirroredBut, Processes, Reaped;
      DepartPlan(slots, kids, waits, woken, id);
      WaitersOf(slots, kids, waits, woken, joins, table.items[..], id);
      DepartKeeps(slots, kids, waits, woken, id, status);
      EntryThere(id);
      ghost var s, items, list, w := slots, table.items[..], kids[id], woken;
      var entry := table.Fetch(id);
      assert entry != null;
      BereaveChildren(entry, id);
      ghost var mid := table.items[..];
      Depart(entry, id, status);
      DepartFrames(s, kids, waits, w, joins, items, mid, table.items[..], id);
    }

    /** The search of GetProcStatus: walk the caller's list of children until `childId` turns up. */
    method FindChild(childId: int, parentId: nat)
      returns (found: bool, childEntry: ProcTableEntry?, previousChildEntry: ProcTableEntry?, ghost at: nat)
      requires Valid() && Live(slots, parentId)
      ensures found <==> ChildOf(slots, childId, parentId)
      ensures found ==> at < |kids[parentId]| && kids[parentId][at] == childId
      ensures found ==> childEntry != null && table.items[childId] == childEntry && slots[childId] == childEntry.Value()
      ensures found ==> previousChildEntry == Previous(table.items[..], kids[parentId], at)
    {
      ghost var list := kids[parentId];
      assert Linked(slots, slots[parentId].firstChildId, list);
      assert childId in list <==> ChildOf(slots, childId, parentId);
      forall k | 0 <= k < |list| ensures ChildOf(slots, list[k], parentId) {
        assert list[k] in list;
      }
      hide Inv, Frames;
      var parentEntry := table.Fetch(parentId);
      assert parentEntry != null;
      previousChildEntry := null;
      at := 0;
      var id := parentEntry.firstChildId;
      while id >= 0
        invariant at <= |list| && id == if at < |list| then list[at] else -1
        invariant previousChildEntry == Previous(table.items[..], list, at)
        invariant childId !in list[..at]
        decreases |list| - at
      {
        childEntry := table.Fetch(id);
        assert childEntry != null && childEntry.parentId == parentId;
        if id == childId {
          return true, childEntry, previousChildEntry, at;
        }
        LinkedNext(slots, slots[parentId].firstChildId, list, at);
        id := childEntry.siblingId;
        previousChildEntry := childEntry;
        at := at + 1;
      }
      return false, null, null, at;
    }

    /** Unhook an entry from its parent's list and delete it. */
    method Unhook(id: nat, parentId: nat, parentEntry: ProcTableEntry, childEntry: ProcTableEntry,
      previousChildEntry: ProcTableEntry?,
                  ghost list: seq<int>, ghost at: nat)
      returns (status: int)
      requires this !in Repr && Mirrored() && parentId < |slots| && id < |slots| && parentId !in list
      requires table.items[parentId] == parentEntry && table.items[id] == childEntry
      requires slots[parentId].Proc? && Linked(slots, slots[parentId].firstChildId, list) && at < |list|
               && list[at] == id
      requires forall k :: 0 <= k < |list| ==> 0 <= list[k] < |slots| && slots[list[k]].Proc?
      requires previousChildEntry == Previous(table.items[..], list, at)
      modifies this`slots, Repr
      ensures Mirrored() && slots == Unlinked(old(slots), list, parentId, at)
      ensures table.items[..] == old(table.items[..])[id := null]
      ensures old(slots[id]).Proc? && status == old(slots[id]).exitStatus
    {
      ghost var s := slots;
      if id == parentEntry.firstChildId {
        assert at == 0 && previousChildEntry == null;
        parentEntry.firstChildId := childEntry.siblingId;
      } else {
        assert at > 0 && previousChildEntry != null;
        previousChildEntry.siblingId := childEntry.siblingId;
      }
      status := childEntry.exitStatus;
      table.Remove(id);
      slots := Unlinked(s, list, parentId, at);
    }

    /** The end of GetProcStatus: the child has exited, so hand over its status and forget it. */
    method Collect(id: nat, parentId: nat, parentEntry: ProcTableEntry, childEntry: ProcTableEntry,
      previousChildEntry: ProcTableEntry?, ghost at: nat)
      returns (status: int)
      requires Valid() && Live(slots, parentId) && at < |kids[parentId]| && kids[parentId][at] == id
      requires id < |slots| && slots[id].Proc? && slots[id].hasExited
      requires table.items[parentId] == parentEntry && table.items[id] == childEntry
      requires previousChildEntry == Previous(table.items[..], kids[parentId], at)
      requires parentId in joins ==> joins[parentId].childId == id
      modifies this, Repr
      ensures Valid() && Repr == old(Repr) && kids == UnlinkedKids(old(kids), parentId, at)
      ensures joins == old(joins) - {parentId} && woken == old(woken) - {parentId}
      ensures Processes(old(slots))[id] == Exited(parentId, status)
              && Processes(slots) == Processes(old(slots))[id := None]
    {
      hide Inv, Frames, Linked, Mirrored, MirroredBut, Unlinked, UnlinkedKids, Previous, Processes;
      Sizes(slots, kids, waits, woken);
      EntryThere(parentId);
      CollectKeeps(slots, kids, waits, woken, joins, table.items[..], parentId, at);
      var asleep, ready := joins - {parentId}, woken - {parentId};
      ghost var waiting, family := waits - {parentId}, UnlinkedKids(kids, parentId, at);
      status := Unhook(id, parentId, parentEntry, childEntry, previousChildEntry, kids[parentId], at);
      joins, woken := asleep, ready;
      kids, waits := family, waiting;
    }

    /** GetProcStatus up to the point where it returns or goes to sleep. */
    method GetProcStatus(childId: int, parentId: int) returns (a: Answer)
      requires Valid() && Live(slots, parentId) && parentId !in joins
      modifies this, Repr
      ensures Valid() && Repr == old(Repr) && woken == old(woken)
      ensures Answers(a, childId, parentId, old(slots), slots, old(joins), joins)
      ensures a == NotAChild <==> !ChildOf(old(slots), childId, parentId)
      ensures a == Asleep <==> ChildOf(old(slots), childId, parentId) && !old(slots)[childId].hasExited
      ensures a.Status? <==> ChildOf(old(slots), childId, parentId) && old(slots)[childId].hasExited
    {
      hide Inv, Frames, Mirrored, MirroredBut, Linked, Previous, Processes;
      var found, childEntry, previousChildEntry, at := FindChild(childId, parentId);
      if !found {
        return NotAChild;
      }
      hide Answers;
      EntryThere(parentId);
      EntryThere(childId);
      var parentEntry := table.Fetch(parentId);
      if !childEntry.hasExited {
        SleepOn(childId, parentId, parentEntry, childEntry, previousChildEntry, at);
        return Asleep;
      }
      var status := CollectChild(childId, parentId, parentEntry, childEntry, previousChildEntry, at);
      return Status(status);
    }

    /** The child has exited already. */
    method CollectChild(id: nat, parentId: nat, parentEntry: ProcTableEntry, childEntry: ProcTableEntry,
      previousChildEntry: ProcTableEntry?, ghost at: nat)
      returns (status: int)
      requires Valid() && Live(slots, parentId) && at < |kids[parentId]| && kids[parentId][at] == id
               && parentId !in joins
      requires ChildOf(slots, id, parentId) && slots[id].hasExited
      requires table.items[parentId] == parentEntry && table.items[id] == childEntry
      requires previousChildEntry == Previous(table.items[..], kids[parentId], at)
      modifies this, Repr
      ensures Valid() && Repr == old(Repr) && woken == old(woken)
      ensures Answers(Status(status), id, parentId, old(slots), slots, old(joins), joins)
    {
      AwakeNotWoken(parentId);
      hide Inv, Frames, Linked, Mirrored, MirroredBut, Previous, Processes;
      status := Collect(id, parentId, parentEntry, childEntry, previousChildEntry, at);
    }

    lemma AwakeNotWoken(p: int)
      requires Valid() && p !in joins
      ensures p !in woken && joins - {p} == joins && woken - {p} == woken
    {
      assert p in waits <==> p in waits.Keys;
    }

    /** Wait on the child's condition variable, with the search's pointers left on the stack. */
    method SleepOn(id: nat, parentId: nat, parentEntry: ProcTableEntry, childEntry: ProcTableEntry,
      previousChildEntry: ProcTableEntry?, ghost at: nat)
      requires Valid() && Live(slots, parentId) && parentId !in joins && Live(slots, id) && ChildOf(slots, id, parentId)
      requires at < |kids[parentId]| && kids[parentId][at] == id
      requires table.items[parentId] == parentEntry && table.items[id] == childEntry
      requires previousChildEntry == Previous(table.items[..], kids[parentId], at)
      modifies this`slots, this`joins, this`waits, childEntry
      ensures Valid() && Answers(Asleep, id, parentId, old(slots), slots, old(joins), joins)
    {
      hide Inv, Frames, Processes, Mirrored, MirroredBut, Sleeping, Previous;
      Sizes(slots, kids, waits, woken);
      SleepSame(slots, id, parentId);
      EntryThere(parentId);
      EntryThere(id);
      var stack := Suspended(id, parentEntry, childEntry, previousChildEntry);
      SleepFrames(slots, kids, waits, woken, joins, table.items[..], id, parentId, stack, at);
      SleepKeeps(slots, kids, waits, woken, id, parentId);
      var asleep := joins[parentId := stack];
      ghost var waiting := waits[parentId := id];
      Queue(id, parentId, childEntry);
      joins, waits := asleep, waiting;
    }

    method Queue(id: nat, parentId: nat, childEntry: ProcTableEntry)
      requires this !in Repr && Mirrored() && id < |slots| && table.items[id] == childEntry && slots[id].Proc?
      modifies this`slots, childEntry
      ensures Mirrored() && slots == Sleeping(old(slots), id, parentId)
    {
      childEntry.waitingRoom := childEntry.waitingRoom + {parentId};
      slots := Sleeping(slots, id, parentId);
    }

    /** GetProcStatus from the point where Wait returns: once is enough, the child has exited, and what
        the thread remembers of the list still holds. */
    method Resume(parentId: int) returns (status: int)
      requires Valid() && parentId in woken
      modifies this, Repr
      ensures Valid() && Repr == old(Repr)
      ensures parentId in old(joins) && joins == old(joins) - {parentId} && woken == old(woken) - {parentId}
      ensures var childId := old(joins)[parentId].childId;
              0 <= childId < MAX_NUM_PROCESSES && Processes(old(slots))[childId] == Exited(parentId, status)
              && Processes(slots) == Processes(old(slots))[childId := None]
    {
      ghost var at := WokenFrame(slots, kids, waits, woken, joins, table.items[..], parentId);
      var stack := joins[parentId];
      assert slots[stack.childId] == stack.childEntry.Value();
      assert stack.childEntry.hasExited;
      hide Inv, Frames, Mirrored, MirroredBut, Linked, Previous, Processes;
      status := Collect(stack.childId, parentId, stack.parentEntry, stack.childEntry, stack.previousChildEntry, at);
    }

    lemma EntryThere(id: nat)
      requires Mirrored() && id < |slots| && slots[id].Proc?
      ensures table.items.Length == |slots| && table.items[id] != null && table.items[id] in Repr
    {
      EntryThereBut(id, -1);
    }

    lemma EntryThereBut(id: nat, skip: int)
      requires MirroredBut(skip) && id < |slots| && slots[id].Proc? && id != skip
      ensures table.items.Length == |slots| && table.items[id] != null && table.items[id] in Repr
    {
    }
  }

  lemma Sizes(slots: seq<Slot>, kids: seq<seq<int>>, waits: map<int, int>, woken: set<int>)
    requires Inv(slots, kids, waits, woken)
    ensures |slots| == |kids| == MAX_NUM_PROCESSES
  {
  }

  /** What the exit of `id` will come to, apart from the invariant. */
  lemma DepartPlan(slots: seq<Slot>, kids: seq<seq<int>>, waits: map<int, int>, woken: set<int>, id: nat)
    requires Inv(slots, kids, waits, woken) && Live(slots, id)
    ensures |slots| == |kids| == MAX_NUM_PROCESSES
    ensures Linked(slots, slots[id].firstChildId, kids[id]) && id !in kids[id]
    ensures forall k :: 0 <= k < |kids[id]| ==> 0 <= kids[id][k] < |slots|
    ensures BereaveAll(slots, kids[id])[id] == slots[id]
  {
    hide Waits;
    assert Linked(slots, slots[id].firstChildId, kids[id]);
    assert id !in kids[id] by {
      assert id in kids[id] <==> ChildOf(slots, id, id);
    }
    hide Kin, Parents;
    BereavedSelf(slots, slots[id].firstChildId, kids[id], id);
  }

  lemma WaitersOf(slots: seq<Slot>, kids: seq<seq<int>>, waits: map<int, int>, woken: set<int>, joins: map<int,
    Suspended>,
                  items: seq<ProcTableEntry?>, id: nat)
    requires Inv(slots, kids, waits, woken) && Frames(items, kids, waits, joins) && Live(slots, id)
    ensures |slots| == MAX_NUM_PROCESSES && (id in waits <==> id in joins)
    ensures (set p | p in joins && joins[p].childId == id) == slots[id].waiting
    ensures slots[id].parentId < 0 ==> slots[id].waiting == {}
  {
    assert |slots| == MAX_NUM_PROCESSES;
    hide Holding, Inv;
    WaitingExactly(slots, kids, waits, woken, id);
    forall p ensures p in slots[id].waiting <==> p in joins && joins[p].childId == id {
      assert p in waits <==> p in waits.Keys;
    }
  }

  lemma BornFrames(slots: seq<Slot>, kids: seq<seq<int>>, waits: map<int, int>, woken: set<int>, joins: map<int,
    Suspended>,
                   items: seq<ProcTableEntry?>, id: nat, entry: ProcTableEntry, parentId: int)
    requires Inv(slots, kids, waits, woken) && Frames(items, kids, waits, joins)
    requires |items| == |slots| && id < |slots| && slots[id].Vacant? && parentId < |slots|
             && (parentId >= 0 ==> parentId !in joins)
    ensures Frames(items[id := entry], BornKids(kids, id, parentId), waits, joins)
  {
    forall p | p in joins ensures Holding(items[id := entry], BornKids(kids, id, parentId)[p], p, joins[p]) {
      assert Live(slots, p) && p != id;
      HoldingFrame(slots, kids, p, items, items[id := entry], joins[p]);
    }
  }

  lemma DepartFrames(slots: seq<Slot>, kids: seq<seq<int>>, waits: map<int, int>, woken: set<int>, joins: map<int,
    Suspended>,
                     items: seq<ProcTableEntry?>, mid: seq<ProcTableEntry?>, u: seq<ProcTableEntry?>, id: nat)
    requires Inv(slots, kids, waits, woken) && Frames(items, kids, waits, joins) && Live(slots, id) && id !in joins
    requires Reaped(items, mid, slots, kids[id]) && u == if slots[id].parentId < 0 then mid[id := null] else mid
    ensures Frames(u, kids, waits, joins)
  {
    forall i | 0 <= i < |u| && i != id && !ChildOf(slots, i, id) ensures u[i] == items[i] {
      assert i in kids[id] <==> ChildOf(slots, i, id);
    }
    forall p | p in joins ensures Holding(u, kids[p], p, joins[p]) {
      assert Live(slots, p) && p != id;
      HoldingFrame(slots, kids, p, items, u, joins[p]);
    }
  }

  lemma WokenFrame(slots: seq<Slot>, kids: seq<seq<int>>, waits: map<int, int>, woken: set<int>, joins: map<int,
    Suspended>,
                   items: seq<ProcTableEntry?>, p: int) returns (at: nat)
    requires Inv(slots, kids, waits, woken) && Frames(items, kids, waits, joins) && |items| == |slots| && p in woken
    ensures p in joins && Live(slots, p) && Holding(items, kids[p], p, joins[p])
    ensures slots[joins[p].childId].Proc? && slots[joins[p].childId].hasExited
    ensures at < |kids[p]| && kids[p][at] == joins[p].childId
            && Previous(items, kids[p], at) == joins[p].previousChildEntry
  {
    hide Kin, Parents;
    assert p in waits && p in joins.Keys;
    at :| at < |kids[p]| && kids[p][at] == joins[p].childId
    && Previous(items, kids[p], at) == joins[p].previousChildEntry;
  }

  lemma SleepFrames(slots: seq<Slot>, kids: seq<seq<int>>, waits: map<int, int>, woken: set<int>, joins: map<int,
    Suspended>,
                    items: seq<ProcTableEntry?>, id: nat, p: nat, stack: Suspended, at: nat)
    requires Inv(slots, kids, waits, woken) && Frames(items, kids, waits, joins)
    requires p < |items| && id < |items| && p < |kids| && p !in joins && stack.childId == id
    requires stack.parentEntry == items[p] && stack.childEntry == items[id]
    requires at < |kids[p]| && kids[p][at] == id && stack.previousChildEntry == Previous(items, kids[p], at)
    ensures Frames(items, kids, waits[p := id], joins[p := stack]) && p !in waits
  {
    assert p in waits <==> p in waits.Keys;
  }

  lemma CollectPlan(slots: seq<Slot>, kids: seq<seq<int>>, p: nat, i: nat)
    requires |slots| == MAX_NUM_PROCESSES && Kin(slots, kids) && Parents(slots) && Live(slots, p) && i < |kids[p]|
    ensures Linked(slots, slots[p].firstChildId, kids[p]) && p !in kids[p]
    ensures forall k :: 0 <= k < |kids[p]| ==> 0 <= kids[p][k] < |slots| && slots[kids[p][k]].Proc?
    ensures ChildOf(slots, kids[p][i], p)
  {
    assert Linked(slots, slots[p].firstChildId, kids[p]);
    assert p in kids[p] <==> ChildOf(slots, p, p);
    assert kids[p][i] in kids[p];
  }

  /** What taking an exited child off its parent's list will come to. */
  lemma CollectKeeps(slots: seq<Slot>, kids: seq<seq<int>>, waits: map<int, int>, woken: set<int>, joins: map<int,
    Suspended>,
                     items: seq<ProcTableEntry?>, p: nat, i: nat)
    requires Inv(slots, kids, waits, woken) && Frames(items, kids, waits, joins) && |items| == |slots|
    requires Live(slots, p) && i < |kids[p]| && 0 <= kids[p][i] < |slots| && slots[kids[p][i]].Proc?
             && slots[kids[p][i]].hasExited
    requires p in joins ==> joins[p].childId == kids[p][i]
    ensures Linked(slots, slots[p].firstChildId, kids[p]) && p !in kids[p]
    ensures forall k :: 0 <= k < |kids[p]| ==> 0 <= kids[p][k] < |slots| && slots[kids[p][k]].Proc?
    ensures Inv(Unlinked(slots, kids[p], p, i), UnlinkedKids(kids, p, i), waits - {p}, woken - {p})
    ensures Frames(items[kids[p][i] := null], UnlinkedKids(kids, p, i), waits - {p}, joins - {p})
    ensures Processes(Unlinked(slots, kids[p], p, i)) == Processes(slots)[kids[p][i] := None]
    ensures Processes(slots)[kids[p][i]] == Exited(p, slots[kids[p][i]].exitStatus)
  {
    CollectPlan(slots, kids, p, i);
    assert p in waits <==> p in joins by {
      assert p in waits <==> p in waits.Keys;
    }
    JoinKeeps(slots, kids, waits, woken, p, i);
    CollectFrames(slots, kids, waits, woken, joins, items, p, i);
  }

  lemma CollectFrames(slots: seq<Slot>, kids: seq<seq<int>>, waits: map<int, int>, woken: set<int>, joins: map<int,
    Suspended>,
                      items: seq<ProcTableEntry?>, p: nat, i: nat)
    requires Inv(slots, kids, waits, woken) && Frames(items, kids, waits, joins) && |items| == |slots|
    requires Live(slots, p) && i < |kids[p]| && ChildOf(slots, kids[p][i], p) && slots[kids[p][i]].hasExited
    ensures Frames(items[kids[p][i] := null], UnlinkedKids(kids, p, i), waits - {p}, joins - {p})
  {
    var u := items[kids[p][i] := null];
    forall q | q in joins && q != p ensures Holding(u, kids[q], q, joins[q]) {
      assert Live(slots, q);
      HoldingFrame(slots, kids, q, items, u, joins[q]);
    }
  }

  lemma HoldingFrame(slots: seq<Slot>, kids: seq<seq<int>>, p: int, items: seq<ProcTableEntry?>,
    u: seq<ProcTableEntry?>, s: Suspended)
    requires Kin(slots, kids) && Live(slots, p) && |u| == |items| == |slots| && Holding(items, kids[p], p, s)
    requires u[p] == items[p] && forall c :: ChildOf(slots, c, p) ==> u[c] == items[c]
    ensures Holding(u, kids[p], p, s)
  {
    var list := kids[p];
    var i :| 0 <= i < |list| && list[i] == s.childId && Previous(items, list, i) == s.previousChildEntry;
    assert ChildOf(slots, list[i], p);
    assert i > 0 ==> ChildOf(slots, list[i - 1], p);
    assert Previous(u, list, i) == s.previousChildEntry;
  }

  lemma ReapedOther(items: seq<ProcTableEntry?>, u: seq<ProcTableEntry?>, slots: seq<Slot>, list: seq<int>, i: nat)
    requires Reaped(items, u, slots, list) && i < |items| && i !in list
    ensures u[i] == items[i]
  {
  }

  lemma ReapedStep(items: seq<ProcTableEntry?>, u: seq<ProcTableEntry?>, w: seq<ProcTableEntry?>, slots: seq<Slot>,
    list: seq<int>, k: nat)
    requires k < |list| && 0 <= list[k] < |slots| && slots[list[k]].Proc? && Reaped(items, u, slots, list[..k])
    requires w == if slots[list[k]].hasExited then u[list[k] := null] else u
    ensures Reaped(items, w, slots, list[..k + 1])
  {
    assert list[..k + 1] == list[..k] + [list[k]];
  }
}
