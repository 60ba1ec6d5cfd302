// The process table as a value: who is whose child, and what the intrusive sibling lists promise.
module ProcessTree {
  const MAX_NUM_PROCESSES := 128

  /** One slot of the table. `waiting` is the queue of the entry's condition variable. */
  datatype Slot =
    | Vacant
    | Proc(hasExited: bool, exitStatus: int, parentId: int, firstChildId: int, siblingId: int, waiting: set<int>)

  // ---- what the table is for: processes, without any lists --------------------------------------------

  /** A process as the rest of the system knows it. */
  datatype Process = None | Running(parentId: int) | Exited(parentId: int, status: int)

  function Seen(s: Slot): Process {
    match s
    case Vacant => None
    case Proc(hasExited, status, parentId, _, _, _) => if hasExited then Exited(parentId, status) else Running(parentId)
  }

  function Processes(slots: seq<Slot>): (v: seq<Process>)
    ensures |v| == |slots| && forall i :: 0 <= i < |v| ==> v[i] == Seen(slots[i])
  {
    seq(|slots|, i requires 0 <= i < |slots| => Seen(slots[i]))
  }

  /** What becomes of process `i` when process `id` exits with `status`. */
  function AfterExit(v: seq<Process>, id: nat, status: int, i: nat): Process
    requires id < |v| && i < |v|
  {
    if i == id then
      (if v[id].Running? && v[id].parentId >= 0 then Exited(v[id].parentId, status) else None)
    else
      match v[i]
      case Running(p) => if p == id then Running(-1) else v[i]
      case Exited(p, _) => if p == id then None else v[i]
      case None => None
  }

  // ---- the lists ---------------------------------------------------------------------------------------

  predicate Live(slots: seq<Slot>, p: int) {
    0 <= p < |slots| && slots[p].Proc? && !slots[p].hasExited
  }

  function First(list: seq<int>): int {
    if list == [] then -1 else list[0]
  }

  /** Following `first` and then siblingId visits exactly `list`, in order. */
  ghost predicate Linked(slots: seq<Slot>, first: int, list: seq<int>) {
    && first == First(list)
    && (forall i :: 0 <= i < |list| ==> 0 <= list[i] < |slots| && slots[list[i]].Proc?)
    && (forall i, j {:trigger list[i], list[j]} :: 0 <= i && i + 1 == j < |list| ==>
      slots[list[i]].siblingId == list[j])
    && (list != [] ==> slots[list[|list| - 1]].siblingId == -1)
    && (forall i, j :: 0 <= i < j < |list| ==> list[i] != list[j])
  }

  lemma LinkedDistinct(slots: seq<Slot>, first: int, list: seq<int>)
    requires Linked(slots, first, list)
    ensures forall k :: 0 <= k < |list| ==> 0 <= list[k] < |slots| && slots[list[k]].Proc?
    ensures forall j, k :: 0 <= j < k < |list| ==> list[j] != list[k]
  {
  }

  lemma LinkedNext(slots: seq<Slot>, first: int, list: seq<int>, k: nat)
    requires Linked(slots, first, list) && k < |list|
    ensures slots[list[k]].siblingId == if k + 1 < |list| then list[k + 1] else -1
  {
  }

  lemma LinkedFrame(slots: seq<Slot>, s: seq<Slot>, first: int, list: seq<int>)
    requires Linked(slots, first, list) && |s| == |slots|
    requires forall k :: 0 <= k < |list| ==> s[list[k]].Proc? && s[list[k]].siblingId == slots[list[k]].siblingId
    ensures Linked(s, first, list)
  {
  }

  lemma LinkedPush(s: seq<Slot>, first: int, list: seq<int>, id: nat)
    requires Linked(s, first, list) && id < |s| && s[id].Proc? && s[id].siblingId == first && id !in list
    ensures Linked(s, id, [id] + list)
  {
  }

  predicate ChildOf(slots: seq<Slot>, c: int, p: int) {
    0 <= c < |slots| && slots[c].Proc? && slots[c].parentId == p
  }

  /** From each live process its list is duplicate-free and holds exactly the entries naming it as parent. */
  ghost predicate Kin(slots: seq<Slot>, kids: seq<seq<int>>) {
    && |kids| == |slots|
    && (forall p :: Live(slots, p) ==> Linked(slots, slots[p].firstChildId, kids[p]))
    && (forall p, c :: Live(slots, p) ==> (c in kids[p] <==> ChildOf(slots, c, p)))
  }

  /** A parent named is a live one, and nobody lingers whose parent is gone. */
  predicate Parents(slots: seq<Slot>) {
    forall c :: 0 <= c < |slots| && slots[c].Proc? ==>
      && slots[c].parentId != c
      && (slots[c].parentId >= 0 ==> Live(slots, slots[c].parentId))
      && (slots[c].hasExited ==> slots[c].parentId >= 0)
  }

  /** `joins` maps each parent suspended in GetProcStatus to the child it waits for; those in `woken`
      have been signalled and not yet run. */
  ghost predicate Waits(slots: seq<Slot>, joins: map<int, int>, woken: set<int>) {
    && woken <= joins.Keys
    && (forall p :: p in joins ==> Live(slots, p) && ChildOf(slots, joins[p], p))
    && (forall p :: p in joins ==>
      if p in woken then slots[joins[p]].hasExited else p in slots[joins[p]].waiting && !slots[joins[p]].hasExited)
    && (forall c, p :: 0 <= c < |slots| && slots[c].Proc? && p in slots[c].waiting ==>
      p in joins && joins[p] == c && p !in woken)
  }

  ghost predicate Inv(slots: seq<Slot>, kids: seq<seq<int>>, joins: map<int, int>, woken: set<int>) {
    |slots| == MAX_NUM_PROCESSES && Kin(slots, kids) && Parents(slots) && Waits(slots, joins, woken)
  }

  // ---- birth -------------------------------------------------------------------------------------------

  function Born(slots: seq<Slot>, id: nat, exitStatus: int, parentId: int): seq<Slot>
    requires id < |slots| && parentId < |slots| && (parentId >= 0 ==> slots[parentId].Proc?) && parentId != id
  {
    if parentId < 0 then slots[id := Proc(false, exitStatus, parentId, -1, -1, {})]
    else slots[id := Proc(false, exitStatus, parentId, -1, slots[parentId].firstChildId, {})]
              [parentId := slots[parentId].(firstChildId := id)]
  }

  function BornKids(kids: seq<seq<int>>, id: nat, parentId: int): seq<seq<int>>
    requires id < |kids| && parentId < |kids|
  {
    if parentId < 0 then kids[id := []] else kids[id := []][parentId := [id] + kids[parentId]]
  }

  lemma BornKin(slots: seq<Slot>, kids: seq<seq<int>>, id: nat, exitStatus: int, parentId: int)
    requires Kin(slots, kids) && Parents(slots) && id < |slots| && slots[id].Vacant?
    requires parentId >= 0 ==> Live(slots, parentId)
    ensures Kin(Born(slots, id, exitStatus, parentId), BornKids(kids, id, parentId))
  {
    var s, k := Born(slots, id, exitStatus, parentId), BornKids(kids, id, parentId);
    forall p | Live(s, p) ensures Linked(s, s[p].firstChildId, k[p]) {
      BornLinked(slots, kids, id, exitStatus, parentId, p);
    }
    hide Linked;
    forall p, c | Live(s, p) ensures c in k[p] <==> ChildOf(s, c, p) {
      if p != id {
        assert Live(slots, p);
        assert c in kids[p] <==> ChildOf(slots, c, p);
      } else {
        assert !ChildOf(slots, c, p);
      }
    }
  }

  lemma BornLinked(slots: seq<Slot>, kids: seq<seq<int>>, id: nat, exitStatus: int, parentId: int, p: int)
    requires Kin(slots, kids) && Parents(slots) && id < |slots| && slots[id].Vacant?
    requires parentId >= 0 ==> Live(slots, parentId)
    requires Live(Born(slots, id, exitStatus, parentId), p)
    ensures Linked(Born(slots, id, exitStatus, parentId), Born(slots, id, exitStatus, parentId)[p].firstChildId,
            BornKids(kids, id, parentId)[p])
  {
    if p != id {
      var s := Born(slots, id, exitStatus, parentId);
      assert Live(slots, p) && !ChildOf(slots, id, p);
      assert id in kids[p] <==> ChildOf(slots, id, p);
      assert Linked(slots, slots[p].firstChildId, kids[p]);
      assert forall k :: 0 <= k < |kids[p]| ==>
        kids[p][k] != id && 0 <= kids[p][k] < |slots| && slots[kids[p][k]].Proc?;
      hide Kin, Parents, Linked;
      LinkedFrame(slots, s, slots[p].firstChildId, kids[p]);
      if p == parentId {
        LinkedPush(s, slots[p].firstChildId, kids[p], id);
      }
    }
  }

  lemma BornOthers(slots: seq<Slot>, joins: map<int, int>, woken: set<int>, id: nat, exitStatus: int, parentId: int)
    requires Parents(slots) && Waits(slots, joins, woken) && id < |slots| && slots[id].Vacant?
    requires parentId >= 0 ==> Live(slots, parentId)
    ensures Parents(Born(slots, id, exitStatus, parentId)) && Waits(Born(slots, id, exitStatus, parentId), joins, woken)
  {
    var s := Born(slots, id, exitStatus, parentId);
    assert Parents(s) by {
      hide Waits;
    }
    hide Parents;
    forall p | p in joins ensures Live(s, p) && ChildOf(s, joins[p], p) {
      assert Live(slots, p) && ChildOf(slots, joins[p], p);
    }
  }

  lemma BornKeeps(slots: seq<Slot>, kids: seq<seq<int>>, joins: map<int, int>, woken: set<int>, id: nat,
    exitStatus: int, parentId: int)
    requires Inv(slots, kids, joins, woken) && id < |slots| && slots[id].Vacant?
    requires parentId >= 0 ==> Live(slots, parentId)
    ensures Inv(Born(slots, id, exitStatus, parentId), BornKids(kids, id, parentId), joins, woken)
    ensures Processes(Born(slots, id, exitStatus, parentId)) == Processes(slots)[id := Running(parentId)]
  {
    hide Kin, Parents, Waits;
    BornKin(slots, kids, id, exitStatus, parentId);
    BornOthers(slots, joins, woken, id, exitStatus, parentId);
  }

  // ---- death -------------------------------------------------------------------------------------------

  /** What ProcIsDone does to one child of the process that is done. */
  function Bereaved(s: Slot): Slot {
    if s.Vacant? || s.hasExited then Vacant else s.(parentId := -1)
  }

  function BereaveAll(slots: seq<Slot>, list: seq<int>): (r: seq<Slot>)
    requires forall k :: 0 <= k < |list| ==> 0 <= list[k] < |slots|
    ensures |r| == |slots|
  {
    if list == [] then slots
    else
      var c, rest := list[|list| - 1], BereaveAll(slots, list[..|list| - 1]);
      rest[c := Bereaved(rest[c])]
  }

  lemma {:induction false} BereaveAllAt(slots: seq<Slot>, list: seq<int>, i: nat)
    requires (forall k :: 0 <= k < |list| ==> 0 <= list[k] < |slots|) && i < |slots|
    requires forall j, k :: 0 <= j < k < |list| ==> list[j] != list[k]
    ensures BereaveAll(slots, list)[i] == if i in list then Bereaved(slots[i]) else slots[i]
  {
    if list != [] {
      var n := |list| - 1;
      BereaveAllAt(slots, list[..n], i);
      assert list == list[..n] + [list[n]];
    }
  }

  lemma BereaveAllStep(slots: seq<Slot>, list: seq<int>, k: nat)
    requires (forall i :: 0 <= i < |list| ==> 0 <= list[i] < |slots|) && k < |list|
    requires forall i, j :: 0 <= i < j < |list| ==> list[i] != list[j]
    ensures BereaveAll(slots, list[..k])[list[k]] == slots[list[k]]
    ensures BereaveAll(slots, list[..k + 1]) == BereaveAll(slots, list[..k])[list[k] := Bereaved(slots[list[k]])]
  {
    BereaveAllAt(slots, list[..k], list[k]);
    assert list[..k + 1][..k] == list[..k];
  }

  /** What becomes of the entry of a process that exits: gone, or kept for its parent and nobody waiting. */
  function DepartedEntry(s: Slot, status: int): Slot {
    if s.Vacant? || s.parentId < 0 then Vacant else s.(hasExited := true, exitStatus := status, waiting := {})
  }

  /** The table after process `id` has exited: its children bereaved, then its own entry dealt with. */
  function Departed(slots: seq<Slot>, list: seq<int>, id: nat, status: int): seq<Slot>
    requires (forall k :: 0 <= k < |list| ==> 0 <= list[k] < |slots|) && id < |slots|
  {
    var s := BereaveAll(slots, list);
    s[id := DepartedEntry(s[id], status)]
  }

  /** The same, slot by slot and without the list. */
  function DepartedAt(slots: seq<Slot>, id: nat, status: int, i: nat): Slot
    requires id < |slots| && i < |slots|
  {
    if i == id then DepartedEntry(slots[id], status)
    else if ChildOf(slots, i, id) then Bereaved(slots[i])
    else slots[i]
  }

  lemma DepartedPointwise(slots: seq<Slot>, kids: seq<seq<int>>, id: nat, status: int)
    requires Kin(slots, kids) && Parents(slots) && Live(slots, id)
    ensures forall k :: 0 <= k < |kids[id]| ==> 0 <= kids[id][k] < |slots|
    ensures |Departed(slots, kids[id], id, status)| == |slots|
    ensures forall i :: 0 <= i < |slots| ==>
            Departed(slots, kids[id], id, status)[i] == DepartedAt(slots, id, status, i)
  {
    assert Linked(slots, slots[id].firstChildId, kids[id]);
    forall i | 0 <= i < |slots|
      ensures Departed(slots, kids[id], id, status)[i] == DepartedAt(slots, id, status, i)
    {
      assert i in kids[id] <==> ChildOf(slots, i, id);
      assert id in kids[id] <==> ChildOf(slots, id, id);
      BereaveAllAt(slots, kids[id], i);
      BereaveAllAt(slots, kids[id], id);
    }
  }

  lemma DepartKin(slots: seq<Slot>, kids: seq<seq<int>>, s: seq<Slot>, id: nat, status: int)
    requires Kin(slots, kids) && Parents(slots) && Live(slots, id) && |s| == |slots|
    requires forall i :: 0 <= i < |slots| ==> s[i] == DepartedAt(slots, id, status, i)
    ensures Kin(s, kids)
  {
    forall p | Live(s, p) ensures Linked(s, s[p].firstChildId, kids[p]) {
      assert Live(slots, p) && p != id;
      assert Linked(slots, slots[p].firstChildId, kids[p]);
      forall i | 0 <= i < |kids[p]|
        ensures s[kids[p][i]].Proc? && s[kids[p][i]].siblingId == slots[kids[p][i]].siblingId
      {
        assert ChildOf(slots, kids[p][i], p);
      }
    }
    hide Linked;
    forall p, c | Live(s, p) ensures c in kids[p] <==> ChildOf(s, c, p) {
      assert Live(slots, p) && p != id;
      assert c in kids[p] <==> ChildOf(slots, c, p);
    }
  }

  lemma DepartWaits(slots: seq<Slot>, s: seq<Slot>, joins: map<int, int>, woken: set<int>, id: nat, status: int)
    requires Parents(slots) && Waits(slots, joins, woken) && Live(slots, id) && id !in joins && |s| == |slots|
    requires forall i :: 0 <= i < |slots| ==> s[i] == DepartedAt(slots, id, status, i)
    ensures Parents(s)
    ensures Waits(s, joins, woken + slots[id].waiting)
  {
    assert Parents(s) by {
      hide Waits;
    }
    var w := woken + slots[id].waiting;
    forall p | p in joins
      ensures Live(s, p) && ChildOf(s, joins[p], p)
      ensures if p in w then s[joins[p]].hasExited else p in s[joins[p]].waiting && !s[joins[p]].hasExited
    {
      assert Live(slots, p) && ChildOf(slots, joins[p], p) && p != id;
    }
    forall p | p in w ensures p in joins {
    }
    forall c, p | 0 <= c < |s| && s[c].Proc? && p in s[c].waiting ensures p in joins && joins[p] == c && p !in w {
      assert p in slots[c].waiting;
      assert ChildOf(slots, joins[p], p);
    }
  }

  lemma DepartKeeps(slots: seq<Slot>, kids: seq<seq<int>>, joins: map<int, int>, woken: set<int>, id: nat, status: int)
    requires Inv(slots, kids, joins, woken) && Live(slots, id) && id !in joins
    ensures forall k :: 0 <= k < |kids[id]| ==> 0 <= kids[id][k] < |slots|
    ensures Inv(Departed(slots, kids[id], id, status), kids, joins, woken + slots[id].waiting)
    ensures forall i :: 0 <= i < |slots| ==>
            Processes(Departed(slots, kids[id], id, status))[i] == AfterExit(Processes(slots), id, status, i)
  {
    DepartedPointwise(slots, kids, id, status);
    assert |kids| == |slots|;
    hide Kin, Waits;
    var s := Departed(slots, kids[id], id, status);
    DepartKin(slots, kids, s, id, status);
    DepartWaits(slots, s, joins, woken, id, status);
  }

  /** Everyone who waits for a process is on its queue, and an orphan's queue is empty. */
  lemma WaitingExactly(slots: seq<Slot>, kids: seq<seq<int>>, joins: map<int, int>, woken: set<int>, id: nat)
    requires Inv(slots, kids, joins, woken) && Live(slots, id)
    ensures forall p :: p in slots[id].waiting <==> p in joins && joins[p] == id
    ensures slots[id].parentId < 0 ==> slots[id].waiting == {}
  {
    hide Kin, Parents;
    forall p | p in slots[id].waiting ensures slots[id].parentId >= 0 {
      assert ChildOf(slots, joins[p], p);
    }
  }

  lemma BereavedSelf(slots: seq<Slot>, first: int, list: seq<int>, id: nat)
    requires Linked(slots, first, list) && id < |slots| && id !in list
    ensures BereaveAll(slots, list)[id] == slots[id]
  {
    BereaveAllAt(slots, list, id);
  }

  // ---- joining -----------------------------------------------------------------------------------------

  /** The table after child `kids[p][i]` has been joined: unlinked from its parent's list and removed. */
  function Unlinked(slots: seq<Slot>, list: seq<int>, p: nat, i: nat): seq<Slot>
    requires p < |slots| && slots[p].Proc? && i < |list| && forall k :: 0 <= k < |list| ==>
             0 <= list[k] < |slots| && slots[list[k]].Proc?
  {
    var next := slots[list[i]].siblingId;
    (if i == 0 then slots[p := slots[p].(firstChildId := next)]
     else slots[list[i - 1] := slots[list[i - 1]].(siblingId := next)])[list[i] := Vacant]
  }

  function UnlinkedKids(kids: seq<seq<int>>, p: nat, i: nat): seq<seq<int>>
    requires p < |kids| && i < |kids[p]|
  {
    kids[p := kids[p][..i] + kids[p][i + 1..]]
  }

  lemma UnlinkLinked(slots: seq<Slot>, list: seq<int>, p: nat, i: nat)
    requires p < |slots| && slots[p].Proc? && p !in list && i < |list|
    requires Linked(slots, slots[p].firstChildId, list)
    ensures var s := Unlinked(slots, list, p, i); s[p].Proc? && Linked(s, s[p].firstChildId, list[..i] + list[i + 1..])
  {
  }

  lemma JoinLinked(slots: seq<Slot>, kids: seq<seq<int>>, p: nat, i: nat, q: nat)
    requires Kin(slots, kids) && Parents(slots) && Live(slots, p) && i < |kids[p]|
    requires forall k :: 0 <= k < |kids[p]| ==> 0 <= kids[p][k] < |slots| && slots[kids[p][k]].Proc?
    requires Live(slots, q) && q != kids[p][i]
    ensures var s := Unlinked(slots, kids[p], p, i); s[q].Proc? && Linked(s, s[q].firstChildId,
            UnlinkedKids(kids, p, i)[q])
  {
    if q == p {
      assert p in kids[p] <==> ChildOf(slots, p, p);
      assert Linked(slots, slots[p].firstChildId, kids[p]);
      hide Kin, Linked;
      UnlinkLinked(slots, kids[p], p, i);
    } else {
      JoinOthersLinked(slots, kids, p, i, q);
    }
  }

  lemma JoinKin(slots: seq<Slot>, kids: seq<seq<int>>, p: nat, i: nat)
    requires Kin(slots, kids) && Parents(slots) && Live(slots, p) && i < |kids[p]| && slots[kids[p][i]].Proc?
             && slots[kids[p][i]].hasExited
    requires forall k :: 0 <= k < |kids[p]| ==> 0 <= kids[p][k] < |slots| && slots[kids[p][k]].Proc?
    requires forall k :: 0 <= k < |kids[p]| && k != i ==> kids[p][k] != kids[p][i]
    ensures Kin(Unlinked(slots, kids[p], p, i), UnlinkedKids(kids, p, i))
  {
    var s, k, list, gone := Unlinked(slots, kids[p], p, i), UnlinkedKids(kids, p, i), kids[p], kids[p][i];
    hide Linked, Parents;
    assert gone in list && ChildOf(slots, gone, p);
    forall q | Live(s, q) ensures Linked(s, s[q].firstChildId, k[q]) {
      assert Live(slots, q);
      JoinLinked(slots, kids, p, i, q);
    }
    JoinMembersAll(slots, kids, p, i);
  }

  lemma JoinMembersAll(slots: seq<Slot>, kids: seq<seq<int>>, p: nat, i: nat)
    requires Kin(slots, kids) && Live(slots, p) && i < |kids[p]| && ChildOf(slots, kids[p][i], p)
    requires forall k :: 0 <= k < |kids[p]| ==> 0 <= kids[p][k] < |slots| && slots[kids[p][k]].Proc?
    requires forall k :: 0 <= k < |kids[p]| && k != i ==> kids[p][k] != kids[p][i]
    ensures var s, k := Unlinked(slots, kids[p], p, i), UnlinkedKids(kids, p, i);
      forall q, c | Live(s, q) :: c in k[q] <==> ChildOf(s, c, q)
  {
    var s, k, list, gone := Unlinked(slots, kids[p], p, i), UnlinkedKids(kids, p, i), kids[p], kids[p][i];
    hide Linked;
    assert forall c :: c in k[p] <==> c in list && c != gone;
    forall q, c | Live(s, q) ensures c in k[q] <==> ChildOf(s, c, q) {
      JoinMembers(slots, kids, p, i, q, c);
    }
  }

  lemma JoinMembers(slots: seq<Slot>, kids: seq<seq<int>>, p: nat, i: nat, q: nat, c: int)
    requires Kin(slots, kids) && Live(slots, p) && i < |kids[p]|
    requires forall k :: 0 <= k < |kids[p]| ==> 0 <= kids[p][k] < |slots| && slots[kids[p][k]].Proc?
    requires forall x :: x in UnlinkedKids(kids, p, i)[p] <==> x in kids[p] && x != kids[p][i]
    requires ChildOf(slots, kids[p][i], p) && Live(slots, q)
    ensures c in UnlinkedKids(kids, p, i)[q] <==> ChildOf(Unlinked(slots, kids[p], p, i), c, q)
  {
    hide Linked;
    assert c in kids[q] <==> ChildOf(slots, c, q);
  }

  lemma JoinOthersLinked(slots: seq<Slot>, kids: seq<seq<int>>, p: nat, i: nat, q: nat)
    requires Kin(slots, kids) && Live(slots, p) && Live(slots, q) && q != p && i < |kids[p]| && q != kids[p][i]
    requires forall k :: 0 <= k < |kids[p]| ==> 0 <= kids[p][k] < |slots| && slots[kids[p][k]].Proc?
    ensures var s := Unlinked(slots, kids[p], p, i); s[q].Proc? && Linked(s, s[q].firstChildId, kids[q])
  {
    assert Linked(slots, slots[q].firstChildId, kids[q]);
    forall j, k | 0 <= j < |kids[q]| && 0 <= k < |kids[p]| ensures kids[q][j] != kids[p][k] {
      assert ChildOf(slots, kids[q][j], q) && ChildOf(slots, kids[p][k], p);
    }
    LinkedFrame(slots, Unlinked(slots, kids[p], p, i), slots[q].firstChildId, kids[q]);
  }

  lemma JoinOthers(slots: seq<Slot>, list: seq<int>, joins: map<int, int>, woken: set<int>, p: nat, i: nat)
    requires Parents(slots) && Waits(slots, joins, woken) && Live(slots, p) && i < |list|
             && ChildOf(slots, list[i], p) && slots[list[i]].hasExited
    requires forall k :: 0 <= k < |list| ==> 0 <= list[k] < |slots| && slots[list[k]].Proc?
    requires list[i] != p && (i > 0 ==> p != list[i - 1] && list[i - 1] != list[i])
    requires p in joins ==> joins[p] == list[i]
    ensures Parents(Unlinked(slots, list, p, i)) && Waits(Unlinked(slots, list, p, i), joins - {p}, woken - {p})
  {
    var s := Unlinked(slots, list, p, i);
    assert Parents(s) by {
      hide Waits;
    }
    hide Parents;
    forall q | q in joins && q != p ensures Live(s, q) && ChildOf(s, joins[q], q) {
      assert Live(slots, q) && ChildOf(slots, joins[q], q);
    }
  }

  lemma JoinKeeps(slots: seq<Slot>, kids: seq<seq<int>>, joins: map<int, int>, woken: set<int>, p: nat, i: nat)
    requires Inv(slots, kids, joins, woken) && Live(slots, p) && i < |kids[p]|
    requires 0 <= kids[p][i] < |slots| && slots[kids[p][i]].Proc? && slots[kids[p][i]].hasExited
    requires p in joins ==> joins[p] == kids[p][i]
    ensures forall k :: 0 <= k < |kids[p]| ==> 0 <= kids[p][k] < |slots| && slots[kids[p][k]].Proc?
    ensures Inv(Unlinked(slots, kids[p], p, i), UnlinkedKids(kids, p, i), joins - {p}, woken - {p})
    ensures Processes(Unlinked(slots, kids[p], p, i)) == Processes(slots)[kids[p][i] := None]
  {
    var list := kids[p];
    assert Linked(slots, slots[p].firstChildId, list);
    assert ChildOf(slots, list[i], p) && (i > 0 ==> ChildOf(slots, list[i - 1], p));
    JoinKin(slots, kids, p, i);
    hide Kin;
    JoinOthers(slots, list, joins, woken, p, i);
  }

  /** The table after parent `p` went to sleep on its child `id`. */
  function Sleeping(slots: seq<Slot>, id: nat, p: int): seq<Slot>
    requires id < |slots| && slots[id].Proc?
  {
    slots[id := slots[id].(waiting := slots[id].waiting + {p})]
  }

  lemma SleepSame(slots: seq<Slot>, id: nat, p: int)
    requires id < |slots| && slots[id].Proc?
    ensures Processes(Sleeping(slots, id, p)) == Processes(slots)
  {
  }

  lemma SleepKeeps(slots: seq<Slot>, kids: seq<seq<int>>, joins: map<int, int>, woken: set<int>, id: nat, p: int)
    requires Inv(slots, kids, joins, woken) && Live(slots, p) && Live(slots, id) && ChildOf(slots, id, p) && p !in joins
    ensures Inv(Sleeping(slots, id, p), kids, joins[p := id], woken)
  {
    hide Kin, Parents, Waits;
    SleepKin(slots, kids, id, p);
    SleepWaits(slots, joins, woken, id, p);
  }

  lemma SleepKin(slots: seq<Slot>, kids: seq<seq<int>>, id: nat, p: int)
    requires Kin(slots, kids) && Live(slots, id)
    ensures Kin(Sleeping(slots, id, p), kids)
  {
    var s := Sleeping(slots, id, p);
    forall q | Live(s, q) ensures Linked(s, s[q].firstChildId, kids[q]) {
      assert Live(slots, q);
      LinkedDistinct(slots, slots[q].firstChildId, kids[q]);
      LinkedFrame(slots, s, slots[q].firstChildId, kids[q]);
    }
    hide Linked;
    forall q, c | Live(s, q) ensures c in kids[q] <==> ChildOf(s, c, q) {
      assert Live(slots, q);
      assert c in kids[q] <==> ChildOf(slots, c, q);
    }
  }

  lemma SleepWaits(slots: seq<Slot>, joins: map<int, int>, woken: set<int>, id: nat, p: int)
    requires Parents(slots) && Waits(slots, joins, woken)
    requires Live(slots, p) && Live(slots, id) && ChildOf(slots, id, p) && p !in joins
    ensures Parents(Sleeping(slots, id, p)) && Waits(Sleeping(slots, id, p), joins[p := id], woken)
  {
    var s := Sleeping(slots, id, p);
    assert Parents(s) by {
      hide Waits;
    }
    hide Parents;
    forall q | q in joins ensures Live(s, q) && ChildOf(s, joins[q], q) {
      assert Live(slots, q) && ChildOf(slots, joins[q], q);
    }
  }
}
