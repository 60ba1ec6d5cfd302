// SortedList: a linked list kept in order, holding no item twice.
module SortedLists {
  import opened Collections

  class ListElement<T> {
    var next: ListElement?<T>
    const item: T

    constructor (item: T)
      ensures next == null && this.item == item
    {
      next := null;
      this.item := item;
    }
  }

  // ---- the list as a sequence ------------------------------------------------------------------------

  /** `item` put before the first element that is greater, so behind all that are equal. */
  function Inserted<T>(s: seq<T>, item: T, compare: (T, T) -> int): (r: seq<T>)
    ensures |r| == |s| + 1
  {
    if s == [] then [item]
    else if compare(item, s[0]) < 0 then [item] + s
    else [s[0]] + Inserted(s[1..], item, compare)
  }

  ghost predicate Sorted<T>(s: seq<T>, compare: (T, T) -> int) {
    forall i, j :: 0 <= i < j < |s| ==> compare(s[i], s[j]) <= 0
  }

  /** What is asked of a comparison: that it comes from ranks. */
  ghost predicate Ranked<T(!new)>(compare: (T, T) -> int, rank: T -> int) {
    forall x, y :: (compare(x, y) < 0 <==> rank(x) < rank(y)) && (compare(x, y) > 0 <==> rank(x) > rank(y))
  }

  lemma {:induction false} InsertedAt<T>(s: seq<T>, item: T, compare: (T, T) -> int, k: nat)
    requires k <= |s| && (forall j :: 0 <= j < k ==> compare(item, s[j]) >= 0) && (k < |s| ==> compare(item, s[k]) < 0)
    ensures Inserted(s, item, compare) == s[..k] + [item] + s[k..]
    decreases k
  {
    if k == 0 {
      assert s[..0] + [item] + s[0..] == [item] + s;
    } else {
      InsertedAt(s[1..], item, compare, k - 1);
      assert s[1..][..k - 1] == s[1..k] && s[1..][k - 1..] == s[k..];
      assert s[..k] == [s[0]] + s[1..k];
    }
  }

  /** Where an item goes: somewhere, with nothing else moved. */
  lemma {:induction false} InsertedSomewhere<T>(s: seq<T>, item: T, compare: (T, T) -> int) returns (k: nat)
    ensures k <= |s| && (forall j :: 0 <= j < k ==> compare(item, s[j]) >= 0) && (k < |s| ==> compare(item, s[k]) < 0)
    ensures Inserted(s, item, compare) == s[..k] + [item] + s[k..]
  {
    if s == [] || compare(item, s[0]) < 0 {
      k := 0;
    } else {
      var j := InsertedSomewhere(s[1..], item, compare);
      k := j + 1;
      InsertedAt(s, item, compare, k);
    }
  }

  /** A sorted list stays sorted; equal items stay in the order they came. */
  lemma InsertedSorted<T(!new)>(s: seq<T>, item: T, compare: (T, T) -> int, rank: T -> int)
    requires Ranked(compare, rank) && Sorted(s, compare)
    ensures Sorted(Inserted(s, item, compare), compare)
  {
    var k := InsertedSomewhere(s, item, compare);
    var r := s[..k] + [item] + s[k..];
    forall i, j | 0 <= i < j < |r| ensures compare(r[i], r[j]) <= 0 {
      var x, y := if i < k then i else i - 1, if j < k then j else j - 1;
      if i == k {
        LaterGreater(s, item, compare, rank, k, y);
      } else if j != k {
        assert compare(s[x], s[y]) <= 0;
      }
    }
  }

  lemma LaterGreater<T(!new)>(s: seq<T>, item: T, compare: (T, T) -> int, rank: T -> int, k: nat, y: nat)
    requires Ranked(compare, rank) && Sorted(s, compare) && k <= y < |s| && compare(item, s[k]) < 0
    ensures compare(item, s[y]) < 0
  {
    assert k < y ==> compare(s[k], s[y]) <= 0;
  }

  /** Position of the first occurrence. */
  function IndexOf<T(==)>(s: seq<T>, x: T): (i: nat)
    requires x in s
    ensures i < |s| && s[i] == x && x !in s[..i]
  {
    if s[0] == x then 0 else 1 + IndexOf(s[1..], x)
  }

  // ---- the linked list -----------------------------------------------------------------------------------

  function Items<T>(nodes: seq<ListElement<T>>): (s: seq<T>)
    ensures |s| == |nodes| && forall i :: 0 <= i < |s| ==> s[i] == nodes[i].item
  {
    seq(|nodes|, i requires 0 <= i < |nodes| => nodes[i].item)
  }

  class SortedList<T(==)> {
    const compare: (T, T) -> int
    var first: ListElement?<T>
    var last: ListElement?<T>
    var numInList: int
    ghost var nodes: seq<ListElement<T>>
    ghost var Repr: set<object>

    /** `first`, then `next` after `next`, visits exactly `nodes`, the last of which is `last`. */
    ghost predicate Valid()
      reads this, Repr
    {
      && this in Repr && (forall i :: 0 <= i < |nodes| ==> nodes[i] in Repr)
      && numInList == |nodes| && Distinct(nodes)
      && (if nodes == [] then first == null && last == null
          else first == nodes[0] && last == nodes[|nodes| - 1] && nodes[|nodes| - 1].next == null)
      && (forall i, j {:trigger nodes[i], nodes[j]} :: 0 <= i && i + 1 == j < |nodes| ==> nodes[i].next == nodes[j])
    }

    ghost function Contents(): (s: seq<T>)
      reads this
    {
      Items(nodes)
    }

    constructor (compare: (T, T) -> int)
      ensures Valid() && Contents() == [] && this.compare == compare && fresh(Repr)
    {
      this.compare := compare;
      first, last, numInList, nodes := null, null, 0, [];
      Repr := {this};
    }

    predicate IsEmpty()
      reads this
    {
      numInList == 0
    }

    function Front(): T
      requires first != null
      reads this
    {
      first.item
    }

    method IsInList(item: T) returns (found: bool)
      requires Valid()
      ensures found <==> item in Contents()
    {
      var ptr := first;
      ghost var k := 0;
      while ptr != null
        invariant 0 <= k <= |nodes| && ptr == (if k < |nodes| then nodes[k] else null)
        invariant item !in Contents()[..k]
        decreases |nodes| - k
      {
        if ptr.item == item {
          assert Contents()[k] == item;
          return true;
        }
        assert Contents()[..k + 1] == Contents()[..k] + [ptr.item];
        assert k + 1 < |nodes| ==> nodes[k].next == nodes[k + 1];
        ptr := ptr.next;
        k := k + 1;
      }
      assert Contents()[..k] == Contents();
      return false;
    }

    /** Insert; an item that is in the list already is left where it is. */
    method Insert(item: T)
      requires Valid()
      modifies Repr
      ensures Valid() && fresh(Repr - old(Repr))
      ensures Contents() == if item in old(Contents()) then old(Contents())
              else Inserted(old(Contents()), item, compare)
    {
      var element := new ListElement(item);
      var found := IsInList(item);
      if !found {
        ghost var s := Contents();
        if IsEmpty() {
          first := element;
          last := element;
          nodes := [element];
          Repr := Repr + {element};
        } else if compare(item, first.item) < 0 {
          Prepend(element);
        } else {
          InsertBehind(element);
          return;
        }
        numInList := numInList + 1;
      }
    }

    method Prepend(element: ListElement<T>)
      requires Valid() && first != null && element !in nodes
      modifies this`first, this`nodes, this`Repr, element
      ensures first == element && element.next == old(first) && nodes == [element] + old(nodes)
              && Repr == old(Repr) + {element}
    {
      Repr := Repr + {element};
      element.next := first;
      first := element;
      nodes := [element] + nodes;
    }

    lemma NextOf(k: nat)
      requires Valid() && k < |nodes|
      ensures nodes[k].next == if k + 1 < |nodes| then nodes[k + 1] else null
    {
      if k + 1 < |nodes| {
        assert nodes[k].next == nodes[k + 1];
      }
    }

    /** The search of Insert: the node after which a new item goes that does not go first. */
    method FindPlace(item: T) returns (ptr: ListElement<T>, ghost k: nat)
      requires Valid() && first != null && compare(item, first.item) >= 0
      ensures k < |nodes| && ptr == nodes[k] && ptr.next == if k + 1 < |nodes| then nodes[k + 1] else null
      ensures Inserted(Contents(), item, compare) == Contents()[..k + 1] + [item] + Contents()[k + 1..]
    {
      ptr := first;
      k := 0;
      while ptr.next != null && compare(item, ptr.next.item) >= 0
        invariant 0 <= k < |nodes| && ptr == nodes[k]
        invariant forall j :: 0 <= j <= k ==> compare(item, Contents()[j]) >= 0
        decreases |nodes| - k
      {
        NextOf(k);
        ptr := ptr.next;
        k := k + 1;
      }
      NextOf(k);
      InsertedAt(Contents(), item, compare, k + 1);
    }

    /** Insert, when the item does not go first. */
    method InsertBehind(element: ListElement<T>)
      requires Valid() && first != null && compare(element.item, first.item) >= 0
      requires element !in nodes && element.next == null
      modifies Repr, element
      ensures Valid() && Contents() == Inserted(old(Contents()), element.item, compare)
      ensures Repr == old(Repr) + {element}
    {
      ghost var s, was := Contents(), nodes;
      var ptr, k := FindPlace(element.item);
      hide Inserted;
      ItemsCut(was, k, element);
      if ptr.next != null {
        SpliceAfter(ptr, element, k);
      } else {
        AppendLast(element);
      }
    }

    method AppendLast(element: ListElement<T>)
      requires Valid() && last != null && element !in nodes && element.next == null
      modifies this, last, element
      ensures Valid() && nodes == old(nodes) + [element] && Repr == old(Repr) + {element}
    {
      Repr := Repr + {element};
      last.next := element;
      last := element;
      nodes := nodes + [element];
      numInList := numInList + 1;
    }

    method SpliceAfter(ptr: ListElement<T>, element: ListElement<T>, ghost k: nat)
      requires Valid() && k + 1 < |nodes| && ptr == nodes[k] && element !in nodes && ptr.next == nodes[k + 1]
      modifies this, ptr, element
      ensures Valid() && nodes == old(nodes)[..k + 1] + [element] + old(nodes)[k + 1..] && Repr == old(Repr) + {element}
    {
      Repr := Repr + {element};
      element.next := ptr.next;
      ptr.next := element;
      numInList := numInList + 1;
      nodes := nodes[..k + 1] + [element] + nodes[k + 1..];
    }

    method RemoveFront() returns (thing: T)
      requires Valid() && !IsEmpty()
      modifies this
      ensures Valid() && nodes == old(nodes)[1..] && Repr == old(Repr)
      ensures [thing] + Contents() == old(Contents())
    {
      var element := first;
      thing := first.item;
      if first == last {
        first := null;
        last := null;
      } else {
        first := element.next;
      }
      assert |nodes| > 1 ==> nodes[0].next == nodes[1] && nodes[0] != nodes[|nodes| - 1];
      nodes := nodes[1..];
      numInList := numInList - 1;
    }

    /** Remove an item known to be in the list. */
    method Remove(item: T)
      requires Valid() && Distinct(Contents()) && item in Contents()
      modifies Repr
      ensures Valid() && Repr == old(Repr)
      ensures var i := IndexOf(old(Contents()), item); Contents() == old(Contents())[..i] + old(Contents())[i + 1..]
      ensures item !in Contents()
    {
      ghost var s := Contents();
      if item == first.item {
        var removed := RemoveFront();
        assert item == removed && s[1..] == Contents();
      } else {
        RemoveBehind(item);
      }
    }

    method RemoveBehind(item: T)
      requires Valid() && Distinct(Contents()) && item in Contents() && first != null && first.item != item
      modifies Repr
      ensures Valid() && Repr == old(Repr)
      ensures var i := IndexOf(old(Contents()), item); Contents() == old(Contents())[..i] + old(Contents())[i + 1..]
      ensures item !in Contents()
    {
      var prev, ptr, k := FindPrevious(item);
      ItemsCut(nodes, k, ptr);
      hide IndexOf;
      Unlink(prev, ptr, k);
    }

    /** The search of Remove, for an item that is not the first. */
    method FindPrevious(item: T) returns (prev: ListElement<T>, ptr: ListElement<T>, ghost k: nat)
      requires Valid() && Distinct(Contents()) && item in Contents() && first != null && first.item != item
      ensures 0 < k < |nodes| && prev == nodes[k - 1] && ptr == nodes[k] && k == IndexOf(Contents(), item)
      ensures ptr.next == if k + 1 < |nodes| then nodes[k + 1] else null
      ensures item !in Contents()[..k] + Contents()[k + 1..]
    {
      ghost var s, i := Contents(), IndexOf(Contents(), item);
      NextOf(0);
      prev := first;
      k := 1;
      assert nodes[0].next == nodes[1];
      ptr := first.next;
      while ptr.item != item
        invariant 1 <= k <= i < |nodes| && prev == nodes[k - 1] && ptr == nodes[k]
        decreases |nodes| - k
      {
        NextOf(k);
        prev, ptr := ptr, ptr.next;
        k := k + 1;
      }
      NextOf(k);
      assert s[k] == s[i];
    }

    method Unlink(prev: ListElement<T>, ptr: ListElement<T>, ghost k: nat)
      requires Valid() && 0 < k < |nodes| && prev == nodes[k - 1] && ptr == nodes[k]
      requires ptr.next == if k + 1 < |nodes| then nodes[k + 1] else null
      modifies this, prev
      ensures Valid() && nodes == old(nodes)[..k] + old(nodes)[k + 1..] && Repr == old(Repr)
    {
      prev.next := ptr.next;
      if prev.next == null {
        last := prev;
      }
      nodes := nodes[..k] + nodes[k + 1..];
      numInList := numInList - 1;
    }
  }

  lemma ItemsCut<T>(nodes: seq<ListElement<T>>, k: nat, e: ListElement<T>)
    requires k < |nodes|
    ensures Items(nodes[..k + 1] + [e] + nodes[k + 1..]) == Items(nodes)[..k + 1] + [e.item] + Items(nodes)[k + 1..]
    ensures k + 1 == |nodes| ==> Items(nodes + [e]) == Items(nodes)[..k + 1] + [e.item] + Items(nodes)[k + 1..]
    ensures Items(nodes[..k] + nodes[k + 1..]) == Items(nodes)[..k] + Items(nodes)[k + 1..]
  {
  }
}
