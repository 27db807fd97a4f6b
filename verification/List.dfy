/** Singly linked lists (lib/list.cc): each stands for a sequence without repetitions. */
module Lists {

  // ---- what the operations do to the sequence ----

  predicate Distinct<T(==)>(s: seq<T>) {
    forall i, j :: 0 <= i < j < |s| ==> s[i] != s[j]
  }

  /** Where an item is. */
  function IndexOf<T(==)>(s: seq<T>, x: T): (k: nat)
    requires x in s
    ensures k < |s| && s[k] == x && x !in s[..k]
  {
    if s[0] == x then 0
    else
      assert s == [s[0]] + s[1..];
      assert forall k :: 0 < k <= |s| ==> s[..k] == [s[0]] + s[1..][..k - 1];
      1 + IndexOf(s[1..], x)
  }

  function Without<T(==)>(s: seq<T>, x: T): seq<T>
    requires x in s
  {
    Dropped(s, IndexOf(s, x))
  }

  /** One element less. */
  function Dropped<T>(s: seq<T>, k: nat): seq<T>
    requires k < |s|
  {
    s[..k] + s[k + 1..]
  }

  /** Where a sorted insertion goes: before the first larger element. */
  function Position<T>(s: seq<T>, x: T, compare: (T, T) -> int): (k: nat)
    ensures k <= |s|
    ensures forall i :: 0 <= i < k ==> compare(x, s[i]) >= 0
    ensures k < |s| ==> compare(x, s[k]) < 0
  {
    if s == [] || compare(x, s[0]) < 0 then 0
    else
      assert forall i :: 0 < i < |s| ==> s[i] == s[1..][i - 1];
      1 + Position(s[1..], x, compare)
  }

  function Inserted<T>(s: seq<T>, x: T, compare: (T, T) -> int): seq<T> {
    s[..Position(s, x, compare)] + [x] + s[Position(s, x, compare)..]
  }

  predicate Sorted<T(!new)>(s: seq<T>, compare: (T, T) -> int) {
    forall i, j :: 0 <= i < j < |s| ==> compare(s[i], s[j]) <= 0
  }

  /** What a comparison function must satisfy for sorting to mean anything. */
  ghost predicate Ordering<T(!new)>(compare: (T, T) -> int) {
    && (forall x, y :: compare(x, y) >= 0 ==> compare(y, x) <= 0)
    && (forall x, y, z :: compare(x, y) <= 0 && compare(y, z) <= 0 ==> compare(x, z) <= 0)
  }

  lemma InsertedAt<T>(s: seq<T>, x: T, k: nat, i: nat)
    requires k <= |s| && i <= |s|
    ensures (s[..k] + [x] + s[k..])[i] == if i < k then s[i] else if i == k then x else s[i - 1]
  {}

  /** Insertion keeps the order, and puts an item after its equals: the sort is stable. */
  lemma InsertedSorted<T(!new)>(s: seq<T>, x: T, compare: (T, T) -> int)
    requires Ordering(compare) && Sorted(s, compare)
    ensures Sorted(Inserted(s, x, compare), compare)
    ensures forall i :: 0 <= i < |s| && i >= Position(s, x, compare) ==> compare(x, s[i]) <= 0
    ensures forall i :: 0 <= i < Position(s, x, compare) ==> compare(s[i], x) <= 0
  {
    var k, r := Position(s, x, compare), Inserted(s, x, compare);
    forall i | k <= i < |s|
      ensures compare(x, s[i]) <= 0
    {
      assert i > k ==> compare(s[k], s[i]) <= 0;
    }
    forall i, j | 0 <= i < j < |r|
      ensures compare(r[i], r[j]) <= 0
    {
      InsertedAt(s, x, k, i);
      InsertedAt(s, x, k, j);
    }
  }

  /** Nothing is lost. */
  lemma InsertedElements<T>(s: seq<T>, x: T, compare: (T, T) -> int)
    ensures multiset(Inserted(s, x, compare)) == multiset(s) + multiset{x}
  {
    var k := Position(s, x, compare);
    assert s == s[..k] + s[k..];
  }

  /** A fresh item keeps the sequence free of repetitions. */
  lemma InsertedDistinct<T>(s: seq<T>, x: T, k: nat)
    requires Distinct(s) && x !in s && k <= |s|
    ensures Distinct(s[..k] + [x] + s[k..])
  {
    var r := s[..k] + [x] + s[k..];
    forall i, j | 0 <= i < j < |r|
      ensures r[i] != r[j]
    {
      InsertedAt(s, x, k, i);
      InsertedAt(s, x, k, j);
    }
  }

  lemma DroppedAt<T>(s: seq<T>, k: nat, i: nat)
    requires k < |s| && i < |s| - 1
    ensures Dropped(s, k)[i] == s[if i < k then i else i + 1]
  {}

  lemma WithoutIt<T>(s: seq<T>, k: nat)
    requires Distinct(s) && k < |s|
    ensures Distinct(Dropped(s, k)) && s[k] !in Dropped(s, k)
  {
    var r := Dropped(s, k);
    forall i | 0 <= i < |r|
      ensures r[i] == s[if i < k then i else i + 1]
    {}
  }

  /** In a sequence without repetitions there is one place to find an item. */
  lemma IndexIs<T>(s: seq<T>, k: nat)
    requires Distinct(s) && k < |s|
    ensures IndexOf(s, s[k]) == k
  {
    var j := IndexOf(s, s[k]);
    assert s[j] == s[k];
  }

  /** One element more, at k. */
  predicate Spliced<T(==)>(before: seq<T>, after: seq<T>, k: nat) {
    k <= |before| && |after| == |before| + 1 && after == before[..k] + [after[k]] + before[k..]
  }

  class ListElement<T> {
    var item: T
    var next: ListElement?<T>

    constructor (itm: T)
      ensures item == itm && next == null
    {
      item := itm;
      next := null;
    }
  }

  class List<T(==)> {
    var first: ListElement?<T>
    var last: ListElement?<T>
    var numInList: nat
    /** The elements in order, and their items. */
    ghost var nodes: seq<ListElement<T>>
    ghost var items: seq<T>

    /** The links run through the nodes from first to last and nowhere else. */
    ghost predicate Linked()
      reads this, nodes
    {
      && |items| == |nodes| == numInList
      && (forall i {:trigger nodes[i].item} :: 0 <= i < |nodes| ==> nodes[i].item == items[i])
      && (forall i, j :: 0 <= i < j < |nodes| ==> nodes[i] != nodes[j])
      && (forall i {:trigger nodes[i].next} :: 0 <= i < |nodes| ==> nodes[i].next == if i + 1 < |nodes| then nodes[i + 1] else null)
      && (nodes == [] ==> first == null && last == null)
      && (nodes != [] ==> first == nodes[0] && last == nodes[|nodes| - 1] && last.next == null)
    }

    ghost predicate Valid()
      reads this, nodes
    {
      Linked() && Distinct(items)
    }

    constructor ()
      ensures Valid() && items == [] && nodes == []
    {
      first, last, numInList := null, null, 0;
      nodes, items := [], [];
    }

    predicate IsEmpty()
      requires Valid()
      reads this, nodes
      ensures IsEmpty() <==> items == []
    {
      numInList == 0
    }

    method IsInList(item: T) returns (found: bool)
      requires Valid()
      ensures found <==> item in items
    {
      var ptr := first;
      ghost var k := 0;
      while ptr != null
        invariant 0 <= k <= |nodes| && ptr == (if k < |nodes| then nodes[k] else null)
        invariant item !in items[..k]
        decreases |nodes| - k
      {
        if item == ptr.item {
          return true;
        }
        ptr := ptr.next;
        k := k + 1;
      }
      assert items[..k] == items;
      return false;
    }

    method Append(item: T)
      requires Valid() && item !in items
      modifies this, nodes
      ensures Valid() && items == old(items) + [item]
      ensures |nodes| == |old(nodes)| + 1 && nodes[..|old(nodes)|] == old(nodes) && fresh(nodes[|old(nodes)|])
    {
      hide Distinct;
      InsertedDistinct(items, item, |items|);
      var element := new ListElement(item);
      if IsEmpty() {
        first := element;
        last := element;
      } else {
        last.next := element;
        last := element;
      }
      numInList := numInList + 1;
      nodes, items := nodes + [element], items + [item];
      assert items == old(items)[..|old(items)|] + [item] + old(items)[|old(items)|..];
    }

    method Prepend(item: T)
      requires Valid() && item !in items
      modifies this
      ensures Valid() && items == [item] + old(items)
      ensures |nodes| == |old(nodes)| + 1 && nodes[1..] == old(nodes) && fresh(nodes[0])
    {
      hide Distinct;
      InsertedDistinct(items, item, 0);
      var element := new ListElement(item);
      if IsEmpty() {
        first := element;
        last := element;
      } else {
        element.next := first;
        first := element;
      }
      numInList := numInList + 1;
      nodes, items := [element] + nodes, [item] + items;
      assert items == old(items)[..0] + [item] + old(items)[0..];
    }

    method RemoveFront() returns (thing: T)
      requires Valid() && items != []
      modifies this
      ensures Valid() && thing == old(items)[0] && items == old(items)[1..]
      ensures nodes == old(nodes)[1..]
    {
      var element := first;
      thing := first.item;
      if first == last {
        assert |nodes| == 1;
        first := null;
        last := null;
      } else {
        first := element.next;
      }
      numInList := numInList - 1;
      nodes, items := nodes[1..], items[1..];
    }

    /** Removes an item, which must be there; it is then not there. */
    method Remove(item: T)
      requires Valid() && item in items
      modifies this, nodes
      ensures Valid() && items == Without(old(items), item) && item !in items
      ensures nodes == Dropped(old(nodes), IndexOf(old(items), item))
    {
      ghost var before := items;
      if item == first.item {
        IndexIs(items, 0);
        WithoutIt(items, 0);
        var removed := RemoveFront();
        assert item == removed;
        assert items == Dropped(before, 0) && nodes == Dropped(old(nodes), 0);
      } else {
        RemoveInside(item);
      }
    }

    /** The walk of Remove, for an item that is not the first. */
    method RemoveInside(item: T)
      requires Valid() && item in items && item != items[0]
      modifies this, nodes
      ensures Valid() && items == Without(old(items), item) && item !in items
      ensures nodes == Dropped(old(nodes), IndexOf(old(items), item))
    {
      var prev, ptr := first, first.next;
      ghost var k := 1;
      while ptr != null
        invariant 1 <= k <= |nodes| && prev == nodes[k - 1] && ptr == (if k < |nodes| then nodes[k] else null)
        invariant item in items[k..] && Valid() && nodes == old(nodes) && items == old(items)
        decreases |nodes| - k
      {
        if item == ptr.item {
          IndexIs(items, k);
          WithoutIt(items, k);
          Unlink(prev, ptr, k);
          return;
        }
        prev := ptr;
        ptr := ptr.next;
        k := k + 1;
      }
      assert false;
    }

    /** Takes a node out of the chain. */
    method Unlink(prev: ListElement<T>, ptr: ListElement<T>, ghost k: nat)
      requires Linked() && 0 < k < |nodes| && prev == nodes[k - 1] && ptr == nodes[k]
      modifies this, nodes
      ensures Linked() && items == Dropped(old(items), k) && nodes == Dropped(old(nodes), k)
    {
      ghost var was, these := nodes, items;
      assert was[k].next == if k + 1 < |was| then was[k + 1] else null;
      prev.next := ptr.next;
      if prev.next == null {
        last := prev;
      }
      numInList := numInList - 1;
      nodes, items := Dropped(nodes, k), Dropped(items, k);
      forall i | 0 <= i < |nodes|
        ensures nodes[i] == was[if i < k then i else i + 1] && items[i] == these[if i < k then i else i + 1]
      {
        DroppedAt(was, k, i);
        DroppedAt(these, k, i);
      }
    }

    /** SortedList::Insert. */
    method Insert(item: T, compare: (T, T) -> int)
      requires Valid() && item !in items
      modifies this, nodes
      ensures Valid() && items == Inserted(old(items), item, compare)
      ensures Spliced(old(nodes), nodes, Position(old(items), item, compare)) && fresh(nodes[Position(old(items), item, compare)])
    {
      InsertedDistinct(items, item, Position(items, item, compare));
      if IsEmpty() {
        Append(item);
      } else if compare(item, first.item) < 0 {
        Prepend(item);
      } else {
        InsertInside(item, compare);
      }
    }

    /** The walk of Insert, for an item that does not go first. */
    method InsertInside(item: T, compare: (T, T) -> int)
      requires Linked() && items != [] && compare(item, items[0]) >= 0
      modifies this, nodes
      ensures Linked() && items == Inserted(old(items), item, compare)
      ensures Spliced(old(nodes), nodes, Position(old(items), item, compare)) && fresh(nodes[Position(old(items), item, compare)])
    {
      var element := new ListElement(item);
      ghost var k;
      var ptr;
      ptr, k := LastNotAbove(item, compare);
      PositionIs(items, item, compare, k + 1);
      if ptr.next != null {
        LinkAfter(ptr, element, k);
      } else {
        LinkLast(element);
        assert items == old(items)[..k + 1] + [item] + old(items)[k + 1..];
      }
    }

    /** The node before the first one with a larger item. */
    method LastNotAbove(item: T, compare: (T, T) -> int) returns (ptr: ListElement<T>, ghost k: nat)
      requires Linked() && items != [] && compare(item, items[0]) >= 0
      ensures k < |nodes| && ptr == nodes[k] && ptr.next == if k + 1 < |nodes| then nodes[k + 1] else null
      ensures forall i :: 0 <= i <= k ==> compare(item, items[i]) >= 0
      ensures k + 1 < |nodes| ==> compare(item, items[k + 1]) < 0
    {
      ptr := first;
      k := 0;
      while ptr.next != null
        invariant 0 <= k < |nodes| && ptr == nodes[k]
        invariant forall i :: 0 <= i <= k ==> compare(item, items[i]) >= 0
        decreases |nodes| - k
      {
        if compare(item, ptr.next.item) < 0 {
          return;
        }
        ptr := ptr.next;
        k := k + 1;
      }
    }

    /** Puts a node at the end of the chain. */
    method LinkLast(element: ListElement<T>)
      requires Linked() && nodes != [] && element !in nodes && element.next == null
      modifies this, nodes
      ensures Linked() && items == old(items) + [element.item] && nodes == old(nodes) + [element]
    {
      last.next := element;
      last := element;
      numInList := numInList + 1;
      nodes, items := nodes + [element], items + [element.item];
    }

    /** Puts a node into the chain. */
    method LinkAfter(ptr: ListElement<T>, element: ListElement<T>, ghost k: nat)
      requires Linked() && k + 1 < |nodes| && ptr == nodes[k] && element !in nodes
      modifies this, nodes, element
      ensures Linked() && items == old(items[..k + 1] + [element.item] + items[k + 1..])
      ensures nodes == old(nodes[..k + 1] + [element] + nodes[k + 1..])
    {
      ghost var was, these := nodes, items;
      assert element !in was && was[k + 1] == ptr.next;
      element.next := ptr.next;
      ptr.next := element;
      numInList := numInList + 1;
      nodes, items := nodes[..k + 1] + [element] + nodes[k + 1..], items[..k + 1] + [element.item] + items[k + 1..];
      forall i | 0 <= i < |nodes|
        ensures nodes[i] == if i <= k then was[i] else if i == k + 1 then element else was[i - 1]
        ensures items[i] == if i <= k then these[i] else if i == k + 1 then element.item else these[i - 1]
      {
        InsertedAt(was, element, k + 1, i);
        InsertedAt(these, element.item, k + 1, i);
      }
    }

    /** The list's own check of itself: in a valid list no assertion fails. */
    method SanityCheck()
      requires Valid()
    {
      assert forall i :: 0 <= i < |nodes| - 1 ==> nodes[i] != nodes[|nodes| - 1];
      if first == null {
        assert numInList == 0 && last == null;
      } else if first == last {
        assert numInList == 1 && last.next == null;
      } else {
        var numFound, ptr := 1, first;
        while ptr != last
          invariant 1 <= numFound <= |nodes| && ptr == nodes[numFound - 1]
          decreases |nodes| - numFound
        {
          numFound := numFound + 1;
          assert numFound <= numInList;
          ptr := ptr.next;
        }
        assert numFound == numInList;
        assert last.next == null;
      }
    }
  }

  /** Steps through a list that does not change meanwhile. */
  class ListIterator<T(==)> {
    ghost const list: List<T>
    var current: ListElement?<T>
    ghost var passed: nat

    ghost predicate Valid()
      reads this, list, list.nodes
    {
      list.Valid() && passed <= |list.nodes| && current == if passed < |list.nodes| then list.nodes[passed] else null
    }

    constructor (list: List<T>)
      requires list.Valid()
      ensures Valid() && this.list == list && passed == 0
    {
      this.list := list;
      current := list.first;
      passed := 0;
    }

    predicate IsDone()
      requires Valid()
      reads this, list, list.nodes
      ensures IsDone() <==> passed == |list.items|
    {
      current == null
    }

    function Item(): T
      requires Valid() && !IsDone()
      reads this, list, list.nodes
      ensures Item() == list.items[passed]
    {
      current.item
    }

    method Next()
      requires Valid() && !IsDone()
      modifies this
      ensures Valid() && passed == old(passed) + 1
    {
      current := current.next;
      passed := passed + 1;
    }
  }

  lemma PositionIs<T>(s: seq<T>, x: T, compare: (T, T) -> int, k: nat)
    requires k <= |s| && (forall i :: 0 <= i < k ==> compare(x, s[i]) >= 0) && (k < |s| ==> compare(x, s[k]) < 0)
    ensures Position(s, x, compare) == k
  {}
}
