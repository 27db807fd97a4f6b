/** The lists that are the buckets of a table (lib/hash.cc): each its own object, none sharing a node with
    another. */
module Buckets {
  import opened Lists

  ghost function Nodes<T>(lists: seq<List<T>>): set<ListElement<T>>
    reads lists
  {
    set i, n | 0 <= i < |lists| && n in lists[i].nodes :: n
  }

  lemma NodesOf<T>(lists: seq<List<T>>, i: nat)
    requires i < |lists|
    ensures forall n :: n in lists[i].nodes ==> n in Nodes(lists)
  {}

  ghost predicate Apart<T>(lists: seq<List<T>>)
    reads lists, Nodes(lists)
  {
    NoneShared(lists) && EachValid(lists)
  }

  ghost predicate EachValid<T>(lists: seq<List<T>>)
    reads lists, Nodes(lists)
  {
    forall i :: 0 <= i < |lists| ==> (NodesOf(lists, i); lists[i].Valid())
  }

  /** The sequences that the lists stand for. */
  ghost function ItemsOf<T>(lists: seq<List<T>>): (s: seq<seq<T>>)
    reads lists
    ensures |s| == |lists| && forall i :: 0 <= i < |lists| ==> s[i] == lists[i].items
  {
    seq(|lists|, i requires 0 <= i < |lists| reads lists => lists[i].items)
  }

  /** No other list has a node of this one's. */
  ghost predicate Alone<T>(lists: seq<List<T>>, b: nat, nodes: seq<ListElement<T>>)
    requires b < |lists|
    reads lists
  {
    forall j :: 0 <= j < |lists| && j != b ==> lists[j] != lists[b] && NoCommon(lists[j].nodes, nodes)
  }

  lemma ApartAlone<T>(lists: seq<List<T>>, b: nat)
    requires Apart(lists) && b < |lists|
    ensures Alone(lists, b, lists[b].nodes)
  {}

  /** Nothing of the list changed. */
  twostate predicate Untouched<T>(l: List<T>)
    reads l, l.nodes
  {
    && l.nodes == old(l.nodes) && l.items == old(l.items)
    && l.first == old(l.first) && l.last == old(l.last) && l.numInList == old(l.numInList)
    && forall n :: n in l.nodes ==> n.item == old(n.item) && n.next == old(n.next)
  }

  ghost predicate NoneShared<T>(lists: seq<List<T>>)
    reads lists
  {
    && (forall i, j :: 0 <= i < j < |lists| ==> lists[i] != lists[j])
    && (forall i, j :: 0 <= i < j < |lists| ==> NoCommon(lists[i].nodes, lists[j].nodes))
  }

  predicate NoCommon<T>(s: seq<ListElement<T>>, t: seq<ListElement<T>>) {
    forall n :: n in s ==> n !in t
  }

  /** One list changed, and has no nodes but its own and new ones. */
  twostate predicate OnlyChanged<T>(lists: seq<List<T>>, new b: nat)
    requires b < |lists|
    reads lists, Nodes(lists)
  {
    && (forall j :: 0 <= j < |lists| && j != b ==> (NodesOf(lists, j); Untouched(lists[j])))
    && (forall n :: n in lists[b].nodes ==> n in old(lists[b].nodes) || fresh(n))
  }

  /** Lists that were apart are so still, if only one changed. */
  twostate lemma StillUnshared<T>(lists: seq<List<T>>, new b: nat)
    requires b < |lists| && old(NoneShared(lists)) && OnlyChanged(lists, b)
    ensures NoneShared(lists)
  {}

  twostate lemma EachStillValid<T>(lists: seq<List<T>>, new b: nat)
    requires old(EachValid(lists)) && b < |lists| && lists[b].Valid() && OnlyChanged(lists, b)
    ensures EachValid(lists)
  {}

  twostate lemma ItemsChanged<T>(lists: seq<List<T>>, new b: nat)
    requires b < |lists| && OnlyChanged(lists, b)
    ensures ItemsOf(lists) == old(ItemsOf(lists))[b := lists[b].items]
  {}

  /** The lists have no nodes but the ones they had and new ones; and no new ones, if the one that changed has none. */
  twostate lemma NodesKept<T>(lists: seq<List<T>>, new b: nat)
    requires b < |lists| && OnlyChanged(lists, b)
    ensures fresh(Nodes(lists) - old(Nodes(lists)))
    ensures (forall n :: n in lists[b].nodes ==> n in old(lists[b].nodes)) ==> Nodes(lists) <= old(Nodes(lists))
  {
    forall n | n in Nodes(lists)
      ensures n in old(Nodes(lists)) || (n in lists[b].nodes && n !in old(lists[b].nodes))
    {
      var i :| 0 <= i < |lists| && n in lists[i].nodes;
    }
  }

  /** One list gets an item at its end; the others are as they were. */
  method AppendTo<T(==)>(lists: seq<List<T>>, b: nat, item: T)
    requires Apart(lists) && b < |lists| && item !in lists[b].items
    modifies lists, Nodes(lists)
    ensures Apart(lists) && ItemsOf(lists) == old(ItemsOf(lists))[b := old(lists[b].items) + [item]]
    ensures fresh(Nodes(lists) - old(Nodes(lists)))
  {
    ApartAlone(lists, b);
    NodesOf(lists, b);
    lists[b].Append(item);
    StillUnshared(lists, b);
    EachStillValid(lists, b);
    ItemsChanged(lists, b);
    NodesKept(lists, b);
  }

  /** One list loses its front. */
  method TakeFront<T(==)>(lists: seq<List<T>>, b: nat) returns (item: T)
    requires Apart(lists) && b < |lists| && lists[b].items != []
    modifies lists, Nodes(lists)
    ensures Apart(lists) && item == old(lists[b].items)[0]
    ensures ItemsOf(lists) == old(ItemsOf(lists))[b := old(lists[b].items)[1..]]
    ensures Nodes(lists) <= old(Nodes(lists))
  {
    ApartAlone(lists, b);
    NodesOf(lists, b);
    item := lists[b].RemoveFront();
    StillUnshared(lists, b);
    EachStillValid(lists, b);
    ItemsChanged(lists, b);
    NodesKept(lists, b);
  }

  /** One list loses an item. */
  method TakeOut<T(==)>(lists: seq<List<T>>, b: nat, item: T)
    requires Apart(lists) && b < |lists| && item in lists[b].items
    modifies lists, Nodes(lists)
    ensures Apart(lists)
    ensures ItemsOf(lists) == old(ItemsOf(lists))[b := Without(old(lists[b].items), item)]
    ensures Nodes(lists) <= old(Nodes(lists))
  {
    ApartAlone(lists, b);
    NodesOf(lists, b);
    ghost var was, k := lists[b].nodes, IndexOf(lists[b].items, item);
    lists[b].Remove(item);
    DroppedFrom(was, k);
    StillUnshared(lists, b);
    EachStillValid(lists, b);
    ItemsChanged(lists, b);
    NodesKept(lists, b);
  }

  lemma DroppedFrom<T>(s: seq<T>, k: nat)
    requires k < |s|
    ensures forall x :: x in Dropped(s, k) ==> x in s
  {}

  /** New lists, all empty. */
  method NewLists<T(==)>(n: nat) returns (lists: seq<List<T>>)
    ensures |lists| == n && Apart(lists) && Nodes(lists) == {}
    ensures forall i :: 0 <= i < n ==> fresh(lists[i]) && ItemsOf(lists)[i] == []
  {
    lists := [];
    var i := 0;
    while i < n
      invariant 0 <= i <= n && |lists| == i
      invariant forall j :: 0 <= j < i ==> fresh(lists[j]) && lists[j].Valid() && lists[j].nodes == [] && lists[j].items == []
      invariant forall j, k :: 0 <= j < k < i ==> lists[j] != lists[k]
    {
      var bucket := new List<T>();
      lists := lists + [bucket];
      i := i + 1;
    }
  }

  /** The array of a table's lists, and what all of it stands for. */
  class BucketArray<T(==)> {
    var lists: seq<List<T>>
    ghost var items: seq<seq<T>>
    ghost var footprint: set<object>

    ghost predicate Valid()
      reads this, footprint
    {
      && this !in footprint
      && (forall l :: l in lists ==> l in footprint)
      && (forall n :: n in Nodes(lists) ==> n in footprint)
      && Apart(lists) && items == ItemsOf(lists)
    }

    constructor (sz: nat)
      ensures Valid() && fresh(footprint) && |items| == sz && forall b :: 0 <= b < sz ==> items[b] == []
    {
      var made := NewLists(sz);
      lists := made;
      footprint := set l | l in made;
      new;
      hide EachValid, NoneShared;
      Record();
    }

    /** Brings the ghost fields up to date. */
    ghost method Record()
      requires this !in footprint && (forall l :: l in lists ==> l in footprint) && Apart(lists)
      modifies this`items, this`footprint
      ensures Valid() && items == ItemsOf(lists) == old(ItemsOf(lists)) && footprint == old(footprint) + Nodes(lists)
    {
      hide EachValid, NoneShared;
      ghost var now, nodes := ItemsOf(lists), Nodes(lists);
      items, footprint := now, footprint + nodes;
      assert ItemsOf(lists) == now && Nodes(lists) == nodes && Apart(lists);
    }

    function Length(): nat
      requires Valid()
      reads this, footprint
      ensures Length() == |items|
    {
      |lists|
    }

    predicate IsEmpty(b: nat)
      requires Valid() && b < |items|
      reads this, footprint
      ensures IsEmpty(b) <==> items[b] == []
    {
      NodesOf(lists, b);
      lists[b].IsEmpty()
    }

    method Append(b: nat, item: T)
      requires Valid() && b < |items| && item !in items[b]
      modifies this`items, this`footprint, footprint
      ensures Valid() && fresh(footprint - old(footprint)) && items == old(items)[b := old(items)[b] + [item]]
    {
      hide EachValid, NoneShared;
      AppendTo(lists, b, item);
      Record();
    }

    method RemoveFront(b: nat) returns (item: T)
      requires Valid() && b < |items| && items[b] != []
      modifies this`items, this`footprint, footprint
      ensures Valid() && fresh(footprint - old(footprint)) && item == old(items)[b][0] && items == old(items)[b := old(items)[b][1..]]
    {
      hide EachValid, NoneShared;
      item := TakeFront(lists, b);
      Record();
    }

    method Remove(b: nat, item: T)
      requires Valid() && b < |items| && item in items[b]
      modifies this`items, this`footprint, footprint
      ensures Valid() && fresh(footprint - old(footprint)) && items == old(items)[b := Without(old(items)[b], item)]
    {
      hide EachValid, NoneShared;
      TakeOut(lists, b, item);
      Record();
    }

    /** An iterator over one list. */
    method Iterate(b: nat) returns (iter: ListIterator<T>)
      requires Valid() && b < |items|
      ensures fresh(iter) && iter !in footprint && On(iter, b) && iter.passed == 0
    {
      NodesOf(lists, b);
      iter := new ListIterator(lists[b]);
    }

    /** The iterator steps through list b. */
    ghost predicate On(iter: ListIterator<T>, b: nat)
      requires Valid()
      reads this, footprint, iter
      ensures On(iter, b) ==> b < |items| && iter.passed <= |items[b]|
    {
      b < |items| && iter.list == lists[b] && (NodesOf(lists, b); iter.Valid())
    }

    predicate AtEnd(iter: ListIterator<T>, b: nat)
      requires Valid() && On(iter, b)
      reads this, footprint, iter
      ensures AtEnd(iter, b) <==> iter.passed == |items[b]|
    {
      NodesOf(lists, b);
      iter.IsDone()
    }

    function Current(iter: ListIterator<T>, b: nat): T
      requires Valid() && On(iter, b) && !AtEnd(iter, b)
      reads this, footprint, iter
      ensures iter.passed < |items[b]| && Current(iter, b) == items[b][iter.passed]
    {
      NodesOf(lists, b);
      iter.Item()
    }

    method Advance(iter: ListIterator<T>, b: nat)
      requires Valid() && On(iter, b) && !AtEnd(iter, b) && iter !in footprint
      modifies iter
      ensures Valid() && On(iter, b) && iter.passed == old(iter.passed) + 1
    {
      NodesOf(lists, b);
      iter.Next();
    }

    /** The list's own check of itself, and its length. */
    method Check(b: nat) returns (numInList: nat)
      requires Valid() && b < |items|
      ensures numInList == |items[b]|
    {
      NodesOf(lists, b);
      lists[b].SanityCheck();
      numInList := lists[b].numInList;
    }
  }
}
