/** The self-expanding hash table (lib/hash.cc) and its iterator: lists on the heap as buckets, which stand for a
    finite map. */
module HashTables {
  import opened Options
  import opened Lists
  import opened HashSpec
  import opened Buckets

  const INITIAL_BUCKETS := 4
  const RESIZE_RATIO := 3
  const INCREASE_SIZE_BY := 4

  class HashTable<Key(==), T(==)> {
    const h: Hashing<Key, T>
    var buckets: BucketArray<T>
    var numBuckets: nat
    var numItems: nat

    /** What SanityCheck tests, and unique keys. */
    ghost predicate Sane()
      reads this, buckets, buckets.footprint
    {
      && this !in buckets.footprint && buckets.Valid() && |buckets.items| == numBuckets > 0
      && Filled(h, buckets.items, numBuckets, numItems)
    }

    /** No more than three items a bucket, on average. */
    ghost predicate Valid()
      reads this, buckets, buckets.footprint
    {
      Sane() && numItems <= RESIZE_RATIO * numBuckets
    }

    /** The map from keys to items that the table is. */
    ghost function Contents(): map<Key, T>
      reads this, buckets
    {
      AsMap(h, Items(buckets.items))
    }

    constructor (h: Hashing<Key, T>)
      ensures Valid() && Contents() == map[] && this.h == h && numBuckets == 4
      ensures fresh(buckets) && fresh(buckets.footprint)
    {
      this.h := h;
      numItems := 0;
      numBuckets := INITIAL_BUCKETS;
      buckets := new BucketArray<T>(INITIAL_BUCKETS);
      new;
      EmptyTable(h, buckets.items, numBuckets);
    }

    method InitBuckets(sz: nat)
      requires sz > 0
      modifies this`numBuckets, this`buckets
      ensures numBuckets == sz && fresh(buckets) && fresh(buckets.footprint) && buckets.Valid()
      ensures Filled(h, buckets.items, sz, 0) && Items(buckets.items) == {}
    {
      numBuckets := sz;
      buckets := new BucketArray<T>(sz);
      EmptyTable(h, buckets.items, sz);
    }

    predicate IsEmpty()
      requires Valid()
      reads this, buckets, buckets.footprint
      ensures IsEmpty() <==> Contents() == map[]
    {
      PlacedUnique(h, buckets.items, numBuckets);
      ItemsCount(h, buckets.items, numBuckets);
      MapCount(h, Items(buckets.items));
      numItems == 0
    }

    /** The item of a key in its bucket. */
    method FindInBucket(bucket: nat, key: Key) returns (item: Option<T>, ghost at: nat)
      requires buckets.Valid() && bucket < |buckets.items|
      ensures item.None? ==> forall i :: 0 <= i < |buckets.items[bucket]| ==> h.getKey(buckets.items[bucket][i]) != key
      ensures item.Some? ==>
        at < |buckets.items[bucket]| && buckets.items[bucket][at] == item.value && h.getKey(item.value) == key
    {
      hide BucketArray.Valid, BucketArray.On;
      var iter := buckets.Iterate(bucket);
      while !buckets.AtEnd(iter, bucket)
        invariant fresh(iter) && iter !in buckets.footprint && buckets.Valid() && buckets.On(iter, bucket)
        invariant forall j :: 0 <= j < iter.passed ==> h.getKey(buckets.items[bucket][j]) != key
        decreases |buckets.items[bucket]| - iter.passed
      {
        if key == h.getKey(buckets.Current(iter, bucket)) {
          return Some(buckets.Current(iter, bucket)), iter.passed;
        }
        buckets.Advance(iter, bucket);
      }
      return None, 0;
    }

    method Find(key: Key) returns (item: Option<T>)
      requires Valid()
      ensures item == if key in Contents() then Some(Contents()[key]) else None
    {
      var bucket := HashValue(h, key, numBuckets);
      ghost var at;
      item, at := FindInBucket(bucket, key);
      if item.Some? {
        FoundItem(h, buckets.items, numBuckets, bucket, at);
      } else {
        MissingKey(h, buckets.items, numBuckets, key);
      }
    }

    method Insert(item: T)
      requires Valid() && h.getKey(item) !in Contents()
      modifies this, buckets, buckets.footprint
      ensures Valid() && Contents() == old(Contents())[h.getKey(item) := item] && numItems == old(numItems) + 1
      ensures numBuckets == if old(numItems) >= 3 * old(numBuckets) then 4 * old(numBuckets) else old(numBuckets)
      ensures fresh({buckets} - {old(buckets)}) && fresh(buckets.footprint - old(buckets.footprint))
    {
      MakeRoom();
      Put(item);
    }

    /** Grows the table if it is crowded. */
    method MakeRoom()
      requires Valid()
      modifies this, buckets, buckets.footprint
      ensures Valid() && Contents() == old(Contents()) && numItems < RESIZE_RATIO * numBuckets && numItems == old(numItems)
      ensures numBuckets == if old(numItems) >= 3 * old(numBuckets) then 4 * old(numBuckets) else old(numBuckets)
      ensures fresh({buckets} - {old(buckets)}) && fresh(buckets.footprint - old(buckets.footprint))
    {
      if numItems / numBuckets >= RESIZE_RATIO {
        Crowded(numItems, numBuckets);
        ReHash();
      } else {
        NotCrowded(numItems, numBuckets);
      }
    }

    method Put(item: T)
      requires Valid() && numItems < RESIZE_RATIO * numBuckets && h.getKey(item) !in Contents()
      modifies this`numItems, buckets, buckets.footprint
      ensures Valid() && Contents() == old(Contents())[h.getKey(item) := item] && numItems == old(numItems) + 1
      ensures fresh(buckets.footprint - old(buckets.footprint))
    {
      hide Filled, AsMap, Items, HashValue, BucketArray.Valid;
      var b := HashValue(h, h.getKey(item), numBuckets);
      ghost var after := buckets.items[b := buckets.items[b] + [item]];
      PutKeeps(h, buckets.items, numBuckets, numItems, b, item, after);
      buckets.Append(b, item);
      numItems := numItems + 1;
    }

    /** Four times the buckets; the same items, each in its new bucket, and room for one more. */
    method ReHash()
      requires Valid() && numItems >= RESIZE_RATIO * numBuckets
      modifies this, buckets, buckets.footprint
      ensures Valid() && Contents() == old(Contents()) && numItems < RESIZE_RATIO * numBuckets
      ensures numBuckets == INCREASE_SIZE_BY * old(numBuckets) && numItems == old(numItems)
      ensures fresh(buckets) && fresh(buckets.footprint)
    {
      hide Placed, Moving, Total, Items, AsMap, BucketArray.Valid;
      var oldSize := numBuckets;
      SanityCheck();
      var oldTable := StartGrowing();
      MoveAll(h, oldTable, oldSize, buckets, Items(oldTable.items));
      AllMoved(h, oldTable.items, |oldTable.items|, buckets.items, numBuckets, Items(old(buckets.items)));
      SanityCheck();
    }

    /** New buckets, beside the old ones. */
    method StartGrowing() returns (oldTable: BucketArray<T>)
      requires Sane()
      modifies this`numBuckets, this`buckets
      ensures oldTable == old(buckets) && numBuckets == old(numBuckets) * INCREASE_SIZE_BY == |buckets.items|
      ensures Growing(h, oldTable, buckets, Items(oldTable.items)) && Total(buckets.items) == 0
      ensures this !in buckets.footprint && fresh(buckets) && fresh(buckets.footprint)
    {
      oldTable := buckets;
      PlacedUnique(h, buckets.items, numBuckets);
      InitBuckets(numBuckets * INCREASE_SIZE_BY);
    }

    /** Takes out the item of a key, which must be in the table, and returns it. */
    method Remove(key: Key) returns (item: T)
      requires Valid() && key in Contents()
      modifies this`numItems, buckets, buckets.footprint
      ensures Valid() && Contents() == old(Contents()) - {key} && item == old(Contents())[key]
      ensures fresh(buckets.footprint - old(buckets.footprint))
    {
      var bucket := HashValue(h, key, numBuckets);
      item := FindThere(bucket, key);
      Take(bucket, item);
    }

    method Take(bucket: nat, item: T)
      requires Valid() && bucket < numBuckets && item in buckets.items[bucket]
      modifies this`numItems, buckets, buckets.footprint
      ensures Valid() && Contents() == old(Contents()) - {h.getKey(item)}
      ensures h.getKey(item) in old(Contents()) && old(Contents())[h.getKey(item)] == item
      ensures fresh(buckets.footprint - old(buckets.footprint))
    {
      hide Filled, AsMap, Items, Without, BucketArray.Valid;
      ghost var after := buckets.items[bucket := Without(buckets.items[bucket], item)];
      DropKeeps(h, buckets.items, numBuckets, numItems, bucket, item, after);
      buckets.Remove(bucket, item);
      numItems := numItems - 1;
    }

    /** The item of a key that is in the table. */
    method FindThere(bucket: nat, key: Key) returns (item: T)
      requires Valid() && key in Contents() && bucket == HashValue(h, key, numBuckets)
      ensures item in buckets.items[bucket] && h.getKey(item) == key
    {
      var found;
      ghost var at;
      found, at := FindInBucket(bucket, key);
      if found.None? {
        MissingKey(h, buckets.items, numBuckets, key);
        assert false;
      }
      item := found.value;
    }

    /** The table's own check of itself: no assertion fails, those of the lists included. */
    method SanityCheck()
      requires Sane()
      ensures Sane()
    {
      var numFound := 0;
      var i := 0;
      while i < numBuckets
        invariant 0 <= i <= numBuckets && numFound == Total(buckets.items[..i])
      {
        var numInList := CheckBucket(i);
        NextTotal(buckets.items, i);
        numFound := numFound + numInList;
        i := i + 1;
      }
      assert buckets.items[..i] == buckets.items;
      assert numItems == numFound;
    }

    /** One bucket: the list's own check, and the walk along it. */
    method CheckBucket(i: nat) returns (numInList: nat)
      requires Sane() && i < numBuckets
      ensures numInList == |buckets.items[i]|
    {
      numInList := buckets.Check(i);
      assert Belongs(h, buckets.items[i], i, numBuckets);
      hide BucketArray.Valid, BucketArray.On, Filled;
      var iter := buckets.Iterate(i);
      while !buckets.AtEnd(iter, i)
        invariant fresh(iter) && iter !in buckets.footprint && buckets.Valid() && buckets.On(iter, i)
        decreases |buckets.items[i]| - iter.passed
      {
        assert i == HashValue(h, h.getKey(buckets.Current(iter, i)), numBuckets);
        buckets.Advance(iter, i);
      }
    }

    /** The first bucket from the given one on with an item in it, or the number of buckets. */
    method FindNextFullBucket(start: nat) returns (bucket: nat)
      requires buckets.Valid() && |buckets.items| == numBuckets && start <= numBuckets
      ensures start <= bucket <= numBuckets && (bucket < numBuckets ==> buckets.items[bucket] != [])
      ensures forall b :: start <= b < bucket ==> buckets.items[b] == []
    {
      bucket := start;
      while bucket < numBuckets
        invariant start <= bucket <= numBuckets
        invariant forall b :: start <= b < bucket ==> buckets.items[b] == []
      {
        if !buckets.IsEmpty(bucket) {
          break;
        }
        bucket := bucket + 1;
      }
    }
  }

  // ---- lemmas for the methods ----

  lemma Crowded(items: nat, n: nat)
    requires n > 0 && items / n >= RESIZE_RATIO
    ensures items >= RESIZE_RATIO * n
  {
    assert items == n * (items / n) + items % n;
    assert n * (items / n) >= n * RESIZE_RATIO;
  }

  lemma NotCrowded(items: nat, n: nat)
    requires n > 0 && items / n < RESIZE_RATIO
    ensures items < RESIZE_RATIO * n
  {
    assert items == n * (items / n) + items % n;
    assert n * (items / n) <= n * (RESIZE_RATIO - 1);
  }

  lemma FoundItem<Key, T>(h: Hashing<Key, T>, buckets: seq<seq<T>>, n: nat, b: nat, i: nat)
    requires Placed(h, buckets, n) && b < |buckets| && i < |buckets[b]|
    ensures h.getKey(buckets[b][i]) in AsMap(h, Items(buckets))
    ensures AsMap(h, Items(buckets))[h.getKey(buckets[b][i])] == buckets[b][i]
  {
    ItemIn(buckets, b, i);
    PlacedUnique(h, buckets, n);
    ItemOfIs(h, Items(buckets), buckets[b][i]);
  }

  /** A key that is not in its bucket is not in the table. */
  lemma MissingKey<Key, T>(h: Hashing<Key, T>, buckets: seq<seq<T>>, n: nat, key: Key)
    requires Placed(h, buckets, n) && |buckets| == n
    requires var b := HashValue(h, key, n); forall i :: 0 <= i < |buckets[b]| ==> h.getKey(buckets[b][i]) != key
    ensures key !in AsMap(h, Items(buckets))
  {
    forall x | x in Items(buckets)
      ensures h.getKey(x) != key
    {
      var b, i := ItemPlace(h, buckets, n, x);
    }
  }

  lemma KeyNowhere<Key, T>(h: Hashing<Key, T>, buckets: seq<seq<T>>, n: nat, key: Key, b: nat)
    requires Placed(h, buckets, n) && b < |buckets| && key !in AsMap(h, Items(buckets))
    ensures forall i :: 0 <= i < |buckets[b]| ==> h.getKey(buckets[b][i]) != key
  {
    forall i | 0 <= i < |buckets[b]|
      ensures h.getKey(buckets[b][i]) != key
    {
      FoundItem(h, buckets, n, b, i);
    }
  }

  /** While the table grows, each item is in the old buckets or in the new ones. */
  ghost predicate Moving<Key, T>(h: Hashing<Key, T>, from: seq<seq<T>>, m: nat, to: seq<seq<T>>, n: nat, all: set<T>) {
    && Placed(h, from, m) && Placed(h, to, n) && |to| == n
    && Items(from) !! Items(to) && Items(from) + Items(to) == all && UniqueKeys(h, all)
  }

  lemma MoveItem<Key, T>(h: Hashing<Key, T>, from: seq<seq<T>>, m: nat, to: seq<seq<T>>, n: nat, all: set<T>, i: nat, b: nat)
    requires Moving(h, from, m, to, n, all) && i < |from| && from[i] != []
    requires b == HashValue(h, h.getKey(from[i][0]), n)
    ensures Moving(h, from[i := Dropped(from[i], 0)], m, to[b := to[b] + [from[i][0]]], n, all)
    ensures Total(from[i := Dropped(from[i], 0)]) == Total(from) - 1
    ensures Total(to[b := to[b] + [from[i][0]]]) == Total(to) + 1
  {
    var x := from[i][0];
    ItemIn(from, i, 0);
    forall j | 0 <= j < |to[b]|
      ensures h.getKey(to[b][j]) != h.getKey(x)
    {
      ItemIn(to, b, j);
    }
    DropItem(h, from, m, i, 0);
    AppendItem(h, to, n, b, x);
  }

  /** Each item in the bucket of its key, keys unique, and the right number of items. */
  ghost predicate Filled<Key, T>(h: Hashing<Key, T>, t: seq<seq<T>>, n: nat, count: nat) {
    |t| == n > 0 && Placed(h, t, n) && count == Total(t)
  }

  lemma NextTotal<T>(t: seq<seq<T>>, i: nat)
    requires i < |t|
    ensures Total(t[..i + 1]) == Total(t[..i]) + |t[i]|
  {
    assert t[..i + 1][..i] == t[..i];
  }

  lemma EmptyTable<Key, T>(h: Hashing<Key, T>, t: seq<seq<T>>, n: nat)
    requires |t| == n > 0 && forall b :: 0 <= b < n ==> t[b] == []
    ensures Filled(h, t, n, 0) && Items(t) == {} && AsMap(h, Items(t)) == map[]
  {
    NoItems(h, t, n);
    assert KeysOf(h, Items(t)) == {};
  }

  /** An item with a new key at the end of its bucket. */
  lemma PutKeeps<Key, T>(h: Hashing<Key, T>, t: seq<seq<T>>, n: nat, count: nat, b: nat, item: T, after: seq<seq<T>>)
    requires Filled(h, t, n, count) && h.getKey(item) !in AsMap(h, Items(t)) && b == HashValue(h, h.getKey(item), n)
    requires after == t[b := t[b] + [item]]
    ensures item !in t[b] && Filled(h, after, n, count + 1)
    ensures AsMap(h, Items(after)) == AsMap(h, Items(t))[h.getKey(item) := item]
  {
    KeyNowhere(h, t, n, h.getKey(item), b);
    PlacedUnique(h, t, n);
    AppendItem(h, t, n, b, item);
    MapInsert(h, Items(t), item);
  }

  /** An item out of its bucket. */
  lemma DropKeeps<Key, T>(h: Hashing<Key, T>, t: seq<seq<T>>, n: nat, count: nat, b: nat, item: T, after: seq<seq<T>>)
    requires Filled(h, t, n, count) && b < n && item in t[b] && after == t[b := Without(t[b], item)]
    ensures count > 0 && Filled(h, after, n, count - 1)
    ensures AsMap(h, Items(after)) == AsMap(h, Items(t)) - {h.getKey(item)}
    ensures h.getKey(item) in AsMap(h, Items(t)) && AsMap(h, Items(t))[h.getKey(item)] == item
  {
    PlacedUnique(h, t, n);
    DropItem(h, t, n, b, IndexOf(t[b], item));
    MapRemove(h, Items(t), item);
  }

  /** One turn of growing: the front of an old bucket goes to the end of its new one. */
  lemma MoveOne<Key, T>(h: Hashing<Key, T>, from: seq<seq<T>>, m: nat, to: seq<seq<T>>, n: nat, all: set<T>, i: nat, b: nat)
    requires Moving(h, from, m, to, n, all) && i < |from| && from[i] != []
    requires b == HashValue(h, h.getKey(from[i][0]), n)
    ensures from[i][0] !in to[b]
    ensures Moving(h, from[i := from[i][1..]], m, to[b := to[b] + [from[i][0]]], n, all)
    ensures Total(from[i := from[i][1..]]) + Total(to[b := to[b] + [from[i][0]]]) == Total(from) + Total(to)
  {
    MoveItem(h, from, m, to, n, all, i, b);
    ItemIn(from, i, 0);
    forall j | 0 <= j < |to[b]|
      ensures to[b][j] != from[i][0]
    {
      ItemIn(to, b, j);
    }
    assert Dropped(from[i], 0) == from[i][1..];
  }

  lemma AllMoved<Key, T>(h: Hashing<Key, T>, from: seq<seq<T>>, m: nat, to: seq<seq<T>>, n: nat, all: set<T>)
    requires Moving(h, from, m, to, n, all) && forall b :: 0 <= b < |from| ==> from[b] == []
    ensures Total(from) == 0 && Items(to) == all && Filled(h, to, n, Total(to))
  {
    NoItems(h, from, m);
  }

  // ---- growing ----

  /** Two arrays of lists, and nothing shared. */
  ghost predicate Beside<T>(from: BucketArray<T>, to: BucketArray<T>)
    reads from, from.footprint, to, to.footprint
  {
    && from != to && from !in to.footprint && to !in from.footprint && from.footprint !! to.footprint
    && from.Valid() && to.Valid()
  }

  /** The old buckets and the new ones while the table grows. */
  ghost predicate Growing<Key, T>(h: Hashing<Key, T>, from: BucketArray<T>, to: BucketArray<T>, all: set<T>)
    reads from, from.footprint, to, to.footprint
  {
    Beside(from, to) && Moving(h, from.items, |from.items|, to.items, |to.items|, all)
  }

  /** The front of an old bucket goes to the end of its new one. */
  method MoveFront<Key, T(==)>(h: Hashing<Key, T>, from: BucketArray<T>, to: BucketArray<T>, i: nat, ghost all: set<T>)
    requires Growing(h, from, to, all) && i < |from.items| && from.items[i] != []
    modifies from, from.footprint, to, to.footprint
    ensures Growing(h, from, to, all) && |to.items| == old(|to.items|)
    ensures from.items == old(from.items)[i := old(from.items)[i][1..]]
    ensures Total(from.items) + Total(to.items) == old(Total(from.items) + Total(to.items))
    ensures fresh(from.footprint - old(from.footprint)) && fresh(to.footprint - old(to.footprint))
  {
    ghost var b := HashValue(h, h.getKey(from.items[i][0]), |to.items|);
    MoveOne(h, from.items, |from.items|, to.items, |to.items|, all, i, b);
    Transfer(h, from, to, i, b);
  }

  method Transfer<Key, T(==)>(h: Hashing<Key, T>, from: BucketArray<T>, to: BucketArray<T>, i: nat, ghost b: nat)
    requires Beside(from, to) && i < |from.items| && from.items[i] != [] && |to.items| > 0
    requires b == HashValue(h, h.getKey(from.items[i][0]), |to.items|) && from.items[i][0] !in to.items[b]
    modifies from, from.footprint, to, to.footprint
    ensures Beside(from, to) && from.items == old(from.items)[i := old(from.items)[i][1..]]
    ensures to.items == old(to.items)[b := old(to.items)[b] + [old(from.items)[i][0]]]
    ensures fresh(from.footprint - old(from.footprint)) && fresh(to.footprint - old(to.footprint))
  {
    hide BucketArray.Valid;
    var item := from.RemoveFront(i);
    to.Append(HashValue(h, h.getKey(item), to.Length()), item);
  }

  /** One old bucket goes to the new ones, item by item. */
  method Drain<Key, T(==)>(h: Hashing<Key, T>, from: BucketArray<T>, to: BucketArray<T>, i: nat, ghost all: set<T>)
    requires Growing(h, from, to, all) && i < |from.items|
    modifies from, from.footprint, to, to.footprint
    ensures Growing(h, from, to, all) && |to.items| == old(|to.items|)
    ensures from.items == old(from.items)[i := []]
    ensures Total(from.items) + Total(to.items) == old(Total(from.items) + Total(to.items))
    ensures fresh(from.footprint - old(from.footprint)) && fresh(to.footprint - old(to.footprint))
  {
    hide Moving, Total, BucketArray.Valid;
    while !from.IsEmpty(i)
      invariant Growing(h, from, to, all) && |to.items| == old(|to.items|)
      invariant i < |from.items| && from.items == old(from.items)[i := from.items[i]]
      invariant Total(from.items) + Total(to.items) == old(Total(from.items) + Total(to.items))
      invariant fresh(from.footprint - old(from.footprint)) && fresh(to.footprint - old(to.footprint))
      decreases |from.items[i]|
    {
      MoveFront(h, from, to, i, all);
    }
  }

  /** The loop of ReHash over the old buckets. */
  method MoveAll<Key, T(==)>(h: Hashing<Key, T>, from: BucketArray<T>, oldSize: nat, to: BucketArray<T>, ghost all: set<T>)
    requires Growing(h, from, to, all) && |from.items| == oldSize
    modifies from, from.footprint, to, to.footprint
    ensures Growing(h, from, to, all) && |to.items| == old(|to.items|) && |from.items| == old(|from.items|)
    ensures forall b :: 0 <= b < |from.items| ==> from.items[b] == []
    ensures Total(from.items) + Total(to.items) == old(Total(from.items) + Total(to.items))
    ensures fresh(from.footprint - old(from.footprint)) && fresh(to.footprint - old(to.footprint))
  {
    hide Moving, Total, BucketArray.Valid;
    var i := 0;
    while i < oldSize
      invariant 0 <= i <= |from.items| == oldSize && |to.items| == old(|to.items|)
      invariant Growing(h, from, to, all)
      invariant forall b :: 0 <= b < i ==> from.items[b] == []
      invariant Total(from.items) + Total(to.items) == old(Total(from.items) + Total(to.items))
      invariant fresh(from.footprint - old(from.footprint)) && fresh(to.footprint - old(to.footprint))
    {
      Drain(h, from, to, i, all);
      i := i + 1;
    }
  }

  /** Steps through every item of a table that does not change meanwhile. */
  class HashIterator<Key(==), T(==)> {
    const table: HashTable<Key, T>
    var bucket: nat
    var bucketIter: ListIterator?<T>

    ghost predicate Valid()
      reads this, bucketIter, table, table.buckets, table.buckets.footprint
    {
      && this !in table.buckets.footprint && table.Valid() && bucket <= table.numBuckets
      && (bucket == table.numBuckets <==> bucketIter == null)
      && (bucketIter != null ==>
            && bucketIter !in table.buckets.footprint && table.buckets.On(bucketIter, bucket)
            && bucketIter.passed < |table.buckets.items[bucket]|)
    }

    /** How many items it has passed. */
    ghost function Passed(): nat
      requires Valid()
      reads this, bucketIter, table, table.buckets, table.buckets.footprint
    {
      |Flat(table.buckets.items[..bucket])| + if bucketIter == null then 0 else bucketIter.passed
    }

    constructor (table: HashTable<Key, T>)
      requires table.Valid()
      ensures Valid() && this.table == table && Passed() == 0 && (bucketIter != null ==> fresh(bucketIter))
    {
      this.table := table;
      bucket := 0;
      bucketIter := null;
      new;
      GoTo(0);
    }

    /** On to the next bucket with an item in it. */
    method GoTo(start: nat)
      requires this !in table.buckets.footprint && table.Valid() && start <= table.numBuckets
      modifies this
      ensures Valid() && Passed() == |Flat(table.buckets.items[..start])| && (bucketIter != null ==> fresh(bucketIter))
    {
      hide Filled, Flat, BucketArray.Valid, BucketArray.On;
      var full, iter := Begin(table, start);
      EmptyStretch(table.buckets.items, start, full);
      bucket, bucketIter := full, iter;
    }

    static method Begin(table: HashTable<Key, T>, start: nat) returns (full: nat, iter: ListIterator?<T>)
      requires table.Valid() && start <= table.numBuckets
      ensures start <= full <= table.numBuckets && forall b :: start <= b < full ==> table.buckets.items[b] == []
      ensures full == table.numBuckets <==> iter == null
      ensures iter != null ==>
        && fresh(iter) && iter !in table.buckets.footprint && table.buckets.On(iter, full)
        && iter.passed == 0 < |table.buckets.items[full]|
    {
      full := table.FindNextFullBucket(start);
      iter := null;
      if full < table.numBuckets {
        iter := table.buckets.Iterate(full);
      }
    }

    predicate IsDone()
      requires Valid()
      reads this, bucketIter, table, table.buckets, table.buckets.footprint
      ensures IsDone() <==> Passed() == |Flat(table.buckets.items)|
    {
      NotPassed(table.buckets.items, bucket, if bucketIter == null then 0 else bucketIter.passed);
      bucket == table.numBuckets
    }

    function Item(): T
      requires Valid() && !IsDone()
      reads this, bucketIter, table, table.buckets, table.buckets.footprint
      ensures Passed() < |Flat(table.buckets.items)| && Item() == Flat(table.buckets.items)[Passed()]
    {
      NotPassed(table.buckets.items, bucket, bucketIter.passed);
      table.buckets.Current(bucketIter, bucket)
    }

    method Next()
      requires Valid() && !IsDone()
      modifies this, bucketIter
      ensures Valid() && Passed() == old(Passed()) + 1
      ensures bucketIter != null ==> bucketIter == old(bucketIter) || fresh(bucketIter)
    {
      hide Filled, Flat, BucketArray.Valid, BucketArray.On;
      FlatPrefix(table.buckets.items, bucket);
      table.buckets.Advance(bucketIter, bucket);
      if table.buckets.AtEnd(bucketIter, bucket) {
        GoTo(bucket + 1);
      }
    }
  }

  lemma EmptyStretch<T>(buckets: seq<seq<T>>, lo: nat, hi: nat)
    requires lo <= hi <= |buckets| && forall b :: lo <= b < hi ==> buckets[b] == []
    ensures Flat(buckets[..hi]) == Flat(buckets[..lo])
    ensures Flat(buckets[..0]) == []
  {
    if lo < hi {
      EmptyStretch(buckets, lo, hi - 1);
      assert buckets[..hi][..hi - 1] == buckets[..hi - 1];
    }
  }

  lemma NotPassed<T>(buckets: seq<seq<T>>, bucket: nat, position: nat)
    requires bucket <= |buckets| && if bucket < |buckets| then position < |buckets[bucket]| else position == 0
    ensures bucket == |buckets| ==> |Flat(buckets[..bucket])| + position == |Flat(buckets)|
    ensures bucket < |buckets| ==>
      && |Flat(buckets[..bucket])| + position < |Flat(buckets)|
      && Flat(buckets)[|Flat(buckets[..bucket])| + position] == buckets[bucket][position]
  {
    if bucket < |buckets| {
      FlatPrefix(buckets, bucket);
    } else {
      assert buckets[..bucket] == buckets;
    }
  }

  lemma PrefixGrows<T>(s: seq<T>, k: nat)
    requires k < |s|
    ensures s[..k + 1] == s[..k] + [s[k]]
  {}

  lemma ItemsOnce<Key, T>(table: HashTable<Key, T>)
    requires table.Valid()
    ensures Distinct(Flat(table.buckets.items)) && SetOf(Flat(table.buckets.items)) == Items(table.buckets.items)
  {
    FlatOnce(table.h, table.buckets.items, table.numBuckets);
  }

  /** The loop that a client writes: it meets every item of the table once. */
  method Visit<Key(==), T(==)>(table: HashTable<Key, T>) returns (visited: seq<T>)
    requires table.Valid()
    ensures Distinct(visited) && SetOf(visited) == Items(table.buckets.items)
  {
    hide Filled, Flat, BucketArray.Valid, BucketArray.On;
    ghost var all := Flat(table.buckets.items);
    ItemsOnce(table);
    var iter := new HashIterator(table);
    visited := [];
    while !iter.IsDone()
      invariant iter.Valid() && iter.table == table && fresh(iter) && (iter.bucketIter != null ==> fresh(iter.bucketIter))
      invariant iter.Passed() == |visited| <= |all| && visited == all[..|visited|]
      decreases |all| - |visited|
    {
      var item := iter.Item();
      assert item == all[|visited|];
      PrefixGrows(all, |visited|);
      visited := visited + [item];
      iter.Next();
    }
    assert all[..|visited|] == all;
  }
}
