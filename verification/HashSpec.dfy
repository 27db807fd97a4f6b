/** What the buckets of a hash table stand for (lib/hash.cc): a finite map, whatever their number. */
module HashSpec {
  import opened Lists

  /** How to find the key of an item, and the hash of a key. */
  datatype Hashing<!Key, !T> = Hashing(getKey: T -> Key, hash: Key -> nat)

  function HashValue<Key, T>(h: Hashing<Key, T>, key: Key, n: nat): (b: nat)
    requires n > 0
    ensures b < n
  {
    h.hash(key) % n
  }

  /** No two items of a bucket share a key. */
  ghost predicate KeysApart<Key, T>(h: Hashing<Key, T>, bucket: seq<T>) {
    forall i, j :: 0 <= i < j < |bucket| ==> h.getKey(bucket[i]) != h.getKey(bucket[j])
  }

  /** The items of bucket b hash to it, in a table of n buckets. */
  ghost predicate Belongs<Key, T>(h: Hashing<Key, T>, bucket: seq<T>, b: nat, n: nat)
    requires n > 0
  {
    forall i :: 0 <= i < |bucket| ==> HashValue(h, h.getKey(bucket[i]), n) == b
  }

  /** Each item is in the bucket of its key, and keys are unique. */
  ghost predicate Placed<Key, T>(h: Hashing<Key, T>, buckets: seq<seq<T>>, n: nat) {
    n > 0 && forall b :: 0 <= b < |buckets| ==> Belongs(h, buckets[b], b, n) && KeysApart(h, buckets[b])
  }

  /** The items of the table. */
  ghost function Items<T>(buckets: seq<seq<T>>): set<T> {
    set b, i | 0 <= b < |buckets| && 0 <= i < |buckets[b]| :: buckets[b][i]
  }

  /** How many there are. */
  function Total<T>(buckets: seq<seq<T>>): nat {
    if buckets == [] then 0 else Total(buckets[..|buckets| - 1]) + |buckets[|buckets| - 1]|
  }

  ghost function KeysOf<Key, T>(h: Hashing<Key, T>, items: set<T>): set<Key> {
    set x | x in items :: h.getKey(x)
  }

  ghost function ItemOf<Key, T>(h: Hashing<Key, T>, items: set<T>, k: Key): T
    requires k in KeysOf(h, items)
  {
    var x :| x in items && h.getKey(x) == k;
    x
  }

  ghost predicate UniqueKeys<Key, T>(h: Hashing<Key, T>, items: set<T>) {
    forall x, y :: x in items && y in items && h.getKey(x) == h.getKey(y) ==> x == y
  }

  /** The map that a set of items with unique keys is. */
  ghost function AsMap<Key, T>(h: Hashing<Key, T>, items: set<T>): map<Key, T> {
    map k | k in KeysOf(h, items) :: ItemOf(h, items, k)
  }

  // ---- where an item is ----

  lemma ItemIn<T>(buckets: seq<seq<T>>, b: nat, i: nat)
    requires b < |buckets| && i < |buckets[b]|
    ensures buckets[b][i] in Items(buckets)
  {}

  lemma ItemPlace<Key, T>(h: Hashing<Key, T>, buckets: seq<seq<T>>, n: nat, x: T) returns (b: nat, i: nat)
    requires Placed(h, buckets, n) && x in Items(buckets)
    ensures b < |buckets| && i < |buckets[b]| && buckets[b][i] == x && b == HashValue(h, h.getKey(x), n)
  {
    b, i :| 0 <= b < |buckets| && 0 <= i < |buckets[b]| && buckets[b][i] == x;
  }

  lemma PlacedUnique<Key, T>(h: Hashing<Key, T>, buckets: seq<seq<T>>, n: nat)
    requires Placed(h, buckets, n)
    ensures UniqueKeys(h, Items(buckets))
  {
    forall x, y | x in Items(buckets) && y in Items(buckets) && h.getKey(x) == h.getKey(y)
      ensures x == y
    {
      var b, i := ItemPlace(h, buckets, n, x);
      var c, j := ItemPlace(h, buckets, n, y);
    }
  }

  lemma {:induction false} TotalUpdate<T>(buckets: seq<seq<T>>, b: nat, bucket: seq<T>)
    requires b < |buckets|
    ensures Total(buckets[b := bucket]) == Total(buckets) - |buckets[b]| + |bucket|
    decreases |buckets|
  {
    var n := |buckets| - 1;
    if b < n {
      TotalUpdate(buckets[..n], b, bucket);
      assert buckets[b := bucket][..n] == buckets[..n][b := bucket];
    } else {
      assert buckets[b := bucket][..n] == buckets[..n];
    }
  }

  /** An item appended to the bucket of its key, which no other item of the bucket has. */
  lemma AppendItem<Key, T>(h: Hashing<Key, T>, buckets: seq<seq<T>>, n: nat, b: nat, x: T)
    requires Placed(h, buckets, n) && b < |buckets| && b == HashValue(h, h.getKey(x), n)
    requires forall i :: 0 <= i < |buckets[b]| ==> h.getKey(buckets[b][i]) != h.getKey(x)
    ensures Placed(h, buckets[b := buckets[b] + [x]], n)
    ensures Items(buckets[b := buckets[b] + [x]]) == Items(buckets) + {x}
    ensures Total(buckets[b := buckets[b] + [x]]) == Total(buckets) + 1
  {
    TotalUpdate(buckets, b, buckets[b] + [x]);
    var now := buckets[b := buckets[b] + [x]];
    assert now[b][|buckets[b]|] == x;
    forall y | y in Items(buckets)
      ensures y in Items(now)
    {
      var c, i := ItemPlace(h, buckets, n, y);
      assert now[c][i] == y;
    }
    forall y | y in Items(now) && y != x
      ensures y in Items(buckets)
    {
      var c, i :| 0 <= c < |now| && 0 <= i < |now[c]| && now[c][i] == y;
      assert i < |buckets[c]| && buckets[c][i] == y;
    }
  }

  /** An item taken out of its bucket. */
  lemma DropItem<Key, T>(h: Hashing<Key, T>, buckets: seq<seq<T>>, n: nat, b: nat, k: nat)
    requires Placed(h, buckets, n) && b < |buckets| && k < |buckets[b]|
    ensures Placed(h, buckets[b := Dropped(buckets[b], k)], n)
    ensures Items(buckets[b := Dropped(buckets[b], k)]) == Items(buckets) - {buckets[b][k]}
    ensures buckets[b][k] in Items(buckets)
    ensures Total(buckets[b := Dropped(buckets[b], k)]) == Total(buckets) - 1
  {
    var bucket, x := Dropped(buckets[b], k), buckets[b][k];
    TotalUpdate(buckets, b, bucket);
    var now := buckets[b := bucket];
    forall i | 0 <= i < |bucket|
      ensures bucket[i] == buckets[b][if i < k then i else i + 1]
    {
      DroppedAt(buckets[b], k, i);
    }
    forall y | y in Items(buckets) && y != x
      ensures y in Items(now)
    {
      var c, i := ItemPlace(h, buckets, n, y);
      StillThere(buckets, b, k, c, i);
    }
    forall y | y in Items(now)
      ensures y in Items(buckets) && y != x
    {
      var c, i :| 0 <= c < |now| && 0 <= i < |now[c]| && now[c][i] == y;
      var j := if c == b && i >= k then i + 1 else i;
      assert buckets[c][j] == y && (c == b ==> j != k);
    }
  }

  lemma StillThere<T>(buckets: seq<seq<T>>, b: nat, k: nat, c: nat, i: nat)
    requires b < |buckets| && k < |buckets[b]| && c < |buckets| && i < |buckets[c]| && !(c == b && i == k)
    ensures buckets[c][i] in Items(buckets[b := Dropped(buckets[b], k)])
  {
    var now := buckets[b := Dropped(buckets[b], k)];
    var j := if c == b && i > k then i - 1 else i;
    assert now[c][j] == buckets[c][i];
  }

  /** An empty table. */
  lemma NoItems<Key, T>(h: Hashing<Key, T>, buckets: seq<seq<T>>, n: nat)
    requires n > 0 && forall b :: 0 <= b < |buckets| ==> buckets[b] == []
    ensures Placed(h, buckets, n) && Items(buckets) == {} && Total(buckets) == 0
  {
    if buckets != [] {
      NoItems(h, buckets[..|buckets| - 1], n);
    }
  }

  /** A table of no items has none in any bucket. */
  lemma {:induction false} TotalZero<T>(buckets: seq<seq<T>>)
    requires forall b :: 0 <= b < |buckets| ==> buckets[b] == []
    ensures Total(buckets) == 0
  {
    if buckets != [] {
      TotalZero(buckets[..|buckets| - 1]);
    }
  }

  // ---- the map ----

  lemma ItemOfIs<Key, T>(h: Hashing<Key, T>, items: set<T>, x: T)
    requires UniqueKeys(h, items) && x in items
    ensures h.getKey(x) in KeysOf(h, items) && ItemOf(h, items, h.getKey(x)) == x
  {}

  lemma MapInsert<Key, T>(h: Hashing<Key, T>, items: set<T>, x: T)
    requires UniqueKeys(h, items) && h.getKey(x) !in KeysOf(h, items)
    ensures UniqueKeys(h, items + {x}) && AsMap(h, items + {x}) == AsMap(h, items)[h.getKey(x) := x]
  {
    var more := items + {x};
    assert forall y :: y in items ==> h.getKey(y) in KeysOf(h, items);
    ItemOfIs(h, more, x);
    assert KeysOf(h, more) == KeysOf(h, items) + {h.getKey(x)};
    forall k | k in KeysOf(h, items)
      ensures ItemOf(h, more, k) == ItemOf(h, items, k)
    {
      var y :| y in items && h.getKey(y) == k;
      ItemOfIs(h, items, y);
      ItemOfIs(h, more, y);
    }
  }

  lemma MapRemove<Key, T>(h: Hashing<Key, T>, items: set<T>, x: T)
    requires UniqueKeys(h, items) && x in items
    ensures UniqueKeys(h, items - {x}) && AsMap(h, items - {x}) == AsMap(h, items) - {h.getKey(x)}
    ensures h.getKey(x) in AsMap(h, items) && AsMap(h, items)[h.getKey(x)] == x
  {
    var fewer := items - {x};
    ItemOfIs(h, items, x);
    forall k | k in KeysOf(h, items) && k != h.getKey(x)
      ensures k in KeysOf(h, fewer) && ItemOf(h, fewer, k) == ItemOf(h, items, k)
    {
      var y :| y in items && h.getKey(y) == k;
      ItemOfIs(h, items, y);
      assert y in fewer;
      ItemOfIs(h, fewer, y);
    }
    assert KeysOf(h, fewer) == KeysOf(h, items) - {h.getKey(x)};
  }

  /** The map has as many entries as the table has items. */
  lemma {:induction false} MapCount<Key, T>(h: Hashing<Key, T>, items: set<T>)
    requires UniqueKeys(h, items)
    ensures |AsMap(h, items)| == |items|
    decreases items
  {
    if items == {} {
      assert AsMap(h, items) == map[];
    } else {
      var x :| x in items;
      MapRemove(h, items, x);
      MapCount(h, items - {x});
      var all, key := AsMap(h, items), h.getKey(x);
      assert all == (all - {key})[key := x];
    }
  }

  ghost function SetOf<T>(s: seq<T>): set<T> {
    set i | 0 <= i < |s| :: s[i]
  }

  lemma {:induction false} SetCount<T>(s: seq<T>)
    requires Distinct(s)
    ensures |SetOf(s)| == |s|
  {
    if s == [] {
      assert SetOf(s) == {};
    } else {
      var n := |s| - 1;
      SetCount(s[..n]);
      assert SetOf(s) == SetOf(s[..n]) + {s[n]};
    }
  }

  lemma {:induction false} ItemsCount<Key, T>(h: Hashing<Key, T>, buckets: seq<seq<T>>, n: nat)
    requires Placed(h, buckets, n)
    ensures |Items(buckets)| == Total(buckets)
  {
    if buckets == [] {
      assert Items(buckets) == {};
    } else {
      var m := |buckets| - 1;
      var init, last := buckets[..m], buckets[m];
      ItemsCount(h, init, n);
      assert Distinct(last) by {
        assert KeysApart(h, last);
      }
      SetCount(last);
      SplitItems(h, buckets, n, m);
    }
  }

  lemma SplitItems<Key, T>(h: Hashing<Key, T>, buckets: seq<seq<T>>, n: nat, m: nat)
    requires Placed(h, buckets, n) && |buckets| == m + 1
    ensures Items(buckets) == Items(buckets[..m]) + SetOf(buckets[m])
    ensures Items(buckets[..m]) !! SetOf(buckets[m])
  {
    var init, last := buckets[..m], buckets[m];
    forall y | y in Items(buckets)
      ensures y in Items(init) || y in SetOf(last)
    {
      var c, i := ItemPlace(h, buckets, n, y);
      if c < m {
        ItemIn(init, c, i);
      }
    }
    forall y | y in Items(init)
      ensures y in Items(buckets) && y !in SetOf(last)
    {
      var c, i := ItemPlace(h, init, n, y);
      ItemIn(buckets, c, i);
      assert HashValue(h, h.getKey(y), n) == c;
    }
    forall y | y in SetOf(last)
      ensures y in Items(buckets)
    {
      var i :| 0 <= i < |last| && last[i] == y;
      ItemIn(buckets, m, i);
    }
  }

  // ---- the order in which an iterator goes ----

  /** The buckets one after another. */
  function Flat<T>(buckets: seq<seq<T>>): seq<T> {
    if buckets == [] then [] else Flat(buckets[..|buckets| - 1]) + buckets[|buckets| - 1]
  }

  lemma {:induction false} FlatPrefix<T>(buckets: seq<seq<T>>, b: nat)
    requires b < |buckets|
    ensures |Flat(buckets[..b + 1])| == |Flat(buckets[..b])| + |buckets[b]| <= |Flat(buckets)|
    ensures forall i :: 0 <= i < |buckets[b]| ==> Flat(buckets)[|Flat(buckets[..b])| + i] == buckets[b][i]
    decreases |buckets|
  {
    var n := |buckets| - 1;
    assert buckets[..b + 1][..b] == buckets[..b];
    if b < n {
      FlatPrefix(buckets[..n], b);
      assert buckets[..n][..b + 1] == buckets[..b + 1] && buckets[..n][..b] == buckets[..b];
    } else {
      assert buckets[..b + 1] == buckets;
    }
  }

  /** Every item is met, and none twice. */
  lemma {:induction false} FlatOnce<Key, T>(h: Hashing<Key, T>, buckets: seq<seq<T>>, n: nat)
    requires Placed(h, buckets, n)
    ensures Distinct(Flat(buckets)) && SetOf(Flat(buckets)) == Items(buckets)
  {
    if buckets == [] {
      assert Items(buckets) == {} && SetOf(Flat(buckets)) == {};
    } else {
      var m := |buckets| - 1;
      FlatOnce(h, buckets[..m], n);
      SplitItems(h, buckets, n, m);
      assert Distinct(buckets[m]) by {
        assert KeysApart(h, buckets[m]);
      }
      JoinDistinct(Flat(buckets[..m]), buckets[m]);
    }
  }

  lemma JoinDistinct<T>(s: seq<T>, t: seq<T>)
    requires Distinct(s) && Distinct(t) && SetOf(s) !! SetOf(t)
    ensures Distinct(s + t) && SetOf(s + t) == SetOf(s) + SetOf(t)
  {
    var r := s + t;
    assert forall i :: 0 <= i < |s| ==> s[i] in SetOf(s) && r[i] == s[i];
    assert forall i :: 0 <= i < |t| ==> t[i] in SetOf(t) && r[|s| + i] == t[i];
    forall i, j | 0 <= i < j < |r|
      ensures r[i] != r[j]
    {
      if i < |s| && j >= |s| {
        assert r[i] in SetOf(s) && r[j] == t[j - |s|];
      }
    }
  }
}
