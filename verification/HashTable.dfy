// HashTable: chained buckets that grow with the table.
module HashTables {
  import opened Collections

  const INITIAL_BUCKETS := 4
  const RESIZE_RATIO := 3
  const INCREASE_SIZE_BY := 4

  class HashTable<K(==), T(==)> {
    const getKey: T -> K
    const hash: K -> nat
    var buckets: array<seq<T>>
    var numItems: int
    ghost var model: map<K, T>    // what the table stands for

    /** The buckets hold exactly the items of `m`, each once, in the bucket its key hashes to. */
    ghost predicate Stored(b: seq<seq<T>>, m: map<K, T>)
    {
      && |b| > 0
      && (forall i :: 0 <= i < |b| ==> Distinct(b[i]))
      && (forall i, j :: 0 <= i < |b| && 0 <= j < |b[i]| ==> Belongs(b[i][j], i, |b|, m))
      && (forall k :: k in m ==> getKey(m[k]) == k && m[k] in b[hash(k) % |b|])
    }

    ghost predicate Belongs(x: T, i: nat, n: nat, m: map<K, T>)
      requires n > 0
    {
      getKey(x) in m && m[getKey(x)] == x && hash(getKey(x)) % n == i
    }

    ghost predicate Valid()
      reads this, buckets
    {
      buckets.Length > 0 && Stored(buckets[..], model) && numItems == |model|
      && numItems <= RESIZE_RATIO * buckets.Length
    }

    constructor (getKey: T -> K, hash: K -> nat)
      ensures Valid() && model == map[] && fresh(buckets) && this.getKey == getKey && this.hash == hash
      ensures buckets.Length == 4
    {
      this.getKey, this.hash, numItems, model := getKey, hash, 0, map[];
      buckets := new seq<T>[INITIAL_BUCKETS](i => []);
    }

    function HashValue(key: K): (b: nat)
      requires buckets.Length > 0
      reads this
      ensures b < buckets.Length
    {
      hash(key) % buckets.Length
    }

    method FindInBucket(bucket: nat, key: K) returns (item: Option<T>)
      requires Valid() && bucket == HashValue(key)
      ensures item == if key in model then Some(model[key]) else None
    {
      var list := buckets[bucket];
      var i := 0;
      while i < |list|
        invariant 0 <= i <= |list|
        invariant forall j :: 0 <= j < i ==> getKey(list[j]) != key
      {
        assert Belongs(buckets[..][bucket][i], bucket, buckets.Length, model);
        if getKey(list[i]) == key {
          return Some(list[i]);
        }
        i := i + 1;
      }
      MissedNone(buckets[..], model, key);
      return None;
    }

    lemma MissedNone(b: seq<seq<T>>, m: map<K, T>, key: K)
      requires Stored(b, m) && forall x :: x in b[hash(key) % |b|] ==> getKey(x) != key
      ensures key !in m
    {
    }

    method Find(key: K) returns (item: Option<T>)
      requires Valid()
      ensures item == if key in model then Some(model[key]) else None
    {
      var bucket := HashValue(key);
      item := FindInBucket(bucket, key);
    }

    /** Insert; its first ASSERT is the precondition. */
    method Insert(item: T)
      requires Valid() && getKey(item) !in model
      modifies this, buckets
      ensures Valid() && model == old(model)[getKey(item) := item] && (buckets == old(buckets) || fresh(buckets))
      ensures buckets.Length == if old(numItems) / old(buckets.Length) >= 3 then 4 * old(buckets.Length)
              else old(buckets.Length)
    {
      hide Stored;
      var key := getKey(item);
      RoomForOne(numItems, buckets.Length);
      if numItems / buckets.Length >= RESIZE_RATIO {
        ReHash();
      }
      var bucket := HashValue(key);
      AppendTo(buckets, bucket, item, model);
      numItems := numItems + 1;
      model := model[key := item];
    }

    /** Append, to one bucket of a table. */
    method AppendTo(table: array<seq<T>>, bucket: nat, item: T, ghost m: map<K, T>)
      requires table.Length > 0 && Stored(table[..], m) && getKey(item) !in m
               && bucket == hash(getKey(item)) % table.Length
      modifies table
      ensures Stored(table[..], m[getKey(item) := item])
    {
      hide Stored;
      AppendKeeps(table[..], m, item, bucket);
      ghost var b := table[..];
      table[bucket] := Appended(table[bucket], item);
      assert table[..] == b[bucket := b[bucket] + [item]];
    }

    lemma AppendKeeps(b: seq<seq<T>>, m: map<K, T>, item: T, bucket: nat)
      requires |b| > 0 && Stored(b, m) && getKey(item) !in m && bucket == hash(getKey(item)) % |b|
      ensures item !in b[bucket] && Stored(b[bucket := b[bucket] + [item]], m[getKey(item) := item])
    {
      var n, p := b[bucket := b[bucket] + [item]], m[getKey(item) := item];
      forall j | 0 <= j < |b[bucket]| ensures b[bucket][j] != item {
        assert Belongs(b[bucket][j], bucket, |b|, m);
      }
      forall i, j | 0 <= i < |n| && 0 <= j < |n[i]| ensures Belongs(n[i][j], i, |n|, p) {
        assert j < |b[i]| ==> Belongs(b[i][j], i, |b|, m);
      }
    }

    /** Grow the table: every item moves to the bucket its key hashes to now. */
    method ReHash()
      requires Valid()
      modifies this`buckets, buckets
      ensures Valid() && fresh(buckets) && buckets.Length == INCREASE_SIZE_BY * old(buckets.Length)
    {
      hide Stored, Moving;
      var oldTable, oldSize := buckets, buckets.Length;
      ghost var b := buckets[..];
      var newTable := new seq<T>[oldSize * INCREASE_SIZE_BY](i => []);
      ghost var moved: map<K, T> := map[];
      MovedNone(b, model, newTable[..]);
      var i := 0;
      while i < oldSize
        invariant 0 <= i <= oldSize && oldTable[..] == b && Stored(newTable[..], moved)
        invariant Moving(b, i, 0, model, moved)
      {
        moved := MoveBucket(newTable, oldTable[i], b, i, moved);
        i := i + 1;
      }
      MovedAll(b, model, moved);
      buckets := newTable;
    }

    lemma MovedAll(b: seq<seq<T>>, m: map<K, T>, moved: map<K, T>)
      requires |b| > 0 && Moving(b, |b|, 0, m, moved)
      ensures moved == m
    {
      assert forall k :: k in m ==> hash(k) % |b| < |b|;
    }

    lemma MovedNone(b: seq<seq<T>>, m: map<K, T>, t: seq<seq<T>>)
      requires |b| > 0 && |t| > 0 && forall i :: 0 <= i < |t| ==> t[i] == []
      ensures Moving(b, 0, 0, m, map[]) && Stored(t, map[])
    {
    }

    /** So far just the items before position `j` of bucket `i` have been moved. */
    ghost predicate Moving(b: seq<seq<T>>, i: nat, j: nat, m: map<K, T>, moved: map<K, T>)
      requires |b| > 0
    {
      && (forall k :: k in moved ==> k in m && moved[k] == m[k])
      && (forall k :: k in m ==> (k in moved <==> Before(b, m[k], hash(k) % |b|, i, j)))
    }

    ghost predicate Before(b: seq<seq<T>>, x: T, at: nat, i: nat, j: nat) {
      at < i || (at == i && at < |b| && j <= |b[at]| && x in b[at][..j])
    }

    method MoveBucket(newTable: array<seq<T>>, list: seq<T>, ghost b: seq<seq<T>>, ghost i: nat, ghost was: map<K, T>)
      returns (ghost moved: map<K, T>)
      requires i < |b| && list == b[i] && Stored(b, model)
      requires newTable.Length > 0 && Stored(newTable[..], was) && Moving(b, i, 0, model, was)
      modifies newTable
      ensures Stored(newTable[..], moved) && Moving(b, i + 1, 0, model, moved)
    {
      hide Stored, Moving;
      moved := was;
      var rest := list;
      ghost var j := 0;
      while rest != []
        invariant 0 <= j <= |list| && rest == list[j..]
        invariant Stored(newTable[..], moved) && Moving(b, i, j, model, moved)
        decreases |rest|
      {
        var item := rest[0];
        MovingStep(b, i, j, model, moved);
        AppendTo(newTable, hash(getKey(item)) % newTable.Length, item, moved);
        moved := moved[getKey(item) := item];
        rest := rest[1..];
        j := j + 1;
      }
      MovingNext(b, i, model, moved);
    }

    lemma MovingStep(b: seq<seq<T>>, i: nat, j: nat, m: map<K, T>, moved: map<K, T>)
      requires Stored(b, m) && i < |b| && j < |b[i]| && Moving(b, i, j, m, moved)
      ensures getKey(b[i][j]) !in moved && Moving(b, i, j + 1, m, moved[getKey(b[i][j]) := b[i][j]])
    {
      var x := b[i][j];
      assert Belongs(x, i, |b|, m);
      assert b[i][..j + 1] == b[i][..j] + [x];
      assert x !in b[i][..j];
      forall k | k in m && m[k] == x ensures k == getKey(x) {
      }
    }

    lemma MovingNext(b: seq<seq<T>>, i: nat, m: map<K, T>, moved: map<K, T>)
      requires Stored(b, m) && i < |b| && Moving(b, i, |b[i]|, m, moved)
      ensures Moving(b, i + 1, 0, m, moved)
    {
      assert b[i][..|b[i]|] == b[i];
    }

    /** FindNextFullBucket: the buckets stepped over hold nothing. */
    method FindNextFullBucket(start: nat) returns (bucket: nat)
      requires start <= buckets.Length
      ensures start <= bucket <= buckets.Length && From(buckets[..], bucket) == From(buckets[..], start)
      ensures bucket < buckets.Length ==> buckets[bucket] != []
    {
      bucket := start;
      while bucket < buckets.Length
        invariant start <= bucket <= buckets.Length && From(buckets[..], bucket) == From(buckets[..], start)
      {
        if buckets[bucket] != [] {
          break;
        }
        bucket := bucket + 1;
      }
    }

    /** A table's buckets, end to end, list every item once and nothing else. */
    lemma EachOnce()
      requires Valid()
      ensures Distinct(From(buckets[..], 0)) && |From(buckets[..], 0)| == numItems
      ensures forall x :: x in From(buckets[..], 0) <==> getKey(x) in model && model[getKey(x)] == x
    {
      var all := From(buckets[..], 0);
      FromHolds(buckets[..], 0, model);
      forall k | k in model ensures model[k] in all {
        assert model[k] in buckets[..][hash(k) % buckets.Length];
      }
      CountedOnce(all, model);
    }

    lemma {:induction false} FromHolds(b: seq<seq<T>>, i: nat, m: map<K, T>)
      requires Stored(b, m) && i <= |b|
      ensures Distinct(From(b, i))
      ensures forall x :: x in From(b, i) ==> getKey(x) in m && m[getKey(x)] == x && i <= hash(getKey(x)) % |b|
      ensures forall l, x :: i <= l < |b| && x in b[l] ==> x in From(b, i)
      decreases |b| - i
    {
      if i < |b| {
        FromHolds(b, i + 1, m);
        forall j | 0 <= j < |b[i]| ensures Belongs(b[i][j], i, |b|, m) && b[i][j] !in From(b, i + 1) {
          assert Belongs(b[i][j], i, |b|, m);
        }
        hide Stored;
        assert From(b, i) == b[i] + From(b, i + 1);
      }
    }

    lemma {:induction false} CountedOnce(s: seq<T>, m: map<K, T>)
      requires Distinct(s)
      requires forall x :: x in s ==> getKey(x) in m && m[getKey(x)] == x
      requires forall k :: k in m ==> m[k] in s && getKey(m[k]) == k
      ensures |s| == |m|
    {
      if s != [] {
        var l := |s| - 1;
        var k := getKey(s[l]);
        assert s[l] in s && s[..l] + [s[l]] == s;
        CountedOnce(s[..l], m - {k});
        assert m == (m - {k})[k := s[l]];
      } else {
        assert m.Keys == {};
      }
    }

    /** Remove; its ASSERTs are the precondition and part of what is ensured. */
    method Remove(key: K) returns (item: T)
      requires Valid() && key in model
      modifies this, buckets
      ensures Valid() && model == old(model) - {key} && item == old(model)[key] && buckets == old(buckets)
    {
      var bucket := HashValue(key);
      var found := FindInBucket(bucket, key);
      item := found.value;
      ghost var b := buckets[..];
      assert item in b[bucket];
      buckets[bucket] := Without(buckets[bucket], item);
      assert buckets[..] == b[bucket := Without(b[bucket], item)];
      RemoveKeeps(b, model, key, bucket);
      assert model == (model - {key})[key := item];
      numItems := numItems - 1;
      model := model - {key};
    }

    lemma StillBelongs(b: seq<seq<T>>, m: map<K, T>, key: K, i: nat, y: T)
      requires Stored(b, m) && key in m && i < |b| && y in b[i]
      requires i == hash(key) % |b| ==> y != m[key]
      ensures Belongs(y, i, |b|, m - {key})
    {
      var l :| 0 <= l < |b[i]| && b[i][l] == y;
      assert Belongs(b[i][l], i, |b|, m);
    }

    lemma RemoveKeeps(b: seq<seq<T>>, m: map<K, T>, key: K, bucket: nat)
      requires Stored(b, m) && key in m && bucket == hash(key) % |b|
      ensures m[key] in b[bucket] && Stored(b[bucket := Without(b[bucket], m[key])], m - {key})
    {
      var x := m[key];
      var n, p := b[bucket := Without(b[bucket], x)], m - {key};
      WithoutIs(b[bucket], x);
      forall i, j | 0 <= i < |n| && 0 <= j < |n[i]| ensures Belongs(n[i][j], i, |n|, p) {
        if i == bucket {
          var w := Without(b[bucket], x);
          assert n[i] == w && w[j] in w;
          WithoutLeaves(b[bucket], x, w[j]);
        } else {
          assert n[i] == b[i] && b[i][j] in b[i];
        }
        StillBelongs(b, m, key, i, n[i][j]);
      }
      forall k | k in p ensures getKey(p[k]) == k && p[k] in n[hash(k) % |n|] {
        assert m[k] in b[hash(k) % |b|];
      }
    }
  }

  lemma RoomForOne(n: int, length: int)
    requires length > 0 && n <= RESIZE_RATIO * length
    ensures n / length < RESIZE_RATIO ==> n + 1 <= RESIZE_RATIO * length
    ensures n + 1 <= RESIZE_RATIO * (INCREASE_SIZE_BY * length)
  {
  }

  /** SortedList::Remove. */
  function Without<T(==)>(list: seq<T>, item: T): seq<T>
    requires item in list
  {
    if list[0] == item then list[1..] else [list[0]] + Without(list[1..], item)
  }

  lemma {:induction false} WithoutIs<T>(list: seq<T>, item: T)
    requires item in list && Distinct(list)
    ensures Distinct(Without(list, item)) && forall x :: x in Without(list, item) <==> x in list && x != item
  {
    assert list == [list[0]] + list[1..];
    if list[0] == item {
      assert item !in list[1..];
    } else {
      assert Distinct(list[1..]);
      WithoutIs(list[1..], item);
      var r := Without(list[1..], item);
      assert list[0] !in list[1..];
    }
  }

  lemma WithoutLeaves<T>(list: seq<T>, item: T, x: T)
    requires item in list && Distinct(list) && x in Without(list, item)
    ensures x in list && x != item
  {
    WithoutIs(list, item);
  }

  /** The items of the buckets from `i` on, in order. */
  function From<T>(b: seq<seq<T>>, i: nat): seq<T>
    decreases |b| - i
  {
    if i >= |b| then [] else b[i] + From(b, i + 1)
  }

  class HashIterator<K(==), T(==)> {
    const table: HashTable<K, T>
    var bucket: nat
    var at: nat            // where the list iterator stands in that bucket

    ghost predicate Valid()
      reads this, table, table.buckets
    {
      && bucket <= table.buckets.Length
      && (bucket < table.buckets.Length ==> at < |table.buckets[bucket]|)
    }

    /** What the iterator has still to visit. */
    ghost function Rest(): seq<T>
      requires Valid()
      reads this, table, table.buckets
    {
      if bucket == table.buckets.Length then []
      else table.buckets[bucket][at..] + From(table.buckets[..], bucket + 1)
    }

    constructor (table: HashTable<K, T>)
      ensures Valid() && this.table == table && Rest() == From(table.buckets[..], 0)
    {
      this.table, at := table, 0;
      bucket := 0;
      new;
      bucket := table.FindNextFullBucket(0);
    }

    predicate IsDone()
      requires Valid()
      reads this, table, table.buckets
      ensures IsDone() <==> Rest() == []
    {
      bucket == table.buckets.Length
    }

    function Item(): (x: T)
      requires Valid() && !IsDone()
      reads this, table, table.buckets
      ensures x == Rest()[0]
    {
      table.buckets[bucket][at]
    }

    method Next()
      requires Valid() && !IsDone()
      modifies this
      ensures Valid() && Rest() == old(Rest())[1..]
    {
      at := at + 1;
      if at == |table.buckets[bucket]| {
        at := 0;
        bucket := table.FindNextFullBucket(bucket + 1);
      }
    }
  }
}
