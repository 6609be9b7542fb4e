/** Properties of the item store's operations, stated on the abstract state
    that the methods of `Repositories.GroceriesRepository` are proved to
    produce. */
module RepositoryProperties {
  import opened Models
  import opened Repositories

  const Modulus: int := 0x1_0000_0000

  // ---------------------------------------------------------------------
  // 32-bit counter arithmetic

  /** Two congruent 32-bit values are the same value. */
  lemma ToInt32Unique(x: int, r: Int32)
    requires (r as int - x) % Modulus == 0
    ensures r == ToInt32(x)
  {
  }

  /** Wrapping part-way and then adding gives the same value as adding and
      wrapping once. */
  lemma ToInt32Add(a: int, b: int)
    ensures ToInt32(ToInt32(a) as int + b) == ToInt32(a + b)
  {
  }

  /** Fewer than 2^32 apart, two integers wrap to different 32-bit values. */
  lemma ToInt32Injective(a: int, b: int)
    requires a < b < a + Modulus
    ensures ToInt32(a) != ToInt32(b)
  {
  }

  // ---------------------------------------------------------------------
  // RemoveAll

  /** Removal distributes over concatenation, so the kept items stay in
      their original relative order. */
  lemma {:induction false} WithoutIdAppend(a: seq<Item>, b: seq<Item>, id: Int32)
    ensures WithoutId(a + b, id) == WithoutId(a, id) + WithoutId(b, id)
  {
    if a == [] {
      assert a + b == b;
    } else {
      assert (a + b)[0] == a[0];
      assert (a + b)[1..] == a[1..] + b;
      WithoutIdAppend(a[1..], b, id);
    }
  }

  /** Removal keeps each item whose `Id` differs, as often as it occurred,
      and drops every item with `id`. */
  lemma {:induction false} WithoutIdCount(s: seq<Item>, id: Int32)
    ensures forall x :: multiset(WithoutId(s, id))[x] == if x.Id == id then 0 else multiset(s)[x]
  {
    if s != [] {
      WithoutIdCount(s[1..], id);
      assert s == [s[0]] + s[1..];
      assert multiset(s) == multiset{s[0]} + multiset(s[1..]);
    }
  }

  /** An item is left exactly when it was there and has a different `Id`. */
  lemma WithoutIdMembers(s: seq<Item>, id: Int32)
    ensures forall x :: x in WithoutId(s, id) <==> x in s && x.Id != id
  {
  }

  /** Removal leaves the list unchanged exactly when no item has `id`. */
  lemma {:induction false} WithoutIdIdentity(s: seq<Item>, id: Int32)
    ensures WithoutId(s, id) == s <==> forall i :: 0 <= i < |s| ==> s[i].Id != id
  {
    if s != [] && forall i :: 0 <= i < |s| ==> s[i].Id != id {
      assert forall i :: 0 <= i < |s[1..]| ==> s[1..][i].Id == s[i + 1].Id;
      WithoutIdIdentity(s[1..], id);
    }
  }

  /** Removing twice is removing once. */
  lemma WithoutIdIdempotent(s: seq<Item>, id: Int32)
    ensures WithoutId(WithoutId(s, id), id) == WithoutId(s, id)
  {
  }

  /** Removals of two ids commute. */
  lemma {:induction false} WithoutIdCommute(s: seq<Item>, a: Int32, b: Int32)
    ensures WithoutId(WithoutId(s, a), b) == WithoutId(WithoutId(s, b), a)
  {
    if s != [] {
      WithoutIdCommute(s[1..], a, b);
      WithoutIdAppend([s[0]], WithoutId(s[1..], a), b);
      WithoutIdAppend([s[0]], WithoutId(s[1..], b), a);
    }
  }

  // ---------------------------------------------------------------------
  // Delete and UpdateItem

  /** `Delete(id)` leaves no item with `id`, keeps every other item as often
      as before, leaves the list alone when `id` is absent and keeps the
      counter. */
  lemma DeletedSpec(s: Store, id: Int32)
    ensures forall i :: 0 <= i < |Deleted(s, id).items| ==> Deleted(s, id).items[i].Id != id
    ensures forall x: Item :: x.Id != id ==> multiset(Deleted(s, id).items)[x] == multiset(s.items)[x]
    ensures (forall i :: 0 <= i < |s.items| ==> s.items[i].Id != id) <==> Deleted(s, id) == s
    ensures Deleted(s, id).nextId == s.nextId
  {
    WithoutIdCount(s.items, id);
    WithoutIdIdentity(s.items, id);
  }

  /** Deleting the same id twice is deleting it once. */
  lemma DeletedIdempotent(s: Store, id: Int32)
    ensures Deleted(Deleted(s, id), id) == Deleted(s, id)
  {
    WithoutIdIdempotent(s.items, id);
  }

  /** The order of two deletions does not matter. */
  lemma DeletedCommute(s: Store, a: Int32, b: Int32)
    ensures Deleted(Deleted(s, a), b) == Deleted(Deleted(s, b), a)
  {
    WithoutIdCommute(s.items, a, b);
  }

  /** After `UpdateItem(item)` the new item is last and is the only one with
      its `Id`; every item with another `Id` is kept as often as before; the
      counter is kept. */
  lemma UpdatedSpec(s: Store, item: Item)
    ensures |Updated(s, item).items| > 0
    ensures Updated(s, item).items[|Updated(s, item).items| - 1] == item
    ensures forall i :: 0 <= i < |Updated(s, item).items| - 1 ==> Updated(s, item).items[i].Id != item.Id
    ensures forall x: Item :: x != item && x.Id != item.Id ==>
      multiset(Updated(s, item).items)[x] == multiset(s.items)[x]
    ensures multiset(Updated(s, item).items)[item] == 1
    ensures Updated(s, item).nextId == s.nextId
  {
    var w := WithoutId(s.items, item.Id);
    WithoutIdCount(s.items, item.Id);
    assert multiset(w + [item]) == multiset(w) + multiset{item};
  }

  /** When no stored item has `item.Id`, `UpdateItem` just appends. */
  lemma UpdatedAbsentAppends(s: Store, item: Item)
    requires forall i :: 0 <= i < |s.items| ==> s.items[i].Id != item.Id
    ensures Updated(s, item).items == s.items + [item]
  {
    WithoutIdIdentity(s.items, item.Id);
  }

  /** Updating with the same item twice is updating once. */
  lemma UpdatedIdempotent(s: Store, item: Item)
    ensures Updated(Updated(s, item), item) == Updated(s, item)
  {
    var w := WithoutId(s.items, item.Id);
    WithoutIdAppend(w, [item], item.Id);
    WithoutIdIdempotent(s.items, item.Id);
  }

  /** An update followed by a deletion of the same id is that deletion. */
  lemma UpdatedThenDeleted(s: Store, item: Item)
    ensures Deleted(Updated(s, item), item.Id) == Deleted(s, item.Id)
  {
    var w := WithoutId(s.items, item.Id);
    WithoutIdAppend(w, [item], item.Id);
    WithoutIdIdempotent(s.items, item.Id);
  }

  // ---------------------------------------------------------------------
  // Id allocation

  /** `k` consecutive `AddItem` calls append the items in order, the i-th
      stamped with the counter advanced i times (with 32-bit wrap-around),
      and advance the counter k times. */
  lemma {:induction false} AddedAllSpec(s: Store, xs: seq<Item>)
    ensures |AddedAll(s, xs).items| == |s.items| + |xs|
    ensures AddedAll(s, xs).items[..|s.items|] == s.items
    ensures forall i :: 0 <= i < |xs| ==>
      AddedAll(s, xs).items[|s.items| + i] == xs[i].(Id := ToInt32(s.nextId as int + i))
    ensures AddedAll(s, xs).nextId == ToInt32(s.nextId as int + |xs|)
    decreases |xs|
  {
    if xs == [] {
      ToInt32Unique(s.nextId as int, s.nextId);
    } else {
      var s' := Added(s, xs[0]);
      AddedAllSpec(s', xs[1..]);
      var r := AddedAll(s, xs);
      assert r == AddedAll(s', xs[1..]);
      assert r.items[..|s'.items|] == s'.items;
      assert r.items[..|s.items|] == s'.items[..|s.items|];
      ToInt32Add(s.nextId as int + 1, |xs| - 1);
      forall i | 0 <= i < |xs|
        ensures r.items[|s.items| + i] == xs[i].(Id := ToInt32(s.nextId as int + i))
      {
        if i == 0 {
          ToInt32Unique(s.nextId as int, s.nextId);
          assert r.items[|s.items|] == s'.items[|s.items|];
        } else {
          assert r.items[|s.items| + i] == r.items[|s'.items| + (i - 1)];
          assert xs[i] == xs[1..][i - 1];
          ToInt32Add(s.nextId as int + 1, i - 1);
        }
      }
    }
  }

  /** Up to 2^32 consecutive `AddItem` calls never hand out the same id twice. */
  lemma AddedAllDistinct(s: Store, xs: seq<Item>)
    requires |xs| <= Modulus
    ensures var r := AddedAll(s, xs).items;
      forall i, j :: |s.items| <= i < j < |r| ==> r[i].Id != r[j].Id
  {
    AddedAllSpec(s, xs);
    var r := AddedAll(s, xs).items;
    forall i, j | |s.items| <= i < j < |r| ensures r[i].Id != r[j].Id {
      var ki, kj := i - |s.items|, j - |s.items|;
      assert r[i] == r[|s.items| + ki] == xs[ki].(Id := ToInt32(s.nextId as int + ki));
      assert r[j] == r[|s.items| + kj] == xs[kj].(Id := ToInt32(s.nextId as int + kj));
      ToInt32Injective(s.nextId as int + ki, s.nextId as int + kj);
    }
  }

  /** From an empty list and counter 0, k calls leave the counter at k
      wrapped to 32 bits and store `xs[i]` with `Id` i while i < 2^31. */
  lemma FromZero(s: Store, xs: seq<Item>)
    requires s.items == [] && s.nextId == 0
    requires |xs| <= 0x8000_0000
    ensures AddedAll(s, xs).nextId == ToInt32(|xs|)
    ensures AddedAll(s, xs).items == seq(|xs|, i requires 0 <= i < |xs| => xs[i].(Id := i as Int32))
  {
    AddedAllSpec(s, xs);
    var r := AddedAll(s, xs);
    assert s.nextId as int + |xs| == |xs|;
    forall i | 0 <= i < |xs| ensures r.items[i] == xs[i].(Id := i as Int32) {
      assert r.items[|s.items| + i] == xs[i].(Id := ToInt32(s.nextId as int + i));
    }
  }

  /** From a fresh repository, up to 2^31 `AddItem` calls assign the ids
      0, 1, ..., k-1, in order; the counter then holds k, or has wrapped to
      the smallest 32-bit value after exactly 2^31 calls. */
  lemma FreshIds(xs: seq<Item>)
    requires |xs| <= 0x8000_0000
    ensures AddedAll(Fresh(), xs).items == seq(|xs|, i requires 0 <= i < |xs| => xs[i].(Id := i as Int32))
    ensures var r := AddedAll(Fresh(), xs).items;
      forall i, j :: 0 <= i < j < |r| ==> r[i].Id < r[j].Id
    ensures |xs| < 0x8000_0000 ==> AddedAll(Fresh(), xs).nextId as int == |xs|
    ensures |xs| == 0x8000_0000 ==> AddedAll(Fresh(), xs).nextId == MinInt32
  {
    var r := AddedAll(Fresh(), xs);
    FromZero(Fresh(), xs);
    assert |r.items| == |xs|;
    assert forall i :: 0 <= i < |xs| ==> r.items[i].Id as int == i;
    assert r.nextId == ToInt32(|xs|);
    if |xs| == 0x8000_0000 {
      ToInt32Unique(|xs|, MinInt32);
    }
  }

  // ---------------------------------------------------------------------
  // The [Key] invariant

  /** No two stored items share an `Id`. */
  ghost predicate UniqueIds(items: seq<Item>)
  {
    forall i, j :: 0 <= i < j < |items| ==> items[i].Id != items[j].Id
  }

  /** Every stored id is below the counter, so the next stamp is unused. */
  ghost predicate IdsBelowCounter(s: Store)
  {
    forall i :: 0 <= i < |s.items| ==> s.items[i].Id < s.nextId
  }

  lemma FreshKeyInvariant()
    ensures UniqueIds(Fresh().items) && IdsBelowCounter(Fresh())
  {
  }

  /** Removing items cannot create a duplicate id. */
  lemma {:induction false} WithoutIdKeepsUniqueIds(s: seq<Item>, id: Int32)
    requires UniqueIds(s)
    ensures UniqueIds(WithoutId(s, id))
  {
    if s != [] {
      assert UniqueIds(s[1..]) by {
        forall i, j | 0 <= i < j < |s[1..]| ensures s[1..][i].Id != s[1..][j].Id {
          assert s[1..][i] == s[i + 1] && s[1..][j] == s[j + 1];
        }
      }
      WithoutIdKeepsUniqueIds(s[1..], id);
      if s[0].Id != id {
        var rest := WithoutId(s[1..], id);
        WithoutIdMembers(s[1..], id);
        forall j | 0 <= j < |rest| ensures s[0].Id != rest[j].Id {
          assert rest[j] in s[1..];
          var k :| 0 <= k < |s[1..]| && s[1..][k] == rest[j];
          assert s[1..][k] == s[k + 1];
        }
      }
    }
  }

  /** `UpdateItem` always leaves the ids unique, whatever id the caller gives. */
  lemma UpdatedKeepsUniqueIds(s: Store, item: Item)
    requires UniqueIds(s.items)
    ensures UniqueIds(Updated(s, item).items)
  {
    WithoutIdKeepsUniqueIds(s.items, item.Id);
  }

  /** `Delete` keeps the ids unique and below the counter. */
  lemma DeletedKeepsKeyInvariant(s: Store, id: Int32)
    requires UniqueIds(s.items) && IdsBelowCounter(s)
    ensures UniqueIds(Deleted(s, id).items) && IdsBelowCounter(Deleted(s, id))
  {
    WithoutIdKeepsUniqueIds(s.items, id);
    WithoutIdMembers(s.items, id);
    var r := Deleted(s, id).items;
    forall i | 0 <= i < |r| ensures r[i].Id < s.nextId {
      assert r[i] in s.items;
    }
  }

  /** `AddItem` keeps the ids unique and below the counter as long as the
      counter does not wrap. */
  lemma AddedKeepsKeyInvariant(s: Store, item: Item)
    requires UniqueIds(s.items) && IdsBelowCounter(s)
    requires s.nextId < MaxInt32
    ensures UniqueIds(Added(s, item).items) && IdsBelowCounter(Added(s, item))
  {
  }

  /** `UpdateItem` keeps every id below the counter only when the caller's
      id is below it too. */
  lemma UpdatedKeepsIdsBelowCounter(s: Store, item: Item)
    requires IdsBelowCounter(s)
    ensures IdsBelowCounter(Updated(s, item)) <==> item.Id < s.nextId
  {
    var w := WithoutId(s.items, item.Id);
    WithoutIdMembers(s.items, item.Id);
    forall i | 0 <= i < |w| ensures w[i].Id < s.nextId {
      assert w[i] in s.items;
    }
    assert Updated(s, item).items[|w|] == item;
  }

  /** So the store does not keep its keys unique: an update that supplies an
      id the counter has not reached yet, followed by an addition, stores
      two items with the same `Id`. */
  lemma UpdateThenAddDuplicates(x: Item, y: Item)
    ensures var s := Added(Updated(Fresh(), x.(Id := 0)), y);
      |s.items| == 2 && s.items[0].Id == 0 && s.items[1].Id == 0 && !UniqueIds(s.items)
  {
  }

  /** Deleting the id `AddItem` has just given out undoes the addition on the
      list, when ids are below the counter. */
  lemma AddedThenDeleted(s: Store, item: Item)
    requires IdsBelowCounter(s)
    ensures Deleted(Added(s, item), s.nextId) == Store(s.items, Succ(s.nextId))
  {
    WithoutIdAppend(s.items, [Stamped(s, item)], s.nextId);
    WithoutIdIdentity(s.items, s.nextId);
  }
}
