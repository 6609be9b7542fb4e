/** The in-memory item store (Source/GroceriesAPI/Repositories/GroceriesRepository.cs). */
module Repositories {
  import opened Models

  /** `List<Item>.RemoveAll(i => i.Id == id)`: the items whose `Id` differs
      from `id`, in their original order. */
  function WithoutId(s: seq<Item>, id: Int32): (r: seq<Item>)
    ensures |r| <= |s|
    ensures forall i :: 0 <= i < |r| ==> r[i].Id != id
  {
    if s == [] then []
    else if s[0].Id == id then WithoutId(s[1..], id)
    else [s[0]] + WithoutId(s[1..], id)
  }

  /** The abstract state of the repository: the item list and the id counter. */
  datatype Store = Store(items: seq<Item>, nextId: Int32)

  /** The state after the static initialisers have run:
      an empty list and `_identifier = 0`. */
  function Fresh(): (r: Store)
    ensures |r.items| == 0 && r.nextId == 0
  {
    Store([], 0)
  }

  /** The item `AddItem` stores: the caller's item stamped with the counter. */
  function Stamped(s: Store, item: Item): (r: Item)
    ensures r.Id == s.nextId
    ensures r.Name == item.Name && r.Quantity == item.Quantity && r.Value == item.Value
  {
    item.(Id := s.nextId)
  }

  /** The state after `AddItem(item)`: the old list is kept as a prefix, the
      stamped item is last and the counter has advanced once. */
  function Added(s: Store, item: Item): (r: Store)
    ensures |r.items| == |s.items| + 1
    ensures r.items[..|s.items|] == s.items
    ensures r.items[|s.items|].Id == s.nextId
    ensures r.nextId == Succ(s.nextId)
  {
    Store(s.items + [Stamped(s, item)], Succ(s.nextId))
  }

  /** The state after `UpdateItem(item)`: the item is last, no earlier item
      has its `Id`, and the counter is kept. */
  function Updated(s: Store, item: Item): (r: Store)
    ensures |r.items| > 0 && r.items[|r.items| - 1] == item
    ensures forall i :: 0 <= i < |r.items| - 1 ==> r.items[i].Id != item.Id
    ensures r.nextId == s.nextId
  {
    Store(WithoutId(s.items, item.Id) + [item], s.nextId)
  }

  /** The state after `Delete(id)`: no item has `id`, the list has not
      grown, and the counter is kept. */
  function Deleted(s: Store, id: Int32): (r: Store)
    ensures forall i :: 0 <= i < |r.items| ==> r.items[i].Id != id
    ensures |r.items| <= |s.items|
    ensures r.nextId == s.nextId
  {
    Store(WithoutId(s.items, id), s.nextId)
  }

  /** The state after `AddItem` has been called on each of `xs` in turn: the
      old list is kept as a prefix and one item is appended per call. */
  function AddedAll(s: Store, xs: seq<Item>): (r: Store)
    ensures |r.items| == |s.items| + |xs|
    ensures r.items[..|s.items|] == s.items
    decreases |xs|
  {
    if xs == [] then s else AddedAll(Added(s, xs[0]), xs[1..])
  }

  /** The repository object. The source keeps both fields `static`; one
      object used sequentially stands for that shared state. */
  class GroceriesRepository {
    var items: seq<Item>
    var nextId: Int32

    /** The abstract value of the object's fields. */
    ghost function State(): (r: Store)
      reads this
    {
      Store(items, nextId)
    }

    constructor ()
      ensures items == [] && nextId == 0
      ensures State() == Fresh()
    {
      items := [];
      nextId := 0;
    }

    /** Returns the current list (as a value) and changes nothing. */
    method GetItemsAsync() returns (r: seq<Item>)
      ensures r == items
    {
      r := items;
    }

    /** Stamps `item` with the counter, advances the counter and appends the
        stamped item; `stored` is the caller's object after the stamp. */
    method AddItem(item: Item) returns (stored: Item)
      modifies this
      ensures stored == item.(Id := old(nextId))
      ensures nextId == Succ(old(nextId))
      ensures items == old(items) + [stored]
      ensures State() == Added(old(State()), item)
    {
      stored := item.(Id := nextId);
      nextId := Succ(nextId);
      items := items + [stored];
    }

    /** Removes every item with `item.Id`, then appends `item`. */
    method UpdateItem(item: Item)
      modifies this
      ensures items == WithoutId(old(items), item.Id) + [item]
      ensures nextId == old(nextId)
      ensures State() == Updated(old(State()), item)
    {
      items := WithoutId(items, item.Id);
      items := items + [item];
    }

    /** Removes every item with the given `id`. */
    method Delete(id: Int32)
      modifies this
      ensures items == WithoutId(old(items), id)
      ensures nextId == old(nextId)
      ensures State() == Deleted(old(State()), id)
    {
      items := WithoutId(items, id);
    }
  }

  /** A client run on a fresh repository: three additions get ids 0, 1, 2,
      an update replaces the item with id 1 and moves it to the end, and a
      deletion removes the item with id 0. */
  method FreshRepositoryScenario(a: Item, b: Item, c: Item, d: Item) returns (ids: seq<Int32>, after: seq<Item>)
    ensures ids == [0, 1, 2]
    ensures after == [c.(Id := 2), d.(Id := 1)]
  {
    var repo := new GroceriesRepository();
    var sa := repo.AddItem(a);
    var sb := repo.AddItem(b);
    var sc := repo.AddItem(c);
    ids := [sa.Id, sb.Id, sc.Id];
    assert repo.items == [sa, sb, sc];
    repo.UpdateItem(d.(Id := 1));
    assert WithoutId([sc], 1) == [sc];
    assert WithoutId([sb, sc], 1) == [sc];
    assert repo.items == [sa, sc, d.(Id := 1)];
    repo.Delete(0);
    assert WithoutId([d.(Id := 1)], 0) == [d.(Id := 1)];
    assert WithoutId([sc, d.(Id := 1)], 0) == [sc, d.(Id := 1)];
    after := repo.GetItemsAsync();
  }
}
