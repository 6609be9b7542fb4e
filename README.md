# Groceries item store, modelled in Dafny

The groceries web API keeps its grocery items in an in-memory store, the class
`GroceriesRepository`. The store has two pieces of state: a list of `Item`s and an
integer counter `_identifier` that starts at 0. It has four operations:

- `GetItemsAsync` returns the list.
- `AddItem` stamps the caller's item with the counter as its `Id`, increments the counter and appends the item.
- `UpdateItem` removes every item with the new item's `Id`, then appends the new item.
- `Delete` removes every item with the given `Id`.

The project models this store and proves what each operation does to it.

- `models.dfy`, module `Models`. `Item` is a datatype whose key field is `Id`. C#'s `int` is the newtype `Int32`. `ToInt32` and `Succ` give the counter's unchecked 32-bit increment, and `ToInt32Congruent` ties the wrapped value to the exact one. C#'s `decimal` is carried as a mantissa/scale pair that no operation reads.
- `repository.dfy`, module `Repositories`.
  - `WithoutId` models `List<T>.RemoveAll(i => i.Id == id)`: it keeps, in order, exactly the items with a different `Id`.
  - `Store` and the functions `Fresh`, `Stamped`, `Added`, `Updated`, `Deleted` and `AddedAll` give the abstract state after the static initialisers and after each operation.
  - The class `GroceriesRepository` has the fields `items: seq<Item>` and `nextId: Int32`. Each method states its new fields outright, and also states that `State()` equals the matching function of the old state.
  - `FreshRepositoryScenario` is a client that uses the method contracts and the definition of `WithoutId`.
- `repository_properties.dfy`, module `RepositoryProperties`. It holds the lemmas about the abstract state:
  - `RemoveAll` preserves order, keeps counts, is idempotent and commutes.
  - Delete and update leave exactly the items stated.
  - Id allocation over many additions, including wrap-around.
  - Which operations keep the `[Key]` ids unique, and how `UpdateItem` can break that.

The counter is a C# `int`, and C# compiles `_identifier + 1` unchecked by default. So after 2^31 additions the counter wraps to -2^31, and the model says so (`Succ`). The lemmas prove two things:
- ids are distinct across any 2^32 consecutive additions;
- on a fresh store, up to 2^31 additions get the ids 0, 1, …, k-1.

The model's list has no size limit. A C# list holds fewer than 2^31 items, so the largest of these runs describe a list C# cannot hold (see "List capacity" under "## Left out").

The store does not keep its `[Key]` field unique in general. Consider the rule "ids are unique and all below the counter":
- `Delete` keeps it.
- `AddItem` keeps it while the counter does not wrap.
- `UpdateItem` keeps ids unique, whatever id it is given, but keeps them below the counter only when the caller's id is below it.

So an update that supplies an id the counter has not reached yet, followed by enough additions, stores two items with the same `Id` (`UpdateThenAddDuplicates`).

## Model

| member | source | states |
|---|---|---|
| Models.ToInt32 | Source/GroceriesAPI/Repositories/GroceriesRepository.cs:25 | reduction to 32 bits leaves every value already in the 32-bit range unchanged |
| Models.ToInt32Congruent | Source/GroceriesAPI/Repositories/GroceriesRepository.cs:25 | the wrapped value differs from the exact integer by a multiple of 2^32 |
| Models.Succ | Source/GroceriesAPI/Repositories/GroceriesRepository.cs:25 | the unchecked `_identifier + 1` is the wrap-around reduction of the exact sum, and is the exact sum below the maximum |
| Repositories.WithoutId | Source/GroceriesAPI/Repositories/GroceriesRepository.cs:39 | `RemoveAll` by id never lengthens the list and leaves no item with that id |
| Repositories.Fresh | Source/GroceriesAPI/Repositories/GroceriesRepository.cs:7-9 | the state after the static initialisers: an empty list and counter 0 |
| Repositories.Stamped | Source/GroceriesAPI/Repositories/GroceriesRepository.cs:23 | the item `AddItem` stores has `Id` equal to the counter and the caller's `Name`, `Quantity` and `Value` |
| Repositories.Added | Source/GroceriesAPI/Repositories/GroceriesRepository.cs:21-28 | after `AddItem` the old list is a prefix, one item is appended, it carries the old counter as `Id`, and the counter has advanced once (wrapping) |
| Repositories.Updated | Source/GroceriesAPI/Repositories/GroceriesRepository.cs:30-35 | after `UpdateItem` the item is last, no earlier item has its `Id`, and the counter is kept |
| Repositories.Deleted | Source/GroceriesAPI/Repositories/GroceriesRepository.cs:37-40 | after `Delete` no item has the id, the list has not grown, and the counter is kept |
| Repositories.AddedAll | Source/GroceriesAPI/Repositories/GroceriesRepository.cs:21-28 | after k `AddItem` calls the old list is a prefix and the list has grown by k |
| Repositories.GroceriesRepository.constructor | Source/GroceriesAPI/Repositories/GroceriesRepository.cs:7-14 | a new store has an empty list and counter 0 |
| Repositories.GroceriesRepository.GetItemsAsync | Source/GroceriesAPI/Repositories/GroceriesRepository.cs:16-19 | returns the current list and changes neither the list nor the counter |
| Repositories.GroceriesRepository.AddItem | Source/GroceriesAPI/Repositories/GroceriesRepository.cs:21-28 | the stored item is the caller's item with `Id` equal to the old counter; the counter advances by one (wrapping); the list is the old list followed by the stored item |
| Repositories.GroceriesRepository.UpdateItem | Source/GroceriesAPI/Repositories/GroceriesRepository.cs:30-35 | the list becomes the old list without the item's id, followed by the item; the counter is unchanged |
| Repositories.GroceriesRepository.Delete | Source/GroceriesAPI/Repositories/GroceriesRepository.cs:37-40 | the list becomes the old list without that id; the counter is unchanged |
| Repositories.FreshRepositoryScenario | Source/GroceriesAPI/Repositories/GroceriesRepository.cs:9-40 | on a fresh store three additions get ids 0, 1, 2; an update of id 1 moves the replacement to the end; deleting id 0 leaves the other two in order |
| RepositoryProperties.WithoutIdAppend | Source/GroceriesAPI/Repositories/GroceriesRepository.cs:39 | removal distributes over concatenation, so the kept items keep their relative order |
| RepositoryProperties.WithoutIdCount | Source/GroceriesAPI/Repositories/GroceriesRepository.cs:39 | every item with a different id is kept exactly as often as before; every item with the id is gone |
| RepositoryProperties.WithoutIdMembers | Source/GroceriesAPI/Repositories/GroceriesRepository.cs:39 | an item is left if and only if it was present and has a different id |
| RepositoryProperties.WithoutIdIdentity | Source/GroceriesAPI/Repositories/GroceriesRepository.cs:39 | the list is unchanged if and only if no item has the id |
| RepositoryProperties.WithoutIdIdempotent | Source/GroceriesAPI/Repositories/GroceriesRepository.cs:39 | removing an id twice is removing it once |
| RepositoryProperties.WithoutIdCommute | Source/GroceriesAPI/Repositories/GroceriesRepository.cs:39 | removals of two ids commute |
| RepositoryProperties.DeletedSpec | Source/GroceriesAPI/Repositories/GroceriesRepository.cs:37-40 | after `Delete(id)`: no item has `id`; every other item is kept as often as before; the store is unchanged if and only if `id` was absent; the counter is kept |
| RepositoryProperties.DeletedIdempotent | Source/GroceriesAPI/Repositories/GroceriesRepository.cs:37-40 | two `Delete(id)` calls leave the same store as one |
| RepositoryProperties.DeletedCommute | Source/GroceriesAPI/Repositories/GroceriesRepository.cs:37-40 | deleting two ids in either order gives the same store |
| RepositoryProperties.UpdatedSpec | Source/GroceriesAPI/Repositories/GroceriesRepository.cs:30-35 | after `UpdateItem(item)`: the item is last and occurs once; no other element has its id; items with other ids are kept as often as before; the counter is kept |
| RepositoryProperties.UpdatedAbsentAppends | Source/GroceriesAPI/Repositories/GroceriesRepository.cs:30-35 | updating with an id no item has is a plain append |
| RepositoryProperties.UpdatedIdempotent | Source/GroceriesAPI/Repositories/GroceriesRepository.cs:30-35 | updating twice with the same item equals updating once |
| RepositoryProperties.UpdatedThenDeleted | Source/GroceriesAPI/Repositories/GroceriesRepository.cs:30-40 | deleting the id just updated gives the same store as deleting it without the update |
| RepositoryProperties.AddedAllSpec | Source/GroceriesAPI/Repositories/GroceriesRepository.cs:21-28 | k additions keep the old list as a prefix and append the items in order; the i-th is stamped with the counter advanced i times (32-bit wrap); the counter advances k times |
| RepositoryProperties.AddedAllDistinct | Source/GroceriesAPI/Repositories/GroceriesRepository.cs:23-25 | up to 2^32 consecutive additions never hand out the same id twice |
| RepositoryProperties.FromZero | Source/GroceriesAPI/Repositories/GroceriesRepository.cs:9-28 | from an empty list and counter 0, k ≤ 2^31 additions store exactly `xs[i]` with `Id` i, and the counter is k wrapped to 32 bits |
| RepositoryProperties.FreshIds | Source/GroceriesAPI/Repositories/GroceriesRepository.cs:9-28 | from a fresh store, k ≤ 2^31 additions store exactly `xs[i]` with `Id` i, with strictly increasing ids; the counter ends at k, or wraps to -2^31 when k = 2^31 |
| RepositoryProperties.FreshKeyInvariant | Source/GroceriesAPI/Repositories/GroceriesRepository.cs:7-9 | a fresh store has unique ids, all below the counter |
| RepositoryProperties.WithoutIdKeepsUniqueIds | Source/GroceriesAPI/Repositories/GroceriesRepository.cs:39 | removal cannot create duplicate ids |
| RepositoryProperties.UpdatedKeepsUniqueIds | Source/GroceriesAPI/Repositories/GroceriesRepository.cs:30-35 | `UpdateItem` keeps ids unique, whatever id the caller supplies |
| RepositoryProperties.DeletedKeepsKeyInvariant | Source/GroceriesAPI/Repositories/GroceriesRepository.cs:37-40 | `Delete` keeps ids unique and below the counter |
| RepositoryProperties.UpdatedKeepsIdsBelowCounter | Source/GroceriesAPI/Repositories/GroceriesRepository.cs:30-35 | when all ids are below the counter, `UpdateItem` keeps them below the counter if and only if the caller's id is below it |
| RepositoryProperties.UpdateThenAddDuplicates | Source/GroceriesAPI/Repositories/GroceriesRepository.cs:21-35 | on a fresh store, an update with id 0 followed by an addition stores two items with `Id` 0, so the ids are no longer unique |
| RepositoryProperties.AddedKeepsKeyInvariant | Source/GroceriesAPI/Repositories/GroceriesRepository.cs:21-28 | `AddItem` keeps ids unique and below the counter while the counter does not wrap |
| RepositoryProperties.AddedThenDeleted | Source/GroceriesAPI/Repositories/GroceriesRepository.cs:21-40 | deleting the id just handed out restores the old list (the counter stays advanced), when all ids are below the counter |

## Left out

- Aliasing: `GetItemsAsync` hands out the live list, and `AddItem` mutates the caller's `Item` object. The model returns a value copy of the list. `AddItem` returns the stamped item instead of mutating the caller's object.
- Reference sharing of stored items: `AddItem` and `UpdateItem` store the caller's own object. In C#, a later change to that object, or to an element obtained through `GetItemsAsync`, changes the stored entry, `Id` included. So `AddItem(x)` called twice on the same object gives a list holding `x` twice, both with the second id. The model's items are values: the same two calls give two entries with ids 0 and 1. The model's "earlier elements unchanged" (`items == old(items) + [stored]`) does not hold in C# in that case.
- Null items: the model's `Item` cannot be `null`.
  - `AddItem(null)` throws a `NullReferenceException` at the stamp.
  - `UpdateItem(null)` throws in the `RemoveAll` predicate when the list is non-empty. On an empty list it appends `null`.
  - After `null` is appended, every later `Delete` or `UpdateItem` throws when its predicate reads `i.Id`.
  - None of this is modelled.
- Shared static state and concurrency: `_context` and `_identifier` are `static`. So every repository instance shares them, and concurrent requests touch them without synchronisation. The model is one object used sequentially. Its constructor stands for the static initialisers; constructing a second instance in C# does not reset them.
- `Value` is a C# `decimal`. It is carried as a mantissa/scale pair that no operation reads. Equality on that pair is structural, so `Decimal(10, 1) != Decimal(1, 0)`, although in C# `1.0m == 1m`.
- `Name` may be `null` in C#. The model has no null strings.
- List capacity: the model's item list is unbounded. A C# `List<T>` holds at most 0x7FFFFFC7 (`Array.MaxLength`) items.
  - Once that many items are stored, `_context.Items.Add(item)` throws `OutOfMemoryException`.
  - On that path the caller's item has already been stamped and the counter already advanced.
  - So with additions alone, `FreshIds` for the largest values of k, up to 2^31, cannot be reached in C#. Nor can `AddedAllDistinct` runs longer than the cap.
- `DbContext` is not part of this model. Its list is taken to have `List<T>` semantics: `Add` appends at the end, and `RemoveAll` keeps, in order, exactly the elements that fail the predicate.
- `IGroceriesRepository` is an interface with no behaviour. The class's methods are its only implementation.
- The HTTP controllers, `Program.cs`, the generator driver `src/main.rs` and the generated `output.rs` are not part of this model. They are framework routing, host setup, a call into an external parser library and a generated type declaration.
