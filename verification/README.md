# Realm object accessor and Open Library book search: a verified model

OpenLibrary-BookSearch is an iOS application that searches Open Library and keeps a wishlist in a Realm
database; it ships the Realm sources it is built on. This project models the algorithms of that code and
proves what they promise. `dafny verify dfyconfig.toml` checks the whole of it.

The core is Realm's object accessor: `Object::create` finds or creates a row by primary key and populates it
from a nested value, creating linked objects on the way, either by overwriting everything or by writing only
what differs. Tables are maps from class to a sequence of rows, a row maps columns to cells, an input value is
a finite tree, and an exception is a result that keeps the store it was thrown in: nothing is rolled back. The
store also logs each write asked of the core database, so that "writes nothing" can be stated.

| file | content |
|---|---|
| `Schema.dfy`, `Tables.dfy`, `Wrappers.dfy` | properties, values, rows, cells, the write log |
| `ObjectAccessor.dfy` | create, set, get, assign and lookup as functions of the store |
| `Realm.dfy` | the same operations in place, each with the source's loops, proved against those functions |
| `Invariants.dfy` | what every call and every sequence of calls keeps, exceptions included |
| `Frame.dfy`, `FreshRows.dfy` | what a create cannot read or write, and what it leaves in the rows it adds |
| `Reuse.dfy`, `DiffRefinement.dfy`, `StaleLink.dfy`, `UnkeyedLink.dfy` | writing differences refines overwriting; the inputs for which it does not |
| `ReadBack.dfy`, `Upsert.dfy`, `Idempotence.dfy` | what a successful create leaves, and what repeating it does |
| `Duplicates.dfy` | when a taken key is reported |
| `Values.dfy`, `Keys.dfy` | which value fits a column and what it is stored as; which key is stored and found |
| `ListTrimming.dfy`, `FlatLists.dfy` | list assignment: when it succeeds, its result and its exact writes |
| `Success.dfy`, `Insertion.dfy` | when a create succeeds |
| `Setter.dfy`, `Results.dfy` | setting one property; batch update through a snapshot |
| `Timestamps.dfy` | conversion between dates and timestamps |
| `ChunkedRanges.dfy` | iterators over chunked ranges and over the indices in them |
| `SwiftList.dfy` | range edits of the Swift `List` |
| `Observation.dfy` | the intrusive lists of observers |
| `Wishlist.dfy`, `BookSearch.dfy` | the application's wishlist and search pipeline |

How the source is read:

- The accessor context is `CppContext`: no default values, and a missing value is never excused. The branches
  for builds without sync are followed.
- `ValidSchema` states what schema validation guarantees (`object_schema.cpp` lines 154-311).
- What core does with a null for a non-nullable column or a row out of range is an error, as its
  documentation says; core's bodies are not part of this model.
- Conditions on the input value: `Distinct`, no property of a (class, key) is supplied twice; `NoRecursion`, none
  is supplied again inside its own value; `KeyedValue`, every object created below the value has a primary key;
  `Flat`, links are null or managed objects. On the value and the store before the call: `AddsOnly`, no unkeyed
  object of the value goes where one is linked already. None restricts the schema. The objects a value names are
  known by class and key, its cells by class, key and column.
- That a value fits (`FitsScalar`, `FitsItem`, `FitsValue`, `Fits`) is said of the value, the schema and the rows there
  before, never by unboxing it.
- `ReusesKeys` is outside migration, or updating: only an insertion in a migration adds a row under a taken key.
- Clearing a list counts as a write even if the list is empty, as `remove_all` is called either way.
- Dates are exact reals. `NSTimeIntervalSince1970` is 978307200 seconds.
- Code against comment: the lower clamp of the date conversion is described as catching dates a timestamp
  cannot represent, but it subtracts the epoch offset where representability would require adding it, so it
  also clamps the dates of timestamps less than twice that offset above the minimum. The model follows the code, and
  `TimestampRoundTrip` states which timestamps are affected.
- A notification post is a direct call, and a download is an event that may come in any order, or fail.

## Model

| member | source | states |
|---|---|---|
| `Invariants.RunContinues` | OpenLibrary-BookSearch/Pods/Realm/include/object_accessor.hpp:43-306 | Over every finite sequence of creates, property writes and batch writes outside migration, ended by success or exception alike: cells keep their column type, links target existing rows, no two rows of a class share a primary key, and every row that ever existed is still at its index with its key. |
| `Invariants.CreateContinues` | OpenLibrary-BookSearch/Pods/Realm/include/object_accessor.hpp:191-306 | One `create` keeps all of that for any value, flags and nesting, on every exit; in migration all but key uniqueness, and there too no existing row changes its key. The row it returns exists. |
| `Invariants.SetPropertyContinues` | OpenLibrary-BookSearch/Pods/Realm/include/object_accessor.hpp:104-143 | Writing one property, with whatever creates it triggers below, keeps the invariant on every exit; only writing a primary key, in a migration, changes a key, and only that row's. |
| `Invariants.AssignContinues` | OpenLibrary-BookSearch/Pods/Realm/include/list.hpp:249-282 | Assigning a list, diffing or overwriting, keeps the invariant even when an element throws half way. |
| `DiffRefinement.DiffRefinesOverwrite` | OpenLibrary-BookSearch/Pods/Realm/include/object_accessor.hpp:192-306 | From one store, `create` with and without `update_only_diff` both succeed with the same row and the same tables, or both throw the same exception: outside migration, and inside one when updating, for every value none of whose unkeyed objects goes where one is linked already and that supplies no property of an object again inside that very property; with unkeyed objects, no property twice at all. |
| `DiffRefinement.CreateAgrees` | OpenLibrary-BookSearch/Pods/Realm/include/object_accessor.hpp:192-306 | The same at every depth: whatever `current_row` each side passes down for a keyed class, the two agree. |
| `DiffRefinement.UpdateAgrees` | OpenLibrary-BookSearch/Pods/Realm/include/object_accessor.hpp:83-100 | Under those conditions, comparing the new link or scalar with the cell read before the nested create decides as overwriting would, because the nested create cannot reach this cell. |
| `DiffRefinement.AssignAgrees` | OpenLibrary-BookSearch/Pods/Realm/include/list.hpp:260-281 | Under those conditions, setting the positions that differ, adding the surplus and removing the tail ends with the tables that clearing and adding everything ends with. |
| `DiffRefinement.AssignFromAgrees` | OpenLibrary-BookSearch/Pods/Realm/include/list.hpp:263-280 | Between the two loops, under the same conditions: after any number of elements the overwritten list holds what is done, and the diffed list holds that followed by the old elements not yet reached; all other cells are equal. |
| `Reuse.AddsOnlyStable` | OpenLibrary-BookSearch/Pods/Realm/include/object_accessor.hpp:278-298 | That no unkeyed object of a value goes where one is linked, checked on the store before the call, stays true while other parts of the value are created. |
| `Reuse.KeyedAddsOnly` | OpenLibrary-BookSearch/Pods/Realm/include/object_accessor.hpp:260-272 | Values that create keyed objects only below themselves meet that condition in every store. |
| `FreshRows.CreateUnused` | OpenLibrary-BookSearch/Pods/Realm/include/object_accessor.hpp:219-272 | In the keyed rows a `create` adds, outside migration or updating, on every exit, every link is null and every list empty except where the value names the cell. |
| `UnkeyedLink.UnkeyedLinkDiffers` | OpenLibrary-BookSearch/Pods/Realm/include/object_accessor.hpp:83-91 | Why a used link is excluded: for every existing keyed object holding a link, and every value that gives that link a new object of an unkeyed class and does not name the same link again below itself, if both modes succeed then overwriting ends linked to a row not there before, diffing to the old one, and the tables differ. |
| `UnkeyedLink.UnkeyedElementDiffers` | OpenLibrary-BookSearch/Pods/Realm/include/list.hpp:260-281 | The same for lists of a keyed object none of whose new elements reaches the list again: for every position in use that is given a new object of an unkeyed class, if both modes succeed then overwriting ends linking a row not there before, diffing the old one, and the tables differ. |
| `UnkeyedLink.UpdateLinks` | OpenLibrary-BookSearch/Pods/Realm/include/object_accessor.hpp:260-272 | The link of a keyed object alone, not reached again by its value: diffing passes the current row down and gets it back, overwriting adds a row. |
| `StaleLink.RecursionBreaksDiff` | OpenLibrary-BookSearch/Pods/Realm/include/object_accessor.hpp:83-91 | Why recursion is excluded: a node whose link value supplies the same node's link again ends linked to itself when overwritten and unlinked when diffed, since the current link was read before the nested create cleared it. |
| `StaleLink.SelfLinkAgrees` | OpenLibrary-BookSearch/Pods/Realm/include/object_accessor.hpp:83-91 | A node linked to itself by its key alone is not excluded: both modes agree on it from every store. |
| `Frame.CreateCommutes` | OpenLibrary-BookSearch/Pods/Realm/include/object_accessor.hpp:192-306 | A `create` neither reads nor writes a cell its value does not name by class, key and column: replacing the contents before or after gives the same result, tables, write log and exception. Without condition for the cells of keyed objects, and for all cells when overwriting; when diffing, cells of unkeyed objects need every object created below to be keyed. |
| `Frame.SetPropertyCommutes` | OpenLibrary-BookSearch/Pods/Realm/include/object_accessor.hpp:104-143 | The same for writing one property, apart from its own cell. |
| `Frame.AssignCommutes` | OpenLibrary-BookSearch/Pods/Realm/include/list.hpp:249-282 | The same for a list assignment, apart from the list's own cell. |
| `ReadBack.CreateReflects` | OpenLibrary-BookSearch/Pods/Realm/include/object_accessor.hpp:274-305 | After a successful `create`, outside migration or updating, the row holds the value at every depth: each supplied scalar, each list element for element, each link to a row that holds the nested value, keyed rows being found by their key and no unkeyed object sharing the row of one of its class above it. When overwriting, for every value supplying no property of an object twice; when diffing, also with no unkeyed object going where one is linked already. |
| `ReadBack.AssignReflects` | OpenLibrary-BookSearch/Pods/Realm/include/list.hpp:249-282 | Under the same conditions a successful assignment leaves the list with exactly the given elements, no more, on both paths and whatever it held, and changes no other cell but those the elements name. |
| `ReadBack.SetPropertyOnlyTouches` | OpenLibrary-BookSearch/Pods/Realm/include/object_accessor.hpp:104-143 | Writing a property, on every exit, changes its own cell and cells its value names, and no other. |
| `ReadBack.ReflectsStable` | OpenLibrary-BookSearch/Pods/Realm/include/object_accessor.hpp:278-298 | What one property stored still holds after the later properties and elements are populated. |
| `Invariants.LookupLater` | OpenLibrary-BookSearch/Pods/Realm/include/object_accessor.hpp:335-351 | A key that is found stays found at the same row through every later write. |
| `Success.FlatCreates` | OpenLibrary-BookSearch/Pods/Realm/include/object_accessor.hpp:192-306 | A flat value is created if and only if it fits, in every mode, migration included: the class is known; the key given has the key's type, or is null or missing where it is nullable; it is not taken, save when updating or migrating; every supplied property fits, a primitive of the column's type, null where nullable, a managed object with a row in the link's table, a list of these or a list itself; and a row that is added is given every required property. The row is the first with the key, or the next of the table. |
| `Success.NestedCreates` | OpenLibrary-BookSearch/Pods/Realm/include/object_accessor.hpp:192-306 | A value of any depth all of whose parts fit the tables before the call is created when updating or migrating: overwriting always, writing differences where the two are proved to agree. |
| `Insertion.InsertSucceeds` | OpenLibrary-BookSearch/Pods/Realm/include/object_accessor.hpp:192-306 | A value of any depth that fits is inserted, outside migration and without updating, if and only if no key in it is taken and none occurs twice; otherwise a taken key is reported. The keys there afterwards are those before and the value's, no others. |
| `Insertion.InsertKeepsRows` | OpenLibrary-BookSearch/Pods/Realm/include/object_accessor.hpp:192-306 | An insertion that overwrites leaves every row there before exactly as it was, whatever the value, on every exit. |
| `Success.Locates` | OpenLibrary-BookSearch/Pods/Realm/include/object_accessor.hpp:198-272 | When the row is found or added, which row it is, and what is written for it. |
| `Success.LocateErrors` | OpenLibrary-BookSearch/Pods/Realm/include/object_accessor.hpp:206-257 | Otherwise nothing was written, and which of the reasons is reported. |
| `Success.TurnErrors` | OpenLibrary-BookSearch/Pods/Realm/include/object_accessor.hpp:278-298 | The exception of each property that does not fit: missing or null where required, null for a nullable list, a wrong type, a row out of range. |
| `Values.SetsScalar` | OpenLibrary-BookSearch/Pods/Realm/include/object_accessor.hpp:93-114 | Writing a scalar column succeeds if and only if the value is a primitive of its type, or null where nullable; then the cell holds that primitive or null, and is written once, or not at all if differences are asked for and it held that; otherwise nothing is written. |
| `Values.SetsLink` | OpenLibrary-BookSearch/Pods/Realm/include/object_accessor.hpp:83-91 | A managed object with a row in the link's table is linked, whatever the link held, in every mode. |
| `Values.SetsOtherLinks` | OpenLibrary-BookSearch/Pods/Realm/include/object_accessor.hpp:83-119 | A row outside the table is refused with nothing written; null clears a link. |
| `Values.DefaultReads` | OpenLibrary-BookSearch/Pods/Realm/include/object_accessor.hpp:228-272 | What each property of a new row reads: null where nullable, otherwise the zero of its type; no link; an empty list. |
| `Values.GetterReads` | OpenLibrary-BookSearch/Pods/Realm/include/object_accessor.hpp:145-179 | What the getter makes of each cell: a handle on the list, the primitive, the linked object, or null. |
| `Keys.CreatedKey` | OpenLibrary-BookSearch/Pods/Realm/include/object_accessor.hpp:206-243 | After a successful `create`, inserted in a migration or not, the key column of its row holds the primitive given, or null if null or none was. |
| `Keys.LookupFinds` | OpenLibrary-BookSearch/Pods/Realm/include/object_accessor.hpp:317-351 | Looking up a primitive of the key's type gives the first row whose key it is, and none if and only if there is none. |
| `Keys.LookupFindsNull` | OpenLibrary-BookSearch/Pods/Realm/include/object_accessor.hpp:335-351 | The same for null where the key is nullable. |
| `Keys.LookupRefuses` | OpenLibrary-BookSearch/Pods/Realm/include/object_accessor.hpp:317-351 | Any other lookup fails: without a key in the class, on null for a key that is not nullable, on another type. |
| `Setter.SetterRefuses` | OpenLibrary-BookSearch/Pods/Realm/include/object_accessor.hpp:43-58 | `set_property_value` reports an unknown property if and only if no property has the name, and a modified primary key if and only if the property is the key outside a migration; the store is untouched both times. |
| `Setter.SetterScalar` | OpenLibrary-BookSearch/Pods/Realm/include/object_accessor.hpp:43-58 | A scalar is set if and only if it fits; the getter then returns it, no other cell has changed, and otherwise nothing has. |
| `Setter.SetterLink` | OpenLibrary-BookSearch/Pods/Realm/include/object_accessor.hpp:43-58 | A link is set if and only if it is given null or a row of its table; the getter then returns that, and no other cell has changed. |
| `Setter.SetterList` | OpenLibrary-BookSearch/Pods/Realm/include/object_accessor.hpp:43-58 | A list of primitives or managed objects is set if and only if it is given what fits; the cell then holds the elements, one for one, and no other cell has changed. |
| `Setter.SetterCreates` | OpenLibrary-BookSearch/Pods/Realm/include/object_accessor.hpp:43-58 | Updating or migrating, a property given a value of any depth that fits is set. |
| `Setter.SetterHolds` | OpenLibrary-BookSearch/Pods/Realm/include/object_accessor.hpp:43-58 | Once set, the property holds the value at every depth, where no property of an object is supplied twice nor this one again. |
| `Setter.SetterOnlyTouches` | OpenLibrary-BookSearch/Pods/Realm/include/object_accessor.hpp:43-58 | On every exit only the property's own cell and cells the value names change. |
| `Upsert.CreateSucceeds` | OpenLibrary-BookSearch/Pods/Realm/include/object_accessor.hpp:278-298 | After a successful `create` of any depth, outside migration or updating, an existing row keeps every column the value neither supplies nor names below; a new row reads the default there, and then nothing required was missing or null; the row holds the value under the conditions of `CreateReflects`. Diffing an unkeyed class needs those of `DiffRefinesOverwrite`. |
| `Upsert.FlatSucceeds` | OpenLibrary-BookSearch/Pods/Realm/include/object_accessor.hpp:278-298 | A successful flat `create`, overwriting or diffing, outside migration or updating, under every valid schema: the row holds the value, and every column the value lacks is as it was, or at its default in a new row. |
| `Upsert.PropertyReadsBack` | OpenLibrary-BookSearch/Pods/Realm/include/object_accessor.hpp:145-179 | The getter returns what was supplied: the same primitive or null, the managed object's row in the class the link targets, or a handle on a row holding the nested value. |
| `Upsert.CreateUntouched` | OpenLibrary-BookSearch/Pods/Realm/include/object_accessor.hpp:192-306 | On success and on every exception, `create` leaves every cell the value does not name as it was, and so every row none of whose cells it names; a cell of an unkeyed object in diff mode only if the objects created below are keyed. |
| `Upsert.FlatChangesOneRow` | OpenLibrary-BookSearch/Pods/Realm/include/object_accessor.hpp:278-298 | A successful flat `create` changes no existing row but the one it returns, from any store and in migration too. |
| `Upsert.LookupAfterCreate` | OpenLibrary-BookSearch/Pods/Realm/include/object_accessor.hpp:317-333 | After every successful `create`, `get_for_primary_key` on the key given, or on null if none was, returns the created or updated row if and only if this was not an insertion in a migration under a key that was taken; then it returns the older row. |
| `Duplicates.DuplicateRejected` | OpenLibrary-BookSearch/Pods/Realm/include/object_accessor.hpp:245-257 | A `create` ends as a duplicate with the store untouched if and only if it neither updates nor migrates and `get_for_primary_key` finds its key: a duplicate further down is reported only after something was written. |
| `Duplicates.CreateTolerates` | OpenLibrary-BookSearch/Pods/Realm/include/object_accessor.hpp:245-257 | While updating or migrating no `create`, at any depth, reports a duplicate. |
| `Duplicates.InsertStopsOrEquals` | OpenLibrary-BookSearch/Pods/Realm/include/object_accessor.hpp:245-257 | Outside a migration `try_update` decides about taken keys only: for every value and store, a `create` without it reports one or does exactly what a `create` with it does. |
| `Duplicates.NothingBeforeLocate` | OpenLibrary-BookSearch/Pods/Realm/include/object_accessor.hpp:206-257 | Whenever finding the row throws, nothing has been written. |
| `Upsert.PopulateNeedsRequired` | OpenLibrary-BookSearch/Pods/Realm/include/object_accessor.hpp:292-295 | Populating a created row succeeds only if each required property from that position on is supplied and not null. |
| `Idempotence.CreateAgain` | OpenLibrary-BookSearch/Pods/Realm/include/object_accessor.hpp:278-298 | After a `create` that met the conditions of `CreateReflects`, creating the same keyed value again with `try_update` in diff mode finds the same row and changes no table; it issues exactly one write for each list given as null, and so none at all if and only if there is no such list. |
| `Idempotence.CreateQuiet` | OpenLibrary-BookSearch/Pods/Realm/include/object_accessor.hpp:93-114 | The same from any store that already holds the value, at any depth, unkeyed objects included, not only right after a create. |
| `Idempotence.FlatAgain` | OpenLibrary-BookSearch/Pods/Realm/include/object_accessor.hpp:278-298 | For a flat keyed value, after a create overwriting or diffing, outside migration or updating, under every valid schema. |
| `FlatLists.FlatAssign` | OpenLibrary-BookSearch/Pods/Realm/include/list.hpp:249-282 | A vector of primitives or managed objects is assigned, on either path, if and only if every element fits: the list's type, null where nullable and not a date, a row of the list's table. No cell but the list changes then. |
| `FlatLists.ListHolds` | OpenLibrary-BookSearch/Pods/Realm/include/list.hpp:249-282 | The list then has one slot for each element, in order: the primitive, null, or the row of the managed object. |
| `FlatLists.DiffAssign` | OpenLibrary-BookSearch/Pods/Realm/include/list.hpp:260-275 | The diffing path's complete sequence of writes: a set at each differing common position, in order, an add for each surplus element, then removals from the old end down. |
| `FlatLists.OverwriteAssign` | OpenLibrary-BookSearch/Pods/Realm/include/list.hpp:276-281 | The overwriting path ends with the same list through one clear and one add for each element. |
| `FlatLists.SetsExactlyTheDifferences` | OpenLibrary-BookSearch/Pods/Realm/include/list.hpp:236-246 | A position is set if and only if it is common to both lists and the contents differ there. |
| `FlatLists.ItemErrors` | OpenLibrary-BookSearch/Pods/Realm/include/list.hpp:193-246 | The exception of an element that does not fit, set or added. |
| `FlatLists.OtherListValues` | OpenLibrary-BookSearch/Pods/Realm/include/list.hpp:249-282 | A list given itself is left alone, given null is emptied, and given anything else but a vector is refused, emptied already when overwriting. |
| `FlatLists.RefusedNull` | OpenLibrary-BookSearch/Pods/Realm/include/list.hpp:193-197 | A null that may not be added has left a default element behind. |
| `ListTrimming.TrimToDrops` | OpenLibrary-BookSearch/Pods/Realm/include/list.hpp:272-274 | Removing at the shrinking end while `index < sz` keeps exactly the assigned elements and drops every old one behind them. |
| `Realm.Realm.Create` | OpenLibrary-BookSearch/Pods/Realm/include/object_accessor.hpp:192-306 | The method that changes tables in place, with its population loop, ends for all inputs in the result or exception and the store of the specification all the lemmas above are about. |
| `Realm.Realm.LocateRow` | OpenLibrary-BookSearch/Pods/Realm/include/object_accessor.hpp:198-272 | Finding or adding the row in place: key from the value, duplicate in and out of migration, reuse of the current row, each with the specified target and store. |
| `Realm.Realm.FindPrimaryKey` | OpenLibrary-BookSearch/Pods/Realm/include/object_accessor.hpp:335-351 | In place: a primitive of the key's type, or null where nullable, gives the first row with that key, or none if and only if there is none; null for another key and any other type are refused, each with its error. |
| `Realm.Realm.PopulateAll` | OpenLibrary-BookSearch/Pods/Realm/include/object_accessor.hpp:278-298 | The population loop in place meets the specification on every exit. |
| `Realm.Realm.PopulateProperty` | OpenLibrary-BookSearch/Pods/Realm/include/object_accessor.hpp:278-298 | One turn of the population loop: skipped key, missing value, required value, write. |
| `Realm.Realm.SetPropertyImpl` | OpenLibrary-BookSearch/Pods/Realm/include/object_accessor.hpp:83-143 | Null, list, link and scalar branches in place, the link read before unboxing, meet the specification on every exit. |
| `Realm.Realm.UnboxValue` | OpenLibrary-BookSearch/Pods/Realm/include/impl/object_accessor_impl.hpp:161-191 | Unboxing casts a primitive, takes a managed object as it is and creates anything else, mutually recursive with `Create` and terminating on the value. |
| `Realm.Realm.SetPropertyValue` | OpenLibrary-BookSearch/Pods/Realm/include/object_accessor.hpp:43-58 | `set_property_value` in place, with its two checks, ends in the result and the store the lemmas about it are stated on. |
| `Realm.Realm.AssignList` | OpenLibrary-BookSearch/Pods/Realm/include/list.hpp:249-282 | The assignment with its `index` and `sz` counters meets the specification on every exit. |
| `Realm.Realm.Enumerate` | OpenLibrary-BookSearch/Pods/Realm/include/list.hpp:263-280 | The enumeration loop with its counter, on both paths. |
| `Realm.Realm.RemoveTail` | OpenLibrary-BookSearch/Pods/Realm/include/list.hpp:272-274 | The removal loop. |
| `Realm.Realm.SetIfDifferent` | OpenLibrary-BookSearch/Pods/Realm/include/list.hpp:236-246 | The old element is read first, the value unboxed against it, and the list set only on a difference of row or table. |
| `Realm.Realm.Add` | OpenLibrary-BookSearch/Pods/Realm/include/list.hpp:193-197 | Adding unboxes without diffing and appends one element; a refused null leaves the appended default behind. |
| `Realm.Realm.SetOnMatches` | OpenLibrary-BookSearch/Pods/Realm/include/results.hpp:335-357 | The batch write in place fixes the matching rows, the query looking at the whole group, before the first write. |
| `Results.SetOnMatching` | OpenLibrary-BookSearch/Pods/Realm/include/results.hpp:335-357 | For every query over the whole group, also one the write falsifies, and a scalar, link or list column given a value that creates nothing: the rows matching at the start hold the value and nothing else changes anywhere; it fails if and only if a row matches and the value does not fit, and then a scalar or link column is as it was. |
| `Results.SetOnRowsWrites` | OpenLibrary-BookSearch/Pods/Realm/include/results.hpp:351-356 | Writing the snapshot row by row sets exactly the listed rows, duplicates included, in scalar, link and list columns. |
| `Results.BatchRefuses` | OpenLibrary-BookSearch/Pods/Realm/include/results.hpp:338-346 | The batch reports an unknown property or a modified key exactly in their cases, whether or not a row matches, with nothing written. |
| `Timestamps.TimestampForDate` | OpenLibrary-BookSearch/Pods/Realm/include/RLMUtil.hpp:144-167 | On 64-bit seconds and 32-bit nanoseconds no step overflows, and for every date the result is the nanosecond count truncated toward the reference date, shifted to 1970 and split with one sign. |
| `Timestamps.FromDateWellFormed` | OpenLibrary-BookSearch/Pods/Realm/include/core/realm/timestamp.hpp:41-74 | Every date but nil gives seconds and nanoseconds of one sign, nanoseconds below a billion in size, seconds within 64 bits: what the `Timestamp` constructor asserts. |
| `Timestamps.FromDateMonotone` | OpenLibrary-BookSearch/Pods/Realm/include/RLMUtil.hpp:151-166 | Later dates never give earlier timestamps, through both clamps and both sign changes. |
| `Timestamps.TimestampRoundTrip` | OpenLibrary-BookSearch/Pods/Realm/include/RLMUtil.hpp:137-167 | Timestamp to date and back is the identity if and only if the timestamp is null, is one of the two extremes, or has seconds below the maximum and lies at or above twice the epoch offset over the minimum. |
| `Timestamps.DateRoundTrip` | OpenLibrary-BookSearch/Pods/Realm/include/RLMUtil.hpp:137-167 | Date to timestamp and back, outside the clamps, gives the date truncated to nanoseconds toward the reference date. |
| `Timestamps.Landmarks` | OpenLibrary-BookSearch/Pods/Realm/include/RLMUtil.hpp:137-167 | The conversions in numbers: the reference date is 31 years with 8 leap days after 1970, a nanosecond a billionth of a second; nil, not-a-number and the dates beyond each clamp convert to what they should. |
| `Timestamps.TruncInTwoSteps` | OpenLibrary-BookSearch/Pods/Realm/include/RLMUtil.hpp:157-158 | Truncating to seconds and then the remainder to nanoseconds loses nothing against truncating the nanoseconds at once. |
| `Timestamps.SplitTotal` | OpenLibrary-BookSearch/Pods/Realm/include/core/realm/timestamp.hpp:41-74 | A pair obeying the sign rule is determined by its total of nanoseconds. |
| `ChunkedRanges.WalkIndices` | OpenLibrary-BookSearch/Pods/Realm/include/index_set.hpp:192-235 | Walking the indices from begin to end visits exactly the indices of the flattened ranges, in order, whatever the chunking, and stops at the end. |
| `ChunkedRanges.WalkTo` | OpenLibrary-BookSearch/Pods/Realm/include/index_set.hpp:199-214 | The same from any position: exactly what the iterator had left, stopping at the end although the comparison ignores offsets. |
| `ChunkedRanges.IndicesMembers` | OpenLibrary-BookSearch/Pods/Realm/include/index_set.hpp:192-219 | The walk contains an index if and only if some range does. |
| `ChunkedRanges.IndicesAscend` | OpenLibrary-BookSearch/Pods/Realm/include/index_set.hpp:192-219 | Over sorted disjoint ranges, touching ones allowed, the walk is strictly ascending: nothing is visited twice. |
| `ChunkedRanges.IndexIterator.Increment` | OpenLibrary-BookSearch/Pods/Realm/include/index_set.hpp:199-207 | One step passes exactly one index, the first of those left, across range and chunk borders. |
| `ChunkedRanges.IndexIterator.PostIncrement` | OpenLibrary-BookSearch/Pods/Realm/include/index_set.hpp:209-214 | The post-increment returns the index it passes. |
| `ChunkedRanges.IndexIterator.Current` | OpenLibrary-BookSearch/Pods/Realm/include/index_set.hpp:195 | The current index is the first of those left. |
| `ChunkedRanges.IndexIterator.Equals` | OpenLibrary-BookSearch/Pods/Realm/include/index_set.hpp:196 | Comparison sees the position of the range iterators only. |
| `ChunkedRanges.RangeIterator.Increment` | OpenLibrary-BookSearch/Pods/Realm/include/index_set.hpp:277-284 | One step moves one place in the flattened sequence, also from the last range of a chunk to the next chunk or the end. |
| `ChunkedRanges.RangeIterator.Decrement` | OpenLibrary-BookSearch/Pods/Realm/include/index_set.hpp:294-305 | One step back moves one place back, also from the end and across a chunk border. |
| `ChunkedRanges.RangeIterator.NextChunk` | OpenLibrary-BookSearch/Pods/Realm/include/index_set.hpp:315-320 | Goes to the first range of the next chunk, or to the end. |
| `ChunkedRanges.RangeIterator.Equals` | OpenLibrary-BookSearch/Pods/Realm/include/index_set.hpp:262-268 | Iterators over one vector are equal if and only if they stand at the same flat position. |
| `ChunkedRanges.RangeIterator.Current` | OpenLibrary-BookSearch/Pods/Realm/include/index_set.hpp:47 | Dereferencing gives the element of the flattened sequence at the position. |
| `ChunkedRanges.RangeIterator.Begin` | OpenLibrary-BookSearch/Pods/Realm/include/index_set.hpp:108-112 | Begin stands before the first range; of an empty vector it is the end. |
| `ChunkedRanges.RangeIterator.End` | OpenLibrary-BookSearch/Pods/Realm/include/index_set.hpp:109-113 | End stands after the last range. |
| `ChunkedRanges.ThereAndBack` | OpenLibrary-BookSearch/Pods/Realm/include/index_set.hpp:277-305 | Forward and back returns to the very chunk and element, from every position but the end. |
| `ChunkedRanges.WalkBack` | OpenLibrary-BookSearch/Pods/Realm/include/index_set.hpp:294-305 | Stepping back from end to begin visits the flattened ranges in reverse. |
| `ChunkedRanges.PositionIsUnique` | OpenLibrary-BookSearch/Pods/Realm/include/index_set.hpp:262-268 | A flat position has one representation as chunk and element, so comparing those compares positions. |
| `ChunkedRanges.FlattenAt` | OpenLibrary-BookSearch/Pods/Realm/include/index_set.hpp:53-63 | Element k of chunk i stands in the flattened sequence right after all earlier chunks and k elements. |
| `SwiftList.List.ReplaceSubrange` | OpenLibrary-BookSearch/Pods/RealmSwift/RealmSwift/List.swift:493-502 | Removing at the fixed lower bound and inserting in reverse there is prefix, new elements, suffix; a range reaching past the end fails with everything from its start on removed. |
| `SwiftList.List.ReplaceSubrangeInTwo` | OpenLibrary-BookSearch/Pods/RealmSwift/RealmSwift/List.swift:663-689 | Removal and then forward insertion at a moving index gives the same list and outcome as the other form on every range, out-of-bounds ones included. |
| `SwiftList.List.InsertContents` | OpenLibrary-BookSearch/Pods/RealmSwift/RealmSwift/List.swift:609-615 | Inserting forwards at a moving index splices the elements in, in order. |
| `SwiftList.List.RemoveSubrange` | OpenLibrary-BookSearch/Pods/RealmSwift/RealmSwift/List.swift:622-627 | Removing at the fixed lower bound removes the range; past the end it throws with the tail gone. |
| `SwiftList.List.RemoveFirst` | OpenLibrary-BookSearch/Pods/RealmSwift/RealmSwift/List.swift:574-584 | Removes exactly that many from the front, or nothing when there are fewer. |
| `SwiftList.List.RemoveLast` | OpenLibrary-BookSearch/Pods/RealmSwift/RealmSwift/List.swift:592-602 | Removes exactly that many from the end, or nothing when there are fewer. |
| `SwiftList.ReplaceAndRestore` | OpenLibrary-BookSearch/Pods/RealmSwift/RealmSwift/List.swift:493-502 | Replacing a range by one form and putting the replaced elements back by the other leaves the list as it was. |
| `SwiftList.EitherOrder` | OpenLibrary-BookSearch/Pods/RealmSwift/RealmSwift/List.swift:663-689 | Two replacements of disjoint ranges end in the same list in either order, by either form, once the later range is shifted by the growth of the earlier one. |
| `Observation.Info.ForEach` | OpenLibrary-BookSearch/Pods/Realm/include/RLMObservation.hpp:115-130 | From any node of a well-formed list the walk ends and calls the predecessors nearest first, then the node and its successors in order. |
| `Observation.CalledOnce` | OpenLibrary-BookSearch/Pods/Realm/include/RLMObservation.hpp:115-130 | Those calls are every observer of the row, each exactly once, wherever the walk starts. |
| `Observation.ClassInfo.SetRow` | OpenLibrary-BookSearch/Pods/Realm/Realm/RLMObservation.mm:140-155 | Registering puts the observer right behind the head of its row's list, or at the head of a new list, and keeps every list doubly linked, disjoint from the others and of one row. |
| `Observation.ClassInfo.JoinList` | OpenLibrary-BookSearch/Pods/Realm/Realm/RLMObservation.mm:144-152 | The pointer changes of joining touch no other list. |
| `Observation.ClassInfo.Leave` | OpenLibrary-BookSearch/Pods/Realm/Realm/RLMObservation.mm:66-93 | Destruction takes the observer out of its list, in every position, keeps the others in order and every list well formed; the place of an emptied list goes to the last one. |
| `Observation.ClassInfo.LeaveBehind` | OpenLibrary-BookSearch/Pods/Realm/Realm/RLMObservation.mm:67-75 | Detaching a node that is not a head joins its neighbours. |
| `Observation.ClassInfo.LeaveFront` | OpenLibrary-BookSearch/Pods/Realm/Realm/RLMObservation.mm:83-86 | The successor becomes the head, in the list and in the table of heads. |
| `Observation.ClassInfo.LeaveAlone` | OpenLibrary-BookSearch/Pods/Realm/Realm/RLMObservation.mm:87-90 | A single observer leaves no list behind; the last head fills its place. |
| `Wishlist.WishlistManager.Toggle` | OpenLibrary-BookSearch/OpenLibrary-BookSearch/Presenters/BookDetailsViewPresenter.swift:57-72 | Flipping a search result or a stored book and posting keeps covers unique, every stored book flagged and the cache equal to the store, and changes the store at this cover only; a book flagged whose cover was absent is stored with its own fields, one by one. |
| `Wishlist.WishlistManager.AddOrDelete` | OpenLibrary-BookSearch/OpenLibrary-BookSearch/Models/Managers/WishlistManager.swift:34-78 | Restores that invariant even when the book is the stored one whose flag was just cleared; a flagged book whose cover is absent is stored with its own cover, title, author, year, publisher, edition count and flag, and no subtitle; an unflagged one is deleted by cover. |
| `Wishlist.WishlistManager.constructor` | OpenLibrary-BookSearch/OpenLibrary-BookSearch/Models/Managers/WishlistManager.swift:20-23 | Launching on a store with unique covers and all flags set caches exactly the stored books. |
| `Wishlist.WishlistManager.GetWishlistCount` | OpenLibrary-BookSearch/OpenLibrary-BookSearch/Models/Managers/WishlistManager.swift:83-85 | The count shown is the number of stored books. |
| `Wishlist.WishlistManager.GetBook` | OpenLibrary-BookSearch/OpenLibrary-BookSearch/Models/Managers/WishlistManager.swift:88-90 | Every listed book is stored and flagged. |
| `Wishlist.Run` | OpenLibrary-BookSearch/OpenLibrary-BookSearch/Models/Managers/WishlistManager.swift:20-78 | Every sequence of launches, finished searches, and toggles of results and of listed books, carried out on the manager from any store with unique covers and all flags set: covers stay unique, stored books stay flagged, the cached list is exactly the store, and the stored books and the results shown are, record for record, what the events make of them. |
| `Wishlist.Happen` | OpenLibrary-BookSearch/OpenLibrary-BookSearch/Models/Managers/WishlistManager.swift:34-78 | One event on the manager, the store and the results, against the step it stands for. |
| `Wishlist.StoredByLastToggle` | OpenLibrary-BookSearch/OpenLibrary-BookSearch/Models/Managers/WishlistManager.swift:42-70 | After every sequence of those events a cover is stored if and only if the last toggle of a book with that cover left the flag set, or there was none and it was stored at the start; a cover never toggled keeps its book. |
| `Wishlist.StoredFromResults` | OpenLibrary-BookSearch/OpenLibrary-BookSearch/Models/Managers/WishlistManager.swift:42-57 | After every sequence of those events each stored book was there at the start, or agrees field by field with the search result whose toggle last added its cover. |
| `Wishlist.ShowResults` | OpenLibrary-BookSearch/OpenLibrary-BookSearch/Models/Managers/BookSearchManager.swift:111-120 | A finished search gives a new book for each record, outside the store, flagged exactly where its cover is stored. |
| `Wishlist.ToggleAndBack` | OpenLibrary-BookSearch/OpenLibrary-BookSearch/Presenters/BookDetailsViewPresenter.swift:57-72 | Toggling a result twice on the manager, its flag agreeing with the store, restores the flag and the set of stored covers and leaves every other stored book as it was; a book stored under the same cover is replaced by the copy of the result. |
| `Wishlist.ToggleTwice` | OpenLibrary-BookSearch/OpenLibrary-BookSearch/Models/Managers/WishlistManager.swift:42-70 | The same as a fact about the two updates of the store. |
| `BookSearch.SearchReportsDocuments` | OpenLibrary-BookSearch/OpenLibrary-BookSearch/Models/Managers/BookSearchManager.swift:51-142 | Under every order of completions, whatever happens to the wishlist meanwhile: on report the results carry the complete documents in order, field by field, several authors or publishers as one word, each with the cover downloaded for it and a flag that is true if and only if its cover was stored at the report. |
| `BookSearch.ReportedIsComplete` | OpenLibrary-BookSearch/OpenLibrary-BookSearch/Models/Managers/BookSearchManager.swift:86-120 | The same from any unflagged books: a reported search lost no cover, and nothing but cover and flag changed. |
| `BookSearch.ReportIsDue` | OpenLibrary-BookSearch/OpenLibrary-BookSearch/Models/Managers/BookSearchManager.swift:96-106 | The report is enabled exactly when every cover has arrived and none was made; one lost cover blocks it in every later state. |
| `BookSearch.FlaggedWhenReported` | OpenLibrary-BookSearch/OpenLibrary-BookSearch/Models/Managers/BookSearchManager.swift:104-120 | The flags come from the covers stored at the moment of the report, not before or after. |
| `BookSearch.RunOk` | OpenLibrary-BookSearch/OpenLibrary-BookSearch/Models/Managers/BookSearchManager.swift:89-106 | In every reachable state the group counts exactly the covers still missing and each result differs from its book by its own cover and flag alone. |
| `BookSearch.CompleteAt` | OpenLibrary-BookSearch/OpenLibrary-BookSearch/Models/Managers/BookSearchManager.swift:51-56 | The kept positions are those of the documents holding all six fields, all of them, ascending. |
| `BookSearch.BookSearchManager.RequestBookInfo` | OpenLibrary-BookSearch/OpenLibrary-BookSearch/Models/Managers/BookSearchManager.swift:45-80 | The filter and build loops end with one book for each complete document, in order, or report failure with no results when there are no documents. |
| `BookSearch.BookSearchManager.RequestBookCovers` | OpenLibrary-BookSearch/OpenLibrary-BookSearch/Models/Managers/BookSearchManager.swift:86-102 | The group is entered once per result. |
| `BookSearch.BookSearchManager.CoverCompleted` | OpenLibrary-BookSearch/OpenLibrary-BookSearch/Models/Managers/BookSearchManager.swift:96-101 | A completion with data fills its own book and leaves the group; one without does neither. |
| `BookSearch.BookSearchManager.CoversDone` | OpenLibrary-BookSearch/OpenLibrary-BookSearch/Models/Managers/BookSearchManager.swift:104-106 | The notification flags the results and reports, as the step of the state machine says. |
| `BookSearch.BookSearchManager.DetermineWishlistBooks` | OpenLibrary-BookSearch/OpenLibrary-BookSearch/Models/Managers/BookSearchManager.swift:111-120 | Flags exactly the results whose cover is stored and clears none. |

## Left out

- DiffRefinesOverwrite: the tables an exception leaves are not compared, because overwriting clears a list before an element throws and diffing does not; the exception is. For links and list positions already holding an unkeyed object the modes are proved to differ. A value repeating a property may still agree, if it repeats equal contents, so `NoRecursion` and, for values with unkeyed objects, `Distinct` are sufficient and not necessary. Inserting in a migration is excluded.
- CreateReflects: when diffing, values giving an unkeyed object to a link or position in use are excluded, since two list positions may hold the same row and are then updated in place one over the other; a property supplied twice keeps its later value only; inserting in a migration is excluded, since there the key finds the older row.
- CreateUntouched: for cells of unkeyed objects in diff mode it asks for `KeyedValue`, not for `AddsOnly`; on success `DiffRefinesOverwrite` carries the overwriting frame over.
- FlatChangesOneRow: covers values whose links are null or managed; for nested values `CreateUntouched` states the frame.
- TimestampForDate: floating-point rounding and infinities; the clamps and steps are over exact reals.
- ForEach: the strong references that keep observers alive while their callbacks may destroy others.
- Leave: observers of unmanaged objects, and infos whose head is not in the table of heads, for which the destructor does nothing.
- SetRow: observed rows that have been detached, which the source skips.
- NestedCreates: that the value fits is sufficient and not necessary, because a list may also be given itself, and an object created on the way may be what a later part of the value needs.
- SetOnMatching: values that create objects, for which `SetterHolds` and `SetPropertyContinues` speak of each row, and a list given as a handle on a list.
- InsertKeepsRows: states nothing for insertions that write differences; on success `DiffRefinesOverwrite` carries it over.
- Null assigned to a list whose elements are nullable goes to core's `set_null` on a list column, whose body is not part of this model: it is an error here before any write.
- `LinkingObjects` and `Any` columns, and float payloads with NaN or negative zero, for which a value differs from itself or equals another.
- Detached objects and lists, deleted rows, `verify_in_write`, transactions and their rollback, `out_row`, and the hooks called around a property write.
- `is_default`, which matters only for contexts with default values.
- The set operations of `IndexSet` (add, shift, erase), change sets, the coordinator, schema migration and sync.
- A collection of new elements that is, or depends on, the list being edited.
- The order of the stored books: the store is a set and enumerating it gives each book once in some order.
- Toggling a book that has been deleted from the store.
- The flags of search results after a removal from the wishlist tab, which the application does not refresh.
- Two searches in flight at once, which share the results.
- Search-text normalisation, URLs, JSON decoding and casts, views, and the main-screen notification.
- Downloads that complete while the group is still being entered: the notification is registered after that loop, so no such order is observable in the report.
