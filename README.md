# keiloDB table, modelled in Dafny

This project models `keilo::table`, the record store at the centre of
keiloDB (`src/table.cpp`). A table has a name and a key-field name. It holds
an ordered list of records and the index `hashed_keys` of the key values in
use. A record is a key instance (an identifier and a value) plus a list of
further instances. The operations are:

- the constructors and `operator=`;
- `insert_record`, `select_record`, `update_record` and `remove_record`;
- `join`;
- the two stable `sort` overloads;
- the accessors `get_records`, `count`, `get_key` and `get_name`.

Their outcomes use `result_t` (`src/keilo.hpp:17-26`), modelled as
`Keilo.ResultT`.

How the model is built:

- Pure modules give each operation a specification function:
  - `Records`: instances, records and condition maps, plus `std::map::operator[]`.
  - `KeyIndex`: the index invariant.
  - `LexOrder`: `std::string` ordering.
  - `Selection`, `Updating`, `Removal`, `Joining` and `Sorting`: one per group of operations.
- The class `Tables.Table` has the fields `name`, `key`, `records` and
  `hashedKeys`. Its methods are loops over those fields, as in the source.
- Each method is proved to leave the state its specification function gives.
- The invariant `Valid()` says three things:
  - the index is exactly the set of key values;
  - no key value is held twice;
  - every key instance carries the table's key name.
- Only the two-argument constructor establishes `Valid()`.
- `InsertRecord`, `UpdateRecord`, `RemoveRecord`, `Sort` and `SortByField`
  are proved to keep it.
- `WithRecords`, `Copy` and the table `Join` returns start with an empty
  index, so they are valid only when they hold no records.
- `Assign` always breaks a valid table when the other table has records
  (`KeyIndex.AppendBreaksIndex`).

Behaviour of the source that the model keeps, because it shapes every contract:

- **`operator[]` inserts.** `select_record` and `update_record` read
  `conditions[key]` and `replacements[key]`. That adds `key -> ""` to the
  caller's map when the key is absent. The model returns the extended map
  as an extra out-parameter (`Records.Subscript`).
- **The inserted `key -> ""` is also a condition.** It takes part in the
  matching. So a select that names no key condition selects only records
  holding an instance `(key, "")` (`Selection.SelectWithoutKey`).
- **Matching never reads a record's key member.** Only its instance list
  is searched.
- **Update writes only instances.** It assigns to instance values, never to
  a record's key member or to the index. The extended replacement map is
  applied, so a target's first instance named `key` is set to `""` when no
  key replacement was given. The source dereferences the `find_if` result
  without checking it, which is undefined when a name is missing. The model
  makes this a precondition, `Updating.UpdateDefined`.
- **Remove re-finds records by key value.** Each selected copy erases the
  first live record with its key value, and that value leaves the index.
- **Join copies more than a reader might expect.** It excludes instances
  named after *this* table's key, rather than the other table's. It gives
  left fields no priority on a name collision, and it keeps duplicates.
- **Some tables start with an empty index.** The three-argument constructor,
  the copy constructor and therefore `join` all do. `operator=` *appends*
  the other table's records to the records already held.

## Model

| member | source | states |
|---|---|---|
| Records.Subscript | src/table.cpp:42-43 | `m[k]` on a `std::map`: the result map has the old keys plus `k` and keeps every old value; the value read is the one stored under `k`, which is `""` when `k` was absent |
| Records.FirstNamed | src/table.cpp:107-110 | the position `find_if` reaches: before it no instance has the name, at it (when inside the list) the instance has the name |
| Records.FirstNamedOfSameIdentifiers | src/table.cpp:107-111 | the first instance of a name depends only on identifiers, so setting values never moves it |
| Records.FieldValue | src/table.cpp:167-175 | the value of the first instance of a field, as the field sort compares it; `""` when no instance has that name (a case the source leaves undefined) |
| LexOrder.LexLess | src/table.cpp:161 | `std::string <`: lexicographic by character, with a proper prefix first; its order properties are the four lemmas below |
| LexOrder.LexIrreflexive | src/table.cpp:161 | no string is below itself under `std::string <` |
| LexOrder.LexAsymmetric | src/table.cpp:161 | `a < b` excludes `b < a` |
| LexOrder.LexTransitive | src/table.cpp:161 | `<` on strings is transitive |
| LexOrder.LexTotal | src/table.cpp:161 | any two different strings are ordered one way or the other |
| LexOrder.LexSplit | src/table.cpp:161 | if `a < c` then any `b` lies above `a` or below `c` (what stability needs) |
| KeyIndex.IndexValid | src/table.cpp:79-82 | the table invariant: the index is exactly the set of key values, no value is held twice, and every key instance is named `key` |
| KeyIndex.UniqueCons | src/table.cpp:79-82 | a list with a head has unique keys iff the head's value is absent from the tail and the tail is unique |
| KeyIndex.KeyCount | src/table.cpp:152-155 | with unique key values the number of values equals the number of records |
| KeyIndex.InsertKeepsIndex | src/table.cpp:79-82 | appending a record whose key value is not indexed, and indexing it, keeps the table invariant |
| KeyIndex.AppendBreaksIndex | src/table.cpp:15-21 | appending records while leaving the index alone, as `operator=` does, leaves no valid table: the first appended value is either missing from the index or already held |
| KeyIndex.SameKeysKeepIndex | src/table.cpp:100-113 | changing records without changing any key member keeps the invariant with the same index |
| Selection.Matches | src/table.cpp:50-63 | the matching lambda: every condition `(n, v)` equals some instance of the record, compared by name and value; the key member is never read |
| Selection.MatchesIgnoresKey | src/table.cpp:50-63 | changing a record's key member never changes whether it matches |
| Selection.Filter | src/table.cpp:45-69 | the records matching every condition: at most as many as the input, each from the input and matching |
| Selection.Reject | src/table.cpp:129-142 | the records not matching: together with `Filter` they account for every record |
| Selection.FilterComplete | src/table.cpp:48-69 | no matching record is missed by the select loop |
| Selection.FilterConcat | src/table.cpp:48-69 | filtering distributes over concatenation, so table order is kept |
| Selection.FilterNone | src/table.cpp:64-68 | a list without a match filters to nothing (the loop's exit) |
| Selection.FilterAtFirstMatch | src/table.cpp:49-66 | taking out the first match and filtering the rest gives the whole filter: the select loop's step |
| Selection.FilterNoConditions | src/table.cpp:52-62 | the empty condition map keeps every record (Filter only: select always adds `key -> ""`, see `SelectWithoutKey`) |
| Selection.FilterConjunction | src/table.cpp:52-62 | conditions are a conjunction: filtering by two disjoint maps at once is filtering by one after the other |
| Selection.RejectThenFilterEmpty | src/table.cpp:118-145 | nothing left over after taking out the matches matches |
| Selection.Select | src/table.cpp:38-72 | select's two results: the map extended with `key` (old entries kept, `""` when new), and either nothing, when a non-empty key condition is not indexed, or only records of the table that match the extended map |
| Selection.SelectExact | src/table.cpp:45-71 | past the short-circuit, select returns exactly the matching records, in table order |
| Selection.SelectWithoutKey | src/table.cpp:42-63 | with no key condition, a record is selected iff it matches the caller's conditions and holds an instance `(key, "")` |
| Selection.SelectExtendsOnce | src/table.cpp:42-43 | selecting again with the extended map gives the same records and the same map |
| Updating.FirstWithKey | src/table.cpp:102-105 | the first record whose key member equals the selected copy's |
| Updating.FirstWithKeyOfSameKeys | src/table.cpp:102-105 | updates never move that record, since key members stay |
| Updating.SetFirst | src/table.cpp:107-111 | setting the first instance of a name keeps every identifier in place |
| Updating.Replace | src/table.cpp:100-113 | applying a replacement map to one record keeps every identifier in place |
| Updating.ReplaceAt | src/table.cpp:100-113 | instance by instance: the value changes exactly at the first instance of each replaced name, to its new value |
| Updating.SetFirstReplace | src/table.cpp:100-111 | one more replacement after a map is the map extended by it, so the order of the replacement map is irrelevant |
| Updating.Updated | src/table.cpp:100-113 | the records after update keep their length and every key member |
| Updating.TargetStep | src/table.cpp:101-105 | each selected copy adds exactly one target: the first live record with its key member |
| Updating.IsTarget | src/table.cpp:101-105 | the record update writes for a selection: some selected copy has its key member, and no earlier record has it |
| Updating.SetTargets | src/table.cpp:101-111 | one pass of the inner loop for a single replacement: targets get the field set, and every record keeps its key member and identifiers |
| Updating.UpdateDefined | src/table.cpp:107-111 | on the path that reaches the update loop, every target holds an instance for every name of the extended replacement map, so the dereference at :111 is defined |
| Updating.SetTargetsStep | src/table.cpp:101-111 | setting the field in that target extends the pass by one copy, and repeating a target is harmless |
| Updating.SetTargetsUpdated | src/table.cpp:100-113 | a full pass for one replacement takes the records updated with a map to the records updated with the map extended by it |
| Updating.TargetsAreMatches | src/table.cpp:91-105 | with unique keys, the records update writes are exactly the records matching the conditions |
| Updating.UpdatedMatching | src/table.cpp:91-113 | with unique keys, non-matching records are unchanged, and in matching ones each instance is replaced iff it is the first of a replaced name |
| Removal.FirstWithValue | src/table.cpp:130-134 | the first record carrying a key value |
| Removal.RemoveAll | src/table.cpp:129-142 | removal never adds records or index entries |
| Removal.RemoveAllStep | src/table.cpp:129-142 | one loop step: a selected copy erases the first live record with its key value and unindexes that value, or does nothing when no such record is left |
| Updating.SetFirstTwice | src/table.cpp:101-111 | setting the same field to the same value twice is setting it once, so a record selected by two copies is updated as by one |
| Updating.ReplaceNothing | src/table.cpp:100-113 | an empty replacement map changes no instance |
| Removal.RemoveAllCons | src/table.cpp:129-142 | a record whose value no selected copy carries survives, in front |
| Removal.RemoveSelected | src/table.cpp:118-145 | with unique keys, removing the selection leaves exactly the non-matching records, in order, and unindexes exactly the selected values |
| Removal.RejectKeyValues | src/table.cpp:139-140 | with unique keys, the remaining key values are the old ones minus the selected ones, still unique |
| Removal.RemoveKeepsIndex | src/table.cpp:118-145 | removal keeps the invariant, leaves the non-matching records and lowers the count by the number selected |
| Removal.RemoveThenSelectEmpty | src/table.cpp:118-145 | after a successful removal, the same select finds nothing |
| Joining.NonKey | src/table.cpp:30-33 | the instances a right record contributes: no more than it holds, each from the record, none named `key` |
| Joining.Gather | src/table.cpp:29-33 | everything appended to one left record carries no instance named `key` |
| Joining.Joined | src/table.cpp:25-35 | the joined list has one record per left record |
| Joining.NonKeyComplete | src/table.cpp:30-33 | an instance survives iff it is not named `key` |
| Joining.GatherMembers | src/table.cpp:29-33 | an instance is appended iff some right record with the same key value holds it and it is not named `key` |
| Joining.GatherNone | src/table.cpp:28-33 | a left record with no partner on the right is unchanged |
| Joining.JoinedShape | src/table.cpp:25-35 | the join keeps order and key members, each record starts with its own instances, and unmatched records are unchanged |
| Joining.JoinExample | src/table.cpp:23-36 | two concrete tables joined on `id`: the matched record gains the right side's `age`, the unmatched one is unchanged |
| Sorting.SortValue | src/table.cpp:160-175 | what a comparator reads: the key value for the plain sort, the value of the first instance of `sort_key` for the field sort |
| Sorting.Before | src/table.cpp:160-176 | the comparator: `a < b` on sort values when `order` holds, `a > b` otherwise |
| Sorting.BeforeFacts | src/table.cpp:160-162 | the comparator is irreflexive, asymmetric and splits, in both directions |
| Sorting.InsertStable | src/table.cpp:159-177 | one insertion step is a permutation |
| Sorting.SortBy | src/table.cpp:159-177 | the sort is a permutation of the records |
| Sorting.InsertStableSorted | src/table.cpp:159-177 | inserting into a sorted list keeps it sorted |
| Sorting.SortBySorted | src/table.cpp:159-177 | the result is ordered by the sort value, ascending when `order` holds and descending otherwise |
| Sorting.InsertStableStable | src/table.cpp:159-177 | insertion keeps the relative order of records with equal sort values |
| Sorting.SortByStable | src/table.cpp:159-177 | stability: for every value, the records carrying it appear in their original order |
| Sorting.SameElements | src/table.cpp:159-177 | a permutation has the same records and the same key values |
| Sorting.InsertStableUnique | src/table.cpp:159-177 | inserting a new key value keeps key values unique |
| Sorting.SortKeepsUnique | src/table.cpp:159-177 | sorting keeps key values unique |
| Sorting.SortKeepsIndex | src/table.cpp:159-177 | sorting keeps the table invariant with the index untouched |
| SortExamples.SortEqualKeysExample | src/table.cpp:159-163 | two records with equal key values keep their order in either direction |
| Tables.Table.Valid | src/table.cpp:74-145 | the table invariant `IndexValid` on the table's own fields, kept by insert, update, remove and both sorts |
| Tables.Table.constructor | src/table.cpp:4-5 | a new table has the given name and key, no records and an empty index, and is valid |
| Tables.Table.WithRecords | src/table.cpp:7-11 | the records are taken as given, and the index starts empty |
| Tables.Table.Copy | src/table.cpp:13 | a copy has the other table's name, key and records, and an empty index |
| Tables.Table.Assign | src/table.cpp:15-21 | name and key are copied, the other table's records are appended to those already held, and the index is unchanged; a valid table that receives records is no longer valid; self-assignment is allowed when the table holds no records, and is then a no-op |
| Tables.Table.InsertRecord | src/table.cpp:74-85 | `KeyNotExist` when the key instance is not named `key`; otherwise `KeyOverlapped` when its value is indexed; otherwise `Success`, with the record appended and its value indexed; validity is kept |
| Tables.Table.SelectRecord | src/table.cpp:38-72 | records and extended map are exactly `Select`'s |
| Tables.Table.FindMatch | src/table.cpp:49-63 | finds the first matching record, or reports that none matches |
| Tables.Table.RecordMatches | src/table.cpp:50-63 | true iff every condition is among the record's instances |
| Tables.Table.HasInstance | src/table.cpp:53-57 | true iff an equal instance is present |
| Tables.Table.UpdateRecord | src/table.cpp:87-116 | one of three results, with the returned maps extended as `operator[]` does. `CannotFind` when the selection is empty: records and replacements unchanged. `KeyOverlapped` when a non-empty key replacement is indexed: records unchanged. Otherwise `Success`, with the records equal to `Updated` by the extended replacements. Index and validity are kept |
| Tables.Table.ApplyAll | src/table.cpp:100-113 | walking the replacement map in any order yields `Updated` with the whole map |
| Tables.Table.ApplyReplacement | src/table.cpp:101-112 | one replacement applied to every selected copy extends what has been applied by it |
| Tables.Table.ApplyToOne | src/table.cpp:102-111 | one selected copy sets the field in its target record |
| Tables.Table.RemoveRecord | src/table.cpp:118-145 | `CannotFind` with nothing changed when the selection is empty; otherwise `Success` with the records and index given by `RemoveAll`. In a valid table the result is valid, holds exactly the non-matching records and has lost as many records as were selected |
| Tables.Table.EraseSelected | src/table.cpp:129-142 | the loop leaves the records and index `RemoveAll` specifies |
| Tables.Table.Join | src/table.cpp:23-36 | a fresh table named `name + "+" + other.name`, with this table's key, the records `Joined`, and an empty index |
| Tables.Table.JoinRecord | src/table.cpp:29-33 | one left record followed by everything `Gather` finds on the right |
| Tables.Table.AppendMatching | src/table.cpp:30-33 | when key values agree, the right record's instances not named `key` are appended in order; otherwise nothing is |
| Tables.Table.Sort | src/table.cpp:159-163 | the records become their stable sort on key values; index and validity are kept |
| Tables.Table.SortByField | src/table.cpp:165-177 | the records become their stable sort on the first instance of `sortKey`; index and validity are kept |
| Tables.Table.GetRecords | src/table.cpp:147-150 | in a valid table, the returned records carry the table's key name and exactly the indexed values |
| Tables.Table.Count | src/table.cpp:152-155 | in a valid table, the count equals the size of the index |

`Tables.Table.GetKey` (`src/table.cpp:157`) and `Tables.Table.GetName`
(`src/table.cpp:179`) read a field and carry no contract.

## Left out

- The `std::mutex`/`unique_lock` in every method is left out. Every
  operation is modelled as sequential, including the unlocked gap between
  the select and the re-lock in update and remove, and the lock-free `sort`.
- The database container, JSON loading and saving, and file I/O are not part
  of this model.
- `record.hpp`, `instance.hpp` and `table.hpp` are not part of this model.
  The shapes of record and instance are taken from how `src/table.cpp`
  uses them, with `instance == condition` read as comparing name and value.
- `hashed_keys` is a `std::map<std::string, bool>` that `operator[]` also
  fills with `false` entries on look-ups and removals. The model keeps only
  the `true` entries, as a set; the `false` entries never change an outcome.
- `std::string` is a sequence of bytes. Its `<` compares them as `unsigned
  char`, while a Dafny `string` is a sequence of Unicode scalar values compared
  by code point. For UTF-8 data the two orders agree. Byte strings that are not
  valid UTF-8 have no counterpart in the model.
- `std::list::sort` is left out as an algorithm. The model specifies it by
  stable insertion sort, which gives the only stable sorted permutation.
- `Tables.Table.UpdateRecord`: requires `UpdateDefined`. The source
  dereferences the `find_if` result without checking it, which is undefined
  when a target lacks a replaced name.
- `Tables.Table.SortByField`: requires every record to hold the sort field
  once there are two records, for the same reason.
- `Tables.Table.Assign`: requires `other != this || records == []`.
  Self-assignment of a table that holds records loops forever, because the
  loop walks the list while appending to it.
- `Tables.Table.RemoveRecord`: the second key check (`src/table.cpp:126-127`)
  is an assertion, not a branch. With operations sequential it cannot fail
  once select has returned records.
- `Tables.Table.AppendMatching`: collects the instances appended to a left
  record and appends them once. The source appends them one at a time; the
  resulting instance list is the same.
- In `remove_record` the iterator `tmp` (`src/table.cpp:136-137`) is never
  used, and the model omits it.
- `result_t` values that `src/table.cpp` never returns (`Fail`,
  `HasNoValue`, `AlreadyExist`, `FileNotSupport`) are declared only.
