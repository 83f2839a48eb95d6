# ActiveHash `Base`: a Dafny model of the per-class record store

ActiveHash gives each subclass of `ActiveHash::Base` an in-memory table of
records. The data comes from an array of hashes handed to `data=`. This project
models the core of `lib/active_hash/base.rb` in Dafny and proves properties of
it. The model covers four parts:

- **Record store.** The store is `@records` plus the `record_index` hash from
  `id.to_s` to position, and the `dirty` flag. The model covers `insert`,
  `next_id` and `validate_unique_id`; the bulk load `data=`; `delete_all`;
  `reload`; `exists?` for an object with an id; and `save`.
- **Field registry.** The registry is `field_names` and `default_attributes`,
  with `field`, `fields`, `validate_field`, `add_default_value` and
  `auto_assign_fields`. The generated getter is a table entry. It holds the
  default it captured and returns it when the attribute is nil.
- **Dynamic finders.** The parse of `find_(all_)?by_<f>(_and_<f>)*(!)?`
  (`configuration_for_custom_finder`), `respond_to?` and `method_missing`.
- **Record identity.** `id`, `eql?`/`==` and `hash`.

Ruby values are the datatype `Values.Value`. Its cases are nil, booleans,
integers and strings. The model writes out the Ruby operations the store
depends on:

- truthiness;
- `to_s`, with decimal digits, so that distinct integer ids give distinct
  index keys;
- `<=>`, which is nil across classes and between `true` and `false`;
- the front-to-back running maximum of `max { |a, b| a.id <=> b.id }`, which raises
  `ArgumentError` at the first pair it cannot compare.

A record is its class name plus its own `@attributes`. It is read through the
class defaults, as `attributes` merges them.

Modules, in dependency order:

- `Wrappers` and `Errors`: `Option`, `Result`, the raised exceptions, and
  `Step`, a state paired with the exception that interrupted it.
- `Values`: Ruby values, `to_s`, `<=>` and `max`.
- `Records`: one record, `id`, equality, hashing and the getter.
- `Schemas`: the field registry.
- `FinderNames`: the finder-name parse.
- `RecordStores`: the store and its operations, as functions on values.
- `Finders`: `respond_to?` and the `method_missing` matcher.
- `Models`: the whole class state, with `data=`, `delete_all` and `reload`.
- `ActiveHashBase`: `class Base`. Its fields are the class attributes and
  instance variables. Its methods update them in place, with loops where the
  Ruby code iterates. Each method is proved equal to the value-level
  definition, and the lemmas state the properties of that definition.

Three behaviours of `base.rb` are easy to miss, and the model keeps each of
them:

- `data=` calls `mark_dirty` before it looks at the payload (base.rb:93), so
  even a nil payload leaves the store dirty.
- A stored record can have a nil id. `next_id` returns nil when the largest id
  is not an Integer (base.rb:133-135), and `insert` then stores the record
  with a nil id, indexed under `""` (base.rb:125).
- `data=` is not all-or-nothing. A raise in the middle of it (base.rb:98-101)
  keeps the records inserted before it and the fields declared before it.
  The model keeps that partial state, in `Step`.

## Model

| member | source | states |
|---|---|---|
| `Values.NatToS` | lib/active_hash/base.rb:125 | `Integer#to_s` of a natural number is a non-empty string of decimal digits, and has at least two digits from 10 on |
| `Values.NatToSInjective` | lib/active_hash/base.rb:125 | distinct naturals render differently |
| `Values.IntToS` | lib/active_hash/base.rb:125 | `Integer#to_s` is non-empty, starts with `-` exactly for a negative integer, and is decimal digits after the first character |
| `Values.IntToSInjective` | lib/active_hash/base.rb:125 | distinct integer ids get distinct `id.to_s` index keys |
| `Values.ToS` | lib/active_hash/base.rb:255 | `to_s` renders nil as the empty string, a boolean or an Integer as a non-empty string, and a String as itself |
| `Values.CompareStrings` | lib/active_hash/base.rb:130 | `String#<=>` answers -1, 0 or 1, and 0 exactly for equal strings |
| `Values.Compare` | lib/active_hash/base.rb:130 | `<=>` answers (not nil) exactly for two values of one comparison class, and 0 exactly for equal values |
| `Values.MaxOf` | lib/active_hash/base.rb:130 | `max` with the `<=>` block: nothing for no elements; the `ArgumentError` outcome exactly when two elements cannot be compared; otherwise an element of the input, which for Integers is at least every element |
| `Values.MaxFrom` | lib/active_hash/base.rb:130 | the running-maximum scan of `max`: it raises exactly when some remaining element has another comparison class than the running maximum; otherwise its result is the running maximum or a remaining element, and for Integers it is at least both |
| `Records.FromRow` | lib/active_hash/base.rb:418-425 | `new(hash)` makes a record of the class whose attributes have exactly the keys of the hash |
| `Records.Attribute` | lib/active_hash/base.rb:427-437 | `record[key]` reads the class defaults merged under the record's own attributes: an own attribute wins, a default fills in, and a missing key is nil |
| `Records.Key` | lib/active_hash/base.rb:125 | the index key `id.to_s` is `""` for a nil id, and for an Integer id a non-empty string that starts with `-` exactly for a negative id |
| `Records.Eql` | lib/active_hash/base.rb:474-478 | `eql?` holds only for two records with truthy ids and the same index key |
| `Records.HashKey` | lib/active_hash/base.rb:480-482 | the value `hash` hashes is nil exactly when the id is falsy, and truthy otherwise |
| `Records.RowAttrs` | lib/active_hash/base.rb:418-425 | the attributes `new(hash)` stores have exactly the keys of the hash |
| `Records.RowAttrsLast` | lib/active_hash/base.rb:418-425 | a key takes the value of its last entry in the hash |
| `Records.Id` | lib/active_hash/base.rb:448-450 | `id` is nil or truthy; nil exactly when the merged `id` attribute is falsy; otherwise that attribute |
| `Records.EqlSymmetric` | lib/active_hash/base.rb:474-478 | `eql?` is symmetric |
| `Records.EqlTransitive` | lib/active_hash/base.rb:474-478 | `eql?` is transitive |
| `Records.EqlReflexiveIffId` | lib/active_hash/base.rb:474-478 | a record equals itself exactly when its id is truthy; a record with a nil or false id equals nothing |
| `Records.EqlHashConsistent` | lib/active_hash/base.rb:474-482 | equal records hash alike, and records with the same id hash alike |
| `Records.Read` | lib/active_hash/base.rb:288-294 | `send(field)` is `id` for `id`; for a field with a generated getter it is the attribute, or the captured default when the attribute is nil |
| `Records.ReadFromRow` | lib/active_hash/base.rb:288-294 | a record built from a hash reads back every non-nil value the hash gave a field |
| `Schemas.Reserved` | lib/active_hash/base.rb:231-236 | `validate_field` refuses exactly the name `attributes`, never `id` |
| `Schemas.Field` | lib/active_hash/base.rb:217-229 | `field` raises `ReservedFieldError` exactly for `attributes`, before any change; otherwise it appends the name even when already listed and records a given default; a new non-`id` name gets a getter holding the given default or nil; an existing getter, and every getter of another name, is kept as it was |
| `Schemas.RedeclareField` | lib/active_hash/base.rb:281-294 | a field declared twice is listed twice; its getter keeps the first default and `default_attributes` holds the second |
| `Schemas.LeadingFields` | lib/active_hash/base.rb:231-236 | the count of names before the first reserved one |
| `Schemas.DeclareAll` | lib/active_hash/base.rb:210-215 | `fields` declares the names in order and stops with `ReservedFieldError` at the first reserved name, the earlier ones declared; the registry it leaves is the old field list plus the declared names, the defaults `Defaulted` gives and the getters `WithGetters` gives for those names |
| `Schemas.DeclareAllKeepsRegistry` | lib/active_hash/base.rb:210-229 | `fields` keeps every declared field other than `id` paired with a getter, and gives getters to declared fields only |
| `Schemas.DefaultedEntries` | lib/active_hash/base.rb:210-229 | after `fields` with a default, every declared name holds that default, and every other key keeps its old default; without one nothing changes |
| `Schemas.WithGettersEntries` | lib/active_hash/base.rb:210-229 | after `fields`, every existing getter is kept, and exactly the declared names other than `id` without a getter gain one, holding the given default or nil |
| `Schemas.RowNonIdKeys` | lib/active_hash/base.rb:355-359 | the keys of one row other than `id` |
| `Schemas.NonIdKeys` | lib/active_hash/base.rb:353-360 | the `inject` collects exactly the keys, other than `id`, that occur in some row |
| `Schemas.Dedup` | lib/active_hash/base.rb:361 | `uniq` keeps each key once, and the same set of keys |
| `Schemas.FirstIndex` | lib/active_hash/base.rb:361 | the first position of a key |
| `Schemas.FirstIndexExtend` | lib/active_hash/base.rb:361 | appending keeps the first position of a key already present |
| `Schemas.DedupFirstSeen` | lib/active_hash/base.rb:361 | `uniq` keeps the keys in first-seen order |
| `Schemas.AutoAssign` | lib/active_hash/base.rb:352-364 | `auto_assign_fields` changes no default, keeps every existing getter, gives each new getter a non-`id` name and a nil default, and keeps every declared non-`id` field paired with a getter |
| `Schemas.AutoAssignOutcome` | lib/active_hash/base.rb:352-364 | a payload without an `attributes` key appends every other key once, in first-seen order; a payload with one raises `ReservedFieldError` |
| `FinderNames.FirstSep` | lib/active_hash/base.rb:274 | the position of the first `_and_`, or -1 when there is none |
| `FinderNames.SplitAll` | lib/active_hash/base.rb:274 | splitting on `_and_` gives at least one piece, no piece holds the marker, and joining the pieces gives the string back |
| `FinderNames.SplitFields` | lib/active_hash/base.rb:274 | `split('_and_')`: the fields are a prefix of the pieces between markers, ending in a non-empty piece, and only empty pieces follow it; no field holds the marker |
| `FinderNames.Parse` | lib/active_hash/base.rb:269-277 | a name is accepted exactly when it starts with `find_by_`, or starts with `find_all_by_` and does not end in `!`; `all?` and `bang?` are read off the prefix and the final `!`, never both |
| `FinderNames.DropTrailingEmpty` | lib/active_hash/base.rb:274 | `split` drops the empty pieces at the end and only those; what remains is a prefix of the pieces |
| `FinderNames.PrefixesExclusive` | lib/active_hash/base.rb:270 | no name starts with both `find_by_` and `find_all_by_` |
| `FinderNames.ParseFindAllBy` | lib/active_hash/base.rb:269-277 | `find_all_by_<body>` with no final `!` parses to the `all?` configuration over the split body |
| `FinderNames.ParseFindBy` | lib/active_hash/base.rb:269-277 | `find_by_<body>` with no final `!` parses to the plain configuration over the split body |
| `FinderNames.ParseFindByBang` | lib/active_hash/base.rb:269-277 | `find_by_<body>!` parses to the `bang?` configuration over the split body, whatever the body ends in |
| `FinderNames.SplitJoin` | lib/active_hash/base.rb:274 | splitting a join of marker-free pieces gives the pieces back |
| `FinderNames.FieldsRoundTrip` | lib/active_hash/base.rb:274 | the field part of an expressible configuration splits back into its fields |
| `FinderNames.ParseFinderName` | lib/active_hash/base.rb:269-277 | parsing the name spelled out from any expressible configuration gives that configuration back |
| `RecordStores.Ids` | lib/active_hash/base.rb:130 | the ids of the records, position by position |
| `RecordStores.NextId` | lib/active_hash/base.rb:129-136 | `next_id` is 1 for an empty store; it raises `ArgumentError` exactly when two ids cannot be compared; an Integer result is above every id and one more than some id; any other result is nil |
| `RecordStores.NextIdOfMax` | lib/active_hash/base.rb:129-136 | `next_id` read off each outcome of `max`: 1 for no records, `ArgumentError` for an incomparable pair, the successor of an Integer maximum, nil for any other maximum |
| `RecordStores.NextIdAfterThreeSevenTwo` | lib/active_hash/base.rb:129-136 | ids 3, 7 and 2 give 8 |
| `RecordStores.NextIdStringIds` | lib/active_hash/base.rb:133-135 | when every id is a String, `next_id` is nil |
| `RecordStores.AssignId` | lib/active_hash/base.rb:121 | `record[:id] \|\|= next_id` keeps a truthy id untouched; otherwise it writes `next_id` into the record or raises its exception, and changes no other attribute |
| `RecordStores.Insert` | lib/active_hash/base.rb:119-127 | `insert` raises `IdError` exactly when the store is dirty and `id.to_s` is indexed, leaving the store as it was; otherwise it appends the record, maps its key to the old length and marks the store dirty |
| `RecordStores.InsertKeepsIndexConsistent` | lib/active_hash/base.rb:119-127 | insert keeps every index entry pointing at a record with that key, and every record's key indexed |
| `RecordStores.InsertKeepsUniqueKeys` | lib/active_hash/base.rb:165-167 | on a dirty store, insert never lets two records share a key |
| `RecordStores.InsertRows` | lib/active_hash/base.rb:99-101 | the load loop adds at most one record per row and removes none, keeps a dirty store dirty, and can raise only `IdError` or `next_id`'s `ArgumentError` |
| `RecordStores.InsertRowsAppends` | lib/active_hash/base.rb:99-101 | a load loop that raises nothing appends one record per row and keeps the earlier records in place |
| `RecordStores.InsertRowsUnfold` | lib/active_hash/base.rb:99-101 | one turn of the load loop adds exactly one record, and the rest of the rows carry on from there |
| `RecordStores.AssignedFromRow` | lib/active_hash/base.rb:99-101 | the record inserted for a row has the row's class and attributes, and the row's id when that id is truthy |
| `RecordStores.InsertRowsFirst` | lib/active_hash/base.rb:99-101 | the first row's record sits right after the records already stored |
| `RecordStores.InsertRowsRecordAt` | lib/active_hash/base.rb:99-101 | the record at each position past the old records is that row's record |
| `RecordStores.InsertRowsRecordAtLater` | lib/active_hash/base.rb:99-101 | a later row's record is the one the rest of the loop appends after the first insert |
| `RecordStores.InsertRowsKeepsUnique` | lib/active_hash/base.rb:99-101 | a load into a dirty, consistent, duplicate-free store keeps all three, whether or not it raises |
| `RecordStores.InsertRowsRejectsDuplicates` | lib/active_hash/base.rb:165-167 | two rows whose truthy ids have the same `to_s` make the loop raise |
| `RecordStores.InsertRowsRaisesOnlyIdError` | lib/active_hash/base.rb:121-122 | when every row has a truthy id, the only exception the loop can raise is `IdError` |
| `RecordStores.Exists` | lib/active_hash/base.rb:105-111 | `exists?` is false for a falsy argument; without an argument it holds exactly when records are stored; on a record, with a consistent index, a miss means no stored record has its key |
| `RecordStores.ExistsWithoutArgument` | lib/active_hash/base.rb:105-111 | with a consistent index, `exists?` without an argument holds exactly when the index is non-empty |
| `RecordStores.ExistsAfterInsert` | lib/active_hash/base.rb:105-127 | after an insert that raises nothing, `exists?` finds the inserted record, and `exists?` without an argument holds |
| `RecordStores.ExistsAgreesWithScan` | lib/active_hash/base.rb:105-107 | with a consistent index, `exists?` on a record finds it exactly when some stored record has the same key |
| `RecordStores.Save` | lib/active_hash/base.rb:513-518 | `save` leaves the store alone when `exists?` finds the record; otherwise it inserts, and when `insert` raises, `save` raises the same exception with the store as it was and the caller's record carrying any id `next_id` assigned |
| `RecordStores.SaveIdempotent` | lib/active_hash/base.rb:513-518 | saving a record just saved changes nothing |
| `RecordStores.SaveRaisesNoIdError` | lib/active_hash/base.rb:513-518 | with a consistent index `save` never raises `IdError`; only `next_id`'s `ArgumentError` can remain |
| `RecordStores.SetAttribute` | lib/active_hash/base.rb:444-446 | `record[key] = value` on a stored record changes that attribute of that record only, and leaves the index and the flag alone |
| `RecordStores.ChangedIdGoesStale` | lib/active_hash/base.rb:452-454 | after `id=` to an unindexed id, the record is still stored, `exists?` misses it, and the index is no longer consistent |
| `Finders.RespondTo` | lib/active_hash/base.rb:240-248 | `respond_to?` accepts only names that start with `find_by_`, or start with `find_all_by_` and do not end in `!` |
| `Finders.MethodMissing` | lib/active_hash/base.rb:250-267 | `method_missing` raises only `NoMethodError` or `RecordNotFound`; a result is given only for a name `respond_to?` accepts, and is a list exactly for the `all?` form; listed and found records are stored records that match; nil and `RecordNotFound` (the latter only for the bang form) come only when no stored record matches |
| `Finders.Arg` | lib/active_hash/base.rb:254 | `zip` pairs field `k` with the `k`-th argument, and with nil, which renders as `""`, past the last argument |
| `Finders.Matches` | lib/active_hash/base.rb:255 | the `select` block holds for every record when the name has no fields; a field beyond the arguments matches only a record whose field renders as `""` |
| `Finders.Matching` | lib/active_hash/base.rb:254-255 | the `select` keeps exactly the stored records whose fields render like the arguments |
| `Finders.MatchingAppend` | lib/active_hash/base.rb:255 | selecting from two runs of records is selecting from each and concatenating, so matches keep store order |
| `Finders.FirstMatchAt` | lib/active_hash/base.rb:260 | the first matching position: every earlier record fails the match, and the record there passes it |
| `Finders.MatchingNone` | lib/active_hash/base.rb:255 | when no record before a position matches, the selection from those records is empty |
| `Finders.MatchingHead` | lib/active_hash/base.rb:255 | when the record at a position matches, the selection from that position on starts with it |
| `Finders.MatchingStartsAtFirstMatch` | lib/active_hash/base.rb:255-260 | the selection is empty exactly when nothing matches, and otherwise starts with the record at the first matching position |
| `Finders.FindAllReturnsEveryMatch` | lib/active_hash/base.rb:254-258 | `find_all_by_…` returns exactly the matching records, in store order |
| `Finders.FindByReturnsFirstMatch` | lib/active_hash/base.rb:254-265 | `find_by_…` returns the record at the first matching position; with no match it returns nil, or raises `RecordNotFound` for the bang form |
| `Finders.RefusedNameRaises` | lib/active_hash/base.rb:250-251 | `method_missing` raises `NoMethodError` exactly for a name `respond_to?` refuses |
| `Finders.RespondToFinderName` | lib/active_hash/base.rb:240-248 | the name of an expressible finder is served exactly when each of its fields is declared or is `id` |
| `Models.Load` | lib/active_hash/base.rb:92-103 | `data=` keeps the class, retains the payload and always marks the store dirty; a nil payload leaves no records and the fields as they were; a payload gives at most one record per row; the only exceptions are `ReservedFieldError`, `IdError` and `ArgumentError` |
| `Models.Reload` | lib/active_hash/base.rb:383-387 | `reload` keeps the class and the payload, and leaves the store clean exactly when the load raised nothing |
| `Models.InsertRecord` | lib/active_hash/base.rb:119-127 | the class-level `insert` changes only the store; a raise leaves the state as it was; otherwise the store is dirty and has the old records followed by one more |
| `Models.Initial` | lib/active_hash/base.rb:49-51 | a class starts with no fields, no records, an empty index, a clean flag and no payload |
| `Models.DeleteAll` | lib/active_hash/base.rb:204-208 | `delete_all` empties the records and the index, marks dirty, and keeps the fields and the payload |
| `Models.LoadNil` | lib/active_hash/base.rb:92-103 | a nil payload leaves the store empty and dirty, and the fields as they were |
| `Models.LoadOutcome` | lib/active_hash/base.rb:92-103 | a load that raises nothing stores one record per row, each built from its row; keeps the index consistent and the keys unique; leaves the store dirty; appends the payload's keys to the fields; and retains the payload |
| `Models.LoadedEveryRow` | lib/active_hash/base.rb:99-101 | each row of a load that raises nothing became its record, in order |
| `Models.LoadRejectsDuplicateIds` | lib/active_hash/base.rb:93-101 | duplicate truthy ids in one payload raise, even on the first load; with no `attributes` key and truthy ids everywhere, the exception is `IdError` |
| `Models.LoadIgnoresOldStore` | lib/active_hash/base.rb:92-103 | what a load builds does not depend on the records or index held before |
| `Models.ReloadRestores` | lib/active_hash/base.rb:383-387 | `reload` after a load that raised nothing rebuilds the same records and index, ends clean, and appends the payload's keys to the fields again |
| `Models.DeleteAllThenReload` | lib/active_hash/base.rb:204-208 | `delete_all` then `reload` brings back the records and the index |
| `Models.InsertAfterReloadSkipsCheck` | lib/active_hash/base.rb:386 | after `reload` the next insert of an indexed id is accepted; two records then share the key, and the index points at the newer one |
| `ActiveHashBase.Base.constructor` | lib/active_hash/base.rb:24 | a new class object holds the initial state |
| `ActiveHashBase.Base.MaxId` | lib/active_hash/base.rb:130 | the running-maximum loop over the records returns exactly what `max` gives over their ids |
| `ActiveHashBase.Base.NextId` | lib/active_hash/base.rb:129-136 | the branch on the maximum returns exactly `next_id` of the current store |
| `ActiveHashBase.Base.Insert` | lib/active_hash/base.rb:119-127 | the in-place insert leaves the store that `insert` defines, or leaves it unchanged when it raises; the caller's record carries the assigned id; the fields and payload are unchanged |
| `ActiveHashBase.Base.Field` | lib/active_hash/base.rb:217-236 | the in-place `field` leaves the registry that `field` defines, or leaves it unchanged on `ReservedFieldError`; the store is unchanged |
| `ActiveHashBase.Base.Fields` | lib/active_hash/base.rb:210-215 | the loop over names leaves the registry and the exception that `fields` defines |
| `ActiveHashBase.Base.AutoAssignFields` | lib/active_hash/base.rb:352-364 | the `inject` loops, `uniq` and the declarations leave the registry and the exception that `auto_assign_fields` defines |
| `ActiveHashBase.Base.InsertAll` | lib/active_hash/base.rb:99-101 | the `each` loop of `data=` leaves the store and the exception that the load loop defines, and changes nothing else |
| `ActiveHashBase.Base.SetData` | lib/active_hash/base.rb:92-103 | `data=` leaves the class state and the exception that the load defines |
| `ActiveHashBase.Base.DeleteAll` | lib/active_hash/base.rb:204-208 | `delete_all` leaves the class state `delete_all` defines |
| `ActiveHashBase.Base.Reload` | lib/active_hash/base.rb:383-387 | `reload` leaves the class state and the exception that reloading defines |
| `ActiveHashBase.Base.ExistsRecord` | lib/active_hash/base.rb:105-107 | `exists?` on a record is the index lookup of its `id.to_s`; with a consistent index it agrees with a scan |
| `ActiveHashBase.Base.Save` | lib/active_hash/base.rb:513-518 | the in-place `save` leaves the store, the caller's record and the exception that `save` defines |
| `ActiveHashBase.Base.SetRecordAttribute` | lib/active_hash/base.rb:444-446 | writing an attribute of a stored record leaves the store `record[key] = value` defines |
| `ActiveHashBase.Base.Select` | lib/active_hash/base.rb:254-255 | the `select` loop returns exactly the matching records in store order |
| `ActiveHashBase.Base.MethodMissing` | lib/active_hash/base.rb:250-267 | `method_missing` returns exactly what the finder definition gives for the current state |

## Left out

- `ActiveHash::Relation` is not part of this model. `all` is the current
  records sequence. `where`, `find`, `find_by`, `find_by_id`, `pluck`,
  `order`, `count` and the other methods delegated at base.rb:192 are left
  out, and so is `all(conditions: …)`.
- The branches of `exists?` that go through `all.where` (a Hash, or any other
  value through `to_i`) depend on Relation and are left out. The model covers
  the object-with-id branch, the falsy argument and the no-argument form.
- The generated single-field finders `find_by_<f>` and `find_all_by_<f>`
  (base.rb:320-348) are left out. They are real singleton methods that
  compare with `==`, so a call to one never reaches `method_missing`. The
  matcher here is the `to_s` comparison of `method_missing`.
- `Finders.RespondTo` models the finder-name half of `respond_to?` only. The
  `super` half (whether a real method of that name exists) is not modelled.
- `create`, `create!`, `new_record?`, `persisted?`, `cache_key`, `to_param`,
  `transaction`, `scope`, `column_names`, the ActiveModel and ActiveSupport
  hooks and the constant stubs are left out. They are host-framework
  integration or callables with nothing to state.
- Accessor synthesis is a table. Setters and interrogators are not modelled.
  The check that skips a getter when an instance method of that name already
  exists is modelled for `id` only. A field named after another method of
  `Base` (`save`, `hash`, …) is treated like any other field.
- Records are values, not shared objects. Ruby shares a record between the
  caller and `@records`, and `new(hash)` keeps the payload hash itself as
  `@attributes`, so `record[:id] ||= next_id` also writes into `_data`. The
  model gives the caller its updated record back from `insert` and `save`, and
  does not model writes through other aliases. In particular, a `reload`
  after an id was assigned into the payload is modelled as reading the
  unchanged payload.
- Ruby floats, symbols other than field names, and other value classes are
  not modelled. `is_a?(Numeric)` in `next_id` is modelled as being an
  Integer. `Records.EqlHashConsistent` relies on this. `eql?` compares ids
  with `==` and `hash` uses `id.hash` (base.rb:474-482). In Ruby `1 == 1.0`
  holds while `1.hash` and `1.0.hash` differ. So with a float id, two equal
  records can hash differently, which the model does not show.
- `Records.HashKey` is the value that `hash` hashes. It is not
  `Integer#hash` itself, which is a foreign runtime call.
- `Records.Eql` reads both records with the defaults of one class. The
  classes must be equal for `eql?` to hold, so nothing is lost.
- Finder names containing line breaks are left out. The Ruby pattern uses
  line anchors, and the model matches the whole name.
- Exception messages are not modelled, only the exception classes.
