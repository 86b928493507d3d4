# Category data import: store reconciliation and category reader, in Dafny

This project models the two pieces of logic in Spryker's `CategoryDataImport`
module:

- **The category store write step** (`category_store.dfy`, module
  `CategoryStore`). For one imported category row, it computes the list of
  stores the category will be visible on. It starts from the row's include list.
  When that list is exactly empty, it uses the stores of the category that owns
  the parent of the main node instead. Excluded ids are removed from it. Then
  every currently assigned store that is neither excluded nor already in the
  list is appended, once. The step hands the category subsystem an update
  request with the category id, the new assignment and the unchanged current
  assignment. It then raises two publish events: `Category.category_store.publish`
  and `Entity.spy_category.publish`. It raises them on every call.
- **The category reader** (`category_reader.dfy`, module `CategoryReader`). This
  is a class with two maps. `categoryKeys` maps a key to its category id and node
  id. `categoryUrls` maps a key to its list of (locale, URL) pairs. A lookup
  bulk-loads a map only when it finds that map empty. `AddCategory` can also
  fill both maps directly. Lookups either return the cached value or fail with
  one of the three `CategoryByKeyNotFoundException` messages: unknown key; unknown
  URL key; known URL key without the locale.

`wrappers.dfy` holds the `Option` and `Result` datatypes used by both.

The database reads are modelled as data, not queries:
- The write step reads a `Persistence` snapshot. It holds the rows of
  `spy_category_node` and `spy_category_store` in query order. The two read
  helpers are filter functions over those rows.
- The reader's bulk loads take the rows the query would return as a method
  parameter. `CategoryRow` holds a key, a category id and the first node id.
  `UrlRow` holds the owning key (or `None`), a locale and a URL.

The update request is the returned value of `Execute`. The publish events are
appended to the step's `publishEvents` field.

The algorithmic core is proved against reference definitions:
- `CreateStoreRelationTransferToAssign` is proved equal to `StoresToAssign`.
- `StoresToAssign` is proved equal to
  `ArrayDiff(add, delete) + Unique(ArrayDiff(existing, delete + ArrayDiff(add, delete)))`.
  In words: the include list minus the excludes, followed by the first
  occurrences of the remaining existing ids. Membership, duplicates and
  idempotence are proved from this form.
- Each reader loop is proved equal to a function of the old map. Each of those
  functions has a lemma that says what every key ends up holding.

## Behaviour of the code worth knowing

- Store lists are PHP arrays of ids. `array_diff` keeps duplicates of the
  include list, so the new assignment is duplicate-free only when the include
  list is (`StoresToAssignNoDuplicates`, `ExampleIncludedDuplicatesKept`). Only
  the loop over the existing ids removes duplicates.
- The parent fallback is taken only when the include list is exactly `[]`.
- The URL load ends at the first URL whose category node cannot be loaded. It
  keeps what it has loaded so far and reads no later URL (`LoadUrls`,
  `ExampleUrlLoadStopsAtUnloadableRow`).
- The key load caches the *first* node of each category. A later row with the
  same key overwrites an earlier one (`LoadKeysLastWins`, `ExampleKeyLoadLastWins`).
- There is no "loaded" flag. Each map is loaded whenever a lookup finds it empty.
  So an empty load result is loaded again on the next lookup
  (`EmptyUrlLoadIsRetried`). A prior `AddCategory` prevents the bulk load
  entirely (`AddedCategorySuppressesKeyLoad`). The two maps are loaded
  independently of each other.

## Model

| member | source | states |
|---|---|---|
| `CategoryStore.ArrayDiff` | src/Spryker/Zed/CategoryDataImport/Business/Writer/CategoryStore/CategoryStoreWriteStep.php:141 | `array_diff` keeps exactly the ids of the first list that are not in the second, and is no longer than the first list |
| `CategoryStore.ArrayDiffCounts` | src/Spryker/Zed/CategoryDataImport/Business/Writer/CategoryStore/CategoryStoreWriteStep.php:141 | a kept id keeps every copy it had (duplicates survive); a removed id keeps none |
| `CategoryStore.ArrayDiffAppend` | src/Spryker/Zed/CategoryDataImport/Business/Writer/CategoryStore/CategoryStoreWriteStep.php:141 | `array_diff` distributes over concatenation, so the kept ids stay in their original order |
| `CategoryStore.Unique` | src/Spryker/Zed/CategoryDataImport/Business/Writer/CategoryStore/CategoryStoreWriteStep.php:144 | the reference de-duplication: holds exactly the ids of its input, with no duplicates |
| `CategoryStore.UniqueSnoc` | src/Spryker/Zed/CategoryDataImport/Business/Writer/CategoryStore/CategoryStoreWriteStep.php:143-148 | appending an id to a list appends it to `Unique` of the list exactly when it is new: `Unique` keeps the first occurrence of each id, in list order |
| `CategoryStore.AppendSurviving` | src/Spryker/Zed/CategoryDataImport/Business/Writer/CategoryStore/CategoryStoreWriteStep.php:143-148 | no contract of its own: the foreach as a function of the list so far. `AppendSurvivingIsUniqueTail` states what it computes |
| `CategoryStore.StoresToAssign` | src/Spryker/Zed/CategoryDataImport/Business/Writer/CategoryStore/CategoryStoreWriteStep.php:141-148 | no contract of its own: `array_diff` followed by the foreach. `StoresToAssignShape`, `StoresToAssignMembership`, `StoresToAssignKeepsIncludedCopies`, `StoresToAssignNoDuplicates` and `StoresToAssignIdempotent` state it |
| `CategoryStore.AppendSurvivingIsUniqueTail` | src/Spryker/Zed/CategoryDataImport/Business/Writer/CategoryStore/CategoryStoreWriteStep.php:143-148 | the foreach over the existing ids leaves the list as it was, followed by the first occurrences of the existing ids that are neither excluded nor already in the list |
| `CategoryStore.StoresToAssignShape` | src/Spryker/Zed/CategoryDataImport/Business/Writer/CategoryStore/CategoryStoreWriteStep.php:141-148 | new assignment = include minus exclude (include order, duplicates kept), then each surviving existing id once, in existing order |
| `CategoryStore.StoresToAssignMembership` | src/Spryker/Zed/CategoryDataImport/Business/Writer/CategoryStore/CategoryStoreWriteStep.php:141-148 | an id is assigned iff it is included or existing, and not excluded: excludes win, includes and existing assignments are kept, nothing else appears |
| `CategoryStore.StoresToAssignKeepsIncludedCopies` | src/Spryker/Zed/CategoryDataImport/Business/Writer/CategoryStore/CategoryStoreWriteStep.php:141 | every copy of a non-excluded include id is in the new assignment |
| `CategoryStore.StoresToAssignNoDuplicates` | src/Spryker/Zed/CategoryDataImport/Business/Writer/CategoryStore/CategoryStoreWriteStep.php:141-148 | a duplicate-free include list gives a duplicate-free new assignment |
| `CategoryStore.StoresToAssignIdempotent` | src/Spryker/Zed/CategoryDataImport/Business/Writer/CategoryStore/CategoryStoreWriteStep.php:136-151 | merging again, against the persisted result, with the same lists, gives the same result |
| `CategoryStore.ExampleExcludeAndPreserve` | src/Spryker/Zed/CategoryDataImport/Business/Writer/CategoryStore/CategoryStoreWriteStep.php:136-151 | existing 1,2,3 with include 3,4 and exclude 2 gives 3,4,1 |
| `CategoryStore.ExampleIncludedDuplicatesKept` | src/Spryker/Zed/CategoryDataImport/Business/Writer/CategoryStore/CategoryStoreWriteStep.php:141-148 | include 7,7 with existing 7 gives 7,7: include duplicates survive and the existing 7 is not appended |
| `CategoryStore.StoreIdsOfCategory` | src/Spryker/Zed/CategoryDataImport/Business/Writer/CategoryStore/CategoryStoreWriteStep.php:87-96 | the existing assignment holds exactly the stores of the category's `spy_category_store` rows |
| `CategoryStore.ExistingCategoryStoreRelations` | src/Spryker/Zed/CategoryDataImport/Business/Writer/CategoryStore/CategoryStoreWriteStep.php:87-96 | the current assignment holds exactly the stores of the category's `spy_category_store` rows |
| `CategoryStore.MainNodeParent` | src/Spryker/Zed/CategoryDataImport/Business/Writer/CategoryStore/CategoryStoreWriteStep.php:105-110 | the parent node of the category's first main node; `None` if the category has no main node |
| `CategoryStore.StoreIdsOfNodeOwner` | src/Spryker/Zed/CategoryDataImport/Business/Writer/CategoryStore/CategoryStoreWriteStep.php:116-126 | exactly the stores of the rows whose category owns the given node |
| `CategoryStore.ParentCategoryStoreRelations` | src/Spryker/Zed/CategoryDataImport/Business/Writer/CategoryStore/CategoryStoreWriteStep.php:103-127 | empty when there is no main-node parent; otherwise exactly the stores of the category owning that parent node |
| `CategoryStore.StoreIdsToAdd` | src/Spryker/Zed/CategoryDataImport/Business/Writer/CategoryStore/CategoryStoreWriteStep.php:58-63 | no contract of its own: the include list, replaced by `ParentCategoryStoreRelations` only when it is exactly `[]`. `UpdateRequestFor` states the resulting membership |
| `CategoryStore.UpdateRequestFor` | src/Spryker/Zed/CategoryDataImport/Business/Writer/CategoryStore/CategoryStoreWriteStep.php:58-74 | the request carries the category id and the unchanged existing assignment. Its new assignment holds exactly the non-excluded ids of the include list, or of the parent's stores when the include list is `[]`, plus the existing ids |
| `CategoryStore.NoInheritanceOnlyRemoves` | src/Spryker/Zed/CategoryDataImport/Business/Writer/CategoryStore/CategoryStoreWriteStep.php:61-69 | no include list and no parent: the new assignment is the distinct existing ids minus the excludes |
| `CategoryStore.ExampleInheritance` | src/Spryker/Zed/CategoryDataImport/Business/Writer/CategoryStore/CategoryStoreWriteStep.php:61-63 | an empty include list inherits the stores 1,2 of the parent node's category |
| `CategoryStore.ExampleNoParent` | src/Spryker/Zed/CategoryDataImport/Business/Writer/CategoryStore/CategoryStoreWriteStep.php:56-74 | a category without nodes on store 5, with no include or exclude list, stays on store 5 |
| `CategoryStore.CategoryStoreWriteStep.CreateStoreRelationTransferToAssign` | src/Spryker/Zed/CategoryDataImport/Business/Writer/CategoryStore/CategoryStoreWriteStep.php:136-151 | the foreach produces `StoresToAssign` (whose properties are the lemmas above) |
| `CategoryStore.CategoryStoreWriteStep.constructor` | src/Spryker/Zed/CategoryDataImport/Business/Writer/CategoryStore/CategoryStoreWriteStep.php:46-49 | a new step starts with an empty event log (the facade it stores is not modelled) |
| `CategoryStore.CategoryStoreWriteStep.Execute` | src/Spryker/Zed/CategoryDataImport/Business/Writer/CategoryStore/CategoryStoreWriteStep.php:56-80 | returns `UpdateRequestFor` the row, and appends exactly the two publish events for the category id, on every call |
| `CategoryStore.CategoryStoreWriteStep.AddPublishEvents` | src/Spryker/Zed/CategoryDataImport/Business/Writer/CategoryStore/CategoryStoreWriteStep.php:78-79 | raising an event appends it, with the category id, to the step's event log |
| `CategoryReader.CategoryReader.constructor` | src/Spryker/Zed/CategoryDataImport/Business/Model/Reader/CategoryReader.php:50-54 | a new reader starts with both maps empty |
| `CategoryReader.CategoryReader.AddCategory` | src/Spryker/Zed/CategoryDataImport/Business/Model/Reader/CategoryReader.php:62-81 | overwrites the key's entry with the given category and node ids. It replaces the key's URL list with the URLs of all the category's nodes. Other keys are unchanged |
| `CategoryReader.UrlsOfNodes` | src/Spryker/Zed/CategoryDataImport/Business/Model/Reader/CategoryReader.php:69-78 | holds exactly the URLs of the category's nodes (node by node, each node's URLs in order) |
| `CategoryReader.CategoryReader.GetIdCategoryNodeByCategoryKey` | src/Spryker/Zed/CategoryDataImport/Business/Model/Reader/CategoryReader.php:90-107 | loads the key map only if it is empty, leaves the URL map alone, returns the cached node id of a present key, fails with the key-not-found error otherwise |
| `CategoryReader.CategoryReader.LoadCategoryKeys` | src/Spryker/Zed/CategoryDataImport/Business/Model/Reader/CategoryReader.php:112-124 | the loop produces `LoadKeys` of the old map and the rows |
| `CategoryReader.LoadKeys` | src/Spryker/Zed/CategoryDataImport/Business/Model/Reader/CategoryReader.php:118-123 | no contract of its own: the foreach, each row overwriting its key's entry. `LoadKeysDomain`, `LoadKeysKeepsOthers` and `LoadKeysLastWins` state it |
| `CategoryReader.KeysAfterLookup` | src/Spryker/Zed/CategoryDataImport/Business/Model/Reader/CategoryReader.php:92-94 | no contract of its own: the key map after a lookup, loaded only when empty. `KeyLoadRunsOnce` and `AddedCategorySuppressesKeyLoad` state it |
| `CategoryReader.LoadKeysDomain` | src/Spryker/Zed/CategoryDataImport/Business/Model/Reader/CategoryReader.php:118-123 | after the key load a key is present iff it was before or some row names it |
| `CategoryReader.LoadKeysKeepsOthers` | src/Spryker/Zed/CategoryDataImport/Business/Model/Reader/CategoryReader.php:118-123 | a key that no row names keeps its old entry |
| `CategoryReader.LoadKeysLastWins` | src/Spryker/Zed/CategoryDataImport/Business/Model/Reader/CategoryReader.php:118-123 | a row's key holds that row's category id and first node id unless a later row names the same key: the last row wins |
| `CategoryReader.KeyLoadRunsOnce` | src/Spryker/Zed/CategoryDataImport/Business/Model/Reader/CategoryReader.php:92-94 | once a lookup has loaded a non-empty result, no later lookup loads again |
| `CategoryReader.AddedCategorySuppressesKeyLoad` | src/Spryker/Zed/CategoryDataImport/Business/Model/Reader/CategoryReader.php:92-94 | a key map that `AddCategory` has written to is never bulk-loaded |
| `CategoryReader.ExampleKeyLoadLastWins` | src/Spryker/Zed/CategoryDataImport/Business/Model/Reader/CategoryReader.php:118-123 | two rows for one key: the later row's entry is cached |
| `CategoryReader.CategoryReader.GetParentUrl` | src/Spryker/Zed/CategoryDataImport/Business/Model/Reader/CategoryReader.php:134-161 | loads the URL map only if it is empty, leaves the key map alone, and returns `ParentUrlOf` the resulting map |
| `CategoryReader.ParentUrlOf` | src/Spryker/Zed/CategoryDataImport/Business/Model/Reader/CategoryReader.php:140-160 | an absent key gives the URL-key-not-found error. A present key whose list has no entry for the locale (an empty list included) gives the distinct key-and-locale error. Otherwise the result is the first URL for the locale |
| `CategoryReader.FirstUrlForLocale` | src/Spryker/Zed/CategoryDataImport/Business/Model/Reader/CategoryReader.php:150-154 | the URL of the first entry whose locale equals the given one; `None` iff no entry has it |
| `CategoryReader.CategoryReader.LoadCategoryUrls` | src/Spryker/Zed/CategoryDataImport/Business/Model/Reader/CategoryReader.php:166-185 | the loop, with its early return, produces `LoadUrls` of the old map and the rows |
| `CategoryReader.LoadUrls` | src/Spryker/Zed/CategoryDataImport/Business/Model/Reader/CategoryReader.php:170-184 | no contract of its own: the foreach, appending each row to its key's list and stopping at the first unloadable row. `LoadUrlsContents` states it |
| `CategoryReader.UrlsAfterLookup` | src/Spryker/Zed/CategoryDataImport/Business/Model/Reader/CategoryReader.php:136-138 | no contract of its own: the URL map after a lookup, loaded only when empty. `UrlLoadRunsOnce` and `EmptyUrlLoadIsRetried` state it |
| `CategoryReader.LoadableRows` | src/Spryker/Zed/CategoryDataImport/Business/Model/Reader/CategoryReader.php:170-174 | the rows before the first row whose node cannot be loaded: a prefix of the rows, all with an owner, stopped at the first row without one |
| `CategoryReader.UrlsOwnedBy` | src/Spryker/Zed/CategoryDataImport/Business/Model/Reader/CategoryReader.php:177-183 | holds exactly the URLs of the rows owned by the key |
| `CategoryReader.LoadUrlsContents` | src/Spryker/Zed/CategoryDataImport/Business/Model/Reader/CategoryReader.php:170-184 | after the URL load each key's list is its old list (or `[]`), followed by the URLs it owns among the loadable rows, in row order. A key is present iff it was before or owns such a row |
| `CategoryReader.UrlLoadRunsOnce` | src/Spryker/Zed/CategoryDataImport/Business/Model/Reader/CategoryReader.php:136-138 | once a lookup has loaded at least one URL, no later lookup loads again |
| `CategoryReader.EmptyUrlLoadIsRetried` | src/Spryker/Zed/CategoryDataImport/Business/Model/Reader/CategoryReader.php:136-138 | a load that stores nothing leaves the map empty, so the next lookup loads again |
| `CategoryReader.ExampleUrlLoadStopsAtUnloadableRow` | src/Spryker/Zed/CategoryDataImport/Business/Model/Reader/CategoryReader.php:171-174 | an unloadable second row ends the load: the third row's key is not loaded |

## Left out

- Propel queries: each is a filter over table rows in query order. The join in
  `getParentCategoryStoreRelations` is read as "store rows whose category owns
  the parent node". Node ids are taken to be unique, as the primary key makes
  them; the model does not duplicate rows for repeated node ids.
- The key load's category query, joined with the nodes, is given as one row per
  category, holding its first node. The nodes collection and its
  `getFirst()` ordering are not modelled.
- In `AddCategory`, the category's nodes and their URLs are given in the
  `CategoryEntity` value. The source reads them through ORM relations.
- `categoryFacade->updateCategoryStoreRelation`: a foreign call. `Execute`
  returns the request it would be given.
- `PublishAwareStep::addPublishEvents` and the event transport: the parent class
  is not part of this model. Raising an event appends it to a log; any grouping
  or de-duplication the parent class does is not modelled.
- The exception messages are modelled as the three constructors of
  `CategoryByKeyNotFound`, not as formatted strings.
- PHP array keys, which `array_diff` preserves, are not modelled; store lists
  are value sequences. `in_array`'s loose comparison is plain integer equality,
  since every id is an int.
- `ArrayObject`'s conversion of numeric-string keys to integer keys is not
  modelled; keys are strings.
- `CategoryDataImportConfig` (CSV file paths) and the test helper that counts
  `spy_category_store` rows are configuration and test plumbing. They are not
  part of this model.
