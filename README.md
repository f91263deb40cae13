# Task manager store, modelled in Dafny

This project models the `TaskManager` of `Exercise6/script.js`, a personal to-do
list kept in the browser. The manager owns an ordered list of tasks. Each task is
an `{id, description, completed}` record. The manager loads the list once from the
key-value store entry `"tasks"`. It offers add, toggle, remove, edit and search.
Every successful change writes the whole list back to the store.

Layout, one module per concern:

- `seqs.dfy` (`Seqs`) holds the generic `filter`, the subsequence relation and the
  facts about them that loading, removing and searching share.
- `text.dfy` (`Text`) holds ASCII lower-casing and substring containment for search.
- `tasks.dfy` (`Tasks`) holds the `Task` record and the pure operations. These are
  id generation, task creation, `find` by id, and the new lists after a toggle, an
  edit or a removal. It also holds search and the lemmas about ids.
- `storage.dfy` (`Storage`) holds the stored records, the validating filter of
  `loadTasks`, serialization, and the fact that loading what was saved gives the
  same list back.
- `manager.dfy` (`Manager`) holds the class `TaskManager`. Its field `tasks` is the
  list. Its ghost field `persisted` is the store's content, where `None` means the
  key is absent. Its ghost field `saves` counts the calls to `saveTasks`. Every
  mutating method states its outcome (`Ok`, `Rejected`, `NotFound`), the new
  list, whether it saved, and the class invariant `Valid()`. `Valid()` says that
  loading the store would give exactly the list in memory.

How inputs are represented:

- A description or search term is an `Option<string>`. `None` is a value that is
  not a string, such as the `null` of a cancelled prompt.
- An id argument is an `Option<int>`. `None` is the `NaN` that `parseInt` yields
  for text that is not a number.

Three points where the code differs from what max-plus-one ids suggest. The model
follows the code in each:

- Ids can be reused. `generateUniqueId` is max-plus-one over the current list.
  Removing the task with the largest id therefore lowers the next id.
  `Tasks.IdReusedAfterRemovingMax` exhibits this. Only "fresh with respect to the
  current list" is proved (`Tasks.NextId`).
- Ids are unique only if the loaded list had unique ids. `loadTasks` drops records
  without an integer id but keeps duplicates. Uniqueness and increasing order are
  therefore proved as properties each operation preserves, not as a class invariant.
- `find` acts on the first task with the id, but `filter` in `removeTask` removes
  every task with that id. With unique ids the two agree
  (`Tasks.RemoveUniqueIsSplice`).

## Model

| member | source | states |
|---|---|---|
| Tasks.MaxId | Exercise6/script.js:22 | the fold from 0 is at least 0; it bounds every id; unless it is 0, it is an id of the list |
| Tasks.NextId | Exercise6/script.js:20-23 | 1 on an empty list; at least 1; greater than every current id, so not an id of the list; one more than an existing id unless it is 1 |
| Tasks.CreateTask | Exercise6/script.js:26-33 | the new task has the next id, which no current task has; it is not completed; it has the given description when that is non-empty, and its description is never empty (placeholder) |
| Tasks.FirstIndex | Exercise6/script.js:70 | the position of the first task with the id (no earlier task has it), or none exactly when no task has the id |
| Tasks.Toggled | Exercise6/script.js:70-72 | same length, ids and descriptions; only the first task with the id has its completed flag flipped; unchanged when the id is absent |
| Tasks.ToggleTwice | Exercise6/script.js:72 | toggling the same id twice gives back the original list |
| Tasks.Updated | Exercise6/script.js:106-108 | same length, ids and flags; only the first task with the id gets the new description; unchanged when the id is absent |
| Tasks.UpdateTwice | Exercise6/script.js:106-108 | editing the same id twice with one description equals editing once |
| Tasks.RemoveById | Exercise6/script.js:91 | the result holds exactly the tasks whose id differs, as a subsequence (original order); it is shorter exactly when some task had the id; unchanged otherwise |
| Tasks.RemoveByIdMultiplicity | Exercise6/script.js:91 | a task whose id differs is kept exactly as often as it occurred, duplicates included; a task with the id occurs no more |
| Tasks.RemoveOnlyMatch | Exercise6/script.js:91 | when one position alone holds the id, removal cuts out exactly that position |
| Tasks.RemoveUniqueIsSplice | Exercise6/script.js:70-91 | with unique ids, removing a present id cuts out exactly the task that find returns |
| Tasks.IsText | Exercise6/script.js:37 | the guard shared by `addTask`, `updateTask` (line 102) and `searchTasks` (line 118): a value that is not a string, or the empty string, is rejected; any other string passes |
| Tasks.Search | Exercise6/script.js:117-124 | rejected exactly when the term is empty or not a string; otherwise the result holds exactly the tasks whose lower-cased description contains the lower-cased term, each as often as in the list, as a subsequence of the list |
| Tasks.MatchesIgnoresTermCase | Exercise6/script.js:123 | two terms that differ only in the case of letters match the same tasks; lower-casing the term first changes nothing |
| Tasks.SearchIgnoresTermCase | Exercise6/script.js:122-124 | searching for two terms that differ only in the case of letters gives the same result |
| Tasks.SearchExample | Exercise6/script.js:122-124 | searching "MILK" in "Buy milk" and "Clean house" returns only the first task |
| Tasks.AddKeepsIdOrder | Exercise6/script.js:43-44 | appending the created task keeps the ids unique if they were unique, and strictly increasing in list order if they were |
| Tasks.ToggleKeepsIdOrder | Exercise6/script.js:70-72 | toggling keeps the ids unique, and increasing, when they were |
| Tasks.UpdateKeepsIdOrder | Exercise6/script.js:106-108 | editing keeps the ids unique, and increasing, when they were |
| Tasks.RemoveKeepsIdOrder | Exercise6/script.js:91 | removing keeps the ids unique, and increasing, when they were |
| Tasks.IdsAfterRemovingFirst | Exercise6/script.js:20-33 | starting empty, creating "Write report" and "Review PR" gives ids 1 and 2; after removing id 1, creating "Ship" gives id 3 and the list holds the tasks with ids 2 and 3 |
| Tasks.IdReusedAfterRemovingMax | Exercise6/script.js:20-23 | after removing id 2 from the tasks with ids 1 and 2, the next id is 2 again |
| Text.Lower | Exercise6/script.js:123 | same length; each ASCII capital becomes its lower-case letter (code plus 32), so none remains; every other character unchanged |
| Text.LowerEqualIff | Exercise6/script.js:123 | two texts lower-case alike exactly when they differ at most in the case of ASCII letters |
| Text.Contains | Exercise6/script.js:123 | containment holds exactly when the term occurs at some position of the text |
| Seqs.Filter | Exercise6/script.js:91 | every kept element satisfies the test; the result is a subsequence of the input; it has the input's length exactly when every element passes, and then it is the input |
| Seqs.FilterMembers | Exercise6/script.js:122 | an element is in the result exactly when it is in the input and passes the test |
| Seqs.FilterMultiplicity | Exercise6/script.js:122 | each passing element is kept as often as it occurs, and no other element is kept |
| Seqs.SubsequencePairwise | Exercise6/script.js:91 | a relation that holds pairwise along a list still holds along any of its subsequences |
| Storage.LoadFilter | Exercise6/script.js:8-11 | a task is loaded exactly when its record, with an integer id, is in the stored input; never more tasks than records |
| Storage.LoadFilterMultiplicity | Exercise6/script.js:8-11 | duplicates survive loading: each task loads as often as its record occurs |
| Storage.LoadFilterAppend | Exercise6/script.js:8-11 | loading keeps input order: loading a concatenation concatenates the loads |
| Storage.LoadDropsMalformed | Exercise6/script.js:8-11 | a record with a missing, null or non-integer id is dropped and nothing else around it changes |
| Storage.LoadKeepsWellFormed | Exercise6/script.js:8-11 | records that all have integer ids load one for one, in order |
| Storage.Serialize | Exercise6/script.js:16 | one record per task, each with an integer id, decoding back to that task |
| Storage.Load | Exercise6/script.js:5-12 | an absent or empty entry loads as the empty list; a stored array loads no more tasks than it has records |
| Storage.LoadSerialize | Exercise6/script.js:5-17 | loading what was saved gives back exactly the saved list |
| Manager.TaskManager.constructor | Exercise6/script.js:2-12 | the list is what loading the store gives; nothing saved yet; the invariant holds |
| Manager.TaskManager.SaveTasks | Exercise6/script.js:15-17 | the store holds the serialized list, one more save is counted, and the list is unchanged |
| Manager.TaskManager.AddTask | Exercise6/script.js:36-47 | a non-empty string description appends exactly the created task after the unchanged earlier tasks, then saves; anything else is rejected with no change and no save; unique or increasing ids stay so |
| Manager.TaskManager.ToggleTaskCompletion | Exercise6/script.js:65-82 | NaN is rejected and an unknown id is not found, both with no change and no save; a known id gives the toggled list and a save; unique or increasing ids stay so |
| Manager.TaskManager.RemoveTask | Exercise6/script.js:85-98 | NaN is rejected; otherwise the list becomes the tasks with other ids; it saves exactly when the list got shorter, and else reports not found with list and store unchanged |
| Manager.TaskManager.UpdateTask | Exercise6/script.js:101-114 | an empty or non-string description is rejected before any lookup; a NaN or unknown id is not found; both change nothing; a known id gives the edited list and a save |
| Manager.TaskManager.SearchTasks | Exercise6/script.js:117-136 | returns the search result for the current list, a subsequence of it, or the rejection for an invalid term; the manager's state is not modified |

## Left out

- `localStorage.getItem` and `setItem`, `JSON.parse` and `JSON.stringify` (lines 6-7 and 16) are browser APIs. The stored text is modelled as the sequence of records it encodes. An absent or empty entry is `None`.
- Stored text that does not parse, or that parses to something other than an array, makes line 7 or 8 throw. The model has no such input.
- A `null` element of the stored array makes the filter callback throw at line 10 (`null.id`). The model has no such input: every stored element is a record. An element that is a number, a string or an array has no `id`, so the filter drops it; the model covers it as a record whose id is `Missing`, which `Storage.HasIntegerId` rejects.
- Storage.LoadFilter: like the source, it checks only the `id` field. Stored records are modelled with a string `description` and a boolean `completed`, so a record whose other fields have other types is not modelled. In the source such a record would make `searchTasks` throw.
- Every `console.log` message (lines 38-46, 51-61, 67-80, 87-96, 103-112, 119-134) is output. It is reduced to the `Outcome` value a method returns, or to the search result.
- `viewTasks` (lines 50-62) only prints the list and changes nothing.
- `displayMenu` and `handleUserInput` (lines 149-213) are the interactive prompt loop. They include the `parseInt` of typed ids, whose `NaN` becomes `None`.
- Text.Lower: it lower-cases ASCII letters only, not the full Unicode mapping of `toLowerCase`.
- JavaScript numbers are doubles. Ids are modelled as unbounded integers, so rounding above 2^53 is not modelled.
- Tasks are values. The source flips a flag or replaces a description on the object that `find` returned. The model instead replaces the list element at the found position. No task object is shared outside the list, so the effect on the list is the same.
- The `"No Description"` placeholder of `createTask` is modelled. `addTask` never reaches it, because it rejects empty descriptions first.
