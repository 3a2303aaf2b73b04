# BlazorCanDoEverything in-memory repositories in Dafny

A model of the data-access layer behind the app's projects, tasks, tags
and categories. It has four in-memory repositories and the seeding service
that fills them at start-up.

- `EntityStore`: the pattern all four repositories repeat. It is a list of
  records plus a `_nextId` counter that starts at 1:
  - a save with ID 0 takes the next ID and appends;
  - a save with a nonzero ID replaces the first record with that ID, or
    does nothing;
  - a delete removes every record with the ID and returns how many it
    removed;
  - a lookup returns the first match.

  The store is generic. Each repository supplies its record's ID accessor
  and the update that assigns an ID.
- `CategoryRepository`, `TaskRepository`: plain stores. The task store also
  lists one project's tasks through the `ProjectID` foreign key.
- `TagRepository`: a store plus the association map from project ID to a
  list of tag IDs. It has scoped and unscoped saves and deletes, and a
  project-scoped listing that filters the global tag list through the map.
  A scoped save records the ID even when no tag has it yet. When that ID
  is the next one the counter hands out, the next new tag shows up in
  that project's listing (`TagRepository.SaveInPicksUpRecordedId`).
- `ProjectRepository`: a store whose reads hydrate each project. A read
  replaces the project's `Tasks` and `Tags` with the per-project listings
  of the task and tag repositories. Deleting a project does not cascade.
- `SeedData`: `LoadSeedDataAsync` as a fold over the seed list. Each step
  saves the category and wires `CategoryID`. It then saves the project,
  points every task at the project's new ID and saves it, and saves every
  tag with the scoped overload. `GetSeedData` is the literal list.
- `SeedScenario`: the result of loading the literal into freshly created
  repositories, stated store by store and project by project.

Records are immutable values. Every operation returns the new repository
state together with its C# result. For example, a save returns the pair
(repository, ID).

The central invariant, proved for every operation, has three parts:
- stored IDs are positive, pairwise distinct, and below `nextId`;
- `nextId` never goes down;
- the tag repository's association lists never name a tag twice.

Seeding keeps a further invariant (`SeedData.Wired`):
- every task's `ProjectID` and every association key is below the project
  counter;
- every associated tag ID is below the tag counter.

With it, the proofs show what each seeded project reads back as.

## Model

| member | source | states |
|---|---|---|
| Seqs.Filter | src/hybrid/BlazorCanDoEverything/BlazorCanDoEverything/Data/InMemoryTaskRepository.cs:16-19 | `Where(...).ToList()`: the result is an order-preserving sublist of the input that holds only elements satisfying the predicate, and each such element exactly as many times as the input does |
| Seqs.FilterAppend | src/hybrid/BlazorCanDoEverything/BlazorCanDoEverything/Data/InMemoryTaskRepository.cs:16-19 | filtering a list that was extended at the end gives the old listing followed by the filtered extension |
| Seqs.RemoveFirst | src/hybrid/BlazorCanDoEverything/BlazorCanDoEverything/Data/InMemoryTagRepository.cs:70-73 | `List.Remove`: an absent value leaves the list as it was; for a present one the result is the list with its first occurrence of the value cut out, the elements before and after it kept in order |
| Seqs.RemoveFirstNoDup | src/hybrid/BlazorCanDoEverything/BlazorCanDoEverything/Data/InMemoryTagRepository.cs:70-73 | on a duplicate-free association list, removing the first occurrence removes the tag ID entirely and keeps the list duplicate-free |
| Seqs.AddOnce | src/hybrid/BlazorCanDoEverything/BlazorCanDoEverything/Data/InMemoryTagRepository.cs:58-61 | the `Contains` guard: afterwards the ID is present; it is appended at the end only if it was absent; the list is otherwise unchanged and stays duplicate-free |
| EntityStore.CountKey | src/hybrid/BlazorCanDoEverything/BlazorCanDoEverything/Data/InMemoryCategoryRepository.cs:39-43 | the count `RemoveAll` reports is zero exactly when no record carries the ID, and never exceeds the list length |
| EntityStore.FindIndex | src/hybrid/BlazorCanDoEverything/BlazorCanDoEverything/Data/InMemoryCategoryRepository.cs:30 | `FindIndex` gives -1 (none) exactly when the ID is absent; otherwise it gives the position of the first record with that ID |
| EntityStore.RemoveKey | src/hybrid/BlazorCanDoEverything/BlazorCanDoEverything/Data/InMemoryCategoryRepository.cs:41 | `RemoveAll` keeps exactly the records with another ID, in their original order, and removes as many records as carry the ID |
| EntityStore.Get | src/hybrid/BlazorCanDoEverything/BlazorCanDoEverything/Data/InMemoryCategoryRepository.cs:16-19 | `FirstOrDefault`: null exactly when no record has the ID; otherwise the first record with it |
| EntityStore.Save | src/hybrid/BlazorCanDoEverything/BlazorCanDoEverything/Data/InMemoryCategoryRepository.cs:21-37 | ID 0: appended under `nextId`, the counter moves on by one, and the new ID is returned. Nonzero and present: the first match is replaced in place, and the length and counter are kept. Nonzero and absent: nothing changes and the given ID is returned |
| EntityStore.Delete | src/hybrid/BlazorCanDoEverything/BlazorCanDoEverything/Data/InMemoryCategoryRepository.cs:39-43 | every record with the ID goes, the rest stay in order, the number removed is returned, and `nextId` is untouched; an unknown ID changes nothing and returns 0 |
| EntityStore.SaveAll | src/hybrid/BlazorCanDoEverything/BlazorCanDoEverything.Shared/Services/SeedDataService.cs:40-44 | saving a run of new records one after another appends them in order under consecutive IDs from `nextId`, and returns those IDs |
| EntityStore.CountKeyDistinct | src/hybrid/BlazorCanDoEverything/BlazorCanDoEverything/Data/InMemoryCategoryRepository.cs:39-43 | in a store with distinct IDs, a present ID is carried by exactly one record |
| EntityStore.SavePreservesValid | src/hybrid/BlazorCanDoEverything/BlazorCanDoEverything/Data/InMemoryCategoryRepository.cs:21-37 | a save keeps IDs positive, distinct and below `nextId` |
| EntityStore.DeletePreservesValid | src/hybrid/BlazorCanDoEverything/BlazorCanDoEverything/Data/InMemoryCategoryRepository.cs:39-43 | a delete keeps IDs positive, distinct and below `nextId`, so a later save never reuses a deleted ID |
| EntityStore.SubseqKeepsDistinct | src/hybrid/BlazorCanDoEverything/BlazorCanDoEverything/Data/InMemoryCategoryRepository.cs:41 | what `RemoveAll` or a `Where` keeps of a list with distinct IDs still has distinct IDs and holds only records of the list |
| EntityStore.GetStored | src/hybrid/BlazorCanDoEverything/BlazorCanDoEverything/Data/InMemoryCategoryRepository.cs:16-19 | with distinct IDs, looking up any stored record's ID returns that very record |
| EntityStore.SaveNewThenGet | src/hybrid/BlazorCanDoEverything/BlazorCanDoEverything/Data/InMemoryCategoryRepository.cs:16-27 | after a new save, a lookup of the returned ID finds the saved record under that ID |
| EntityStore.SaveExistingThenGet | src/hybrid/BlazorCanDoEverything/BlazorCanDoEverything/Data/InMemoryCategoryRepository.cs:28-36 | after an update of a present ID, a lookup returns the new record (a full overwrite, not a merge) |
| EntityStore.DeleteExisting | src/hybrid/BlazorCanDoEverything/BlazorCanDoEverything/Data/InMemoryCategoryRepository.cs:39-43 | deleting a present ID from a valid store returns 1, shortens the list by one, and leaves nothing under that ID |
| EntityStore.SaveAllNewPreservesValid | src/hybrid/BlazorCanDoEverything/BlazorCanDoEverything.Shared/Services/SeedDataService.cs:40-44 | saving a run of new records keeps the store invariant |
| CategoryRepository.Get | src/hybrid/BlazorCanDoEverything/BlazorCanDoEverything/Data/InMemoryCategoryRepository.cs:16-19 | `GetAsync`: the first category with the ID, or null when there is none |
| CategoryRepository.Save | src/hybrid/BlazorCanDoEverything/BlazorCanDoEverything/Data/InMemoryCategoryRepository.cs:21-37 | `SaveItemAsync`: the three cases of the store save (append under `nextId`, replace in place, or no-op returning the given ID) |
| CategoryRepository.Delete | src/hybrid/BlazorCanDoEverything/BlazorCanDoEverything/Data/InMemoryCategoryRepository.cs:39-43 | `DeleteItemAsync`: removes every category with the item's ID and returns the count; an unknown ID changes nothing and returns 0 |
| CategoryRepository.OperationsPreserveValid | src/hybrid/BlazorCanDoEverything/BlazorCanDoEverything/Data/InMemoryCategoryRepository.cs:8-43 | save and delete keep category IDs positive, distinct and below the counter |
| CategoryRepository.SaveNewAppends | src/hybrid/BlazorCanDoEverything/BlazorCanDoEverything/Data/InMemoryCategoryRepository.cs:11-27 | a new category is returned with the current `nextId`, appears last in `ListAsync()` after the earlier ones in insertion order, and `GetAsync` finds it |
| CategoryRepository.DeleteCount | src/hybrid/BlazorCanDoEverything/BlazorCanDoEverything/Data/InMemoryCategoryRepository.cs:39-43 | deleting a present category returns 1 and shortens the listing by one; deleting an unknown one returns 0 and leaves the listing unchanged |
| TaskRepository.ListByProject | src/hybrid/BlazorCanDoEverything/BlazorCanDoEverything/Data/InMemoryTaskRepository.cs:16-19 | `ListAsync(projectId)`: exactly the stored tasks whose `ProjectID` is the argument, in store order, each as many times as the store holds it |
| TaskRepository.Get | src/hybrid/BlazorCanDoEverything/BlazorCanDoEverything/Data/InMemoryTaskRepository.cs:21-24 | `GetAsync`: the first task with the ID, or null |
| TaskRepository.Save | src/hybrid/BlazorCanDoEverything/BlazorCanDoEverything/Data/InMemoryTaskRepository.cs:26-42 | `SaveItemAsync`: the three cases of the store save |
| TaskRepository.Delete | src/hybrid/BlazorCanDoEverything/BlazorCanDoEverything/Data/InMemoryTaskRepository.cs:44-48 | `DeleteItemAsync`: removes every task with the item's ID and returns the count |
| TaskRepository.OperationsPreserveValid | src/hybrid/BlazorCanDoEverything/BlazorCanDoEverything/Data/InMemoryTaskRepository.cs:9-48 | save and delete keep task IDs positive, distinct and below the counter |
| TaskRepository.SaveNewThenGet | src/hybrid/BlazorCanDoEverything/BlazorCanDoEverything/Data/InMemoryTaskRepository.cs:21-32 | a new task takes `nextId`, the counter moves on by one, the task is appended to `ListAsync()`, and `GetAsync(newId)` returns it |
| TaskRepository.SuccessiveNewSaves | src/hybrid/BlazorCanDoEverything/BlazorCanDoEverything/Data/InMemoryTaskRepository.cs:26-32 | two new saves in a row return consecutive IDs |
| TaskRepository.DeleteCount | src/hybrid/BlazorCanDoEverything/BlazorCanDoEverything/Data/InMemoryTaskRepository.cs:44-48 | deleting a present task returns 1 and shortens the list by one; deleting an unknown ID returns 0 and leaves the store exactly as it was |
| TaskRepository.ListByProjectAppend | src/hybrid/BlazorCanDoEverything/BlazorCanDoEverything/Data/InMemoryTaskRepository.cs:16-19 | appending tasks to the store extends a project's listing by exactly the appended tasks of that project |
| TagRepository.ListByProject | src/hybrid/BlazorCanDoEverything/BlazorCanDoEverything/Data/InMemoryTagRepository.cs:17-24 | `ListAsync(projectId)`: exactly the global tags whose ID is in the project's association list, in global-list order, each as many times as the global list holds it; empty when the project has no entry |
| TagRepository.Get | src/hybrid/BlazorCanDoEverything/BlazorCanDoEverything/Data/InMemoryTagRepository.cs:26-29 | `GetAsync`: the first tag with the ID, or null |
| TagRepository.Save | src/hybrid/BlazorCanDoEverything/BlazorCanDoEverything/Data/InMemoryTagRepository.cs:31-47 | the unscoped save: the three cases of the store save; the association map is untouched |
| TagRepository.SaveIn | src/hybrid/BlazorCanDoEverything/BlazorCanDoEverything/Data/InMemoryTagRepository.cs:49-64 | the scoped save: the unscoped save first; then the project gets an entry holding the saved ID once (appended only if absent); other projects' entries are unchanged; the result is always 1 |
| TagRepository.Delete | src/hybrid/BlazorCanDoEverything/BlazorCanDoEverything/Data/InMemoryTagRepository.cs:66-75 | the global delete: the store delete with its count; every project keeps its entry, and each association list loses the first occurrence of the ID, the rest keeping its order (`List.Remove`); on duplicate-free lists the ID is gone everywhere |
| TagRepository.DeleteIn | src/hybrid/BlazorCanDoEverything/BlazorCanDoEverything/Data/InMemoryTagRepository.cs:77-85 | the scoped delete: the global list is never touched; the result is 1 exactly when the project has an entry and 0 exactly when it has none; only that project's list changes, losing the first occurrence of the ID with the rest in order (`List.Remove`) |
| TagRepository.OperationsPreserveValid | src/hybrid/BlazorCanDoEverything/BlazorCanDoEverything/Data/InMemoryTagRepository.cs:8-85 | all four mutations keep tag IDs positive, distinct and below the counter, and keep association lists duplicate-free |
| TagRepository.SaveInNew | src/hybrid/BlazorCanDoEverything/BlazorCanDoEverything/Data/InMemoryTagRepository.cs:31-61 | a scoped save of a new tag appends it to the global list under `nextId` and moves the counter on; the project's list gains the new ID at its end when it did not name that ID yet, and otherwise stays as it was |
| TagRepository.SaveInPicksUpRecordedId | src/hybrid/BlazorCanDoEverything/BlazorCanDoEverything/Data/InMemoryTagRepository.cs:17-61 | an association recorded earlier for the ID the next new tag gets makes that project list the new tag, whichever project the tag was saved under |
| TagRepository.RecordedIdScenario | src/hybrid/BlazorCanDoEverything/BlazorCanDoEverything/Data/InMemoryTagRepository.cs:17-61 | from empty repositories, a scoped save of tag 1 under project 7 lists nothing, yet the first new tag, saved under project 9, takes ID 1 and is then listed under project 7 |
| TagRepository.SaveInIdempotent | src/hybrid/BlazorCanDoEverything/BlazorCanDoEverything/Data/InMemoryTagRepository.cs:49-63 | repeating a scoped save of a tag that has an ID leaves everything as the first call left it |
| TagRepository.SaveInNewRepeated | src/hybrid/BlazorCanDoEverything/BlazorCanDoEverything/Data/InMemoryTagRepository.cs:31-63 | repeating a scoped save with the record the first save numbered (the caller's object whose `ID` was set) changes nothing |
| TagRepository.SaveInListedOnce | src/hybrid/BlazorCanDoEverything/BlazorCanDoEverything/Data/InMemoryTagRepository.cs:17-63 | after a scoped save of a new or present tag, the project's listing shows the saved record, and exactly one tag with its ID |
| TagRepository.SaveInUnknownNotListed | src/hybrid/BlazorCanDoEverything/BlazorCanDoEverything/Data/InMemoryTagRepository.cs:17-63 | a scoped save under an unknown nonzero ID records the association but creates no tag, so the project's listing does not show it |
| TagRepository.DeleteUnlists | src/hybrid/BlazorCanDoEverything/BlazorCanDoEverything/Data/InMemoryTagRepository.cs:66-75 | after a global delete, no project's listing shows the tag and no association list names it |
| TagRepository.DeleteInKeepsGlobal | src/hybrid/BlazorCanDoEverything/BlazorCanDoEverything/Data/InMemoryTagRepository.cs:77-85 | after a scoped delete, `ListAsync()` is unchanged but the project's listing no longer shows the tag |
| TagRepository.ApplyPreservesValid | src/hybrid/BlazorCanDoEverything/BlazorCanDoEverything/Data/InMemoryTagRepository.cs:8-85 | any single call keeps the invariant and never lowers `nextId` |
| TagRepository.RunPreservesValid | src/hybrid/BlazorCanDoEverything/BlazorCanDoEverything/Data/InMemoryTagRepository.cs:8-85 | any sequence of calls keeps the invariant and never lowers `nextId`, so tag IDs are never reused |
| TagRepository.ListByProjectAppend | src/hybrid/BlazorCanDoEverything/BlazorCanDoEverything/Data/InMemoryTagRepository.cs:17-24 | appending tags to the global list while a project's association stays as it was extends its listing by the appended tags it is associated with |
| ProjectRepository.List | src/hybrid/BlazorCanDoEverything/BlazorCanDoEverything.Web/Data/InMemoryProjectRepository.cs:19-28 | `ListAsync`: same number and order of projects and the same counter; each returned project keeps its stored members, with `Tasks` and `Tags` equal to the task and tag listings for its ID; the store holds the hydrated projects afterwards |
| ProjectRepository.Get | src/hybrid/BlazorCanDoEverything/BlazorCanDoEverything.Web/Data/InMemoryProjectRepository.cs:30-39 | `GetAsync`: null exactly when no project has the ID, and then nothing changes; otherwise the first match, hydrated, and only that stored record is replaced by its hydrated form |
| ProjectRepository.Save | src/hybrid/BlazorCanDoEverything/BlazorCanDoEverything.Web/Data/InMemoryProjectRepository.cs:41-57 | `SaveItemAsync`: the three cases of the store save; the project's category, tasks and tags are not saved with it |
| ProjectRepository.Delete | src/hybrid/BlazorCanDoEverything/BlazorCanDoEverything.Web/Data/InMemoryProjectRepository.cs:59-63 | `DeleteItemAsync`: removes every project with the ID and returns the count; the task and tag repositories are not involved |
| ProjectRepository.OperationsPreserveValid | src/hybrid/BlazorCanDoEverything/BlazorCanDoEverything.Web/Data/InMemoryProjectRepository.cs:11-63 | save and delete keep project IDs positive, distinct and below the counter; the counter never goes down |
| ProjectRepository.ReadsPreserveValid | src/hybrid/BlazorCanDoEverything/BlazorCanDoEverything.Web/Data/InMemoryProjectRepository.cs:19-39 | the hydrating reads write to the store and still keep its invariant |
| ProjectRepository.ListIdempotent | src/hybrid/BlazorCanDoEverything/BlazorCanDoEverything.Web/Data/InMemoryProjectRepository.cs:19-28 | a second `ListAsync` leaves the store and returns the projects as the first left and returned them |
| ProjectRepository.ListIgnoresStoredNavigation | src/hybrid/BlazorCanDoEverything/BlazorCanDoEverything.Web/Data/InMemoryProjectRepository.cs:19-28 | what `ListAsync` returns does not depend on the `Tasks` and `Tags` left in the stored projects |
| ProjectRepository.GetAgreesWithList | src/hybrid/BlazorCanDoEverything/BlazorCanDoEverything.Web/Data/InMemoryProjectRepository.cs:19-39 | a project `GetAsync` finds is among the projects `ListAsync` returns, and carries the requested ID |
| ProjectRepository.DeleteThenGet | src/hybrid/BlazorCanDoEverything/BlazorCanDoEverything.Web/Data/InMemoryProjectRepository.cs:30-63 | after a delete, `GetAsync` of the ID finds nothing, and deleting a present project returns 1 |
| SeedData.SaveTagsIn | src/hybrid/BlazorCanDoEverything/BlazorCanDoEverything.Shared/Services/SeedDataService.cs:47-53 | the scoped tag loop touches only the project's own association entry, and creates that entry when it saves at least one tag |
| SeedData.SaveTagsInStore | src/hybrid/BlazorCanDoEverything/BlazorCanDoEverything.Shared/Services/SeedDataService.cs:47-53 | the new seed tags are appended to the global list in order, under consecutive IDs from the tag counter |
| SeedData.SaveTagsInAssociates | src/hybrid/BlazorCanDoEverything/BlazorCanDoEverything.Shared/Services/SeedDataService.cs:47-53 | the new tags' IDs are appended to the project's association list in order |
| SeedData.SaveTagsInPreservesValid | src/hybrid/BlazorCanDoEverything/BlazorCanDoEverything.Shared/Services/SeedDataService.cs:47-53 | the scoped tag loop keeps the tag repository's invariant |
| SeedData.SaveCategory | src/hybrid/BlazorCanDoEverything/BlazorCanDoEverything.Shared/Services/SeedDataService.cs:30-34 | a project without a category changes nothing; otherwise the category store saves the category as `SaveItemAsync` does, and the project's `CategoryID` and its category both carry the ID that save returned, every other member unchanged |
| SeedData.SeedProject | src/hybrid/BlazorCanDoEverything/BlazorCanDoEverything.Shared/Services/SeedDataService.cs:28-54 | one loop iteration. Category saved first, under the category counter. Project appended with `CategoryID` set to that category's ID. Tasks appended with `ProjectID` set to the project's new ID and IDs from the task counter. Tags saved under the project's new ID. A project without a category leaves the category store alone |
| SeedData.SeedProjectPreservesValid | src/hybrid/BlazorCanDoEverything/BlazorCanDoEverything.Shared/Services/SeedDataService.cs:28-54 | seeding one new project keeps all four repositories' invariants |
| SeedData.SeedProjectCounters | src/hybrid/BlazorCanDoEverything/BlazorCanDoEverything.Shared/Services/SeedDataService.cs:28-54 | one iteration moves the category and project counters on by one, and the task and tag counters and lists on by the project's task and tag counts |
| SeedData.SeedProjectTasks | src/hybrid/BlazorCanDoEverything/BlazorCanDoEverything.Shared/Services/SeedDataService.cs:36-45 | after one iteration the new project lists exactly its own tasks, pointing at it and numbered from the task counter; no other project's task listing changes |
| SeedData.SeedProjectTags | src/hybrid/BlazorCanDoEverything/BlazorCanDoEverything.Shared/Services/SeedDataService.cs:47-53 | after one iteration the new project lists exactly its own tags, numbered from the tag counter; no other project's tag listing changes |
| SeedData.SeedProjectWired | src/hybrid/BlazorCanDoEverything/BlazorCanDoEverything.Shared/Services/SeedDataService.cs:36-53 | one iteration keeps every task's `ProjectID` and every association key pointing at a saved project, and every associated tag ID below the tag counter |
| SeedData.SeedProjectSeeded | src/hybrid/BlazorCanDoEverything/BlazorCanDoEverything.Shared/Services/SeedDataService.cs:28-54 | one iteration keeps the seeding invariant and moves the counters, appends the category and project, and changes the listings as a seeding step must |
| SeedData.SeedWithSnoc | src/hybrid/BlazorCanDoEverything/BlazorCanDoEverything.Shared/Services/SeedDataService.cs:28-54 | the `foreach` loop over a list and then one more project is the loop over the list followed by one more step, so the state after each project is the step applied to the state before it |
| SeedData.SeedWith | src/hybrid/BlazorCanDoEverything/BlazorCanDoEverything.Shared/Services/SeedDataService.cs:28-54 | the `foreach` loop: the step applied to each project in list order; it is stated from the last step by `SeedData.SeedWithSnoc`, and what it keeps and produces by the `SeedData.SeedWith*` lemmas below |
| SeedData.Seed | src/hybrid/BlazorCanDoEverything/BlazorCanDoEverything.Shared/Services/SeedDataService.cs:24-55 | `LoadSeedDataAsync` over a given list: the loop with `SeedData.SeedProject` as its step; its result is stated by `SeedData.SeedStores`, `SeedData.SeedListings` and `SeedData.SeedReadBack` |
| SeedData.SeedWithCounts | src/hybrid/BlazorCanDoEverything/BlazorCanDoEverything.Shared/Services/SeedDataService.cs:24-55 | the whole loop keeps the invariant; it moves the category and project counters on by the number of seed projects, and the task and tag counters on by their total tasks and tags |
| SeedData.SeedWithAppends | src/hybrid/BlazorCanDoEverything/BlazorCanDoEverything.Shared/Services/SeedDataService.cs:24-55 | the loop appends the categories and projects in seed order with consecutive IDs, project `k` pointing at category `k` |
| SeedData.SeedWithKeepsEarlierTasks | src/hybrid/BlazorCanDoEverything/BlazorCanDoEverything.Shared/Services/SeedDataService.cs:24-55 | the loop never changes the task listing of a project saved before it started |
| SeedData.SeedWithKeepsEarlierTags | src/hybrid/BlazorCanDoEverything/BlazorCanDoEverything.Shared/Services/SeedDataService.cs:24-55 | the loop never changes the tag listing of a project saved before it started |
| SeedData.SeedWithTaskListing | src/hybrid/BlazorCanDoEverything/BlazorCanDoEverything.Shared/Services/SeedDataService.cs:24-55 | once the loop is over, the `k`-th seed project lists exactly its own tasks, numbered on from the tasks of the projects before it |
| SeedData.SeedWithTagListing | src/hybrid/BlazorCanDoEverything/BlazorCanDoEverything.Shared/Services/SeedDataService.cs:24-55 | once the loop is over, the `k`-th seed project lists exactly its own tags, numbered on from the tags of the projects before it |
| SeedData.SeedStores | src/hybrid/BlazorCanDoEverything/BlazorCanDoEverything.Shared/Services/SeedDataService.cs:24-55 | `LoadSeedDataAsync` over consistent repositories: the category and project stores are exactly the old ones plus the seeds in order under consecutive IDs; the counters advance by the numbers saved; the invariants hold |
| SeedData.SeedListings | src/hybrid/BlazorCanDoEverything/BlazorCanDoEverything.Shared/Services/SeedDataService.cs:24-55 | after loading, the `k`-th seed project's task and tag listings are exactly its own tasks and tags under their assigned IDs |
| SeedData.SeedReadBack | src/hybrid/BlazorCanDoEverything/BlazorCanDoEverything.Shared/Services/SeedDataService.cs:24-55 | after loading, `GetAsync` of the `k`-th project's ID returns it with its category wired and its own tasks and tags; its category ID finds its category |
| SeedData.SeedProjects | src/hybrid/BlazorCanDoEverything/BlazorCanDoEverything.Shared/Services/SeedDataService.cs:57-119 | `GetSeedData()`: four projects, each new with a new category, tasks and tags, so every ID in it is 0; its contents are stated by `SeedScenario.SeedLiteral` |
| SeedScenario.SeedLiteral | src/hybrid/BlazorCanDoEverything/BlazorCanDoEverything.Shared/Services/SeedDataService.cs:57-119 | the literal has four new projects, each with a category and three tasks; the tag counts are 1, 1, 1 and 2; "Family and Friends" carries "family" and "friends" |
| SeedScenario.ExpectedFields | src/hybrid/BlazorCanDoEverything/BlazorCanDoEverything.Shared/Services/SeedDataService.cs:24-55 | project `k` of a list shaped like the literal reads back under ID `k + 1` in category `k + 1`, with tasks `3k + 1` to `3k + 3` pointing at it, tags numbered from `k + 1`, and every other member as given |
| SeedScenario.LoadedStoresFrom | src/hybrid/BlazorCanDoEverything/BlazorCanDoEverything.Shared/Services/SeedDataService.cs:24-55 | loading a list shaped like the literal into fresh repositories keeps every repository invariant and gives categories and projects 1 to 4, project `i` in category `i`, with the task counter at 13 and the tag counter at 6 |
| SeedScenario.LoadedProjectFrom | src/hybrid/BlazorCanDoEverything/BlazorCanDoEverything.Shared/Services/SeedDataService.cs:24-55 | for such a list, `GetAsync(k + 1)` returns the `k`-th project fully wired and hydrated, and category `k + 1` is its category |
| SeedScenario.LoadedStores | src/hybrid/BlazorCanDoEverything/BlazorCanDoEverything.Shared/Services/SeedDataService.cs:24-119 | the start-up load of the literal: all invariants holding, project and category IDs 1 to 4, project `i` in category `i`, the task counter past 12 and the tag counter past 5 |
| SeedScenario.LoadedProject | src/hybrid/BlazorCanDoEverything/BlazorCanDoEverything.Shared/Services/SeedDataService.cs:24-119 | after the start-up load, project `k + 1` reads back as the `k`-th seed project with its IDs wired and its three tasks and its tags |
| SeedScenario.LoadedBalance | src/hybrid/BlazorCanDoEverything/BlazorCanDoEverything.Shared/Services/SeedDataService.cs:59-72 | after the start-up load, project 1 is "Balance" in category 1, which is `("work", "#3068df")` |
| SeedScenario.LoadedFamily | src/hybrid/BlazorCanDoEverything/BlazorCanDoEverything.Shared/Services/SeedDataService.cs:101-118 | after the start-up load, project 4 is "Family and Friends" and reads back with its tags "family" and "friends" under IDs 4 and 5 |
| SeedScenario.FirstProjectFrom | src/hybrid/BlazorCanDoEverything/BlazorCanDoEverything.Shared/Services/SeedDataService.cs:24-55 | for a list shaped like the literal, project 1 reads back with the first project's name in category 1, and category 1 is the first project's category under ID 1 |
| SeedScenario.LastProjectFrom | src/hybrid/BlazorCanDoEverything/BlazorCanDoEverything.Shared/Services/SeedDataService.cs:24-55 | for such a list, project 4 reads back with the last project's name and its two tags under IDs 4 and 5 |
| SeedScenario.TasksFrom | src/hybrid/BlazorCanDoEverything/BlazorCanDoEverything.Shared/Services/SeedDataService.cs:24-55 | for such a list, each project `id` from 1 to 4 reads back with exactly three tasks, IDs `3id - 2` to `3id`, each pointing at project `id` |
| SeedScenario.LoadedTasks | src/hybrid/BlazorCanDoEverything/BlazorCanDoEverything.Shared/Services/SeedDataService.cs:24-119 | after the start-up load, each project `id` from 1 to 4 reads back with three tasks, IDs `3id - 2` to `3id`, pointing at it; together the four projects hold task IDs 1 to 12 |

## Left out

- EntityStore.Save: `_nextId++` is a 32-bit C# `int` that wraps after 2^31 - 1 saves. The model's counter is unbounded, so the proofs of distinct IDs assume no wrap-around.
- `Task`/`async` wrappers and `.Result` blocking: every operation is a synchronous transition returning the new state with the C# result.
- Concurrency: the repositories are unsynchronised singletons; concurrent races on `_nextId` are not modelled.
- Reference aliasing. `item.ID = _nextId++` mutates the caller's object, and hydration mutates stored projects in place. The model uses value records and returns the numbered record or the new state instead. The C# stored project object shares its `Tasks` and `Tags` lists with the seeding loop, while the model stores the values from save time. `ProjectRepository.ListIgnoresStoredNavigation` shows that reads do not depend on them.
- Null `Tasks`/`Tags` lists in seeding: the model's lists are never null, and an empty list behaves as the C# null check does.
- SeedData.SeedStores: the whole-loop properties are proved for seed projects that have a category and carry ID 0 throughout (`SeedData.IsNewSeed`), which the literal does. `SeedData.SeedProject` itself also models the other branches.
- JSON attributes, `Category.ToString` and the `Tag.IsSelected` UI flag: serialisation and UI details. `IsSelected` is kept as a field but no operation reads it.
- DI wiring (`Program.cs`, `MauiProgram.cs`), UI pages and page models, `IFormFactor` and the chart-legend override: no repository behaviour.
- The repository interfaces: they only give signatures, which the modules follow.
- The unscoped `ListAsync()` of the category, task and tag repositories returns the stored list. It has no separate contract; the lemmas state what it returns (`CategoryRepository.SaveNewAppends`, `TaskRepository.SaveNewThenGet`, `TagRepository.DeleteInKeepsGlobal`).
- The scoped tag delete returns 1 whenever the project has an association entry, even when the tag was not in it. This follows the code at `InMemoryTagRepository.cs` lines 79-82 rather than the "1 if the association existed" reading. The association is likewise modelled as the code's list with a `Contains` guard, not as a set.
