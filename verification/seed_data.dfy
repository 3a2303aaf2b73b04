/** `SeedDataService`: fills the four repositories from a fixed list of
    projects.  For each project it saves the category, wires the project's
    `CategoryID`, saves the project, points each task at the project's new
    ID and saves it, and saves each tag with the project-scoped overload. */
module SeedData {
  import opened Wrappers
  import opened Seqs
  import opened Models
  import EntityStore
  import CategoryRepository
  import TaskRepository
  import TagRepository
  import ProjectRepository

  /** The four singleton repositories the service is given. */
  datatype Db = Db(
    categories: CategoryRepository.Repo,
    projects: ProjectRepository.Repo,
    tasks: TaskRepository.Repo,
    tags: TagRepository.Repo)

  function Fresh(): Db {
    Db(CategoryRepository.Empty(), ProjectRepository.Empty(), TaskRepository.Empty(), TagRepository.Empty())
  }

  ghost predicate Valid(db: Db) {
    && CategoryRepository.Valid(db.categories)
    && ProjectRepository.Valid(db.projects)
    && TaskRepository.Valid(db.tasks)
    && TagRepository.Valid(db.tags)
  }

  /** Consecutive integers `first, first + 1, ..., first + n - 1`. */
  function Range(first: int, n: nat): seq<int> {
    seq(n, i requires 0 <= i < n => first + i)
  }

  lemma RangeAppend(before: seq<int>, first: int, n: nat)
    ensures (before + [first]) + Range(first + 1, n) == before + Range(first, n + 1)
  {
    assert Range(first, n + 1) == [first] + Range(first + 1, n);
  }

  /** The tasks with their `ProjectID` set to `projectId`. */
  function InProject(ts: seq<ProjectTask>, projectId: int): seq<ProjectTask> {
    seq(|ts|, i requires 0 <= i < |ts| => ts[i].(projectId := projectId))
  }

  /** The project's category as it is after being saved (its ID assigned). */
  function SavedCategory(db: Db, p: Project): Option<Category> {
    match p.category
    case None => None
    case Some(c) => Some(c.(id := if c.id == 0 then db.categories.nextId else c.id))
  }

  /** The ID the project has once saved. */
  function SavedProjectId(db: Db, p: Project): int {
    if p.id == 0 then db.projects.nextId else p.id
  }

  /** The project record as the project repository stores it. */
  function StoredProject(db: Db, p: Project): Project {
    match SavedCategory(db, p)
    case None => p.(id := SavedProjectId(db, p))
    case Some(c) => p.(id := SavedProjectId(db, p), categoryId := c.id, category := Some(c))
  }

  /** The tag IDs a project is associated with, all below `bound`. */
  ghost predicate AllBelow(ids: seq<int>, bound: int) {
    forall i :: 0 <= i < |ids| ==> ids[i] < bound
  }

  /** Each tag saved in turn with the project-scoped overload; other
      projects' associations are untouched. */
  function SaveTagsIn(r: TagRepository.Repo, ts: seq<Tag>, projectId: int): (out: TagRepository.Repo)
    ensures out.projectTags - {projectId} == r.projectTags - {projectId}
    ensures |ts| > 0 ==> projectId in out.projectTags
    decreases |ts|
  {
    if |ts| == 0 then r
    else
      var r1 := TagRepository.SaveIn(r, ts[0], projectId).0;
      assert projectId in r1.projectTags;
      SaveTagsIn(r1, ts[1..], projectId)
  }

  lemma SaveTagsInUnfold(r: TagRepository.Repo, ts: seq<Tag>, projectId: int)
    requires |ts| > 0
    ensures SaveTagsIn(r, ts, projectId) == SaveTagsIn(TagRepository.SaveIn(r, ts[0], projectId).0, ts[1..], projectId)
  {
  }

  /** New tags saved under a project receive consecutive IDs from the tag
      repository's `nextId` and are appended to the global list. */
  lemma {:induction false} SaveTagsInStore(r: TagRepository.Repo, ts: seq<Tag>, projectId: int)
    requires EntityStore.AllNew(ts, TagRepository.Key)
    ensures SaveTagsIn(r, ts, projectId).store
      == EntityStore.Store(r.store.items + EntityStore.Numbered(ts, r.store.nextId, TagRepository.WithKey), r.store.nextId + |ts|)
    decreases |ts|
  {
    var n := r.store.nextId;
    if |ts| == 0 {
      assert r.store.items + EntityStore.Numbered(ts, n, TagRepository.WithKey) == r.store.items;
    } else {
      var r1 := TagRepository.SaveIn(r, ts[0], projectId).0;
      SaveTagsInStoreCons(r, ts, projectId);
      SaveTagsInStore(r1, ts[1..], projectId);
      NumberedStep(r.store.items, ts, n, TagRepository.WithKey, SaveTagsIn(r, ts, projectId).store);
    }
  }

  /** Saving the first of a run of new tags appends it under `nextId`; the
      rest are new as well. */
  lemma SaveTagsInStoreCons(r: TagRepository.Repo, ts: seq<Tag>, projectId: int)
    requires |ts| > 0
    requires EntityStore.AllNew(ts, TagRepository.Key)
    ensures EntityStore.AllNew(ts[1..], TagRepository.Key)
    ensures TagRepository.SaveIn(r, ts[0], projectId).0.store
      == EntityStore.Store(r.store.items + [TagRepository.WithKey(ts[0], r.store.nextId)], r.store.nextId + 1)
    ensures SaveTagsIn(r, ts, projectId).store == SaveTagsIn(TagRepository.SaveIn(r, ts[0], projectId).0, ts[1..], projectId).store
  {
    assert TagRepository.Key(ts[0]) == 0;
    TagRepository.SaveInNew(r, ts[0], projectId);
    SaveTagsInUnfold(r, ts, projectId);
  }

  /** A store holding `items`, the first record numbered `n`, then the rest
      numbered from `n + 1`, holds `items` followed by all of them numbered
      from `n`. */
  lemma NumberedStep<T>(items: seq<T>, ts: seq<T>, n: int, withKey: (T, int) -> T, s: EntityStore.Store<T>)
    requires |ts| > 0
    requires s == EntityStore.Store((items + [withKey(ts[0], n)]) + EntityStore.Numbered(ts[1..], n + 1, withKey), n + 1 + |ts[1..]|)
    ensures s == EntityStore.Store(items + EntityStore.Numbered(ts, n, withKey), n + |ts|)
  {
    EntityStore.NumberedCons(ts, n, withKey);
    AppendCons(items, withKey(ts[0], n), EntityStore.Numbered(ts[1..], n + 1, withKey));
  }

  /** When the project's association list holds only IDs below the tag
      repository's `nextId`, the new tags' IDs are appended to it in order. */
  lemma {:induction false} SaveTagsInAssociates(r: TagRepository.Repo, ts: seq<Tag>, projectId: int)
    requires EntityStore.AllNew(ts, TagRepository.Key)
    requires AllBelow(TagRepository.Associated(r, projectId), r.store.nextId)
    ensures TagRepository.Associated(SaveTagsIn(r, ts, projectId), projectId)
      == TagRepository.Associated(r, projectId) + Range(r.store.nextId, |ts|)
    decreases |ts|
  {
    var n := r.store.nextId;
    var before := TagRepository.Associated(r, projectId);
    if |ts| == 0 {
      assert before + Range(n, 0) == before;
    } else {
      var r1 := TagRepository.SaveIn(r, ts[0], projectId).0;
      SaveTagInAssociatesStep(r, ts[0], projectId);
      assert EntityStore.AllNew(ts[1..], TagRepository.Key);
      SaveTagsInAssociates(r1, ts[1..], projectId);
      SaveTagsInUnfold(r, ts, projectId);
      RangeAppend(before, n, |ts| - 1);
    }
  }

  lemma SaveTagInAssociatesStep(r: TagRepository.Repo, t: Tag, projectId: int)
    requires t.id == 0
    requires AllBelow(TagRepository.Associated(r, projectId), r.store.nextId)
    ensures var r1 := TagRepository.SaveIn(r, t, projectId).0;
      && r1.store.nextId == r.store.nextId + 1
      && TagRepository.Associated(r1, projectId) == TagRepository.Associated(r, projectId) + [r.store.nextId]
      && AllBelow(TagRepository.Associated(r1, projectId), r1.store.nextId)
  {
    assert r.store.nextId !in TagRepository.Associated(r, projectId);
    TagRepository.SaveInNew(r, t, projectId);
  }

  /** `SaveItemAsync(project.Category)` and `project.CategoryID = project.Category.ID`:
      without a category nothing happens; with one, the category store
      saves it and the project is wired to the ID the save returned, the
      category carrying that ID too, every other member as it was. */
  function SaveCategory(r: CategoryRepository.Repo, p: Project): (out: (CategoryRepository.Repo, Project))
    ensures p.category.None? ==> out == (r, p)
    ensures p.category.Some? ==>
      EntityStore.SaveOutcome(r, p.category.value, CategoryRepository.Key, CategoryRepository.WithKey, out.0, out.1.categoryId)
    ensures p.category.Some? ==>
      out.1 == p.(categoryId := out.1.categoryId, category := Some(p.category.value.(id := out.1.categoryId)))
  {
    match p.category
    case None => (r, p)
    case Some(c) =>
      var (r1, id) := CategoryRepository.Save(r, c);
      (r1, p.(categoryId := id, category := Some(c.(id := id))))
  }

  /** One iteration of `LoadSeedDataAsync`: category, then project, then
      tasks, then scoped tags. */
  function SeedProject(db: Db, p: Project): (out: Db)
    ensures p.category.None? ==> out.categories == db.categories
    ensures p.category.Some? && p.category.value.id == 0 ==>
      out.categories == EntityStore.Store(db.categories.items + [SavedCategory(db, p).value], db.categories.nextId + 1)
    ensures p.id == 0 ==>
      out.projects == EntityStore.Store(db.projects.items + [StoredProject(db, p)], db.projects.nextId + 1)
    ensures EntityStore.AllNew(p.tasks, TaskRepository.Key) ==>
      out.tasks == EntityStore.Store(
        db.tasks.items + EntityStore.Numbered(InProject(p.tasks, SavedProjectId(db, p)), db.tasks.nextId, TaskRepository.WithKey),
        db.tasks.nextId + |p.tasks|)
    ensures out.tags == SaveTagsIn(db.tags, p.tags, SavedProjectId(db, p))
    ensures SavedProjectId(db, p) == StoredProject(db, p).id
  {
    var (categories, p1) := SaveCategory(db.categories, p);
    var (projects, pid) := ProjectRepository.Save(db.projects, p1);
    assert p1.tasks == p.tasks && p1.tags == p.tags;
    assert pid == SavedProjectId(db, p);
    assert p.id == 0 ==> ProjectRepository.WithKey(p1, db.projects.nextId) == StoredProject(db, p);
    assert EntityStore.AllNew(p.tasks, TaskRepository.Key) ==> EntityStore.AllNew(InProject(p.tasks, pid), TaskRepository.Key);
    var (tasks, _) := EntityStore.SaveAll(db.tasks, InProject(p.tasks, pid), TaskRepository.Key, TaskRepository.WithKey);
    var tags := SaveTagsIn(db.tags, p.tags, pid);
    Db(categories, projects, tasks, tags)
  }

  /** The loop of `LoadSeedDataAsync()`: `step` applied to each seed
      project in order. */
  function SeedWith(db: Db, ps: seq<Project>, step: (Db, Project) -> Db): Db
    decreases |ps|
  {
    if |ps| == 0 then db else SeedWith(step(db, ps[0]), ps[1..], step)
  }

  /** Running the loop over `ps` and then `p` is running it over `ps` and
      taking one more step with `p`: the loop's state after each project
      is the step applied to the state before it. */
  lemma {:induction false} SeedWithSnoc(db: Db, ps: seq<Project>, p: Project, step: (Db, Project) -> Db)
    ensures SeedWith(db, ps + [p], step) == step(SeedWith(db, ps, step), p)
    decreases |ps|
  {
    if |ps| > 0 {
      assert (ps + [p])[1..] == ps[1..] + [p];
      SeedWithSnoc(step(db, ps[0]), ps[1..], p, step);
    } else {
      assert (ps + [p])[1..] == [];
    }
  }

  /** `LoadSeedDataAsync()` over a list of seed projects. */
  function Seed(db: Db, ps: seq<Project>): Db {
    SeedWith(db, ps, SeedProject)
  }

  /** A seed project that has never been saved: it and all its parts carry
      ID 0, and it has a category. */
  predicate IsNewSeed(p: Project) {
    && p.id == 0
    && p.category.Some?
    && p.category.value.id == 0
    && EntityStore.AllNew(p.tasks, TaskRepository.Key)
    && EntityStore.AllNew(p.tags, TagRepository.Key)
  }

  /** Foreign keys point below the project counter and association lists
      name only IDs below the tag counter: what a fresh start guarantees
      and seeding keeps. */
  ghost predicate Wired(db: Db) {
    && (forall i :: 0 <= i < |db.tasks.items| ==> db.tasks.items[i].projectId < db.projects.nextId)
    && (forall q :: q in db.tags.projectTags ==> q < db.projects.nextId)
    && (forall q :: q in db.tags.projectTags ==> AllBelow(db.tags.projectTags[q], db.tags.store.nextId))
  }

  /** Saving every tag of a list with the scoped overload keeps the tag
      repository's invariant. */
  lemma {:induction false} SaveTagsInPreservesValid(r: TagRepository.Repo, ts: seq<Tag>, projectId: int)
    requires TagRepository.Valid(r)
    ensures TagRepository.Valid(SaveTagsIn(r, ts, projectId))
    decreases |ts|
  {
    if |ts| > 0 {
      TagRepository.OperationsPreserveValid(r, ts[0], projectId);
      SaveTagsInUnfold(r, ts, projectId);
      SaveTagsInPreservesValid(TagRepository.SaveIn(r, ts[0], projectId).0, ts[1..], projectId);
    }
  }

  lemma InProjectNew(ts: seq<ProjectTask>, projectId: int, first: int)
    requires EntityStore.AllNew(ts, TaskRepository.Key)
    ensures EntityStore.AllNew(InProject(ts, projectId), TaskRepository.Key)
    ensures forall i :: 0 <= i < |ts| ==>
      TaskRepository.Key(TaskRepository.WithKey(InProject(ts, projectId)[i], first + i)) == first + i
    ensures |EntityStore.Numbered(InProject(ts, projectId), first, TaskRepository.WithKey)| == |ts|
    ensures forall i :: 0 <= i < |ts| ==>
      EntityStore.Numbered(InProject(ts, projectId), first, TaskRepository.WithKey)[i].projectId == projectId
  {
  }

  /** Seeding one new project keeps every repository's invariant. */
  lemma SeedProjectPreservesValid(db: Db, p: Project)
    requires Valid(db)
    requires IsNewSeed(p)
    ensures Valid(SeedProject(db, p))
  {
    var (categories, p1) := SaveCategory(db.categories, p);
    CategoryRepository.OperationsPreserveValid(db.categories, p.category.value);
    ProjectRepository.OperationsPreserveValid(db.projects, p1);
    var pid := SavedProjectId(db, p);
    InProjectNew(p.tasks, pid, db.tasks.nextId);
    EntityStore.SaveAllNewPreservesValid(db.tasks, InProject(p.tasks, pid), TaskRepository.Key, TaskRepository.WithKey);
    SaveTagsInPreservesValid(db.tags, p.tags, pid);
  }

  /** Seeding one new project moves the counters on by what it saved. */
  lemma SeedProjectCounters(db: Db, p: Project)
    requires IsNewSeed(p)
    ensures SeedProject(db, p).categories.nextId == db.categories.nextId + 1
    ensures SeedProject(db, p).projects.nextId == db.projects.nextId + 1
    ensures SeedProject(db, p).tasks.nextId == db.tasks.nextId + |p.tasks|
    ensures |SeedProject(db, p).tasks.items| == |db.tasks.items| + |p.tasks|
    ensures SeedProject(db, p).tags.store.nextId == db.tags.store.nextId + |p.tags|
    ensures |SeedProject(db, p).tags.store.items| == |db.tags.store.items| + |p.tags|
  {
    SaveTagsInStore(db.tags, p.tags, db.projects.nextId);
  }

  /** Appending a block of tasks that all belong to a project none of the
      existing tasks belongs to: that project lists exactly the block, and
      every other project's listing is unchanged. */
  lemma AppendProjectTasks(r: TaskRepository.Repo, block: seq<ProjectTask>, nextId: int, projectId: int)
    requires forall i :: 0 <= i < |r.items| ==> r.items[i].projectId < projectId
    requires forall i :: 0 <= i < |block| ==> block[i].projectId == projectId
    ensures var r' := EntityStore.Store(r.items + block, nextId);
      && TaskRepository.ListByProject(r', projectId) == block
      && (forall q :: q != projectId ==> TaskRepository.ListByProject(r', q) == TaskRepository.ListByProject(r, q))
  {
    var r' := EntityStore.Store(r.items + block, nextId);
    TaskRepository.ListByProjectAppend(r, block, nextId, projectId);
    FilterNone(TaskRepository.BelongsTo(projectId), r.items);
    FilterAll(TaskRepository.BelongsTo(projectId), block);
    forall q | q != projectId
      ensures TaskRepository.ListByProject(r', q) == TaskRepository.ListByProject(r, q)
    {
      TaskRepository.ListByProjectAppend(r, block, nextId, q);
      FilterNone(TaskRepository.BelongsTo(q), block);
    }
  }

  /** The new project's tasks are listed under its ID, numbered from the
      task counter; no other project's task listing changes. */
  lemma SeedProjectTasks(db: Db, p: Project)
    requires Wired(db)
    requires IsNewSeed(p)
    ensures var out := SeedProject(db, p);
      && TaskRepository.ListByProject(out.tasks, db.projects.nextId)
        == EntityStore.Numbered(InProject(p.tasks, db.projects.nextId), db.tasks.nextId, TaskRepository.WithKey)
      && (forall q :: q != db.projects.nextId ==>
            TaskRepository.ListByProject(out.tasks, q) == TaskRepository.ListByProject(db.tasks, q))
  {
    var pid := db.projects.nextId;
    var block := EntityStore.Numbered(InProject(p.tasks, pid), db.tasks.nextId, TaskRepository.WithKey);
    InProjectNew(p.tasks, pid, db.tasks.nextId);
    AppendProjectTasks(db.tasks, block, db.tasks.nextId + |p.tasks|, pid);
  }

  /** Appending tasks that point below `bound` to tasks that do keeps
      every task pointing below it. */
  lemma TaskKeysAppend(items: seq<ProjectTask>, block: seq<ProjectTask>, bound: int)
    requires forall i :: 0 <= i < |items| ==> items[i].projectId < bound
    requires forall i :: 0 <= i < |block| ==> block[i].projectId < bound
    ensures forall i :: 0 <= i < |items + block| ==> (items + block)[i].projectId < bound
  {
    forall i | 0 <= i < |items + block|
      ensures (items + block)[i].projectId < bound
    {
      if i >= |items| {
        assert (items + block)[i] == block[i - |items|];
      }
    }
  }

  /** After seeding one project every task points at a saved project. */
  lemma SeedProjectTaskKeys(db: Db, p: Project)
    requires Wired(db)
    requires IsNewSeed(p)
    ensures var out := SeedProject(db, p);
      forall i :: 0 <= i < |out.tasks.items| ==> out.tasks.items[i].projectId < out.projects.nextId
  {
    var pid := db.projects.nextId;
    var block := EntityStore.Numbered(InProject(p.tasks, pid), db.tasks.nextId, TaskRepository.WithKey);
    InProjectNew(p.tasks, pid, db.tasks.nextId);
    TaskKeysAppend(db.tasks.items, block, pid + 1);
  }

  /** Tags whose IDs are all below `first` carry none of the IDs from
      `first` on. */
  lemma TagsBelowNotIn(items: seq<Tag>, first: int, n: nat)
    requires forall i :: 0 <= i < |items| ==> items[i].id < first
    ensures Filter(TagRepository.IdIn(Range(first, n)), items) == []
  {
    var ids := Range(first, n);
    forall i | 0 <= i < |items|
      ensures !TagRepository.IdIn(ids)(items[i])
    {
      assert forall j :: 0 <= j < |ids| ==> ids[j] >= first;
    }
    FilterNone(TagRepository.IdIn(ids), items);
  }

  /** A block of tags numbered from `first` carries exactly the IDs from
      `first` on. */
  lemma NumberedTagsIn(block: seq<Tag>, first: int)
    requires forall i :: 0 <= i < |block| ==> block[i].id == first + i
    ensures Filter(TagRepository.IdIn(Range(first, |block|)), block) == block
  {
    var ids := Range(first, |block|);
    forall i | 0 <= i < |block|
      ensures TagRepository.IdIn(ids)(block[i])
    {
      assert ids[i] == block[i].id;
    }
    FilterAll(TagRepository.IdIn(ids), block);
  }

  /** A project whose association list is exactly the IDs of a block of
      tags appended after every existing tag lists exactly that block. */
  lemma NewProjectTags(r: TagRepository.Repo, r': TagRepository.Repo, block: seq<Tag>, projectId: int)
    requires forall i :: 0 <= i < |r.store.items| ==> r.store.items[i].id < r.store.nextId
    requires r'.store.items == r.store.items + block
    requires forall i :: 0 <= i < |block| ==> block[i].id == r.store.nextId + i
    requires projectId in r'.projectTags
    requires r'.projectTags[projectId] == Range(r.store.nextId, |block|)
    ensures TagRepository.ListByProject(r', projectId) == block
  {
    var ids := Range(r.store.nextId, |block|);
    FilterAppend(TagRepository.IdIn(ids), r.store.items, block);
    TagsBelowNotIn(r.store.items, r.store.nextId, |block|);
    NumberedTagsIn(block, r.store.nextId);
    assert [] + block == block;
  }

  /** Appending tags whose IDs no existing association names leaves a
      project's listing unchanged when its association list is untouched. */
  lemma OtherProjectTags(r: TagRepository.Repo, r': TagRepository.Repo, block: seq<Tag>, projectId: int)
    requires forall i :: 0 <= i < |block| ==> block[i].id >= r.store.nextId
    requires r'.store.items == r.store.items + block
    requires projectId in r.projectTags <==> projectId in r'.projectTags
    requires projectId in r.projectTags ==> r'.projectTags[projectId] == r.projectTags[projectId]
    requires AllBelow(TagRepository.Associated(r, projectId), r.store.nextId)
    ensures TagRepository.ListByProject(r', projectId) == TagRepository.ListByProject(r, projectId)
  {
    var ids := TagRepository.Associated(r, projectId);
    TagRepository.ListByProjectAppend(r, r', block, projectId);
    forall i | 0 <= i < |block|
      ensures !TagRepository.IdIn(ids)(block[i])
    {
      assert forall j :: 0 <= j < |ids| ==> ids[j] < r.store.nextId;
    }
    FilterNone(TagRepository.IdIn(ids), block);
  }

  /** The new project lists exactly its own tags, numbered from the tag
      counter; no other project's tag listing changes. */
  lemma SeedProjectTags(db: Db, p: Project)
    requires Valid(db)
    requires Wired(db)
    requires IsNewSeed(p)
    ensures var out := SeedProject(db, p);
      && TagRepository.ListByProject(out.tags, db.projects.nextId)
        == EntityStore.Numbered(p.tags, db.tags.store.nextId, TagRepository.WithKey)
      && (forall q :: q != db.projects.nextId ==>
            TagRepository.ListByProject(out.tags, q) == TagRepository.ListByProject(db.tags, q))
  {
    var pid := db.projects.nextId;
    var n := db.tags.store.nextId;
    var out := SeedProject(db, p);
    var block := EntityStore.Numbered(p.tags, n, TagRepository.WithKey);
    SaveTagsInStore(db.tags, p.tags, pid);
    assert pid !in db.tags.projectTags;
    SaveTagsInAssociates(db.tags, p.tags, pid);
    if |p.tags| > 0 {
      NewProjectTags(db.tags, out.tags, block, pid);
    } else {
      assert out.tags == db.tags;
    }
    forall q | q != pid
      ensures TagRepository.ListByProject(out.tags, q) == TagRepository.ListByProject(db.tags, q)
    {
      assert q in db.tags.projectTags <==> q in out.tags.projectTags by {
        assert q in db.tags.projectTags - {pid} <==> q in out.tags.projectTags - {pid};
      }
      if q in db.tags.projectTags {
        assert (db.tags.projectTags - {pid})[q] == (out.tags.projectTags - {pid})[q];
      }
      OtherProjectTags(db.tags, out.tags, block, q);
    }
  }

  /** Seeding one new project keeps the foreign keys and association lists
      in range. */
  lemma SeedProjectWired(db: Db, p: Project)
    requires Wired(db)
    requires IsNewSeed(p)
    ensures Wired(SeedProject(db, p))
  {
    var pid := db.projects.nextId;
    var out := SeedProject(db, p);
    SeedProjectTaskKeys(db, p);
    SeedProjectCounters(db, p);
    assert pid !in db.tags.projectTags;
    SaveTagsInAssociates(db.tags, p.tags, pid);
    forall q | q in out.tags.projectTags
      ensures q < out.projects.nextId
      ensures AllBelow(out.tags.projectTags[q], out.tags.store.nextId)
    {
      if q != pid {
        assert q in out.tags.projectTags - {pid};
        assert out.tags.projectTags[q] == (db.tags.projectTags - {pid})[q];
      }
    }
  }

  /** The number of tasks, and of tags, the seed projects carry. */
  function TaskCount(ps: seq<Project>): nat {
    if |ps| == 0 then 0 else |ps[0].tasks| + TaskCount(ps[1..])
  }

  function TagCount(ps: seq<Project>): nat {
    if |ps| == 0 then 0 else |ps[0].tags| + TagCount(ps[1..])
  }

  /** The number of tasks, and of tags, of the first `k` seed projects. */
  function TasksBefore(ps: seq<Project>, k: nat): nat
    requires k <= |ps|
  {
    TaskCount(ps[..k])
  }

  function TagsBefore(ps: seq<Project>, k: nat): nat
    requires k <= |ps|
  {
    TagCount(ps[..k])
  }

  lemma BeforeCons(ps: seq<Project>, k: nat)
    requires 0 < k <= |ps|
    ensures TasksBefore(ps, k) == |ps[0].tasks| + TasksBefore(ps[1..], k - 1)
    ensures TagsBefore(ps, k) == |ps[0].tags| + TagsBefore(ps[1..], k - 1)
  {
    assert ps[..k][1..] == ps[1..][..k - 1];
  }

  /** Where the `k`-th seed project's records land when seeding starts
      from `db`: its project and category IDs, and the IDs of the first of
      its tasks and of its tags. */
  function ProjectIdAt(db: Db, k: nat): int {
    db.projects.nextId + k
  }

  function CategoryIdAt(db: Db, k: nat): int {
    db.categories.nextId + k
  }

  function FirstTaskIdAt(db: Db, ps: seq<Project>, k: nat): int
    requires k <= |ps|
  {
    db.tasks.nextId + TasksBefore(ps, k)
  }

  function FirstTagIdAt(db: Db, ps: seq<Project>, k: nat): int
    requires k <= |ps|
  {
    db.tags.store.nextId + TagsBefore(ps, k)
  }

  lemma {:induction false} CountAppend(a: seq<Project>, b: seq<Project>)
    ensures TaskCount(a + b) == TaskCount(a) + TaskCount(b)
    ensures TagCount(a + b) == TagCount(a) + TagCount(b)
  {
    if |a| > 0 {
      CountAppend(a[1..], b);
      assert (a + b)[1..] == a[1..] + b;
    } else {
      assert a + b == b;
    }
  }

  /** Counting one more project adds its tasks and tags. */
  lemma BeforeSnoc(ps: seq<Project>, k: nat)
    requires k < |ps|
    ensures TasksBefore(ps, k + 1) == TasksBefore(ps, k) + |ps[k].tasks|
    ensures TagsBefore(ps, k + 1) == TagsBefore(ps, k) + |ps[k].tags|
  {
    assert ps[..k + 1] == ps[..k] + [ps[k]];
    CountAppend(ps[..k], [ps[k]]);
  }

  ghost predicate AllNewSeeds(ps: seq<Project>) {
    forall i :: 0 <= i < |ps| ==> IsNewSeed(ps[i])
  }

  /** A new seed project as stored under project ID `id`, its category
      saved under `categoryId`. */
  function Seeded(p: Project, id: int, categoryId: int): Project
    requires p.category.Some?
  {
    p.(id := id, categoryId := categoryId, category := Some(p.category.value.(id := categoryId)))
  }

  /** What seeding one new project does to the counters: one category, one
      project, and as many tasks and tags as the project carries. */
  ghost predicate StepCounts(db: Db, p: Project, out: Db) {
    && out.categories.nextId == db.categories.nextId + 1
    && out.projects.nextId == db.projects.nextId + 1
    && out.tasks.nextId == db.tasks.nextId + |p.tasks|
    && out.tags.store.nextId == db.tags.store.nextId + |p.tags|
  }

  /** What seeding one new project does to the category and project
      repositories: each record is appended with the next ID. */
  ghost predicate StepAppends(db: Db, p: Project, out: Db) {
    && p.category.Some?
    && out.categories.items == db.categories.items + [p.category.value.(id := db.categories.nextId)]
    && out.projects.items == db.projects.items + [Seeded(p, db.projects.nextId, db.categories.nextId)]
  }

  /** What seeding one new project does to the listings: the project lists
      exactly its own tasks and tags, numbered on from the counters, and no
      other project's listings change. */
  ghost predicate StepLists(db: Db, p: Project, out: Db) {
    var pid := db.projects.nextId;
    && TaskRepository.ListByProject(out.tasks, pid)
      == EntityStore.Numbered(InProject(p.tasks, pid), db.tasks.nextId, TaskRepository.WithKey)
    && TagRepository.ListByProject(out.tags, pid)
      == EntityStore.Numbered(p.tags, db.tags.store.nextId, TagRepository.WithKey)
    && (forall q :: q != pid ==> TaskRepository.ListByProject(out.tasks, q) == TaskRepository.ListByProject(db.tasks, q))
    && (forall q :: q != pid ==> TagRepository.ListByProject(out.tags, q) == TagRepository.ListByProject(db.tags, q))
  }

  /** The invariant seeding relies on and keeps. */
  ghost predicate Consistent(db: Db) {
    Valid(db) && Wired(db)
  }

  /** `step` applied to one seed project.  The step contracts below are
      quantified over this term rather than over `step(db, p)`, so they are
      instantiated only where a proof names a step, and not wherever a
      definition of `SeedWith` is unfolded. */
  ghost function StepOf(step: (Db, Project) -> Db, db: Db, p: Project): Db {
    step(db, p)
  }

  /** `step` keeps `inv` and moves the counters as one seeding step does. */
  ghost predicate StepKeeps(step: (Db, Project) -> Db, inv: Db -> bool) {
    forall db, p {:trigger StepOf(step, db, p)} :: inv(db) && IsNewSeed(p) ==>
      inv(StepOf(step, db, p)) && StepCounts(db, p, StepOf(step, db, p))
  }

  /** `step` appends the category and project as one seeding step does. */
  ghost predicate StepwiseAppends(step: (Db, Project) -> Db, inv: Db -> bool) {
    forall db, p {:trigger StepOf(step, db, p)} :: inv(db) && IsNewSeed(p) ==> StepAppends(db, p, StepOf(step, db, p))
  }

  /** `step` changes the listings as one seeding step does. */
  ghost predicate StepwiseLists(step: (Db, Project) -> Db, inv: Db -> bool) {
    forall db, p {:trigger StepOf(step, db, p)} :: inv(db) && IsNewSeed(p) ==> StepLists(db, p, StepOf(step, db, p))
  }

  /** One iteration of `LoadSeedDataAsync` is a seeding step. */
  lemma SeedProjectSeeded(db: Db, p: Project)
    requires Consistent(db)
    requires IsNewSeed(p)
    ensures Consistent(SeedProject(db, p))
    ensures StepCounts(db, p, SeedProject(db, p))
    ensures StepAppends(db, p, SeedProject(db, p))
    ensures StepLists(db, p, SeedProject(db, p))
  {
    SeedProjectPreservesValid(db, p);
    SeedProjectWired(db, p);
    SeedProjectCounters(db, p);
    SeedProjectTasks(db, p);
    SeedProjectTags(db, p);
    assert StoredProject(db, p) == Seeded(p, db.projects.nextId, db.categories.nextId);
  }

  lemma SeedProjectStepwise()
    ensures StepKeeps(SeedProject, Consistent)
    ensures StepwiseAppends(SeedProject, Consistent)
    ensures StepwiseLists(SeedProject, Consistent)
  {
    forall db, p | Consistent(db) && IsNewSeed(p)
      ensures Consistent(StepOf(SeedProject, db, p))
      ensures StepCounts(db, p, StepOf(SeedProject, db, p))
      ensures StepAppends(db, p, StepOf(SeedProject, db, p))
      ensures StepLists(db, p, StepOf(SeedProject, db, p))
    {
      SeedProjectSeeded(db, p);
    }
  }

  /** The projects, and the categories, of a seed list as stored from the
      given counters on. */
  function SeededProjects(ps: seq<Project>, id: int, categoryId: int): (r: seq<Project>)
    requires AllNewSeeds(ps)
    ensures |r| == |ps|
  {
    seq(|ps|, i requires 0 <= i < |ps| => Seeded(ps[i], id + i, categoryId + i))
  }

  function SeededCategories(ps: seq<Project>, id: int): (r: seq<Category>)
    requires AllNewSeeds(ps)
    ensures |r| == |ps|
  {
    seq(|ps|, i requires 0 <= i < |ps| => ps[i].category.value.(id := id + i))
  }

  /** The `k`-th seeded record sits at the `k`-th position after `db`'s. */
  lemma SeededAt(db: Db, ps: seq<Project>, k: nat)
    requires AllNewSeeds(ps)
    requires k < |ps|
    ensures (db.projects.items + SeededProjects(ps, db.projects.nextId, db.categories.nextId))[|db.projects.items| + k]
      == Seeded(ps[k], ProjectIdAt(db, k), CategoryIdAt(db, k))
    ensures (db.categories.items + SeededCategories(ps, db.categories.nextId))[|db.categories.items| + k]
      == ps[k].category.value.(id := CategoryIdAt(db, k))
  {
  }

  lemma SeededCons(ps: seq<Project>, id: int, categoryId: int)
    requires AllNewSeeds(ps)
    requires |ps| > 0
    ensures AllNewSeeds(ps[1..])
    ensures SeededProjects(ps, id, categoryId)
      == [Seeded(ps[0], id, categoryId)] + SeededProjects(ps[1..], id + 1, categoryId + 1)
    ensures SeededCategories(ps, categoryId)
      == [ps[0].category.value.(id := categoryId)] + SeededCategories(ps[1..], categoryId + 1)
  {
    assert AllNewSeeds(ps[1..]);
  }

  /** Seeding keeps any invariant its steps keep and moves the counters on
      by the number of seeded categories, projects, tasks and tags. */
  lemma {:induction false} SeedWithCounts(db: Db, ps: seq<Project>, step: (Db, Project) -> Db, inv: Db -> bool)
    requires inv(db)
    requires AllNewSeeds(ps)
    requires StepKeeps(step, inv)
    ensures var out := SeedWith(db, ps, step);
      && inv(out)
      && out.categories.nextId == db.categories.nextId + |ps|
      && out.projects.nextId == db.projects.nextId + |ps|
      && out.tasks.nextId == db.tasks.nextId + TasksBefore(ps, |ps|)
      && out.tags.store.nextId == db.tags.store.nextId + TagsBefore(ps, |ps|)
    decreases |ps|
  {
    if |ps| > 0 {
      var db1 := StepOf(step, db, ps[0]);
      assert inv(db1) && StepCounts(db, ps[0], db1);
      assert AllNewSeeds(ps[1..]);
      SeedWithCounts(db1, ps[1..], step, inv);
      BeforeCons(ps, |ps|);
      assert ps[1..][..|ps| - 1] == ps[1..];
    }
  }

  /** Seeding appends the categories and the projects in order, with
      consecutive IDs from the counters. */
  lemma {:induction false} SeedWithAppends(db: Db, ps: seq<Project>, step: (Db, Project) -> Db, inv: Db -> bool)
    requires inv(db)
    requires AllNewSeeds(ps)
    requires StepKeeps(step, inv)
    requires StepwiseAppends(step, inv)
    ensures var out := SeedWith(db, ps, step);
      && out.categories.items == db.categories.items + SeededCategories(ps, db.categories.nextId)
      && out.projects.items == db.projects.items + SeededProjects(ps, db.projects.nextId, db.categories.nextId)
    decreases |ps|
  {
    var c := db.categories.nextId;
    var n := db.projects.nextId;
    if |ps| == 0 {
      assert db.categories.items + SeededCategories(ps, c) == db.categories.items;
      assert db.projects.items + SeededProjects(ps, n, c) == db.projects.items;
    } else {
      var db1 := StepOf(step, db, ps[0]);
      assert inv(db1) && StepCounts(db, ps[0], db1) && StepAppends(db, ps[0], db1);
      SeededCons(ps, n, c);
      SeedWithAppends(db1, ps[1..], step, inv);
      AppendCons(db.categories.items, ps[0].category.value.(id := c), SeededCategories(ps[1..], c + 1));
      AppendCons(db.projects.items, Seeded(ps[0], n, c), SeededProjects(ps[1..], n + 1, c + 1));
    }
  }

  /** Seeding never changes the task listing of a project that was already
      saved before it started. */
  lemma {:induction false} SeedWithKeepsEarlierTasks(db: Db, ps: seq<Project>, step: (Db, Project) -> Db, inv: Db -> bool, projectId: int)
    requires inv(db)
    requires AllNewSeeds(ps)
    requires StepKeeps(step, inv)
    requires StepwiseLists(step, inv)
    requires projectId < db.projects.nextId
    ensures TaskRepository.ListByProject(SeedWith(db, ps, step).tasks, projectId) == TaskRepository.ListByProject(db.tasks, projectId)
    decreases |ps|
  {
    if |ps| > 0 {
      var db1 := StepOf(step, db, ps[0]);
      assert inv(db1) && StepCounts(db, ps[0], db1) && StepLists(db, ps[0], db1);
      assert AllNewSeeds(ps[1..]);
      SeedWithKeepsEarlierTasks(db1, ps[1..], step, inv, projectId);
    }
  }

  /** Seeding never changes the tag listing of a project that was already
      saved before it started. */
  lemma {:induction false} SeedWithKeepsEarlierTags(db: Db, ps: seq<Project>, step: (Db, Project) -> Db, inv: Db -> bool, projectId: int)
    requires inv(db)
    requires AllNewSeeds(ps)
    requires StepKeeps(step, inv)
    requires StepwiseLists(step, inv)
    requires projectId < db.projects.nextId
    ensures TagRepository.ListByProject(SeedWith(db, ps, step).tags, projectId) == TagRepository.ListByProject(db.tags, projectId)
    decreases |ps|
  {
    if |ps| > 0 {
      var db1 := StepOf(step, db, ps[0]);
      assert inv(db1) && StepCounts(db, ps[0], db1) && StepLists(db, ps[0], db1);
      assert AllNewSeeds(ps[1..]);
      SeedWithKeepsEarlierTags(db1, ps[1..], step, inv, projectId);
    }
  }

  /** The `k`-th seed project, once seeding is over, lists its own tasks,
      numbered on from those of the projects before it.  The project, its ID
      and its first task ID are passed in so that the induction can keep them
      fixed. */
  lemma {:induction false} SeedWithTaskListing(db: Db, ps: seq<Project>, step: (Db, Project) -> Db, inv: Db -> bool,
                                               k: nat, p: Project, projectId: int, first: int)
    requires inv(db)
    requires AllNewSeeds(ps)
    requires StepKeeps(step, inv)
    requires StepwiseLists(step, inv)
    requires k < |ps| && p == ps[k]
    requires projectId == db.projects.nextId + k
    requires first == db.tasks.nextId + TasksBefore(ps, k)
    ensures TaskRepository.ListByProject(SeedWith(db, ps, step).tasks, projectId)
      == EntityStore.Numbered(InProject(p.tasks, projectId), first, TaskRepository.WithKey)
    decreases |ps|
  {
    var db1 := StepOf(step, db, ps[0]);
    assert inv(db1) && StepCounts(db, ps[0], db1) && StepLists(db, ps[0], db1);
    assert AllNewSeeds(ps[1..]);
    if k == 0 {
      SeedWithKeepsEarlierTasks(db1, ps[1..], step, inv, projectId);
    } else {
      BeforeCons(ps, k);
      SeedWithTaskListing(db1, ps[1..], step, inv, k - 1, p, projectId, first);
    }
  }

  /** The `k`-th seed project, once seeding is over, lists its own tags,
      numbered on from those of the projects before it. */
  lemma {:induction false} SeedWithTagListing(db: Db, ps: seq<Project>, step: (Db, Project) -> Db, inv: Db -> bool,
                                              k: nat, p: Project, projectId: int, first: int)
    requires inv(db)
    requires AllNewSeeds(ps)
    requires StepKeeps(step, inv)
    requires StepwiseLists(step, inv)
    requires k < |ps| && p == ps[k]
    requires projectId == db.projects.nextId + k
    requires first == db.tags.store.nextId + TagsBefore(ps, k)
    ensures TagRepository.ListByProject(SeedWith(db, ps, step).tags, projectId)
      == EntityStore.Numbered(p.tags, first, TagRepository.WithKey)
    decreases |ps|
  {
    var db1 := StepOf(step, db, ps[0]);
    assert inv(db1) && StepCounts(db, ps[0], db1) && StepLists(db, ps[0], db1);
    assert AllNewSeeds(ps[1..]);
    if k == 0 {
      SeedWithKeepsEarlierTags(db1, ps[1..], step, inv, projectId);
    } else {
      BeforeCons(ps, k);
      SeedWithTagListing(db1, ps[1..], step, inv, k - 1, p, projectId, first);
    }
  }

  /** Seeding new projects into consistent repositories keeps them
      consistent, appends the categories and projects in order with
      consecutive IDs from the counters, and moves the task and tag counters
      on by the number of seeded tasks and tags. */
  lemma SeedStores(db: Db, ps: seq<Project>)
    requires Consistent(db)
    requires AllNewSeeds(ps)
    ensures var out := Seed(db, ps);
      && Consistent(out)
      && out.categories == EntityStore.Store(
           db.categories.items + SeededCategories(ps, db.categories.nextId), db.categories.nextId + |ps|)
      && out.projects == EntityStore.Store(
           db.projects.items + SeededProjects(ps, db.projects.nextId, db.categories.nextId), db.projects.nextId + |ps|)
      && out.tasks.nextId == db.tasks.nextId + TasksBefore(ps, |ps|)
      && out.tags.store.nextId == db.tags.store.nextId + TagsBefore(ps, |ps|)
  {
    SeedProjectStepwise();
    SeedWithCounts(db, ps, SeedProject, Consistent);
    SeedWithAppends(db, ps, SeedProject, Consistent);
  }

  /** After seeding, the `k`-th seed project lists exactly its own tasks and
      tags, each numbered on from those of the projects before it. */
  lemma SeedListings(db: Db, ps: seq<Project>, k: nat)
    requires Consistent(db)
    requires AllNewSeeds(ps)
    requires k < |ps|
    ensures TaskRepository.ListByProject(Seed(db, ps).tasks, ProjectIdAt(db, k))
      == EntityStore.Numbered(InProject(ps[k].tasks, ProjectIdAt(db, k)), FirstTaskIdAt(db, ps, k), TaskRepository.WithKey)
    ensures TagRepository.ListByProject(Seed(db, ps).tags, ProjectIdAt(db, k))
      == EntityStore.Numbered(ps[k].tags, FirstTagIdAt(db, ps, k), TagRepository.WithKey)
  {
    SeedProjectStepwise();
    SeedWithTaskListing(db, ps, SeedProject, Consistent, k, ps[k], ProjectIdAt(db, k), FirstTaskIdAt(db, ps, k));
    SeedWithTagListing(db, ps, SeedProject, Consistent, k, ps[k], ProjectIdAt(db, k), FirstTagIdAt(db, ps, k));
  }

  /** After seeding, reading the `k`-th seed project back by its ID returns
      it with its category wired and its own tasks and tags, and its
      category ID finds its category. */
  lemma SeedReadBack(db: Db, ps: seq<Project>, k: nat)
    requires Consistent(db)
    requires AllNewSeeds(ps)
    requires k < |ps|
    ensures ProjectRepository.Get(Seed(db, ps).projects, Seed(db, ps).tasks, Seed(db, ps).tags, ProjectIdAt(db, k)).1
      == Some(Seeded(ps[k], ProjectIdAt(db, k), CategoryIdAt(db, k)).(
           tasks := EntityStore.Numbered(InProject(ps[k].tasks, ProjectIdAt(db, k)), FirstTaskIdAt(db, ps, k), TaskRepository.WithKey),
           tags := EntityStore.Numbered(ps[k].tags, FirstTagIdAt(db, ps, k), TagRepository.WithKey)))
    ensures CategoryRepository.Get(Seed(db, ps).categories, CategoryIdAt(db, k)) == Some(ps[k].category.value.(id := CategoryIdAt(db, k)))
  {
    var out := Seed(db, ps);
    SeedStores(db, ps);
    SeedListings(db, ps, k);
    SeededAt(db, ps, k);
    var i := |db.projects.items| + k;
    assert out.projects.items[i] == Seeded(ps[k], ProjectIdAt(db, k), CategoryIdAt(db, k));
    EntityStore.GetStored(out.projects, i, ProjectRepository.Key);
    var j := |db.categories.items| + k;
    assert out.categories.items[j] == ps[k].category.value.(id := CategoryIdAt(db, k));
    EntityStore.GetStored(out.categories, j, CategoryRepository.Key);
  }

  function SeedTask(title: string): ProjectTask {
    ProjectTask(0, 0, title, false)
  }

  function SeedTag(title: string, color: string): Tag {
    Tag(0, title, color, false)
  }

  function SeedProjectOf(name: string, description: string, icon: string, category: Category, tags: seq<Tag>, tasks: seq<ProjectTask>): Project {
    Project(0, 0, Some(category), tasks, tags, name, description, icon)
  }

  /** `GetSeedData()`: four projects, none of them saved yet, so every
      project, category, task and tag in it carries ID 0. */
  function SeedProjects(): (ps: seq<Project>)
    ensures |ps| == 4
    ensures AllNewSeeds(ps)
  {
    [
      SeedProjectOf("Balance", "Improve work-life balance.", "\U{ea28}",
        Category(0, "work", "#3068df"),
        [SeedTag("work", "#3068df")],
        [SeedTask("Survey Employees"), SeedTask("Analyze Survey Results"), SeedTask("Develop Action Plan")]),
      SeedProjectOf("Personal", "Learn to speak another language.", "\U{f8fe}",
        Category(0, "education", "#8800FF"),
        [SeedTag("personal", "#FF4500")],
        [SeedTask("Read a Book"), SeedTask("Attend a Workshop"), SeedTask("Practice a Hobby")]),
      SeedProjectOf("Fitness", "Promote health and fitness activities", "\U{f837}",
        Category(0, "self", "#FF3300"),
        [SeedTag("health", "#32CD32")],
        [SeedTask("Morning Yoga"), SeedTask("Evening Run"), SeedTask("Healthy Cooking Class")]),
      SeedProjectOf("Family and Friends", "Strengthen relationships with family and friends.", "\U{f5a9}",
        Category(0, "relationships", "#FF9900"),
        [SeedTag("family", "#1E90FF"), SeedTag("friends", "#FF69B4")],
        [SeedTask("Plan a Family Reunion"), SeedTask("Organize a Friends' Get-together"), SeedTask("Weekly Phone Calls")])
    ]
  }
}
