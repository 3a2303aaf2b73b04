/** `InMemoryTaskRepository`: an entity store of tasks, plus the listing of
    one project's tasks by their `ProjectID` foreign key. */
module TaskRepository {
  import opened Wrappers
  import opened Seqs
  import opened Models
  import EntityStore

  type Repo = EntityStore.Store<ProjectTask>

  function Key(t: ProjectTask): int {
    t.id
  }

  function WithKey(t: ProjectTask, n: int): ProjectTask {
    t.(id := n)
  }

  function Empty(): Repo {
    EntityStore.Empty()
  }

  ghost predicate Valid(r: Repo) {
    EntityStore.Valid(r, Key)
  }

  /** `ListAsync()`: a copy of all tasks in insertion order. */
  function List(r: Repo): seq<ProjectTask> {
    r.items
  }

  /** `ListAsync(projectId)`: exactly the stored tasks whose `ProjectID` is
      `projectId`, in store order. */
  function ListByProject(r: Repo, projectId: int): (ts: seq<ProjectTask>)
    ensures forall i :: 0 <= i < |ts| ==> ts[i] in r.items && ts[i].projectId == projectId
    ensures forall i :: 0 <= i < |r.items| && r.items[i].projectId == projectId ==> r.items[i] in ts
    ensures Subseq(ts, r.items)
    ensures forall i :: 0 <= i < |r.items| ==>
      Count(ts, r.items[i]) == if r.items[i].projectId == projectId then Count(r.items, r.items[i]) else 0
  {
    Filter(BelongsTo(projectId), r.items)
  }

  /** The `Where` predicate of `ListAsync(projectId)`. */
  function BelongsTo(projectId: int): ProjectTask -> bool {
    (t: ProjectTask) => t.projectId == projectId
  }

  /** `GetAsync(id)`: the first task with that ID, or null. */
  function Get(r: Repo, id: int): (t: Option<ProjectTask>)
    ensures EntityStore.GetOutcome(r.items, id, Key, t)
  {
    EntityStore.Get(r, id, Key)
  }

  /** `SaveItemAsync(item)`: returns the task's ID after the save. */
  function Save(r: Repo, item: ProjectTask): (out: (Repo, int))
    ensures EntityStore.SaveOutcome(r, item, Key, WithKey, out.0, out.1)
  {
    EntityStore.Save(r, item, Key, WithKey)
  }

  /** `DeleteItemAsync(item)`: returns the number of tasks removed. */
  function Delete(r: Repo, item: ProjectTask): (out: (Repo, nat))
    ensures EntityStore.DeleteOutcome(r, item.id, Key, out.0, out.1)
    ensures !EntityStore.HasKey(r.items, item.id, Key) ==> out == (r, 0)
  {
    EntityStore.Delete(r, item.id, Key)
  }

  /** Save and delete keep IDs positive, distinct and below `nextId`. */
  lemma OperationsPreserveValid(r: Repo, item: ProjectTask)
    requires Valid(r)
    ensures Valid(Save(r, item).0)
    ensures Valid(Delete(r, item).0)
  {
    EntityStore.SavePreservesValid(r, item, Key, WithKey);
    EntityStore.DeletePreservesValid(r, item.id, Key);
  }

  /** A new task gets the current `nextId`, which then moves on by one, and
      `GetAsync` of the returned ID finds the saved task. */
  lemma SaveNewThenGet(r: Repo, item: ProjectTask)
    requires Valid(r)
    requires item.id == 0
    ensures Save(r, item).1 == r.nextId
    ensures Save(r, item).0.nextId == r.nextId + 1
    ensures List(Save(r, item).0) == List(r) + [item.(id := r.nextId)]
    ensures Get(Save(r, item).0, Save(r, item).1) == Some(item.(id := r.nextId))
  {
    EntityStore.SaveNewThenGet(r, item, Key, WithKey);
  }

  /** Two new saves in a row return consecutive IDs. */
  lemma SuccessiveNewSaves(r: Repo, a: ProjectTask, b: ProjectTask)
    requires a.id == 0 && b.id == 0
    ensures Save(r, a).1 == r.nextId
    ensures Save(Save(r, a).0, b).1 == r.nextId + 1
  {
  }

  /** Deleting a present task removes exactly one; an unknown ID removes
      nothing and leaves the store as it was. */
  lemma DeleteCount(r: Repo, item: ProjectTask)
    requires Valid(r)
    ensures EntityStore.HasKey(r.items, item.id, Key) ==> Delete(r, item).1 == 1 && |List(Delete(r, item).0)| == |List(r)| - 1
    ensures !EntityStore.HasKey(r.items, item.id, Key) ==> Delete(r, item) == (r, 0)
  {
    if EntityStore.HasKey(r.items, item.id, Key) {
      EntityStore.DeleteExisting(r, item.id, Key);
    }
  }

  /** Appending tasks to the store appends their own filtered listing. */
  lemma ListByProjectAppend(r: Repo, extra: seq<ProjectTask>, nextId: int, projectId: int)
    ensures ListByProject(EntityStore.Store(r.items + extra, nextId), projectId)
      == ListByProject(r, projectId) + Filter(BelongsTo(projectId), extra)
  {
    FilterAppend(BelongsTo(projectId), r.items, extra);
  }
}
