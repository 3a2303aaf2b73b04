/** `InMemoryProjectRepository`: an entity store of projects whose reads
    hydrate each project's `Tasks` and `Tags` from the task and tag
    repositories.  The C# class holds those two repositories; here they are
    passed to the reads that consult them, and no operation changes them. */
module ProjectRepository {
  import opened Wrappers
  import opened Models
  import EntityStore
  import TaskRepository
  import TagRepository

  type Repo = EntityStore.Store<Project>

  function Key(p: Project): int {
    p.id
  }

  function WithKey(p: Project, n: int): Project {
    p.(id := n)
  }

  function Empty(): Repo {
    EntityStore.Empty()
  }

  ghost predicate Valid(r: Repo) {
    EntityStore.Valid(r, Key)
  }

  /** `h` is `p` as a read returns it: the stored members unchanged, `Tasks`
      and `Tags` replaced by the per-project listings. */
  ghost predicate IsHydrated(h: Project, p: Project, tasks: TaskRepository.Repo, tags: TagRepository.Repo) {
    && SameStoredFields(h, p)
    && h.tasks == TaskRepository.ListByProject(tasks, p.id)
    && h.tags == TagRepository.ListByProject(tags, p.id)
  }

  function Hydrate(p: Project, tasks: TaskRepository.Repo, tags: TagRepository.Repo): Project {
    p.(tasks := TaskRepository.ListByProject(tasks, p.id), tags := TagRepository.ListByProject(tags, p.id))
  }

  /** `ListAsync()`: hydrates every stored project in place and returns a
      copy of the list. */
  function List(r: Repo, tasks: TaskRepository.Repo, tags: TagRepository.Repo): (out: (Repo, seq<Project>))
    ensures out.0.nextId == r.nextId
    ensures out.1 == out.0.items
    ensures |out.1| == |r.items|
    ensures forall i :: 0 <= i < |r.items| ==> IsHydrated(out.1[i], r.items[i], tasks, tags)
  {
    var hs := seq(|r.items|, i requires 0 <= i < |r.items| => Hydrate(r.items[i], tasks, tags));
    (r.(items := hs), hs)
  }

  /** `GetAsync(id)`: hydrates the first project with that ID in place and
      returns it, or returns null and changes nothing. */
  function Get(r: Repo, tasks: TaskRepository.Repo, tags: TagRepository.Repo, id: int): (out: (Repo, Option<Project>))
    ensures out.1.None? <==> !EntityStore.HasKey(r.items, id, Key)
    ensures out.1.None? ==> out.0 == r
    ensures |out.0.items| == |r.items|
    ensures forall i :: EntityStore.IsFirstMatch(r.items, id, Key, i) ==>
      && out.1 == Some(out.0.items[i])
      && IsHydrated(out.0.items[i], r.items[i], tasks, tags)
      && out.0 == r.(items := r.items[i := out.0.items[i]])
  {
    match EntityStore.FindIndex(r.items, id, Key)
    case None => (r, None)
    case Some(i) =>
      var h := Hydrate(r.items[i], tasks, tags);
      (r.(items := r.items[i := h]), Some(h))
  }

  /** `SaveItemAsync(item)`: returns the project's ID after the save.  The
      project's category, tasks and tags are not saved with it. */
  function Save(r: Repo, item: Project): (out: (Repo, int))
    ensures EntityStore.SaveOutcome(r, item, Key, WithKey, out.0, out.1)
  {
    EntityStore.Save(r, item, Key, WithKey)
  }

  /** `DeleteItemAsync(item)`: removes the projects with the ID and returns
      how many; the project's tasks and tag associations stay where they are. */
  function Delete(r: Repo, item: Project): (out: (Repo, nat))
    ensures EntityStore.DeleteOutcome(r, item.id, Key, out.0, out.1)
    ensures !EntityStore.HasKey(r.items, item.id, Key) ==> out == (r, 0)
  {
    EntityStore.Delete(r, item.id, Key)
  }

  /** Save and delete keep project IDs positive, distinct and below
      `nextId`, and the counter never goes down. */
  lemma OperationsPreserveValid(r: Repo, item: Project)
    requires Valid(r)
    ensures Valid(Save(r, item).0)
    ensures Valid(Delete(r, item).0)
    ensures Save(r, item).0.nextId >= r.nextId
    ensures Delete(r, item).0.nextId == r.nextId
  {
    EntityStore.SavePreservesValid(r, item, Key, WithKey);
    EntityStore.DeletePreservesValid(r, item.id, Key);
  }

  /** Hydrating reads keep the invariant too: they change only `Tasks` and `Tags`. */
  lemma ReadsPreserveValid(r: Repo, tasks: TaskRepository.Repo, tags: TagRepository.Repo, id: int)
    requires Valid(r)
    ensures Valid(List(r, tasks, tags).0)
    ensures Valid(Get(r, tasks, tags, id).0)
  {
    ListKeepsIds(r, tasks, tags);
    EntityStore.SameKeysPreserveValid(r, List(r, tasks, tags).0, Key);
    GetKeepsIds(r, tasks, tags, id);
    EntityStore.SameKeysPreserveValid(r, Get(r, tasks, tags, id).0, Key);
  }

  lemma ListKeepsIds(r: Repo, tasks: TaskRepository.Repo, tags: TagRepository.Repo)
    ensures List(r, tasks, tags).0.nextId == r.nextId && |List(r, tasks, tags).0.items| == |r.items|
    ensures forall i :: 0 <= i < |r.items| ==> Key(List(r, tasks, tags).0.items[i]) == Key(r.items[i])
  {
    var l := List(r, tasks, tags).0;
    forall i | 0 <= i < |r.items|
      ensures Key(l.items[i]) == Key(r.items[i])
    {
      assert IsHydrated(l.items[i], r.items[i], tasks, tags);
    }
  }

  lemma GetKeepsIds(r: Repo, tasks: TaskRepository.Repo, tags: TagRepository.Repo, id: int)
    ensures Get(r, tasks, tags, id).0.nextId == r.nextId && |Get(r, tasks, tags, id).0.items| == |r.items|
    ensures forall i :: 0 <= i < |r.items| ==> Key(Get(r, tasks, tags, id).0.items[i]) == Key(r.items[i])
  {
    var g := Get(r, tasks, tags, id).0;
    match EntityStore.FindIndex(r.items, id, Key)
    case None =>
    case Some(k) =>
      assert EntityStore.IsFirstMatch(r.items, id, Key, k);
      assert IsHydrated(g.items[k], r.items[k], tasks, tags);
  }

  /** Hydrating twice gives what hydrating once gives. */
  lemma ListIdempotent(r: Repo, tasks: TaskRepository.Repo, tags: TagRepository.Repo)
    ensures List(List(r, tasks, tags).0, tasks, tags) == List(r, tasks, tags)
  {
    var once := List(r, tasks, tags);
    var twice := List(once.0, tasks, tags);
    assert twice.1 == once.1 by {
      forall i | 0 <= i < |once.1|
        ensures twice.1[i] == once.1[i]
      {
        assert IsHydrated(twice.1[i], once.1[i], tasks, tags);
      }
    }
  }

  /** What a read returns does not depend on the `Tasks` and `Tags` left in
      the stored projects: two stores that agree on the stored members list
      the same projects. */
  lemma ListIgnoresStoredNavigation(r1: Repo, r2: Repo, tasks: TaskRepository.Repo, tags: TagRepository.Repo)
    requires |r1.items| == |r2.items|
    requires forall i :: 0 <= i < |r1.items| ==> SameStoredFields(r1.items[i], r2.items[i])
    ensures List(r1, tasks, tags).1 == List(r2, tasks, tags).1
  {
    var l1 := List(r1, tasks, tags).1;
    var l2 := List(r2, tasks, tags).1;
    forall i | 0 <= i < |l1|
      ensures l1[i] == l2[i]
    {
      assert IsHydrated(l1[i], r1.items[i], tasks, tags);
      assert IsHydrated(l2[i], r2.items[i], tasks, tags);
    }
  }

  /** `GetAsync(id)` returns the project `ListAsync()` lists with that ID. */
  lemma GetAgreesWithList(r: Repo, tasks: TaskRepository.Repo, tags: TagRepository.Repo, id: int)
    requires Get(r, tasks, tags, id).1.Some?
    ensures Get(r, tasks, tags, id).1.value in List(r, tasks, tags).1
    ensures Get(r, tasks, tags, id).1.value.id == id
  {
    var i := EntityStore.FindIndex(r.items, id, Key).value;
    assert List(r, tasks, tags).1[i] == Get(r, tasks, tags, id).1.value;
  }

  /** After a project is deleted, `GetAsync` of its ID finds nothing.  The
      task and tag repositories are not arguments of the delete, so the
      project's tasks and tag associations survive it. */
  lemma DeleteThenGet(r: Repo, item: Project, tasks: TaskRepository.Repo, tags: TagRepository.Repo)
    requires Valid(r)
    ensures Get(Delete(r, item).0, tasks, tags, item.id).1 == None
    ensures EntityStore.HasKey(r.items, item.id, Key) ==> Delete(r, item).1 == 1
  {
    if EntityStore.HasKey(r.items, item.id, Key) {
      EntityStore.DeleteExisting(r, item.id, Key);
    }
  }
}
