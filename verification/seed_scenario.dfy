/** The seed data loaded into freshly created repositories, as the app does
    at start-up: what every repository holds afterwards. */
module SeedScenario {
  import opened Wrappers
  import opened Models
  import EntityStore
  import CategoryRepository
  import TaskRepository
  import TagRepository
  import ProjectRepository
  import opened SeedData

  /** The repositories after `LoadSeedDataAsync()` on empty ones. */
  function Loaded(): Db {
    Seed(Fresh(), SeedProjects())
  }

  /** The seed list: four new projects, each with a category and three
      tasks, carrying one, one, one and two tags. */
  lemma SeedLiteral()
    ensures |SeedProjects()| == 4
    ensures AllNewSeeds(SeedProjects())
    ensures forall k :: 0 <= k < 4 ==> |SeedProjects()[k].tasks| == 3
    ensures forall k :: 0 <= k < 4 ==> |SeedProjects()[k].tags| == if k == 3 then 2 else 1
    ensures SeedProjects()[3].name == "Family and Friends"
    ensures SeedProjects()[3].tags[0].title == "family" && SeedProjects()[3].tags[1].title == "friends"
  {
  }

  lemma FreshConsistent()
    ensures Consistent(Fresh())
  {
  }

  /** A seed list with the literal's shape: four new projects with three
      tasks each, carrying one, one, one and two tags. */
  ghost predicate ShapedLikeLiteral(ps: seq<Project>) {
    && |ps| == 4
    && AllNewSeeds(ps)
    && (forall k :: 0 <= k < 4 ==> |ps[k].tasks| == 3)
    && (forall k :: 0 <= k < 4 ==> |ps[k].tags| == if k == 3 then 2 else 1)
  }

  /** Tasks and tags before the `k`-th project of such a list: three tasks
      per project, and one tag per project except the last, which has two. */
  lemma {:induction false} CountsBefore(ps: seq<Project>, k: nat)
    requires ShapedLikeLiteral(ps)
    requires k <= 4
    ensures TasksBefore(ps, k) == 3 * k
    ensures TagsBefore(ps, k) == if k == 4 then 5 else k
  {
    if k > 0 {
      CountsBefore(ps, k - 1);
      BeforeSnoc(ps, k - 1);
    }
  }

  /** The stores after loading a list of that shape into empty
      repositories: four categories and four projects with IDs 1 to 4,
      project `i` pointing at category `i`, and the task and tag counters
      past IDs 1 to 12 and 1 to 5. */
  ghost predicate StoresAfterLoad(out: Db) {
    && Consistent(out)
    && |out.categories.items| == 4 && |out.projects.items| == 4
    && (forall i :: 0 <= i < 4 ==> out.categories.items[i].id == i + 1)
    && (forall i :: 0 <= i < 4 ==> out.projects.items[i].id == i + 1 && out.projects.items[i].categoryId == i + 1)
    && out.categories.nextId == 5 && out.projects.nextId == 5
    && out.tasks.nextId == 13 && out.tags.store.nextId == 6
  }

  /** Project `k` of `ps` as reading it back after loading `ps` into empty
      repositories should give it: stored under the next project ID, its
      category under the next category ID, its tasks pointing at it and
      numbered on from the tasks before it, its tags numbered on from the
      tags before it. */
  function Expected(ps: seq<Project>, k: nat): Project
    requires k < |ps| && ps[k].category.Some?
  {
    Seeded(ps[k], ProjectIdAt(Fresh(), k), CategoryIdAt(Fresh(), k)).(
      tasks := EntityStore.Numbered(InProject(ps[k].tasks, ProjectIdAt(Fresh(), k)), FirstTaskIdAt(Fresh(), ps, k), TaskRepository.WithKey),
      tags := EntityStore.Numbered(ps[k].tags, FirstTagIdAt(Fresh(), ps, k), TagRepository.WithKey))
  }

  /** For a list of the literal's shape, `Expected` field by field: project
      and category ID `k + 1`, tasks `3k + 1` to `3k + 3` pointing at
      project `k + 1`, tags numbered from `k + 1`, everything else as given. */
  lemma ExpectedFields(ps: seq<Project>, k: nat)
    requires ShapedLikeLiteral(ps)
    requires k < 4
    ensures Expected(ps, k).id == k + 1
    ensures Expected(ps, k).categoryId == k + 1
    ensures Expected(ps, k).category == Some(ps[k].category.value.(id := k + 1))
    ensures Expected(ps, k).name == ps[k].name
    ensures Expected(ps, k).description == ps[k].description && Expected(ps, k).icon == ps[k].icon
    ensures |Expected(ps, k).tasks| == 3
    ensures forall i :: 0 <= i < 3 ==>
      Expected(ps, k).tasks[i] == ps[k].tasks[i].(id := 3 * k + i + 1, projectId := k + 1)
    ensures |Expected(ps, k).tags| == |ps[k].tags|
    ensures forall i :: 0 <= i < |ps[k].tags| ==> Expected(ps, k).tags[i] == ps[k].tags[i].(id := k + i + 1)
  {
    CountsBefore(ps, k);
    var h := Expected(ps, k);
    forall i | 0 <= i < 3
      ensures h.tasks[i] == ps[k].tasks[i].(id := 3 * k + i + 1, projectId := k + 1)
    {
      EntityStore.NumberedAt(InProject(ps[k].tasks, ProjectIdAt(Fresh(), k)), FirstTaskIdAt(Fresh(), ps, k), TaskRepository.WithKey, i);
    }
    forall i | 0 <= i < |ps[k].tags|
      ensures h.tags[i] == ps[k].tags[i].(id := k + i + 1)
    {
      EntityStore.NumberedAt(ps[k].tags, FirstTagIdAt(Fresh(), ps, k), TagRepository.WithKey, i);
    }
  }

  lemma LoadedStoresFrom(ps: seq<Project>)
    requires ShapedLikeLiteral(ps)
    ensures StoresAfterLoad(Seed(Fresh(), ps))
  {
    FreshConsistent();
    SeedStores(Fresh(), ps);
    CountsBefore(ps, 4);
  }

  lemma LoadedProjectFrom(ps: seq<Project>, k: nat)
    requires ShapedLikeLiteral(ps)
    requires k < 4
    ensures ProjectRepository.Get(Seed(Fresh(), ps).projects, Seed(Fresh(), ps).tasks, Seed(Fresh(), ps).tags, k + 1).1
      == Some(Expected(ps, k))
    ensures CategoryRepository.Get(Seed(Fresh(), ps).categories, k + 1) == Some(ps[k].category.value.(id := k + 1))
  {
    FreshConsistent();
    SeedReadBack(Fresh(), ps, k);
    assert ProjectIdAt(Fresh(), k) == k + 1 && CategoryIdAt(Fresh(), k) == k + 1;
  }

  lemma LiteralShape()
    ensures ShapedLikeLiteral(SeedProjects())
  {
    SeedLiteral();
  }

  /** The start-up load, store by store. */
  lemma LoadedStores()
    ensures StoresAfterLoad(Loaded())
  {
    LiteralShape();
    LoadedStoresFrom(SeedProjects());
  }

  /** The start-up load, read back one project at a time: project `k + 1`
      is the `k`-th seed project with its IDs wired, and category `k + 1`
      is its category. */
  lemma LoadedProject(k: nat)
    requires k < 4
    ensures k < |SeedProjects()| && SeedProjects()[k].category.Some?
    ensures ProjectRepository.Get(Loaded().projects, Loaded().tasks, Loaded().tags, k + 1).1 == Some(Expected(SeedProjects(), k))
    ensures CategoryRepository.Get(Loaded().categories, k + 1) == Some(SeedProjects()[k].category.value.(id := k + 1))
  {
    LiteralShape();
    LoadedProjectFrom(SeedProjects(), k);
  }

  /** For a list of the literal's shape, project 1 reads back as the first
      seed project, in category 1, which is its category. */
  lemma FirstProjectFrom(ps: seq<Project>)
    ensures ShapedLikeLiteral(ps) ==>
      && ProjectRepository.Get(Seed(Fresh(), ps).projects, Seed(Fresh(), ps).tasks, Seed(Fresh(), ps).tags, 1).1.Some?
      && ProjectRepository.Get(Seed(Fresh(), ps).projects, Seed(Fresh(), ps).tasks, Seed(Fresh(), ps).tags, 1).1.value.name == ps[0].name
      && ProjectRepository.Get(Seed(Fresh(), ps).projects, Seed(Fresh(), ps).tasks, Seed(Fresh(), ps).tags, 1).1.value.categoryId == 1
      && CategoryRepository.Get(Seed(Fresh(), ps).categories, 1) == Some(ps[0].category.value.(id := 1))
  {
    if ShapedLikeLiteral(ps) {
      LoadedProjectFrom(ps, 0);
      ExpectedFields(ps, 0);
    }
  }

  /** "Balance" is project 1, in category 1, "work". */
  lemma LoadedBalance()
    ensures ProjectRepository.Get(Loaded().projects, Loaded().tasks, Loaded().tags, 1).1.Some?
    ensures ProjectRepository.Get(Loaded().projects, Loaded().tasks, Loaded().tags, 1).1.value.name == "Balance"
    ensures ProjectRepository.Get(Loaded().projects, Loaded().tasks, Loaded().tags, 1).1.value.categoryId == 1
    ensures CategoryRepository.Get(Loaded().categories, 1) == Some(Category(1, "work", "#3068df"))
  {
    LiteralShape();
    FirstProjectFrom(SeedProjects());
  }

  /** For a list of the literal's shape, project 4 reads back as the last
      seed project, with its two tags under tag IDs 4 and 5. */
  lemma LastProjectFrom(ps: seq<Project>)
    ensures ShapedLikeLiteral(ps) ==>
      && ProjectRepository.Get(Seed(Fresh(), ps).projects, Seed(Fresh(), ps).tasks, Seed(Fresh(), ps).tags, 4).1.Some?
      && ProjectRepository.Get(Seed(Fresh(), ps).projects, Seed(Fresh(), ps).tasks, Seed(Fresh(), ps).tags, 4).1.value.name == ps[3].name
      && ProjectRepository.Get(Seed(Fresh(), ps).projects, Seed(Fresh(), ps).tasks, Seed(Fresh(), ps).tags, 4).1.value.tags
        == [ps[3].tags[0].(id := 4), ps[3].tags[1].(id := 5)]
  {
    if ShapedLikeLiteral(ps) {
      LoadedProjectFrom(ps, 3);
      ExpectedLastTags(ps);
    }
  }

  lemma ExpectedLastTags(ps: seq<Project>)
    requires ShapedLikeLiteral(ps)
    ensures Expected(ps, 3).name == ps[3].name
    ensures Expected(ps, 3).tags == [ps[3].tags[0].(id := 4), ps[3].tags[1].(id := 5)]
  {
    ExpectedFields(ps, 3);
  }

  /** "Family and Friends" is project 4 and reads back with its tags
      "family" and "friends" under tag IDs 4 and 5. */
  lemma LoadedFamily()
    ensures ProjectRepository.Get(Loaded().projects, Loaded().tasks, Loaded().tags, 4).1.Some?
    ensures ProjectRepository.Get(Loaded().projects, Loaded().tasks, Loaded().tags, 4).1.value.name == "Family and Friends"
    ensures ProjectRepository.Get(Loaded().projects, Loaded().tasks, Loaded().tags, 4).1.value.tags
      == [Tag(4, "family", "#1E90FF", false), Tag(5, "friends", "#FF69B4", false)]
  {
    LiteralShape();
    LastProjectFrom(SeedProjects());
  }

  /** The tasks `GetAsync(id)` hydrates project `id` with; none when there
      is no such project. */
  function ReadTasks(db: Db, id: int): seq<ProjectTask> {
    match ProjectRepository.Get(db.projects, db.tasks, db.tags, id).1
    case None => []
    case Some(p) => p.tasks
  }

  /** For a list of the literal's shape, project `id` reads back with three
      tasks, IDs `3 * id - 2` to `3 * id`, all pointing at it. */
  lemma TasksFrom(ps: seq<Project>, id: int)
    ensures ShapedLikeLiteral(ps) && 1 <= id <= 4 ==>
      && ProjectRepository.Get(Seed(Fresh(), ps).projects, Seed(Fresh(), ps).tasks, Seed(Fresh(), ps).tags, id).1.Some?
      && |ReadTasks(Seed(Fresh(), ps), id)| == 3
      && forall i :: 0 <= i < 3 ==>
           ReadTasks(Seed(Fresh(), ps), id)[i].id == 3 * id + i - 2 && ReadTasks(Seed(Fresh(), ps), id)[i].projectId == id
  {
    if ShapedLikeLiteral(ps) && 1 <= id <= 4 {
      LoadedProjectFrom(ps, id - 1);
      ExpectedFields(ps, id - 1);
    }
  }

  /** After the start-up load, project `id` reads back with three tasks,
      IDs `3 * id - 2` to `3 * id`, all pointing at it: together the four
      projects hold task IDs 1 to 12. */
  lemma LoadedTasks(id: int)
    requires 1 <= id <= 4
    ensures ProjectRepository.Get(Loaded().projects, Loaded().tasks, Loaded().tags, id).1.Some?
    ensures |ReadTasks(Loaded(), id)| == 3
    ensures forall i :: 0 <= i < 3 ==> ReadTasks(Loaded(), id)[i].id == 3 * id + i - 2 && ReadTasks(Loaded(), id)[i].projectId == id
  {
    LiteralShape();
    TasksFrom(SeedProjects(), id);
  }
}
