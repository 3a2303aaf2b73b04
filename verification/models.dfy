/** The records the repositories store.  `Category` and `Tag` follow their
    C# classes; `ProjectTask` and `Project` have the members the
    repositories and the seeding routine use.  IDs are C# `int`s; 0 means
    "not yet saved". */
module Models {
  import opened Wrappers

  datatype Category = Category(id: int, title: string, color: string)

  /** `isSelected` is a UI flag that is never serialised. */
  datatype Tag = Tag(id: int, title: string, color: string, isSelected: bool)

  datatype ProjectTask = ProjectTask(id: int, projectId: int, title: string, isCompleted: bool)

  /** `category`, `tasks` and `tags` are navigation members: `tasks` and
      `tags` are overwritten from the task and tag repositories whenever the
      project is read. */
  datatype Project = Project(
    id: int,
    categoryId: int,
    category: Option<Category>,
    tasks: seq<ProjectTask>,
    tags: seq<Tag>,
    name: string,
    description: string,
    icon: string)

  /** The stored members of a project agree; the navigation lists may differ. */
  predicate SameStoredFields(a: Project, b: Project) {
    && a.id == b.id
    && a.categoryId == b.categoryId
    && a.category == b.category
    && a.name == b.name
    && a.description == b.description
    && a.icon == b.icon
  }
}
