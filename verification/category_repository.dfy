/** `InMemoryCategoryRepository`: a plain entity store of categories. */
module CategoryRepository {
  import opened Wrappers
  import opened Models
  import EntityStore

  type Repo = EntityStore.Store<Category>

  function Key(c: Category): int {
    c.id
  }

  function WithKey(c: Category, n: int): Category {
    c.(id := n)
  }

  function Empty(): Repo {
    EntityStore.Empty()
  }

  ghost predicate Valid(r: Repo) {
    EntityStore.Valid(r, Key)
  }

  /** `ListAsync()`: a copy of the categories in insertion order. */
  function List(r: Repo): seq<Category> {
    r.items
  }

  /** `GetAsync(id)`: the first category with that ID, or null. */
  function Get(r: Repo, id: int): (c: Option<Category>)
    ensures EntityStore.GetOutcome(r.items, id, Key, c)
  {
    EntityStore.Get(r, id, Key)
  }

  /** `SaveItemAsync(item)`: returns the category's ID after the save. */
  function Save(r: Repo, item: Category): (out: (Repo, int))
    ensures EntityStore.SaveOutcome(r, item, Key, WithKey, out.0, out.1)
  {
    EntityStore.Save(r, item, Key, WithKey)
  }

  /** `DeleteItemAsync(item)`: returns the number of categories removed. */
  function Delete(r: Repo, item: Category): (out: (Repo, nat))
    ensures EntityStore.DeleteOutcome(r, item.id, Key, out.0, out.1)
    ensures !EntityStore.HasKey(r.items, item.id, Key) ==> out == (r, 0)
  {
    EntityStore.Delete(r, item.id, Key)
  }

  /** Save and delete keep IDs positive, distinct and below `nextId`. */
  lemma OperationsPreserveValid(r: Repo, item: Category)
    requires Valid(r)
    ensures Valid(Save(r, item).0)
    ensures Valid(Delete(r, item).0)
  {
    EntityStore.SavePreservesValid(r, item, Key, WithKey);
    EntityStore.DeletePreservesValid(r, item.id, Key);
  }

  /** A new category lands at the end of the listing, under the returned ID,
      and `GetAsync` of that ID finds it. */
  lemma SaveNewAppends(r: Repo, item: Category)
    requires Valid(r)
    requires item.id == 0
    ensures Save(r, item).1 == r.nextId
    ensures List(Save(r, item).0) == List(r) + [item.(id := r.nextId)]
    ensures Get(Save(r, item).0, Save(r, item).1) == Some(item.(id := r.nextId))
  {
    EntityStore.SaveNewThenGet(r, item, Key, WithKey);
  }

  /** Deleting a present category removes exactly one; an unknown ID removes
      nothing and leaves the listing as it was. */
  lemma DeleteCount(r: Repo, item: Category)
    requires Valid(r)
    ensures EntityStore.HasKey(r.items, item.id, Key) ==> Delete(r, item).1 == 1 && |List(Delete(r, item).0)| == |List(r)| - 1
    ensures !EntityStore.HasKey(r.items, item.id, Key) ==> Delete(r, item).1 == 0 && List(Delete(r, item).0) == List(r)
  {
    if EntityStore.HasKey(r.items, item.id, Key) {
      EntityStore.DeleteExisting(r, item.id, Key);
    }
  }
}
