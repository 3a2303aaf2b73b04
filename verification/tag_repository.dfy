/** `InMemoryTagRepository`: an entity store of tags plus `_projectTags`, a
    map from project ID to the list of tag IDs associated with it. */
module TagRepository {
  import opened Wrappers
  import opened Seqs
  import opened Models
  import EntityStore

  datatype Repo = Repo(store: EntityStore.Store<Tag>, projectTags: map<int, seq<int>>)

  function Key(t: Tag): int {
    t.id
  }

  function WithKey(t: Tag, n: int): Tag {
    t.(id := n)
  }

  function Empty(): Repo {
    Repo(EntityStore.Empty(), map[])
  }

  /** The store invariant, and no association list names a tag twice. */
  ghost predicate Valid(r: Repo) {
    && EntityStore.Valid(r.store, Key)
    && forall p :: p in r.projectTags ==> NoDup(r.projectTags[p])
  }

  /** The tag IDs associated with a project; none when it has no entry. */
  function Associated(r: Repo, projectId: int): seq<int> {
    if projectId in r.projectTags then r.projectTags[projectId] else []
  }

  /** The ID a tag has after `SaveItemAsync(item)` on this repository. */
  function SavedId(r: Repo, item: Tag): int {
    if item.id == 0 then r.store.nextId else item.id
  }

  /** `ListAsync()`: a copy of all tags in insertion order. */
  function List(r: Repo): seq<Tag> {
    r.store.items
  }

  /** `ListAsync(projectId)`: the global tags whose ID is associated with the
      project, in global-list order; empty when the project has no entry. */
  function ListByProject(r: Repo, projectId: int): (ts: seq<Tag>)
    ensures projectId !in r.projectTags ==> ts == []
    ensures forall i :: 0 <= i < |ts| ==> ts[i] in r.store.items && ts[i].id in Associated(r, projectId)
    ensures forall i :: 0 <= i < |r.store.items| && r.store.items[i].id in Associated(r, projectId) ==> r.store.items[i] in ts
    ensures Subseq(ts, r.store.items)
    ensures forall i :: 0 <= i < |r.store.items| ==>
      Count(ts, r.store.items[i]) == if r.store.items[i].id in Associated(r, projectId) then Count(r.store.items, r.store.items[i]) else 0
  {
    if projectId in r.projectTags then Filter(IdIn(r.projectTags[projectId]), r.store.items) else []
  }

  /** The `Where` predicate of `ListAsync(projectId)`: `tagIds.Contains(t.ID)`. */
  function IdIn(ids: seq<int>): Tag -> bool {
    (t: Tag) => t.id in ids
  }

  /** `GetAsync(id)`: the first tag with that ID, or null. */
  function Get(r: Repo, id: int): (t: Option<Tag>)
    ensures EntityStore.GetOutcome(r.store.items, id, Key, t)
  {
    EntityStore.Get(r.store, id, Key)
  }

  /** `SaveItemAsync(item)`: the unscoped save; associations are untouched. */
  function Save(r: Repo, item: Tag): (out: (Repo, int))
    ensures EntityStore.SaveOutcome(r.store, item, Key, WithKey, out.0.store, out.1)
    ensures out.1 == SavedId(r, item)
    ensures out.0.projectTags == r.projectTags
  {
    var (s, id) := EntityStore.Save(r.store, item, Key, WithKey);
    (r.(store := s), id)
  }

  /** `SaveItemAsync(item, projectId)`: the unscoped save, then the saved ID
      is added to the project's association list unless already there.  The
      association is recorded even when a nonzero ID matched no tag.  The
      result is always 1. */
  function SaveIn(r: Repo, item: Tag, projectId: int): (out: (Repo, int))
    ensures out.1 == 1
    ensures EntityStore.SaveOutcome(r.store, item, Key, WithKey, out.0.store, SavedId(r, item))
    ensures projectId in out.0.projectTags
    ensures out.0.projectTags - {projectId} == r.projectTags - {projectId}
    ensures SavedId(r, item) in out.0.projectTags[projectId]
    ensures SavedId(r, item) in Associated(r, projectId) ==> out.0.projectTags[projectId] == Associated(r, projectId)
    ensures SavedId(r, item) !in Associated(r, projectId) ==> out.0.projectTags[projectId] == Associated(r, projectId) + [SavedId(r, item)]
  {
    var (r1, id) := Save(r, item);
    (r1.(projectTags := r1.projectTags[projectId := AddOnce(Associated(r1, projectId), id)]), 1)
  }

  /** `DeleteItemAsync(item)`: removes every tag with the ID from the global
      list, returns how many went, and removes the ID from every project's
      association list (C# `List.Remove`: its first occurrence). */
  function Delete(r: Repo, item: Tag): (out: (Repo, nat))
    ensures EntityStore.DeleteOutcome(r.store, item.id, Key, out.0.store, out.1)
    ensures out.0.projectTags.Keys == r.projectTags.Keys
    ensures forall p :: p in r.projectTags ==>
      && |out.0.projectTags[p]| == |r.projectTags[p]| - (if item.id in r.projectTags[p] then 1 else 0)
      && (forall i :: 0 <= i < |out.0.projectTags[p]| ==> out.0.projectTags[p][i] in r.projectTags[p])
    ensures forall p :: p in r.projectTags && NoDup(r.projectTags[p]) ==>
      item.id !in out.0.projectTags[p] && NoDup(out.0.projectTags[p])
    ensures forall p :: p in r.projectTags ==> out.0.projectTags[p] == RemoveFirst(r.projectTags[p], item.id)
  {
    var (s, removed) := EntityStore.Delete(r.store, item.id, Key);
    var tags := map p | p in r.projectTags :: RemoveFirst(r.projectTags[p], item.id);
    RemoveFirstNoDupEverywhere(r.projectTags, item.id);
    (Repo(s, tags), removed)
  }

  /** `DeleteItemAsync(item, projectId)`: removes the association only (its
      first occurrence); the global list is never touched.  The result is 1
      whenever the project has an entry, whether or not the tag was in it. */
  function DeleteIn(r: Repo, item: Tag, projectId: int): (out: (Repo, int))
    ensures out.0.store == r.store
    ensures out.1 == 1 <==> projectId in r.projectTags
    ensures out.1 == 0 <==> projectId !in r.projectTags
    ensures out.0.projectTags.Keys == r.projectTags.Keys
    ensures out.0.projectTags - {projectId} == r.projectTags - {projectId}
    ensures projectId in r.projectTags ==>
      && |out.0.projectTags[projectId]| == |r.projectTags[projectId]| - (if item.id in r.projectTags[projectId] then 1 else 0)
      && (forall i :: 0 <= i < |out.0.projectTags[projectId]| ==> out.0.projectTags[projectId][i] in r.projectTags[projectId])
    ensures projectId in r.projectTags && NoDup(r.projectTags[projectId]) ==>
      item.id !in out.0.projectTags[projectId] && NoDup(out.0.projectTags[projectId])
    ensures projectId in r.projectTags ==> out.0.projectTags[projectId] == RemoveFirst(r.projectTags[projectId], item.id)
  {
    if projectId in r.projectTags then
      var ids := r.projectTags[projectId];
      RemoveFirstNoDupWhen(ids, item.id);
      (r.(projectTags := r.projectTags[projectId := RemoveFirst(ids, item.id)]), 1)
    else
      (r, 0)
  }

  lemma RemoveFirstNoDupWhen(xs: seq<int>, x: int)
    ensures NoDup(xs) ==> NoDup(RemoveFirst(xs, x)) && x !in RemoveFirst(xs, x)
  {
    if NoDup(xs) {
      RemoveFirstNoDup(xs, x);
    }
  }

  lemma RemoveFirstNoDupEverywhere(m: map<int, seq<int>>, x: int)
    ensures forall p :: p in m && NoDup(m[p]) ==> NoDup(RemoveFirst(m[p], x)) && x !in RemoveFirst(m[p], x)
  {
    forall p | p in m && NoDup(m[p])
      ensures NoDup(RemoveFirst(m[p], x)) && x !in RemoveFirst(m[p], x)
    {
      RemoveFirstNoDup(m[p], x);
    }
  }

  /** Every mutating operation keeps the invariant. */
  lemma OperationsPreserveValid(r: Repo, item: Tag, projectId: int)
    requires Valid(r)
    ensures Valid(Save(r, item).0)
    ensures Valid(SaveIn(r, item, projectId).0)
    ensures Valid(Delete(r, item).0)
    ensures Valid(DeleteIn(r, item, projectId).0)
  {
    EntityStore.SavePreservesValid(r.store, item, Key, WithKey);
    EntityStore.DeletePreservesValid(r.store, item.id, Key);
    var r' := SaveIn(r, item, projectId).0;
    assert forall p :: p in r'.projectTags && p != projectId ==> r'.projectTags[p] == r.projectTags[p] by {
      forall p | p in r'.projectTags && p != projectId
        ensures r'.projectTags[p] == r.projectTags[p]
      {
        assert p in r'.projectTags - {projectId};
      }
    }
    var d := DeleteIn(r, item, projectId).0;
    assert forall p :: p in d.projectTags && p != projectId ==> d.projectTags[p] == r.projectTags[p] by {
      forall p | p in d.projectTags && p != projectId
        ensures d.projectTags[p] == r.projectTags[p]
      {
        assert p in d.projectTags - {projectId};
      }
    }
  }

  /** A scoped save of a new tag appends it to the global list under the
      current `nextId`.  The project's list gains that ID at its end unless
      it already names it, which an earlier scoped save under a not yet
      assigned ID can cause; then the list stays as it was. */
  lemma SaveInNew(r: Repo, item: Tag, projectId: int)
    requires item.id == 0
    ensures SaveIn(r, item, projectId).0.store
      == EntityStore.Store(r.store.items + [item.(id := r.store.nextId)], r.store.nextId + 1)
    ensures r.store.nextId !in Associated(r, projectId) ==>
      Associated(SaveIn(r, item, projectId).0, projectId) == Associated(r, projectId) + [r.store.nextId]
    ensures r.store.nextId in Associated(r, projectId) ==>
      Associated(SaveIn(r, item, projectId).0, projectId) == Associated(r, projectId)
  {
  }

  /** An association already recorded for the ID the next new tag will
      get picks that tag up: every project whose list names the ID lists
      the new tag, whichever project it was saved under. */
  lemma SaveInPicksUpRecordedId(r: Repo, item: Tag, projectId: int, other: int)
    requires item.id == 0
    requires r.store.nextId in Associated(r, other)
    ensures item.(id := r.store.nextId) in ListByProject(SaveIn(r, item, projectId).0, other)
  {
    var r' := SaveIn(r, item, projectId).0;
    assert r'.store.items[|r.store.items|] == item.(id := r.store.nextId);
    assert r.store.nextId in Associated(r', other);
  }

  /** Such an association is reachable from an empty repository: a scoped
      save of tag 1 under project 7 before any tag exists records ID 1 for
      project 7, so the first new tag, saved under project 9, takes ID 1
      and is listed under project 7 as well. */
  lemma RecordedIdScenario(t: Tag, n: Tag)
    requires t.id == 1 && n.id == 0
    ensures var r1 := SaveIn(Empty(), t, 7).0;
      && ListByProject(r1, 7) == []
      && ListByProject(SaveIn(r1, n, 9).0, 7) == [n.(id := 1)]
  {
    var r1 := SaveIn(Empty(), t, 7).0;
    assert r1.store.nextId == 1 && 1 in Associated(r1, 7);
    SaveInPicksUpRecordedId(r1, n, 9, 7);
  }

  /** A scoped save of a tag that already has its ID, repeated, changes
      nothing more: the association holds the ID once. */
  lemma SaveInIdempotent(r: Repo, item: Tag, projectId: int)
    requires item.id != 0
    ensures SaveIn(SaveIn(r, item, projectId).0, item, projectId).0 == SaveIn(r, item, projectId).0
  {
    var r1 := SaveIn(r, item, projectId).0;
    if EntityStore.HasKey(r.store.items, item.id, Key) {
      var i := EntityStore.FindIndex(r.store.items, item.id, Key).value;
      assert EntityStore.IsFirstMatch(r1.store.items, item.id, Key, i);
      assert r1.store.items[i := item] == r1.store.items;
    }
  }

  /** Repeating a scoped save of a new tag with the record the first save
      numbered (the C# object whose `ID` the first call set) changes nothing. */
  lemma SaveInNewRepeated(r: Repo, item: Tag, projectId: int)
    requires Valid(r)
    requires item.id == 0
    ensures SaveIn(SaveIn(r, item, projectId).0, item.(id := r.store.nextId), projectId).0 == SaveIn(r, item, projectId).0
  {
    var r1 := SaveIn(r, item, projectId).0;
    var saved := item.(id := r.store.nextId);
    assert EntityStore.IsFirstMatch(r1.store.items, saved.id, Key, |r.store.items|);
    assert r1.store.items[|r.store.items| := saved] == r1.store.items;
  }

  /** After a scoped save of a new tag, or of one present in the global
      list, the project's listing holds exactly one tag with that ID: the
      saved record. */
  lemma SaveInListedOnce(r: Repo, item: Tag, projectId: int)
    requires Valid(r)
    requires item.id == 0 || EntityStore.HasKey(r.store.items, item.id, Key)
    ensures var r' := SaveIn(r, item, projectId).0;
      && item.(id := SavedId(r, item)) in ListByProject(r', projectId)
      && EntityStore.CountKey(ListByProject(r', projectId), SavedId(r, item), Key) == 1
  {
    OperationsPreserveValid(r, item, projectId);
    var r' := SaveIn(r, item, projectId).0;
    var id := SavedId(r, item);
    var saved := item.(id := id);
    var ls := ListByProject(r', projectId);
    var k: int;
    if item.id == 0 {
      k := |r.store.items|;
    } else {
      k := EntityStore.FindIndex(r.store.items, item.id, Key).value;
    }
    assert r'.store.items[k] == saved;
    assert saved in ls;
    EntityStore.SubseqKeepsDistinct(ls, r'.store.items, Key);
    EntityStore.CountKeyDistinct(ls, id, Key);
  }

  /** A scoped save under an unknown nonzero ID records the association but
      creates no tag, so the project's listing does not show it. */
  lemma SaveInUnknownNotListed(r: Repo, item: Tag, projectId: int)
    requires item.id != 0
    requires !EntityStore.HasKey(r.store.items, item.id, Key)
    ensures var r' := SaveIn(r, item, projectId).0;
      && r'.store == r.store
      && item.id in r'.projectTags[projectId]
      && !EntityStore.HasKey(ListByProject(r', projectId), item.id, Key)
  {
  }

  /** After a global delete no project's listing shows the tag, and in a
      valid repository no association list names it. */
  lemma DeleteUnlists(r: Repo, item: Tag, projectId: int)
    requires Valid(r)
    ensures !EntityStore.HasKey(ListByProject(Delete(r, item).0, projectId), item.id, Key)
    ensures item.id !in Associated(Delete(r, item).0, projectId)
  {
  }

  /** After a scoped delete the tag is still in the global listing but no
      longer in the project's listing. */
  lemma DeleteInKeepsGlobal(r: Repo, item: Tag, projectId: int)
    requires Valid(r)
    ensures List(DeleteIn(r, item, projectId).0) == List(r)
    ensures !EntityStore.HasKey(ListByProject(DeleteIn(r, item, projectId).0, projectId), item.id, Key)
  {
  }

  /** The mutating calls a client can make on the repository. */
  datatype Op =
    | SaveOp(item: Tag)
    | SaveInOp(item: Tag, projectId: int)
    | DeleteOp(item: Tag)
    | DeleteInOp(item: Tag, projectId: int)

  function Apply(r: Repo, op: Op): Repo {
    match op
    case SaveOp(t) => Save(r, t).0
    case SaveInOp(t, p) => SaveIn(r, t, p).0
    case DeleteOp(t) => Delete(r, t).0
    case DeleteInOp(t, p) => DeleteIn(r, t, p).0
  }

  /** One call keeps the invariant and never lowers `nextId`. */
  lemma ApplyPreservesValid(r: Repo, op: Op)
    requires Valid(r)
    ensures Valid(Apply(r, op))
    ensures Apply(r, op).store.nextId >= r.store.nextId
  {
    match op {
      case SaveOp(t) => OperationsPreserveValid(r, t, 0);
      case SaveInOp(t, p) => OperationsPreserveValid(r, t, p);
      case DeleteOp(t) => OperationsPreserveValid(r, t, 0);
      case DeleteInOp(t, p) => OperationsPreserveValid(r, t, p);
    }
  }

  function Run(r: Repo, ops: seq<Op>): Repo
    decreases |ops|
  {
    if |ops| == 0 then r else Run(Apply(r, ops[0]), ops[1..])
  }

  /** From a valid repository, any sequence of calls leaves tag IDs
      positive, distinct and below `nextId`, association lists duplicate-free,
      and `nextId` never lower than it was. */
  lemma {:induction false} RunPreservesValid(r: Repo, ops: seq<Op>)
    requires Valid(r)
    ensures Valid(Run(r, ops))
    ensures Run(r, ops).store.nextId >= r.store.nextId
    decreases |ops|
  {
    if |ops| > 0 {
      ApplyPreservesValid(r, ops[0]);
      RunPreservesValid(Apply(r, ops[0]), ops[1..]);
    }
  }

  /** Appending tags to the global list, with the associations as they were,
      appends the new tags that the project is associated with. */
  lemma ListByProjectAppend(r: Repo, r': Repo, extra: seq<Tag>, projectId: int)
    requires r'.store.items == r.store.items + extra
    requires projectId in r.projectTags <==> projectId in r'.projectTags
    requires projectId in r.projectTags ==> r'.projectTags[projectId] == r.projectTags[projectId]
    ensures ListByProject(r', projectId)
      == ListByProject(r, projectId) + Filter(IdIn(Associated(r, projectId)), extra)
  {
    if projectId in r.projectTags {
      FilterAppend(IdIn(r.projectTags[projectId]), r.store.items, extra);
    } else {
      FilterNone(IdIn([]), extra);
    }
  }
}
