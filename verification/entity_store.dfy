/** The list-plus-counter store that every in-memory repository repeats:
    a `List<T>` of records and a `_nextId` that starts at 1.  The store is
    generic in the record type; each repository passes the accessor for the
    record's `ID` (`key`) and the record update that assigns it (`withKey`). */
module EntityStore {
  import opened Wrappers
  import opened Seqs

  datatype Store<T> = Store(items: seq<T>, nextId: int)

  /** A freshly constructed repository: no records, `_nextId = 1`. */
  function Empty<T>(): Store<T> {
    Store([], 1)
  }

  /** Some record carries the given ID. */
  ghost predicate HasKey<T>(items: seq<T>, id: int, key: T -> int) {
    exists i :: 0 <= i < |items| && key(items[i]) == id
  }

  /** `i` is the position of the first record carrying `id`. */
  ghost predicate IsFirstMatch<T>(items: seq<T>, id: int, key: T -> int, i: int) {
    && 0 <= i < |items|
    && key(items[i]) == id
    && forall j :: 0 <= j < i ==> key(items[j]) != id
  }

  /** No two records share an ID. */
  ghost predicate DistinctKeys<T>(items: seq<T>, key: T -> int) {
    forall i, j :: 0 <= i < j < |items| ==> key(items[i]) != key(items[j])
  }

  /** The store invariant: IDs are positive, pairwise distinct and below
      `nextId`, so a new save never reuses an ID. */
  ghost predicate Valid<T>(s: Store<T>, key: T -> int) {
    && 1 <= s.nextId
    && (forall i :: 0 <= i < |s.items| ==> 0 < key(s.items[i]) < s.nextId)
    && DistinctKeys(s.items, key)
  }

  /** A store with the same counter and, position by position, the same
      IDs as a valid store is valid. */
  lemma SameKeysPreserveValid<T>(s: Store<T>, s': Store<T>, key: T -> int)
    requires Valid(s, key)
    requires s'.nextId == s.nextId && |s'.items| == |s.items|
    requires forall i :: 0 <= i < |s.items| ==> key(s'.items[i]) == key(s.items[i])
    ensures Valid(s', key)
  {
  }

  /** The number of records carrying `id`. */
  function CountKey<T>(items: seq<T>, id: int, key: T -> int): (n: nat)
    ensures n <= |items|
    ensures n == 0 <==> !HasKey(items, id, key)
  {
    if |items| == 0 then 0
    else
      var rest := CountKey(items[1..], id, key);
      assert forall j :: 0 < j < |items| ==> items[j] == items[1..][j - 1];
      (if key(items[0]) == id then 1 else 0) + rest
  }

  /** `List<T>.FindIndex(x => x.ID == id)`, with `None` for -1. */
  function FindIndex<T>(items: seq<T>, id: int, key: T -> int): (r: Option<nat>)
    ensures r.None? <==> !HasKey(items, id, key)
    ensures r.Some? ==> IsFirstMatch(items, id, key, r.value)
  {
    if |items| == 0 then None
    else if key(items[0]) == id then Some(0)
    else
      assert forall j :: 0 < j < |items| ==> items[j] == items[1..][j - 1];
      match FindIndex(items[1..], id, key)
      case None => None
      case Some(j) => Some(j + 1)
  }

  /** `List<T>.RemoveAll(x => x.ID == id)`: the records kept. */
  function RemoveKey<T>(items: seq<T>, id: int, key: T -> int): (r: seq<T>)
    ensures |r| == |items| - CountKey(items, id, key)
    ensures forall i :: 0 <= i < |r| ==> r[i] in items && key(r[i]) != id
    ensures forall i :: 0 <= i < |items| && key(items[i]) != id ==> items[i] in r
    ensures Subseq(r, items)
    ensures !HasKey(items, id, key) ==> r == items
  {
    if |items| == 0 then []
    else
      var rest := RemoveKey(items[1..], id, key);
      assert items == [items[0]] + items[1..];
      if key(items[0]) == id then
        rest
      else
        var r := [items[0]] + rest;
        assert r[1..] == rest;
        r
  }

  /** Lookup by ID: the first record carrying `id`, or nothing. */
  ghost predicate GetOutcome<T>(items: seq<T>, id: int, key: T -> int, r: Option<T>) {
    && (r.None? <==> !HasKey(items, id, key))
    && (r.Some? ==> exists i :: IsFirstMatch(items, id, key, i) && r.value == items[i])
  }

  /** Save: ID 0 takes `nextId` and is appended; a nonzero ID replaces the
      first record with that ID in place, or changes nothing when there is
      none.  The returned ID is the record's ID after the save. */
  ghost predicate SaveOutcome<T>(s: Store<T>, item: T, key: T -> int, withKey: (T, int) -> T, s': Store<T>, id: int) {
    if key(item) == 0 then
      && id == s.nextId
      && s' == Store(s.items + [withKey(item, s.nextId)], s.nextId + 1)
    else
      && id == key(item)
      && s'.nextId == s.nextId
      && (!HasKey(s.items, id, key) ==> s'.items == s.items)
      && (forall i :: IsFirstMatch(s.items, id, key, i) ==> s'.items == s.items[i := item])
  }

  /** Delete: every record carrying `id` goes, the others stay in order, and
      the count removed is returned; `nextId` is never lowered. */
  ghost predicate DeleteOutcome<T>(s: Store<T>, id: int, key: T -> int, s': Store<T>, n: int) {
    && s'.nextId == s.nextId
    && n == CountKey(s.items, id, key)
    && |s'.items| == |s.items| - n
    && Subseq(s'.items, s.items)
    && (forall i :: 0 <= i < |s'.items| ==> s'.items[i] in s.items && key(s'.items[i]) != id)
    && (forall i :: 0 <= i < |s.items| && key(s.items[i]) != id ==> s.items[i] in s'.items)
  }

  function Get<T>(s: Store<T>, id: int, key: T -> int): (r: Option<T>)
    ensures GetOutcome(s.items, id, key, r)
  {
    match FindIndex(s.items, id, key)
    case None => None
    case Some(i) => Some(s.items[i])
  }

  function Save<T>(s: Store<T>, item: T, key: T -> int, withKey: (T, int) -> T): (r: (Store<T>, int))
    ensures SaveOutcome(s, item, key, withKey, r.0, r.1)
  {
    if key(item) == 0 then
      (Store(s.items + [withKey(item, s.nextId)], s.nextId + 1), s.nextId)
    else
      match FindIndex(s.items, key(item), key)
      case None => (s, key(item))
      case Some(i) => (s.(items := s.items[i := item]), key(item))
  }

  function Delete<T>(s: Store<T>, id: int, key: T -> int): (r: (Store<T>, nat))
    ensures DeleteOutcome(s, id, key, r.0, r.1)
    ensures !HasKey(s.items, id, key) ==> r == (s, 0)
  {
    var kept := RemoveKey(s.items, id, key);
    (s.(items := kept), |s.items| - |kept|)
  }

  /** Saving every record of `xs` in turn, collecting the returned IDs.
      When all of them are new they receive consecutive IDs from `nextId`. */
  function SaveAll<T>(s: Store<T>, xs: seq<T>, key: T -> int, withKey: (T, int) -> T): (r: (Store<T>, seq<int>))
    ensures |r.1| == |xs|
    ensures AllNew(xs, key) ==> r.0 == Store(s.items + Numbered(xs, s.nextId, withKey), s.nextId + |xs|)
    ensures AllNew(xs, key) ==> forall i :: 0 <= i < |xs| ==> r.1[i] == s.nextId + i
    decreases |xs|
  {
    if |xs| == 0 then
      assert s.items + Numbered(xs, s.nextId, withKey) == s.items;
      (s, [])
    else
      var (s1, id) := Save(s, xs[0], key, withKey);
      var (s2, ids) := SaveAll(s1, xs[1..], key, withKey);
      assert AllNew(xs, key) ==> AllNew(xs[1..], key);
      assert AllNew(xs, key) ==> Numbered(xs, s.nextId, withKey) == [withKey(xs[0], s.nextId)] + Numbered(xs[1..], s.nextId + 1, withKey);
      (s2, [id] + ids)
  }

  predicate AllNew<T>(xs: seq<T>, key: T -> int) {
    forall i :: 0 <= i < |xs| ==> key(xs[i]) == 0
  }

  /** The records of `xs` with consecutive IDs from `first`. */
  function Numbered<T>(xs: seq<T>, first: int, withKey: (T, int) -> T): (r: seq<T>)
  {
    seq(|xs|, i requires 0 <= i < |xs| => withKey(xs[i], first + i))
  }

  lemma NumberedAt<T>(xs: seq<T>, first: int, withKey: (T, int) -> T, i: nat)
    requires i < |xs|
    ensures |Numbered(xs, first, withKey)| == |xs|
    ensures Numbered(xs, first, withKey)[i] == withKey(xs[i], first + i)
  {
  }

  lemma NumberedCons<T>(xs: seq<T>, first: int, withKey: (T, int) -> T)
    requires |xs| > 0
    ensures Numbered(xs, first, withKey) == [withKey(xs[0], first)] + Numbered(xs[1..], first + 1, withKey)
  {
  }

  /** In a store with distinct IDs a present ID is carried by exactly one record. */
  lemma {:induction false} CountKeyDistinct<T>(items: seq<T>, id: int, key: T -> int)
    requires DistinctKeys(items, key)
    requires HasKey(items, id, key)
    ensures CountKey(items, id, key) == 1
  {
    assert items == [items[0]] + items[1..];
    if key(items[0]) == id {
      assert !HasKey(items[1..], id, key) by {
        forall j | 0 <= j < |items[1..]|
          ensures key(items[1..][j]) != id
        {
          assert items[1..][j] == items[j + 1];
        }
      }
    } else {
      var i :| 0 <= i < |items| && key(items[i]) == id;
      assert key(items[1..][i - 1]) == id;
      CountKeyDistinct(items[1..], id, key);
    }
  }

  /** Saving keeps the store invariant, provided `withKey` really assigns the ID. */
  lemma SavePreservesValid<T>(s: Store<T>, item: T, key: T -> int, withKey: (T, int) -> T)
    requires Valid(s, key)
    requires key(withKey(item, s.nextId)) == s.nextId
    ensures Valid(Save(s, item, key, withKey).0, key)
  {
    var s' := Save(s, item, key, withKey).0;
    if key(item) != 0 {
      if HasKey(s.items, key(item), key) {
        var i := FindIndex(s.items, key(item), key).value;
        assert s'.items == s.items[i := item];
        assert forall j :: 0 <= j < |s'.items| ==> key(s'.items[j]) == key(s.items[j]);
      }
    }
  }

  /** Deleting keeps the store invariant. */
  lemma DeletePreservesValid<T>(s: Store<T>, id: int, key: T -> int)
    requires Valid(s, key)
    ensures Valid(Delete(s, id, key).0, key)
  {
    var s' := Delete(s, id, key).0;
    SubseqKeepsDistinct(s'.items, s.items, key);
  }

  /** Dropping records never makes two IDs collide. */
  lemma {:induction false} SubseqKeepsDistinct<T>(a: seq<T>, b: seq<T>, key: T -> int)
    requires Subseq(a, b)
    requires DistinctKeys(b, key)
    ensures DistinctKeys(a, key)
    ensures forall i :: 0 <= i < |a| ==> a[i] in b
    decreases |b|
  {
    if |a| > 0 {
      assert DistinctKeys(b[1..], key) by {
        forall i, j | 0 <= i < j < |b[1..]|
          ensures key(b[1..][i]) != key(b[1..][j])
        {
          assert b[1..][i] == b[i + 1] && b[1..][j] == b[j + 1];
        }
      }
      if a[0] == b[0] {
        SubseqKeepsDistinct(a[1..], b[1..], key);
        forall j | 0 < j < |a|
          ensures key(a[0]) != key(a[j])
        {
          assert a[j] == a[1..][j - 1];
          var k :| 0 <= k < |b[1..]| && b[1..][k] == a[j];
          assert b[k + 1] == a[j];
        }
        forall i, j | 0 <= i < j < |a|
          ensures key(a[i]) != key(a[j])
        {
          if i > 0 {
            assert a[i] == a[1..][i - 1] && a[j] == a[1..][j - 1];
          }
        }
        forall i | 0 <= i < |a|
          ensures a[i] in b
        {
          if i > 0 {
            assert a[i] == a[1..][i - 1];
          }
        }
      } else {
        SubseqKeepsDistinct(a, b[1..], key);
      }
    }
  }

  /** With distinct IDs, every record is the first match for its own ID,
      so a lookup by that ID returns exactly it. */
  lemma GetStored<T>(s: Store<T>, i: int, key: T -> int)
    requires DistinctKeys(s.items, key)
    requires 0 <= i < |s.items|
    ensures IsFirstMatch(s.items, key(s.items[i]), key, i)
    ensures Get(s, key(s.items[i]), key) == Some(s.items[i])
  {
    var r := Get(s, key(s.items[i]), key);
    assert HasKey(s.items, key(s.items[i]), key);
    var j :| IsFirstMatch(s.items, key(s.items[i]), key, j) && r.value == s.items[j];
    assert j == i;
  }

  /** A record saved as new is found under the ID the save returned. */
  lemma SaveNewThenGet<T>(s: Store<T>, item: T, key: T -> int, withKey: (T, int) -> T)
    requires Valid(s, key)
    requires key(item) == 0
    requires key(withKey(item, s.nextId)) == s.nextId
    ensures Get(Save(s, item, key, withKey).0, Save(s, item, key, withKey).1, key) == Some(withKey(item, s.nextId))
  {
    var s' := Save(s, item, key, withKey).0;
    assert IsFirstMatch(s'.items, s.nextId, key, |s.items|);
  }

  /** After an update of a present ID, lookup returns the new record. */
  lemma SaveExistingThenGet<T>(s: Store<T>, item: T, key: T -> int, withKey: (T, int) -> T)
    requires key(item) != 0
    requires HasKey(s.items, key(item), key)
    ensures Get(Save(s, item, key, withKey).0, key(item), key) == Some(item)
  {
    var i := FindIndex(s.items, key(item), key).value;
    var s' := Save(s, item, key, withKey).0;
    assert IsFirstMatch(s'.items, key(item), key, i);
  }

  /** Deleting a present ID from a valid store removes exactly one record;
      afterwards nothing carries that ID. */
  lemma DeleteExisting<T>(s: Store<T>, id: int, key: T -> int)
    requires Valid(s, key)
    requires HasKey(s.items, id, key)
    ensures Delete(s, id, key).1 == 1
    ensures |Delete(s, id, key).0.items| == |s.items| - 1
    ensures Get(Delete(s, id, key).0, id, key) == None
  {
    CountKeyDistinct(s.items, id, key);
  }

  /** Saving a run of new records keeps the invariant: they take the IDs
      `nextId, nextId + 1, ...`, all fresh. */
  lemma SaveAllNewPreservesValid<T>(s: Store<T>, xs: seq<T>, key: T -> int, withKey: (T, int) -> T)
    requires Valid(s, key)
    requires AllNew(xs, key)
    requires forall i :: 0 <= i < |xs| ==> key(withKey(xs[i], s.nextId + i)) == s.nextId + i
    ensures Valid(SaveAll(s, xs, key, withKey).0, key)
  {
    NumberedKeys(xs, s.nextId, key, withKey);
    AppendConsecutiveValid(s, Numbered(xs, s.nextId, withKey), key);
  }

  lemma NumberedKeys<T>(xs: seq<T>, first: int, key: T -> int, withKey: (T, int) -> T)
    requires forall i :: 0 <= i < |xs| ==> key(withKey(xs[i], first + i)) == first + i
    ensures |Numbered(xs, first, withKey)| == |xs|
    ensures forall i :: 0 <= i < |xs| ==> key(Numbered(xs, first, withKey)[i]) == first + i
  {
  }

  /** Appending records numbered consecutively from `nextId` keeps the invariant. */
  lemma AppendConsecutiveValid<T>(s: Store<T>, ys: seq<T>, key: T -> int)
    requires Valid(s, key)
    requires forall i :: 0 <= i < |ys| ==> key(ys[i]) == s.nextId + i
    ensures Valid(Store(s.items + ys, s.nextId + |ys|), key)
  {
    var items := s.items + ys;
    var m := |s.items|;
    assert forall i :: m <= i < |items| ==> key(items[i]) == s.nextId + (i - m) by {
      forall i | m <= i < |items|
        ensures key(items[i]) == s.nextId + (i - m)
      {
        assert items[i] == ys[i - m];
      }
    }
    forall i, j | 0 <= i < j < |items|
      ensures key(items[i]) != key(items[j])
    {
      if j < m {
        assert items[i] == s.items[i] && items[j] == s.items[j];
      } else if i < m {
        assert items[i] == s.items[i];
      }
    }
  }
}
