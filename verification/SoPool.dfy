/** The pool of soinfo slots of the linker: a load list and a free list threaded through one `next`
    field. Slot 0 stands for the static libdl_info, slot k + 1 for entry k of the pool. */
module SoPool {
  const SO_MAX: int := 128
  const NULL: int := -1

  type Id = i: int | 0 <= i <= SO_MAX

  /** What the `next` field of entry i of a list must be. */
  function Successor(ids: seq<Id>, i: nat): int
    requires i < |ids|
  {
    if i + 1 < |ids| then ids[i + 1] else NULL
  }

  /** The slots of a list that starts at `head`, in order, are `ids`. */
  ghost predicate IsList(next: seq<int>, head: int, ids: seq<Id>) {
    && |next| == SO_MAX + 1
    && head == (if ids == [] then NULL else ids[0])
    && (forall i :: 0 <= i < |ids| ==> next[ids[i]] == Successor(ids, i))
  }

  ghost predicate Distinct(ids: seq<Id>) {
    forall i, j :: 0 <= i < j < |ids| ==> ids[i] != ids[j]
  }

  /** The two lists are acyclic, the load list starts at libdl_info and ends at sonext, and together
      they are libdl_info and the first socount pool slots, each exactly once. */
  ghost predicate Partition(next: seq<int>, freelist: int, sonext: int, socount: int, loaded: seq<Id>, free: seq<Id>) {
    && 0 <= socount <= SO_MAX
    && IsList(next, 0, loaded) && IsList(next, freelist, free)
    && |loaded| > 0 && loaded[0] == 0 && sonext == loaded[|loaded| - 1]
    && Distinct(loaded + free)
    && (forall id: Id :: id in loaded + free <==> id <= socount)
  }

  /** A list that does not use a slot is unaffected by a write to it. */
  lemma ListFrame(next: seq<int>, head: int, ids: seq<Id>, id: Id, v: int)
    requires IsList(next, head, ids) && id !in ids
    ensures IsList(next[id := v], head, ids)
  {
  }

  lemma ListAppend(next: seq<int>, head: int, ids: seq<Id>, si: Id)
    requires IsList(next, head, ids) && ids != [] && Distinct(ids) && si !in ids
    ensures IsList(next[ids[|ids| - 1] := si][si := NULL], head, ids + [si])
  {
  }

  lemma ListTail(next: seq<int>, head: int, ids: seq<Id>)
    requires IsList(next, head, ids) && ids != []
    ensures IsList(next, next[head], ids[1..])
  {
    assert next[ids[0]] == Successor(ids, 0);
    forall i | 0 <= i < |ids| - 1 ensures next[ids[1..][i]] == Successor(ids[1..], i) {
      assert next[ids[i + 1]] == Successor(ids, i + 1);
    }
  }

  lemma ListPrepend(next: seq<int>, head: int, ids: seq<Id>, si: Id)
    requires IsList(next, head, ids) && si !in ids
    ensures IsList(next[si := head], si, [si] + ids)
  {
    var all := [si] + ids;
    forall i | 0 <= i < |all| ensures next[si := head][all[i]] == Successor(all, i) {
      if i > 0 {
        assert next[ids[i - 1]] == Successor(ids, i - 1);
      }
    }
  }

  function Without(ids: seq<Id>, k: nat): seq<Id>
    requires k < |ids|
  {
    ids[..k] + ids[k + 1..]
  }

  /** Unlinking a slot that is not the first. */
  lemma ListUnlink(next: seq<int>, head: int, ids: seq<Id>, k: nat)
    requires IsList(next, head, ids) && Distinct(ids) && 0 < k < |ids|
    ensures IsList(next[ids[k - 1] := next[ids[k]]], head, Without(ids, k))
  {
    var all, next' := Without(ids, k), next[ids[k - 1] := next[ids[k]]];
    assert next[ids[k]] == Successor(ids, k);
    forall i | 0 <= i < |all| ensures next'[all[i]] == Successor(all, i) {
      if i < k {
        assert next[ids[i]] == Successor(ids, i);
      } else {
        assert next[ids[i + 1]] == Successor(ids, i + 1);
      }
    }
  }

  // ---------------------------------------------------------------- the partition

  /** When the free list is empty, the next pool slot is put on it. */
  lemma PartitionGrow(next: seq<int>, sonext: int, socount: int, loaded: seq<Id>)
    requires Partition(next, NULL, sonext, socount, loaded, []) && socount < SO_MAX
    ensures Partition(next[socount + 1 := NULL], socount + 1, sonext, socount + 1, loaded, [socount + 1])
  {
    var si: Id := socount + 1;
    assert loaded + [] == loaded;
    assert si !in loaded;
    ListFrame(next, 0, loaded, si, NULL);
  }

  lemma PartitionAlloc(next: seq<int>, freelist: int, sonext: int, socount: int, loaded: seq<Id>, free: seq<Id>)
    requires Partition(next, freelist, sonext, socount, loaded, free) && free != []
    ensures Partition(next[sonext := freelist][freelist := NULL], next[freelist], freelist, socount,
                      loaded + [freelist], free[1..])
  {
    hide IsList, Distinct;
    FreeListHead(next, freelist, sonext, socount, loaded, free);
    AllocLists(next, freelist, sonext, loaded, free);
    assert loaded + [freelist] + free[1..] == loaded + free;
  }

  lemma AllocLists(next: seq<int>, freelist: Id, sonext: Id, loaded: seq<Id>, free: seq<Id>)
    requires IsList(next, 0, loaded) && IsList(next, freelist, free) && Distinct(loaded + free)
    requires loaded != [] && sonext == loaded[|loaded| - 1] && free != [] && freelist == free[0]
    ensures IsList(next[sonext := freelist][freelist := NULL], 0, loaded + [freelist])
    ensures IsList(next[sonext := freelist][freelist := NULL], next[freelist], free[1..])
  {
    SplitDistinct(loaded, free);
    assert freelist in free && sonext in loaded && free == [freelist] + free[1..];
    ListAppend(next, 0, loaded, freelist);
    ListTail(next, freelist, free);
    hide IsList, Distinct;
    ListFrame(next, next[freelist], free[1..], sonext, freelist);
    ListFrame(next[sonext := freelist], next[freelist], free[1..], freelist, NULL);
  }

  lemma PartitionFree(next: seq<int>, freelist: int, sonext: int, socount: int, loaded: seq<Id>, free: seq<Id>, k: nat)
    requires Partition(next, freelist, sonext, socount, loaded, free) && 0 < k < |loaded|
    ensures var si, prev := loaded[k], loaded[k - 1];
      Partition(next[prev := next[si]][si := freelist], si, if si == sonext then prev else sonext, socount,
                Without(loaded, k), [si] + free)
  {
    hide IsList;
    FreeLists(next, freelist, loaded, free, k);
    FreeSets(loaded, free, k);
    SplitDistinct(loaded, free);
    assert loaded[k] == sonext <==> k == |loaded| - 1;
    hide Distinct;
    var rest := Without(loaded, k);
    assert rest[|rest| - 1] == loaded[if k == |loaded| - 1 then k - 1 else |loaded| - 1];
  }

  lemma FreeLists(next: seq<int>, freelist: int, loaded: seq<Id>, free: seq<Id>, k: nat)
    requires IsList(next, 0, loaded) && IsList(next, freelist, free) && Distinct(loaded + free) && 0 < k < |loaded|
    ensures var si, prev := loaded[k], loaded[k - 1];
      var next' := next[prev := next[si]][si := freelist];
      IsList(next', 0, Without(loaded, k)) && IsList(next', si, [si] + free)
  {
    var si, prev := loaded[k], loaded[k - 1];
    SplitDistinct(loaded, free);
    assert si in loaded && prev in loaded && si !in Without(loaded, k);
    ListUnlink(next, 0, loaded, k);
    hide IsList, Distinct;
    ListFrame(next[prev := next[si]], 0, Without(loaded, k), si, freelist);
    ListFrame(next, freelist, free, prev, next[si]);
    ListPrepend(next[prev := next[si]], freelist, free, si);
  }

  /** Moving an entry from one list to the other keeps the entries distinct, and the same. */
  lemma FreeSets(loaded: seq<Id>, free: seq<Id>, k: nat)
    requires Distinct(loaded + free) && k < |loaded|
    ensures Distinct(Without(loaded, k) + ([loaded[k]] + free))
    ensures forall id: Id :: id in Without(loaded, k) + ([loaded[k]] + free) <==> id in loaded + free
  {
    SplitDistinct(loaded, free);
    var a, b := Without(loaded, k), [loaded[k]] + free;
    assert loaded == loaded[..k] + [loaded[k]] + loaded[k + 1..];
    forall i, j | 0 <= i < j < |a + b| ensures (a + b)[i] != (a + b)[j] {
      if j < |a| {
        assert a[i] == loaded[if i < k then i else i + 1] && a[j] == loaded[if j < k then j else j + 1];
      } else if i < |a| {
        assert a[i] == loaded[if i < k then i else i + 1] && a[i] in loaded;
        assert j > |a| ==> (a + b)[j] == free[j - |a| - 1];
      } else {
        assert loaded[k] in loaded && (a + b)[j] == free[j - |a| - 1];
        assert i > |a| ==> (a + b)[i] == free[i - |a| - 1];
      }
    }
  }

  /** A duplicate-free listing of 0, ..., n - 1 has n entries. */
  lemma {:induction false} ListingLength(ids: seq<Id>, n: nat)
    requires Distinct(ids) && n <= SO_MAX + 1 && forall id: Id :: id in ids <==> id < n
    ensures |ids| == n
  {
    if n == 0 {
      assert forall i :: 0 <= i < |ids| ==> ids[i] in ids;
    } else {
      var last: Id := n - 1;
      assert last in ids;
      var k :| 0 <= k < |ids| && ids[k] == last;
      var rest := Without(ids, k);
      forall id: Id ensures id in rest <==> id < n - 1 {
        if id in ids && id != last {
          var j :| 0 <= j < |ids| && ids[j] == id;
          assert rest[if j < k then j else j - 1] == id;
        }
      }
      ListingLength(rest, n - 1);
    }
  }

  lemma LoadedCount(next: seq<int>, freelist: int, sonext: int, socount: int, loaded: seq<Id>, free: seq<Id>)
    requires Partition(next, freelist, sonext, socount, loaded, free)
    ensures |loaded| + |free| == socount + 1
  {
    ListingLength(loaded + free, socount + 1);
  }

  lemma LoadListHead(next: seq<int>, freelist: int, sonext: int, socount: int, loaded: seq<Id>, free: seq<Id>)
    requires Partition(next, freelist, sonext, socount, loaded, free)
    ensures IsList(next, 0, loaded) && |next| == SO_MAX + 1 && |loaded| > 0 && loaded[0] == 0
  {
  }

  lemma ListNext(next: seq<int>, head: int, ids: seq<Id>, k: nat)
    requires IsList(next, head, ids) && k < |ids|
    ensures |next| == SO_MAX + 1 && next[ids[k]] == Successor(ids, k)
  {
  }

  lemma FreeListHead(next: seq<int>, freelist: int, sonext: int, socount: int, loaded: seq<Id>, free: seq<Id>)
    requires Partition(next, freelist, sonext, socount, loaded, free)
    ensures |next| == SO_MAX + 1 && socount <= SO_MAX
    ensures freelist == NULL <==> free == []
    ensures free != [] ==> freelist == free[0] && freelist !in loaded && 0 < freelist <= SO_MAX
  {
    SplitDistinct(loaded, free);
    assert loaded[0] in loaded;
    assert free != [] ==> free[0] in free;
  }

  lemma SplitDistinct(a: seq<Id>, b: seq<Id>)
    requires Distinct(a + b)
    ensures Distinct(a) && Distinct(b)
    ensures forall x :: x in a ==> x !in b
    ensures b != [] ==> b[0] !in b[1..]
  {
    assert forall i :: 0 <= i < |a| ==> (a + b)[i] == a[i];
    assert forall i :: 0 <= i < |b| ==> (a + b)[|a| + i] == b[i];
  }
}
