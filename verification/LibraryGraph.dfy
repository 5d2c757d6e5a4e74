/** The linker's view of the loaded libraries, as values: who needs whom, who holds handles, and the
    invariants that tie the reference counts to both. */
module LibraryGraph {
  import opened SoPool

  /** The fields of a soinfo that loading and unloading use. `needed` is the list of resolved
      DT_NEEDED payloads, in the order of the dynamic section. */
  datatype SoInfo = SoInfo(name: string, linked: bool, error: bool, refcount: nat, needed: seq<Id>, called: bool)

  /** The load list and the slots; `handles` counts outstanding dlopen results, `rank` is the time at
      which a library was linked. */
  datatype Graph = Graph(loaded: seq<Id>, info: seq<SoInfo>, handles: seq<nat>, rank: seq<nat>, clock: nat)

  /** The name of the library that is always loaded. */
  const LIBDL := "libdl.so"

  predicate Usable(i: SoInfo) {
    i.linked && !i.error
  }

  /** Linking has ended, well or not. */
  predicate Done(i: SoInfo) {
    i.linked || i.error
  }

  /** The DT_NEEDED entries of listed libraries that point to x. */
  ghost function EdgesTo(loaded: seq<Id>, info: seq<SoInfo>, x: Id): nat
    requires |info| == SO_MAX + 1
  {
    if loaded == [] then 0
    else multiset(info[loaded[|loaded| - 1]].needed)[x] + EdgesTo(loaded[..|loaded| - 1], info, x)
  }

  /** A name denotes at most one listed library. */
  ghost predicate NamesDiffer(loaded: seq<Id>, info: seq<SoInfo>)
    requires |info| == SO_MAX + 1
  {
    forall x <- loaded, y <- loaded :: x != y ==> info[x].name != info[y].name
  }

  lemma NamesKept(loaded: seq<Id>, info: seq<SoInfo>, loaded': seq<Id>, info': seq<SoInfo>)
    requires |info| == SO_MAX + 1 == |info'| && NamesDiffer(loaded, info)
    requires forall x <- loaded' :: x in loaded && info'[x].name == info[x].name
    ensures NamesDiffer(loaded', info')
  {
  }

  ghost predicate Shape(g: Graph) {
    && |g.info| == SO_MAX + 1 && |g.handles| == SO_MAX + 1 && |g.rank| == SO_MAX + 1
    && |g.loaded| > 0 && g.loaded[0] == 0 && Distinct(g.loaded)
    && g.info[0].name == LIBDL && Usable(g.info[0]) && g.info[0].needed == [] && g.rank[0] == 0 && g.clock > 0
    && (forall x: Id :: g.handles[x] > 0 ==> x in g.loaded && Usable(g.info[x]))
    && NamesDiffer(g.loaded, g.info)
  }

  /** The rank of a library; one that is not linked yet will be linked later than all that are. */
  function RankOf(g: Graph, a: Id): nat
    requires |g.info| == SO_MAX + 1 && |g.rank| == SO_MAX + 1
  {
    if g.info[a].linked then g.rank[a] else g.clock
  }

  /** An edge leads from a listed library to a listed, usable one that was linked earlier. */
  ghost predicate EdgeOk(g: Graph, a: Id, b: Id)
    requires |g.info| == SO_MAX + 1 && |g.rank| == SO_MAX + 1
  {
    b in g.loaded && Usable(g.info[b]) && g.rank[b] < RankOf(g, a)
  }

  ghost predicate Ranked(g: Graph)
    requires |g.info| == SO_MAX + 1 && |g.rank| == SO_MAX + 1
  {
    && (forall a <- g.loaded :: g.info[a].linked ==> g.rank[a] < g.clock)
    && (forall a <- g.loaded :: forall b <- g.info[a].needed :: EdgeOk(g, a, b))
  }

  /** Each reference count is the handles plus the DT_NEEDED entries, plus one for a library whose
      last counted reference is just being dropped. */
  ghost predicate Counted(g: Graph, dropped: set<Id>)
    requires |g.info| == SO_MAX + 1 && |g.handles| == SO_MAX + 1
  {
    forall x <- g.loaded :: g.info[x].refcount
      == g.handles[x] + EdgesTo(g.loaded, g.info, x) + if x in dropped then 1 else 0
  }

  /** Every usable library is referenced, except libdl and the one just found. */
  ghost predicate Held(g: Graph, except: set<Id>)
    requires |g.info| == SO_MAX + 1
  {
    forall x <- g.loaded :: Usable(g.info[x]) && x != 0 && x !in except ==> g.info[x].refcount > 0
  }

  /** The invariant between calls of dlopen and dlclose. */
  ghost predicate Inv(g: Graph) {
    Shape(g) && Ranked(g) && Counted(g, {}) && Held(g, {})
  }

  // ---------------------------------------------------------------- counting edges

  lemma {:induction false} EdgesFrame(loaded: seq<Id>, info: seq<SoInfo>, si: Id, v: SoInfo, x: Id)
    requires |info| == SO_MAX + 1 && (si !in loaded || v.needed == info[si].needed)
    ensures EdgesTo(loaded, info[si := v], x) == EdgesTo(loaded, info, x)
  {
    if loaded != [] {
      EdgesFrame(loaded[..|loaded| - 1], info, si, v, x);
    }
  }

  /** Changing the entries of one listed library changes the count by the difference. */
  lemma {:induction false} EdgesChange(loaded: seq<Id>, info: seq<SoInfo>, si: Id, v: SoInfo, x: Id)
    requires |info| == SO_MAX + 1 && Distinct(loaded) && si in loaded
    ensures EdgesTo(loaded, info[si := v], x) + multiset(info[si].needed)[x]
      == EdgesTo(loaded, info, x) + multiset(v.needed)[x]
  {
    var last, rest := loaded[|loaded| - 1], loaded[..|loaded| - 1];
    assert loaded == rest + [last];
    if last == si {
      assert si !in rest;
      EdgesFrame(rest, info, si, v, x);
    } else {
      EdgesChange(rest, info, si, v, x);
    }
  }

  lemma {:induction false} EdgesAbsent(loaded: seq<Id>, info: seq<SoInfo>, x: Id)
    requires |info| == SO_MAX + 1 && forall a <- loaded :: x !in info[a].needed
    ensures EdgesTo(loaded, info, x) == 0
  {
    if loaded != [] {
      assert loaded[|loaded| - 1] in loaded;
      EdgesAbsent(loaded[..|loaded| - 1], info, x);
    }
  }

  /** Conversely, a count of zero means that no listed library needs x. */
  lemma {:induction false} NoEdges(loaded: seq<Id>, info: seq<SoInfo>, x: Id, a: Id)
    requires |info| == SO_MAX + 1 && EdgesTo(loaded, info, x) == 0 && a in loaded
    ensures x !in info[a].needed
  {
    var last, rest := loaded[|loaded| - 1], loaded[..|loaded| - 1];
    assert loaded == rest + [last];
    if a != last {
      NoEdges(rest, info, x, a);
    }
  }

  lemma InitialEdges(info: seq<SoInfo>)
    requires |info| == SO_MAX + 1 && info[0].needed == []
    ensures forall x: Id :: EdgesTo([0], info, x) == 0
  {
    assert [0][..0] == [];
  }

  lemma EdgesAppend(loaded: seq<Id>, info: seq<SoInfo>, si: Id, x: Id)
    requires |info| == SO_MAX + 1
    ensures EdgesTo(loaded + [si], info, x) == EdgesTo(loaded, info, x) + multiset(info[si].needed)[x]
  {
    assert (loaded + [si])[..|loaded|] == loaded;
  }

  /** Removing a library that needs nothing changes no count. */
  lemma {:induction false} EdgesWithout(loaded: seq<Id>, info: seq<SoInfo>, k: nat, x: Id)
    requires |info| == SO_MAX + 1 && k < |loaded| && info[loaded[k]].needed == []
    ensures EdgesTo(Without(loaded, k), info, x) == EdgesTo(loaded, info, x)
  {
    var last, rest := loaded[|loaded| - 1], loaded[..|loaded| - 1];
    if k == |loaded| - 1 {
      assert Without(loaded, k) == rest;
    } else {
      assert Without(loaded, k) == Without(rest, k) + [last];
      EdgesWithout(rest, info, k, x);
      EdgesAppend(Without(rest, k), info, last, x);
    }
  }

  // ---------------------------------------------------------------- loading

  /** The invariant while libraries are being loaded; `except` is a library found but not yet counted. */
  ghost predicate Loading(g: Graph, except: set<Id>) {
    Shape(g) && Ranked(g) && Counted(g, {}) && Held(g, except)
  }

  /** alloc_info: a zeroed slot at the end of the load list. */
  function Load(g: Graph, si: Id, name: string): Graph
    requires |g.info| == SO_MAX + 1
  {
    g.(loaded := g.loaded + [si], info := g.info[si := SoInfo(name, false, false, 0, [], false)])
  }

  lemma NamesLoaded(g: Graph, si: Id, name: string)
    requires |g.info| == SO_MAX + 1 && NamesDiffer(g.loaded, g.info) && si !in g.loaded && Unnamed(g, name)
    ensures NamesDiffer(Load(g, si, name).loaded, Load(g, si, name).info)
  {
  }

  /** No listed library has the name. */
  ghost predicate Unnamed(g: Graph, name: string)
    requires |g.info| == SO_MAX + 1
  {
    forall x <- g.loaded :: g.info[x].name != name
  }

  lemma LoadKeeps(g: Graph, si: Id, name: string)
    requires Loading(g, {}) && si !in g.loaded && Unnamed(g, name)
    ensures Loading(Load(g, si, name), {})
  {
    hide EdgesTo, NamesDiffer;
    NamesLoaded(g, si, name);
    var g' := Load(g, si, name);
    LoadCounts(g, si, name);
    forall a, b | a in g'.loaded && b in g'.info[a].needed ensures EdgeOk(g', a, b) {
      assert EdgeOk(g, a, b);
    }
  }

  lemma LoadCounts(g: Graph, si: Id, name: string)
    requires Shape(g) && Ranked(g) && Counted(g, {}) && si !in g.loaded
    ensures Counted(Load(g, si, name), {})
  {
    var v := SoInfo(name, false, false, 0, [], false);
    forall x | x in g.loaded + [si]
      ensures EdgesTo(g.loaded + [si], g.info[si := v], x) == EdgesTo(g.loaded, g.info, x)
    {
      EdgesAppend(g.loaded, g.info[si := v], si, x);
      EdgesFrame(g.loaded, g.info, si, v, x);
    }
    forall a | a in g.loaded ensures si !in g.info[a].needed {
      assert si in g.info[a].needed ==> EdgeOk(g, a, si);
    }
    EdgesAbsent(g.loaded, g.info, si);
    hide EdgesTo;
  }

  /** Stores a resolved DT_NEEDED entry and counts it. */
  function Need(g: Graph, si: Id, b: Id): Graph
    requires |g.info| == SO_MAX + 1
  {
    var info := g.info[si := g.info[si].(needed := g.info[si].needed + [b])];
    g.(info := info[b := info[b].(refcount := info[b].refcount + 1)])
  }

  lemma NeedEdges(g: Graph, si: Id, b: Id, x: Id)
    requires Shape(g) && si in g.loaded && si != b
    ensures EdgesTo(g.loaded, Need(g, si, b).info, x) == EdgesTo(g.loaded, g.info, x) + if x == b then 1 else 0
  {
    hide EdgesTo;
    var v := g.info[si].(needed := g.info[si].needed + [b]);
    var info := g.info[si := v];
    assert multiset(v.needed)[x] == multiset(g.info[si].needed)[x] + if x == b then 1 else 0;
    EdgesFrame(g.loaded, info, b, info[b].(refcount := info[b].refcount + 1), x);
    EdgesChange(g.loaded, g.info, si, v, x);
  }

  lemma NeedCounts(g: Graph, si: Id, b: Id)
    requires Shape(g) && Counted(g, {}) && si in g.loaded && b in g.loaded && si != b
    ensures Counted(Need(g, si, b), {})
  {
    hide EdgesTo;
    forall x | x in g.loaded
      ensures EdgesTo(g.loaded, Need(g, si, b).info, x) == EdgesTo(g.loaded, g.info, x) + if x == b then 1 else 0
    {
      NeedEdges(g, si, b, x);
    }
  }

  lemma NeedKeeps(g: Graph, si: Id, b: Id)
    requires Loading(g, {b}) && si in g.loaded && !g.info[si].linked && b in g.loaded && Usable(g.info[b])
    ensures Loading(Need(g, si, b), {})
  {
    hide EdgesTo, Counted, NamesDiffer;
    NamesKept(g.loaded, g.info, Need(g, si, b).loaded, Need(g, si, b).info);
    NeedCounts(g, si, b);
    var g' := Need(g, si, b);
    forall a, c | a in g'.loaded && c in g'.info[a].needed ensures EdgeOk(g', a, c) {
      assert c in g.info[a].needed || (a == si && c == b);
      assert c in g.info[a].needed ==> EdgeOk(g, a, c);
    }
  }

  /** The end of a successful link: the library becomes usable, later than all it needs. */
  function Link(g: Graph, si: Id): Graph
    requires |g.info| == SO_MAX + 1 && |g.rank| == SO_MAX + 1
  {
    g.(info := g.info[si := g.info[si].(linked := true)], rank := g.rank[si := g.clock], clock := g.clock + 1)
  }

  lemma LinkKeeps(g: Graph, si: Id)
    requires Loading(g, {}) && si in g.loaded && !g.info[si].linked && !g.info[si].error
    ensures Loading(Link(g, si), {si})
  {
    hide EdgesTo, Counted, NamesDiffer;
    NamesKept(g.loaded, g.info, Link(g, si).loaded, Link(g, si).info);
    var g' := Link(g, si);
    SameNeeds(g, g', {});
    forall a, c | a in g'.loaded && c in g'.info[a].needed ensures EdgeOk(g', a, c) {
      assert EdgeOk(g, a, c);
    }
  }

  /** A failed link; `late` when the failure comes after the library was marked linked. */
  function Fail(g: Graph, si: Id, late: bool): Graph
    requires |g.info| == SO_MAX + 1 && |g.rank| == SO_MAX + 1
  {
    g.(info := g.info[si := g.info[si].(linked := late, error := true)],
       rank := g.rank[si := g.clock], clock := g.clock + 1)
  }

  lemma FailKeeps(g: Graph, si: Id, late: bool)
    requires Loading(g, {}) && si in g.loaded && !g.info[si].linked && !g.info[si].error
    ensures Loading(Fail(g, si, late), {})
  {
    hide EdgesTo, Counted, NamesDiffer;
    NamesKept(g.loaded, g.info, Fail(g, si, late).loaded, Fail(g, si, late).info);
    var g' := Fail(g, si, late);
    SameNeeds(g, g', {});
    forall a, c | a in g'.loaded && c in g'.info[a].needed ensures EdgeOk(g', a, c) {
      assert EdgeOk(g, a, c);
    }
  }

  /** Flags do not matter to the counts. */
  lemma SameNeeds(g: Graph, g': Graph, dropped: set<Id>)
    requires Shape(g) && Counted(g, dropped) && |g'.info| == SO_MAX + 1
    requires g'.loaded == g.loaded && g'.handles == g.handles
    requires forall a <- g.loaded :: g'.info[a].needed == g.info[a].needed && g'.info[a].refcount == g.info[a].refcount
    ensures Counted(g', dropped)
  {
    forall x | x in g.loaded ensures EdgesTo(g.loaded, g'.info, x) == EdgesTo(g.loaded, g.info, x) {
      EdgesSame(g.loaded, g.info, g'.info, x);
    }
  }

  lemma {:induction false} EdgesSame(loaded: seq<Id>, info: seq<SoInfo>, info': seq<SoInfo>, x: Id)
    requires |info| == SO_MAX + 1 == |info'| && forall a <- loaded :: info'[a].needed == info[a].needed
    ensures EdgesTo(loaded, info', x) == EdgesTo(loaded, info, x)
  {
    if loaded != [] {
      assert loaded[|loaded| - 1] in loaded;
      EdgesSame(loaded[..|loaded| - 1], info, info', x);
    }
  }

  /** dlopen's own reference. */
  function Acquire(g: Graph, x: Id): Graph
    requires |g.info| == SO_MAX + 1 && |g.handles| == SO_MAX + 1
  {
    g.(info := g.info[x := g.info[x].(refcount := g.info[x].refcount + 1)], handles := g.handles[x := g.handles[x] + 1])
  }

  lemma AcquireKeeps(g: Graph, x: Id)
    requires Loading(g, {x}) && x in g.loaded && Usable(g.info[x])
    ensures Inv(Acquire(g, x))
  {
    hide NamesDiffer;
    NamesKept(g.loaded, g.info, Acquire(g, x).loaded, Acquire(g, x).info);
    var g' := Acquire(g, x);
    forall y | y in g.loaded ensures EdgesTo(g.loaded, g'.info, y) == EdgesTo(g.loaded, g.info, y) {
      EdgesSame(g.loaded, g.info, g'.info, y);
    }
    hide EdgesTo;
    forall a, c | a in g'.loaded && c in g'.info[a].needed ensures EdgeOk(g', a, c) {
      assert EdgeOk(g, a, c);
    }
  }

  /** What loading leaves as it was: only counts of listed libraries may grow, except for `but`. */
  ghost predicate Extends(g: Graph, g': Graph, but: set<Id>) {
    && |g.info| == SO_MAX + 1 == |g'.info|
    && g.loaded <= g'.loaded && g'.handles == g.handles
    && forall x <- g.loaded :: x !in but ==>
         g'.info[x] == g.info[x].(refcount := g'.info[x].refcount) && g.info[x].refcount <= g'.info[x].refcount
  }

  lemma ExtendsTransitive(g: Graph, g1: Graph, g2: Graph, but: set<Id>)
    requires Extends(g, g1, but) && Extends(g1, g2, but)
    ensures Extends(g, g2, but)
  {
    assert forall x <- g.loaded :: x in g1.loaded;
  }

  /** What an unlisted slot holds does not matter. */
  lemma StaleSlot(g: Graph, g': Graph, except: set<Id>, si: Id, v: SoInfo)
    requires Loading(g, except) && si !in g.loaded && g' == g.(info := g.info[si := v])
    ensures Loading(g', except)
  {
    hide NamesDiffer;
    NamesKept(g.loaded, g.info, g'.loaded, g'.info);
    forall x | x in g.loaded ensures EdgesTo(g.loaded, g'.info, x) == EdgesTo(g.loaded, g.info, x) {
      EdgesFrame(g.loaded, g.info, si, v, x);
    }
    hide EdgesTo;
    forall a, c | a in g'.loaded && c in g'.info[a].needed ensures EdgeOk(g', a, c) {
      assert EdgeOk(g, a, c);
    }
  }

  // ---------------------------------------------------------------- unloading

  /** The invariant while references are being dropped: the libraries in `dropped` are counted once
      more than they are referenced. */
  ghost predicate Unloading(g: Graph, dropped: set<Id>) {
    Shape(g) && Ranked(g) && Counted(g, dropped) && Held(g, {})
  }

  /** dlclose gives a handle back. */
  function Release(g: Graph, x: Id): Graph
    requires |g.handles| == SO_MAX + 1 && g.handles[x] > 0
  {
    g.(handles := g.handles[x := g.handles[x] - 1])
  }

  lemma ReleaseKeeps(g: Graph, x: Id)
    requires Inv(g) && g.handles[x] > 0
    ensures Unloading(Release(g, x), {x}) && x in g.loaded && Usable(g.info[x])
  {
    hide NamesDiffer;
    var g' := Release(g, x);
    hide EdgesTo;
    forall a, c | a in g'.loaded && c in g'.info[a].needed ensures EdgeOk(g', a, c) {
      assert EdgeOk(g, a, c);
    }
  }

  /** The dropped reference was not the last one. */
  function Decrement(g: Graph, x: Id): Graph
    requires |g.info| == SO_MAX + 1 && g.info[x].refcount > 0
  {
    g.(info := g.info[x := g.info[x].(refcount := g.info[x].refcount - 1)])
  }

  lemma DecrementKeeps(g: Graph, dropped: set<Id>, x: Id)
    requires Unloading(g, dropped) && x in dropped && x in g.loaded && g.info[x].refcount > 1
    ensures Unloading(Decrement(g, x), dropped - {x})
  {
    hide EdgesTo, NamesDiffer;
    NamesKept(g.loaded, g.info, Decrement(g, x).loaded, Decrement(g, x).info);
    var g' := Decrement(g, x);
    forall y | y in g.loaded ensures EdgesTo(g.loaded, g'.info, y) == EdgesTo(g.loaded, g.info, y) {
      EdgesSame(g.loaded, g.info, g'.info, y);
    }
    forall a, c | a in g'.loaded && c in g'.info[a].needed ensures EdgeOk(g', a, c) {
      assert EdgeOk(g, a, c);
    }
  }

  /** Clears the first remaining DT_NEEDED entry of a library that is being unloaded. */
  function PopNeeded(g: Graph, si: Id): Graph
    requires |g.info| == SO_MAX + 1 && g.info[si].needed != []
  {
    g.(info := g.info[si := g.info[si].(needed := g.info[si].needed[1..])])
  }

  lemma PopEdges(g: Graph, si: Id, x: Id)
    requires Shape(g) && si in g.loaded && g.info[si].needed != []
    ensures EdgesTo(g.loaded, g.info, x)
      == EdgesTo(g.loaded, PopNeeded(g, si).info, x) + if x == g.info[si].needed[0] then 1 else 0
  {
    hide EdgesTo;
    var needed := g.info[si].needed;
    var v := g.info[si].(needed := needed[1..]);
    assert needed == [needed[0]] + needed[1..];
    assert multiset(needed)[x] == multiset(needed[1..])[x] + if x == needed[0] then 1 else 0;
    EdgesChange(g.loaded, g.info, si, v, x);
  }

  lemma PopKeeps(g: Graph, dropped: set<Id>, si: Id)
    requires Unloading(g, dropped) && si in g.loaded && g.info[si].needed != [] && g.info[si].needed[0] !in dropped
    ensures var b := g.info[si].needed[0];
      && Unloading(PopNeeded(g, si), dropped + {b})
      && b in g.loaded && Usable(g.info[b]) && g.rank[b] < RankOf(g, si)
  {
    hide NamesDiffer;
    NamesKept(g.loaded, g.info, PopNeeded(g, si).loaded, PopNeeded(g, si).info);
    var g', b := PopNeeded(g, si), g.info[si].needed[0];
    hide EdgesTo;
    assert EdgeOk(g, si, b);
    forall x | x in g.loaded
      ensures EdgesTo(g.loaded, g.info, x) == EdgesTo(g.loaded, g'.info, x) + if x == b then 1 else 0
    {
      PopEdges(g, si, x);
    }
    forall a, c | a in g'.loaded && c in g'.info[a].needed ensures EdgeOk(g', a, c) {
      assert EdgeOk(g, a, c);
    }
  }

  /** free_info of a library that needs nothing any more and that nobody references. */
  function Remove(g: Graph, k: nat): Graph
    requires |g.info| == SO_MAX + 1 && k < |g.loaded|
  {
    var si := g.loaded[k];
    g.(loaded := Without(g.loaded, k), info := g.info[si := g.info[si].(refcount := 0)])
  }

  lemma RemoveEdges(g: Graph, k: nat, x: Id)
    requires Shape(g) && 0 < k < |g.loaded| && g.info[g.loaded[k]].needed == []
    ensures EdgesTo(Remove(g, k).loaded, Remove(g, k).info, x) == EdgesTo(g.loaded, g.info, x)
  {
    EdgesFrame(g.loaded, g.info, g.loaded[k], Remove(g, k).info[g.loaded[k]], x);
    EdgesWithout(g.loaded, Remove(g, k).info, k, x);
    hide EdgesTo, Without;
  }

  lemma RemoveKeeps(g: Graph, dropped: set<Id>, k: nat)
    requires Unloading(g, dropped) && 0 < k < |g.loaded| && g.info[g.loaded[k]].needed == []
    requires g.loaded[k] in dropped && g.info[g.loaded[k]].refcount == 1
    ensures Unloading(Remove(g, k), dropped - {g.loaded[k]})
  {
    hide EdgesTo, Without, NamesDiffer;
    var g', si := Remove(g, k), g.loaded[k];
    WithoutFacts(g.loaded, k);
    NamesKept(g.loaded, g.info, g'.loaded, g'.info);
    forall x | x in g'.loaded ensures EdgesTo(g'.loaded, g'.info, x) == EdgesTo(g.loaded, g.info, x) {
      RemoveEdges(g, k, x);
    }
    assert EdgesTo(g.loaded, g.info, si) == 0;
    forall a, c | a in g'.loaded && c in g'.info[a].needed ensures EdgeOk(g', a, c) {
      NoEdges(g.loaded, g.info, si, a);
      assert EdgeOk(g, a, c);
    }
  }

  lemma WithoutFacts(ids: seq<Id>, k: nat)
    requires Distinct(ids) && 0 < k < |ids|
    ensures Distinct(Without(ids, k)) && |Without(ids, k)| == |ids| - 1 && Without(ids, k)[0] == ids[0]
    ensures forall x: Id :: x in Without(ids, k) <==> x in ids && x != ids[k]
  {
    var rest := Without(ids, k);
    assert forall i :: 0 <= i < |rest| ==> rest[i] == ids[if i < k then i else i + 1];
    forall x: Id | x in ids && x != ids[k] ensures x in rest {
      var j :| 0 <= j < |ids| && ids[j] == x;
      assert rest[if j < k then j else j - 1] == x;
    }
  }

  // ---------------------------------------------------------------- what the invariant means

  /** A chain of DT_NEEDED entries. */
  ghost predicate Path(g: Graph, p: seq<Id>)
    requires |g.info| == SO_MAX + 1
  {
    && |p| > 0 && p[0] in g.loaded
    && forall i :: 0 <= i < |p| - 1 ==> p[i] in g.loaded && p[i + 1] in g.info[p[i]].needed
  }

  lemma {:induction false} PathDescends(g: Graph, p: seq<Id>)
    requires Shape(g) && Ranked(g) && Path(g, p) && |p| > 1
    ensures p[|p| - 1] in g.loaded && g.info[p[|p| - 1]].linked && g.rank[p[|p| - 1]] < RankOf(g, p[0])
  {
    var q := p[..|p| - 1];
    var a, b := q[|q| - 1], p[|p| - 1];
    assert a == p[|p| - 2] && p[|p| - 2 + 1] in g.info[a].needed;
    assert EdgeOk(g, a, b);
    if |q| > 1 {
      assert forall i :: 0 <= i < |q| ==> q[i] == p[i];
      PathDescends(g, q);
    }
  }

  /** The recorded dependency graph is acyclic, whatever cycles the DT_NEEDED names of the files form. */
  lemma Acyclic(g: Graph, p: seq<Id>)
    requires Shape(g) && Ranked(g) && Path(g, p) && |p| > 1
    ensures p[0] != p[|p| - 1]
  {
    PathDescends(g, p);
  }

  /** What keeps a library loaded by itself: a handle, a failed link (its slot is never reused), or being libdl. */
  ghost predicate Root(g: Graph, x: Id)
    requires |g.info| == SO_MAX + 1 && |g.handles| == SO_MAX + 1
  {
    x in g.loaded && (g.handles[x] > 0 || !Usable(g.info[x]) || x == 0)
  }

  ghost predicate Reaches(g: Graph, p: seq<Id>, x: Id)
    requires |g.info| == SO_MAX + 1 && |g.handles| == SO_MAX + 1
  {
    Path(g, p) && Root(g, p[0]) && p[|p| - 1] == x
  }

  lemma {:induction false} SomeEdge(loaded: seq<Id>, info: seq<SoInfo>, x: Id) returns (a: Id)
    requires |info| == SO_MAX + 1 && EdgesTo(loaded, info, x) > 0
    ensures a in loaded && x in info[a].needed
  {
    var last, rest := loaded[|loaded| - 1], loaded[..|loaded| - 1];
    if x in info[last].needed {
      a := last;
    } else {
      a := SomeEdge(rest, info, x);
    }
  }

  lemma {:induction false} LiveIsReachable(g: Graph, x: Id) returns (p: seq<Id>)
    requires Inv(g) && x in g.loaded
    ensures Reaches(g, p, x)
    decreases g.clock - RankOf(g, x)
  {
    if Root(g, x) {
      p := [x];
    } else {
      assert g.info[x].refcount > 0 && EdgesTo(g.loaded, g.info, x) > 0;
      var a := SomeEdge(g.loaded, g.info, x);
      assert EdgeOk(g, a, x);
      hide EdgesTo;
      var q := LiveIsReachable(g, a);
      p := q + [x];
      PathExtends(g, q, x);
    }
  }

  lemma PathExtends(g: Graph, q: seq<Id>, x: Id)
    requires |g.info| == SO_MAX + 1 && Path(g, q) && q[|q| - 1] in g.loaded && x in g.info[q[|q| - 1]].needed
    ensures Path(g, q + [x]) && (q + [x])[0] == q[0]
  {
  }

  /** Reference counting collects exactly the garbage: a library is listed if and only if a chain of
      DT_NEEDED entries leads to it from a handle, a failed library or libdl. */
  lemma LoadedIffReachable(g: Graph, x: Id)
    requires Inv(g)
    ensures x in g.loaded <==> exists p :: Reaches(g, p, x)
  {
    if x in g.loaded {
      var p := LiveIsReachable(g, x);
    }
    forall p | Reaches(g, p, x) ensures x in g.loaded {
      if |p| > 1 {
        PathDescends(g, p);
      }
    }
  }
}
