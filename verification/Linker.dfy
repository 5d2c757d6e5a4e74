/** dlopen and dlclose of the bionic linker. */
module Linker {
  import opened SoPool
  import opened LibraryGraph
  import opened LinkerLog
  import opened LibraryLoading
  import opened LibraryRemoval
  import opened LinkerRuns

  class Linker {
    const world: World
    var info: seq<SoInfo>
    /** The `next` fields of the slots, and the ends of the two lists that run through them. */
    var next: seq<int>
    var freelist: int
    var sonext: Id
    var socount: nat
    var attempts: nat
    var log: seq<Event>
    ghost var loaded: seq<Id>
    ghost var free: seq<Id>
    ghost var handles: seq<nat>
    ghost var rank: seq<nat>
    ghost var clock: nat

    ghost function View(): Graph
      reads this
    {
      Graph(loaded, info, handles, rank, clock)
    }

    ghost function Now(): Moment
      reads this
    {
      Moment(View(), log, attempts)
    }

    ghost predicate Lists()
      reads this
    {
      Partition(next, freelist, sonext, socount, loaded, free)
    }

    /** The invariant while libraries are loaded. */
    ghost predicate Loads(except: set<Id>)
      reads this
    {
      Lists() && Sound(View(), log, except)
    }

    /** The invariant between calls. */
    ghost predicate Valid()
      reads this
    {
      Loads({})
    }

    constructor (world: World)
      ensures Valid() && loaded == [0] && log == [] && attempts == 0 && this.world == world
      ensures handles == Tally([], []) && info[0] == SoInfo("libdl.so", true, false, 0, [], false)
    {
      this.world := world;
      info := seq(SO_MAX + 1, i => SoInfo(if i == 0 then LIBDL else "", i == 0, false, 0, [], false));
      next, freelist, sonext, socount := seq(SO_MAX + 1, i => NULL), NULL, 0, 0;
      loaded, free := [0], [];
      handles, rank := seq(SO_MAX + 1, i => 0), seq(SO_MAX + 1, i => 0);
      attempts, log, clock := 0, [], 1;
      new;
      InitialEdges(info);
    }

    // -------------------------------------------------------------- the two lists

    /** alloc_info, without the name: takes a slot off the free list, which is refilled from the pool
        when it is empty, and puts it at the end of the load list. */
    method AllocSlot() returns (si: int)
      requires Lists()
      modifies this`next, this`freelist, this`sonext, this`socount, this`loaded, this`free
      ensures Lists()
      ensures si == NULL <==> old(|loaded|) == 129
      ensures si == NULL ==> loaded == old(loaded)
      ensures si != NULL ==> 0 < si <= SO_MAX && si !in old(loaded) && loaded == old(loaded) + [si]
    {
      LoadedCount(next, freelist, sonext, socount, loaded, free);
      FreeListHead(next, freelist, sonext, socount, loaded, free);
      hide Partition;
      if freelist == NULL {
        if socount == SO_MAX {
          return NULL;
        }
        PartitionGrow(next, sonext, socount, loaded);
        socount := socount + 1;
        freelist := socount;
        next := next[freelist := NULL];
        free := [freelist];
      }
      FreeListHead(next, freelist, sonext, socount, loaded, free);
      PartitionAlloc(next, freelist, sonext, socount, loaded, free);
      si := freelist;
      freelist := next[freelist];
      next := next[sonext := si][si := NULL];
      sonext := si;
      loaded, free := loaded + [si], free[1..];
    }

    /** free_info: searches the load list for the slot, unlinks it and puts it on the free list.
        A slot that is not on the load list is reported and nothing changes. */
    method FreeSlot(si: Id) returns (found: bool, ghost k: nat)
      requires Lists() && si != 0
      modifies this`next, this`freelist, this`sonext, this`loaded, this`free
      ensures Lists() && found == (si in old(loaded))
      ensures !found ==> loaded == old(loaded) && free == old(free)
      ensures found ==> 0 < k < |old(loaded)| && old(loaded)[k] == si
      ensures found ==> loaded == Without(old(loaded), k) && free == [si] + old(free)
    {
      hide Partition;
      LoadListHead(next, freelist, sonext, socount, loaded, free);
      var prev;
      found, prev, k := FindSlot(si);
      if found {
        PartitionFree(next, freelist, sonext, socount, loaded, free, k);
        next := next[prev := next[si]][si := freelist];
        if si == sonext {
          sonext := prev;
        }
        freelist := si;
        loaded, free := Without(loaded, k), [si] + free;
      }
    }

    /** Walks the load list up to a slot, remembering the one before it. */
    method FindSlot(si: Id) returns (found: bool, prev: int, ghost k: nat)
      requires Lists() && si != 0
      ensures found == (si in loaded)
      ensures found ==> 0 < k < |loaded| && loaded[k] == si && prev == loaded[k - 1] && prev != si
    {
      hide Partition, IsList;
      LoadListHead(next, freelist, sonext, socount, loaded, free);
      prev, k := NULL, 0;
      var trav := 0;
      while trav != NULL && trav != si
        invariant 0 <= k <= |loaded| && trav == (if k < |loaded| then loaded[k] else NULL)
        invariant 0 < k ==> prev == loaded[k - 1] && prev != si
        invariant forall j :: 0 <= j < k ==> loaded[j] != si
        decreases |loaded| - k
      {
        ListNext(next, 0, loaded, k);
        prev := trav;
        trav := next[trav];
        k := k + 1;
      }
      found := trav != NULL;
    }

    // -------------------------------------------------------------- loading

    /** The search of the load list by name, with which find_library begins. */
    method Search(bname: string) returns (si: int)
      requires Lists() && |info| == SO_MAX + 1
      ensures si == NULL ==> forall x <- loaded :: info[x].name != bname
      ensures si != NULL ==> si in loaded && info[si].name == bname
    {
      hide Partition, IsList;
      LoadListHead(next, freelist, sonext, socount, loaded, free);
      si := 0;
      ghost var k := 0;
      while si != NULL && info[si].name != bname
        invariant 0 <= k <= |loaded| && si == (if k < |loaded| then loaded[k] else NULL)
        invariant forall j :: 0 <= j < k ==> info[loaded[j]].name != bname
        decreases |loaded| - k
      {
        ListNext(next, 0, loaded, k);
        si := next[si];
        k := k + 1;
      }
    }

    /** find_library: a library that is already linked, or one that is loaded and linked now. Nothing
        is found under a name that failed to link before or that is being linked. */
    method FindLibrary(path: string) returns (r: int)
      requires Loads({})
      modifies this
      ensures Loads(Found(r)) && Advances(world, old(Now()), Now(), {}, [path])
      ensures r != NULL ==> Serves(View(), r, path)
      ensures Searched(world, old(Now()), path, r, Now()) && Fetched(world, old(Now()), path, Now())
      decreases SO_MAX + 1 - |loaded|, 1
    {
      hide Sound, Advances, Partition, Basename, Placeable, Searched, Fetched, Serves, Extends, Distinct;
      ghost var m := Now();
      SoundFacts(m.g, log, {});
      var bname := Basename(path);
      var si := Search(bname);
      if si == NULL {
        r := LoadLibrary(path, bname);
      } else {
        AdvancesSelf(world, m, {});
        AdvancesWeaken(world, m, m, {}, {}, [], [path]);
        SearchedListed(world, m, path, si);
        FetchedNothing(world, m, path, m);
        r := if Usable(info[si]) then si else NULL;
        if r != NULL {
          ServesWhen(m.g, r, path);
        }
        SoundWeaken(View(), log, Found(r));
      }
    }

    /** load_library and init_library, for a name that is not on the load list. */
    method LoadLibrary(path: string, bname: string) returns (r: int)
      requires Loads({}) && |info| == SO_MAX + 1 && bname == Basename(path) && Unnamed(View(), bname)
      modifies this
      ensures Loads(Found(r)) && Advances(world, old(Now()), Now(), {}, [path])
      ensures r != NULL ==> Serves(View(), r, path)
      ensures Searched(world, old(Now()), path, r, Now()) && Fetched(world, old(Now()), path, Now())
      decreases SO_MAX + 1 - |loaded|, 0
    {
      hide Sound, Advances, Partition, Basename, Searched, Fetched, Serves, Fills, Untouched, Unnamed;
      ghost var m := Now();
      r := NULL;
      var outcome := world.look(path, attempts);
      attempts := attempts + 1;
      LoadedBound(next, freelist, sonext, socount, loaded, free);
      if outcome.NotFound? || |bname| >= SOINFO_NAME_LEN {
        UntouchedSelf(m.g);
        GrowsSelf(m.log);
        NothingLoaded(world, m, path, Now());
        return;
      }
      var si := AllocInfo(bname, outcome.Unmappable?, m);
      if si == NULL || outcome.Unmappable? {
        NothingLoaded(world, m, path, Now());
        return;
      }
      r := LinkNew(si, path, outcome, m);
    }

    /** init_library, for the slot that was filled last. */
    method LinkNew(si: Id, path: string, image: Outcome, ghost m: Moment) returns (r: int)
      requires Loads({}) && |m.g.info| == SO_MAX + 1 && image == world.look(path, m.attempts) && image.Image?
      requires Unnamed(m.g, Basename(path)) && Placeable(m.g, Basename(path), image)
      requires Fills(m, Now(), si, Basename(path)) && Pending(si) && info[si].needed == [] && |loaded| <= SO_MAX + 1
      modifies this
      ensures Loads(Found(r)) && Advances(world, m, Now(), {}, [path])
      ensures r != NULL ==> Serves(View(), r, path)
      ensures Searched(world, m, path, r, Now()) && Fetched(world, m, path, Now())
      decreases SO_MAX + 1 - |loaded|, 5
    {
      hide Sound, Advances, Partition, Basename, Searched, Fetched, Serves, Fills, Unnamed;
      hide Placeable, Entries, ImageOf, LoadedAs;
      ghost var m1 := Now();
      FillsName(m, m1, si, Basename(path));
      var linked := LinkImage(si, image);
      ImageHere(world, m, m1, Now(), si, path);
      LoadedHere(world, m, m1, Now(), si, path);
      AdvancesNew(world, m, m1, Now(), si, path);
      FetchedNew(world, m, path, si, Now());
      r := if linked then si else NULL;
      SearchedNew(world, m, path, si, r, Now());
      if linked {
        ServesWhen(View(), si, path);
      }
    }

    /** The slot for a new library; when its segments cannot be mapped, the slot is freed again. */
    method AllocInfo(name: string, unmappable: bool, ghost m: Moment) returns (si: int)
      requires Loads({}) && |info| == SO_MAX + 1 && Unnamed(View(), name)
      requires m.g == View() && m.log == log && m.attempts + 1 == attempts
      modifies this
      ensures Loads({}) && attempts == old(attempts)
      ensures si == NULL <==> old(|loaded|) == SO_MAX + 1
      ensures si == NULL || unmappable ==> Untouched(m.g, View()) && Grows(m.log, log)
      ensures si != NULL && !unmappable ==> 0 < si <= SO_MAX && Fills(m, Now(), si, name)
      ensures si != NULL && !unmappable ==> Pending(si) && info[si].needed == [] && |loaded| == old(|loaded|) + 1
    {
      hide Sound, Extends, Partition, Without, Grows;
      ghost var g := View();
      SoundFacts(g, log, {});
      GrowsSelf(log);
      si := AllocSlot();
      if si != NULL {
        info := info[si := SoInfo(name, false, false, 0, [], false)];
        GrowsBy(log, LinkerLog.Loads(si));
        log := log + [LinkerLog.Loads(si)];
        if unmappable {
          SoundSpoilt(g, old(log), si, name);
          ghost var k;
          var freed;
          freed, k := FreeSlot(si);
          WithoutLast(g.loaded, si, k);
        } else {
          SoundLoad(g, old(log), si, name);
        }
      }
    }

    /** link_image: resolves the DT_NEEDED names one by one, falling back to libdl, then relocates. */
    method LinkImage(si: Id, image: Outcome) returns (ok: bool)
      requires Loads({}) && image.Image? && Pending(si) && info[si].needed == []
      modifies this
      ensures Loads(if ok then {si} else {}) && Advances(world, old(Now()), Now(), {si}, image.needed)
      ensures |info| == SO_MAX + 1 && si in loaded && info[si].name == old(info[si].name)
      ensures EndsAs(info[si], image.result) && ok == (image.result == Links)
      ensures Entries(world, old(Now()), Now(), info[si].needed, image)
      decreases SO_MAX + 1 - |loaded|, 4
    {
      hide Sound, Advances, Partition, Resolved, Later;
      ghost var m := Now();
      if image.result == NoTables {
        ok := FinishLink(si, NoTables);
        AdvancesWeaken(world, m, Now(), {si}, {si}, [], image.needed);
        return;
      }
      NeedAll(si, image.needed);
      ghost var m1 := Now();
      ok := FinishLink(si, image.result);
      AdvancesLater(world, m, m1, {si}, image.needed);
      AdvancesLater(world, m1, Now(), {si}, []);
      LaterEnds(m, m1);
      ResolvedWiden(world, m, m, m1, Now(), info[si].needed, image.needed);
      AdvancesTransitive(world, m, m1, Now(), {si}, image.needed, []);
      assert image.needed + [] == image.needed;
    }

    /** The loop over DT_NEEDED: each entry is stored and counted as soon as it is resolved. */
    method NeedAll(si: Id, names: seq<string>)
      requires Loads({}) && Pending(si) && info[si].needed == []
      modifies this
      ensures Loads({}) && Advances(world, old(Now()), Now(), {si}, names)
      ensures Pending(si) && info[si].name == old(info[si].name)
      ensures Resolved(world, old(Now()), Now(), info[si].needed, names)
      decreases SO_MAX + 1 - |loaded|, 3
    {
      hide Sound, Advances, Partition, Resolved, Later, NewEntry;
      ghost var m := Now();
      ResolvedNone(world, m);
      AdvancesSelf(world, m, {si});
      assert names[..0] == [];
      for k := 0 to |names|
        invariant Loads({}) && Advances(world, m, Now(), {si}, names[..k])
        invariant Pending(si) && info[si].name == old(info[si].name)
        invariant Resolved(world, m, Now(), info[si].needed, names[..k])
        invariant |loaded| >= old(|loaded|)
      {
        ghost var m1 := Now();
        LoadedBound(next, freelist, sonext, socount, loaded, free);
        NeedOne(si, names[k]);
        AdvancesLater(world, m, m1, {si}, names[..k]);
        AdvancesLater(world, m1, Now(), {si}, [names[k]]);
        ResolvedMore(world, m, m1, Now(), si, names, k);
        AdvancesTransitive(world, m, m1, Now(), {si}, names[..k], [names[k]]);
        assert names[..k] + [names[k]] == names[..k + 1];
      }
      assert names[..|names|] == names;
    }

    /** A library that is being linked. */
    ghost predicate Pending(si: Id)
      reads this
    {
      |info| == SO_MAX + 1 && si in loaded && !info[si].linked && !info[si].error
    }

    /** One DT_NEEDED entry; libdl stands in for a library that cannot be found. */
    method NeedOne(si: Id, path: string)
      requires Loads({}) && Pending(si)
      modifies this
      ensures Loads({}) && Advances(world, old(Now()), Now(), {si}, [path])
      ensures Pending(si) && info[si].name == old(info[si].name) && |loaded| >= old(|loaded|)
      ensures NewEntry(world, old(Now()), Now(), si, path)
      decreases SO_MAX + 1 - |loaded|, 2
    {
      hide Sound, Advances, Partition, Searched, Fetched, NewEntry, Later, Serves, Extends, Distinct;
      ghost var m := Now();
      var r := FindLibrary(path);
      ghost var m1 := Now();
      AdvancesAt(world, m, m1, si, [path]);
      AdvancesWeaken(world, m, m1, {}, {si}, [path], [path]);
      var lsi: Id := 0;
      SoundFacts(m1.g, log, Found(r));
      if r != NULL {
        ServesFacts(m1.g, r, path);
        lsi := r;
      } else {
        SoundWeaken(m1.g, log, {0});
      }
      CountNeeded(si, lsi);
      AdvancesLater(world, m, m1, {si}, [path]);
      AdvancesLater(world, m1, Now(), {si}, []);
      EntryChosen(world, m, m1, Now(), si, lsi, path, r);
      AdvancesTransitive(world, m, m1, Now(), {si}, [path], []);
      assert [path] + [] == [path];
    }

    /** Stores the address of a library at the end of the needed list and counts the reference. */
    method CountNeeded(si: Id, lsi: Id)
      requires Loads({lsi}) && Pending(si) && lsi in loaded && Usable(info[lsi])
      modifies this`info, this`log
      ensures Loads({}) && Advances(world, old(Now()), Now(), {si}, [])
      ensures Pending(si) && info[si].name == old(info[si].name)
      ensures info[si].needed == old(info[si].needed) + [lsi] && log == old(log) + [Needs(si, lsi)]
    {
      hide Sound, Extends, Partition, Advances, Grows;
      ghost var m := Now();
      SoundNeed(View(), log, si, lsi);
      GrowsBy(log, Needs(si, lsi));
      info := info[si := info[si].(needed := info[si].needed + [lsi])];
      info := info[lsi := info[lsi].(refcount := info[lsi].refcount + 1)];
      log := log + [Needs(si, lsi)];
      AdvancesPlain(world, m, Now(), {si});
    }

    /** The rest of link_image: relocation, the linked flag, and the protection of RELRO. */
    method FinishLink(si: Id, result: LinkResult) returns (ok: bool)
      requires Loads({}) && Pending(si)
      modifies this
      ensures Loads(if ok then {si} else {}) && Advances(world, old(Now()), Now(), {si}, [])
      ensures |info| == SO_MAX + 1 && si in loaded && info[si].name == old(info[si].name)
      ensures info[si].needed == old(info[si].needed) && EndsAs(info[si], result) && ok == (result == Links)
    {
      hide Sound, Extends, Partition, Advances, Grows;
      ghost var m := Now();
      SoundFacts(m.g, log, {});
      GrowsSelf(log);
      ok := result == Links;
      if ok {
        SoundLink(m.g, log, si);
      } else {
        SoundFail(m.g, log, si, result == RelroFails);
      }
      info := info[si := info[si].(linked := result == Links || result == RelroFails, error := result != Links)];
      rank, clock := rank[si := clock], clock + 1;
      assert View() == if ok then Link(m.g, si) else Fail(m.g, si, result == RelroFails);
      AdvancesPlain(world, m, Now(), {si});
    }

    // -------------------------------------------------------------- constructors

    /** A library whose constructors may be called: those that are running belong to libraries linked later. */
    ghost predicate Ready(si: Id, busy: set<Id>)
      reads this
    {
      && |info| == SO_MAX + 1 == |rank| && si in loaded && Usable(info[si])
      && forall a <- busy :: rank[a] > rank[si]
    }

    /** call_constructors_recursive: nothing if the library is marked; otherwise it is marked, and its
        own constructors follow those of everything it needs. */
    method CallConstructors(si: Id, ghost except: set<Id>, ghost busy: set<Id>)
      requires Running(View(), log, except, busy) && Ready(si, busy)
      modifies this`info, this`log
      ensures Running(View(), log, except, busy) && Inited(log, si)
      ensures Calls(old(View()), old(log), View(), log)
      decreases rank[si], 1
    {
      hide Running, Calls, Inited;
      CallsSelf(View(), log);
      RunningMarked(View(), log, except, busy, si);
      if !info[si].called {
        ghost var g, log0 := View(), log;
        RunningCall(g, log, except, busy, si);
        info := info[si := info[si].(called := true)];
        log := log + [Preinit(si)];
        ghost var g1, log1 := View(), log;
        CallNeeded(si, except, busy);
        CallsTransitive(g, log0, g1, log1, View(), log);
        ghost var log2 := log;
        CallsAt(g1, log1, View(), log, si);
        RunningInit(View(), log, except, busy, si);
        log := log + [Init(si)];
        CallsTransitive(g, log0, View(), log2, View(), log);
      }
    }

    /** The loop over DT_NEEDED: the constructors of every needed library. */
    method CallNeeded(si: Id, ghost except: set<Id>, ghost busy: set<Id>)
      requires Running(View(), log, except, busy + {si}) && Ready(si, busy)
      modifies this`info, this`log
      ensures Running(View(), log, except, busy + {si}) && |info| == SO_MAX + 1
      ensures forall b <- info[si].needed :: Inited(log, b)
      ensures Calls(old(View()), old(log), View(), log)
      decreases rank[si], 0
    {
      hide Running, Calls, Inited;
      CallsSelf(View(), log);
      var needed := info[si].needed;
      for j := 0 to |needed|
        invariant Running(View(), log, except, busy + {si}) && Calls(old(View()), old(log), View(), log)
        invariant Ready(si, busy) && info[si].needed == needed
        invariant forall i :: 0 <= i < j ==> Inited(log, needed[i])
      {
        ghost var g, log0 := View(), log;
        RunningFacts(g, log, except, busy + {si});
        assert EdgeOk(g, si, needed[j]);
        CallConstructors(needed[j], except, busy + {si});
        CallsTransitive(old(View()), old(log), g, log0, View(), log);
        CallsAt(g, log0, View(), log, si);
      }
    }

    // -------------------------------------------------------------- unloading

    /** The invariant while references are being dropped. */
    ghost predicate Drops(dying: set<Id>, ended: set<Id>)
      reads this
    {
      Lists() && Dropping(View(), log, dying, ended)
    }

    /** A library one reference to which is being dropped; the others being dropped were linked later. */
    ghost predicate Dying(si: Id, dying: set<Id>)
      reads this
    {
      && |info| == SO_MAX + 1 && |rank| == SO_MAX + 1 && si in dying && si in loaded && Usable(info[si])
      && forall a <- dying :: a != si ==> rank[a] > rank[si]
    }

    /** unload_library. It drops one reference; with the last one the destructors are called, the
        needed libraries are unloaded and the slot is freed. libdl has no dynamic section, and the walk
        over it ends the process: `crashed`. */
    method Unload(si: Id, ghost dying: set<Id>, ghost keep: set<Id>) returns (crashed: bool)
      requires Drops(dying, dying - {si}) && Dying(si, dying) && Supported(View(), keep)
      modifies this
      ensures !crashed ==> Drops(dying - {si}, dying - {si}) && Trims(old(View()), View(), old(rank[si]), keep, {})
      ensures !crashed ==> Finalized(old(loaded), old(log), loaded, log, {}) && attempts == old(attempts)
      ensures crashed ==> Unheld(old(View()), keep)
      decreases rank[si], 2
    {
      hide Dropping, Trims, Supported, Partition, Unheld, Finalized;
      ghost var g := View();
      if info[si].refcount == 1 {
        if si == 0 {
          UnheldLast(g, log, dying, dying - {si}, keep);
          return true;
        }
        DropFini(g, log, dying, dying - {si}, keep, si);
        assert dying - {si} + {si} == dying;
        log := log + [Fini(si)];
        ghost var log1 := log;
        crashed := UnloadNeeded(si, dying, keep);
        if !crashed {
          FinalizedFini(g.loaded, old(log), si);
          TrimsLoaded(g, View(), old(rank[si]), keep, {si});
          FinalizedThen(g.loaded, old(log), g.loaded, log1, loaded, log, {si});
          FreeUnloaded(si, dying, keep, g, old(log));
        }
      } else {
        DropDecrement(g, log, dying, dying - {si}, keep, si);
        FinalizedSelf(loaded, log);
        info := info[si := info[si].(refcount := info[si].refcount - 1)];
        crashed := false;
      }
    }

    /** The loop over the dynamic section: each DT_NEEDED entry is cleared and its library unloaded. */
    method UnloadNeeded(si: Id, ghost dying: set<Id>, ghost keep: set<Id>) returns (crashed: bool)
      requires Drops(dying, dying) && Dying(si, dying) && Supported(View(), keep) && si != 0 && si !in keep
      requires info[si].refcount == 1
      modifies this
      ensures !crashed ==> Drops(dying, dying) && Dying(si, dying) && info[si].needed == [] && info[si].refcount == 1
      ensures !crashed ==> Trims(old(View()), View(), old(rank[si]), keep, {si}) && attempts == old(attempts)
      ensures !crashed ==> Finalized(old(loaded), old(log), loaded, log, {})
      ensures crashed ==> Unheld(old(View()), keep)
      decreases rank[si], 1
    {
      hide Dropping, Trims, Supported, Partition, Unheld, Finalized;
      TrimsSelf(View(), rank[si], keep, {si});
      FinalizedSelf(loaded, log);
      while info[si].needed != []
        invariant Drops(dying, dying) && Dying(si, dying) && Supported(View(), keep)
        invariant rank == old(rank) && info[si].refcount == 1 && attempts == old(attempts)
        invariant Trims(old(View()), View(), old(rank[si]), keep, {si})
        invariant Finalized(old(loaded), old(log), loaded, log, {})
        decreases |info[si].needed|
      {
        crashed := UnloadFirst(si, dying, keep, old(View()), old(log));
        if crashed {
          return;
        }
      }
      crashed := false;
    }

    /** One DT_NEEDED entry of a library that is being unloaded. */
    method UnloadFirst(si: Id, ghost dying: set<Id>, ghost keep: set<Id>, ghost g: Graph, ghost before: seq<Event>)
        returns (crashed: bool)
      requires Drops(dying, dying) && Dying(si, dying) && Supported(View(), keep) && si != 0 && si !in keep
      requires info[si].refcount == 1 && info[si].needed != []
      requires Trims(g, View(), rank[si], keep, {si}) && Finalized(g.loaded, before, loaded, log, {})
      modifies this
      ensures !crashed ==> Drops(dying, dying) && Dying(si, dying) && Supported(View(), keep)
      ensures !crashed ==> rank == old(rank) && info[si] == old(info[si].(needed := info[si].needed[1..]))
      ensures !crashed ==> Trims(g, View(), rank[si], keep, {si}) && attempts == old(attempts)
      ensures !crashed ==> Finalized(g.loaded, before, loaded, log, {})
      ensures crashed ==> Unheld(g, keep)
      decreases rank[si], 0
    {
      hide Dropping, Trims, Supported, Partition, Unheld, Finalized;
      ghost var log0 := log;
      var lsi := info[si].needed[0];
      PopFirst(View(), log, dying, keep, si, g);
      info := info[si := info[si].(needed := info[si].needed[1..])];
      ghost var g1 := View();
      assert dying + {lsi} - {lsi} == dying;
      crashed := Unload(lsi, dying + {lsi}, keep);
      if crashed {
        UnheldBefore(g, g1, g1.rank[si], keep, {si});
      } else {
        TrimsAt(g1, View(), g1.rank[lsi], keep, si);
        SupportedTrims(g1, View(), g1.rank[lsi], keep, {});
        TrimsTransitive(g, g1, View(), g1.rank[lsi], g1.rank[si], keep, {si});
        TrimsLoaded(g, g1, g1.rank[si], keep, {si});
        TrimsLoaded(g1, View(), g1.rank[lsi], keep, {});
        FinalizedThen(g.loaded, before, g1.loaded, log0, loaded, log, {});
      }
    }

    /** The slot of an unloaded library goes back to the free list. */
    method FreeUnloaded(si: Id, ghost dying: set<Id>, ghost keep: set<Id>, ghost g: Graph, ghost before: seq<Event>)
      requires Drops(dying, dying) && Dying(si, dying) && si != 0 && si !in keep
      requires info[si].refcount == 1 && info[si].needed == []
      requires |g.rank| == SO_MAX + 1 && Trims(g, View(), g.rank[si], keep, {si})
      requires Finalized(g.loaded, before, loaded, log, {si})
      modifies this
      ensures Drops(dying - {si}, dying - {si}) && Trims(g, View(), g.rank[si], keep, {}) && log == old(log)
      ensures Finalized(g.loaded, before, loaded, log, {}) && attempts == old(attempts)
    {
      hide Dropping, Trims, Partition, Finalized;
      ghost var g1 := View();
      DropFacts(g1, log, dying, dying);
      var found;
      ghost var k;
      found, k := FreeSlot(si);
      DropRemove(g1, log, dying, dying, k);
      TrimsLoaded(g, g1, g.rank[si], keep, {si});
      FinalizedRemoved(g.loaded, before, g1.loaded, log, k);
      TrimsRemove(g, g1, keep, k);
      info := info[si := info[si].(refcount := 0)];
    }

    // -------------------------------------------------------------- dlopen and dlclose

    /** dlopen, as far as the linker's own libraries go: NULL stands for the fallback to the host. */
    method DlOpen(path: string) returns (r: int)
      requires Valid()
      modifies this
      ensures Valid() && Opened(world, old(Now()), path, r, Now())
    {
      hide Sound, Advances, Partition, Serves, Searched, Fetched, Opened, Extends, Distinct;
      LoadedBound(next, freelist, sonext, socount, loaded, free);
      ghost var m := Now();
      SoundFacts(m.g, log, {});
      r := FindLibrary(path);
      if r != NULL {
        ServesFacts(View(), r, path);
        Construct(r, path, m);
      } else {
        OpenedNothing(world, m, path, Now());
      }
    }

    /** The rest of dlopen, for a library that was found: constructors, then dlopen's own reference. */
    method Construct(r: Id, path: string, ghost m: Moment)
      requires Loads({r}) && Advances(world, m, Now(), {}, [path]) && |m.g.handles| == SO_MAX + 1
      requires Serves(View(), r, path) && Searched(world, m, path, r, Now()) && Fetched(world, m, path, Now())
      modifies this`info, this`log, this`handles
      ensures Valid() && Opened(world, m, path, r, Now())
    {
      hide Sound, Advances, Partition, Running, Calls, Inited, Opened, Searched, Fetched, Extends, Distinct, Serves;
      ghost var m1 := Now();
      SoundFacts(m1.g, log, {r});
      ServesFacts(m1.g, r, path);
      SoundRunning(m1.g, log, {r});
      CallConstructors(r, {r}, {});
      ServesCalled(m1.g, m1.log, View(), log, r, path);
      Retained(world, m, m1, View(), log, r, path);
      Retain(r);
    }

    /** dlopen's own reference. */
    method Retain(r: Id)
      requires |info| == SO_MAX + 1 == |handles|
      modifies this`info, this`handles
      ensures View() == Acquire(old(View()), r)
    {
      info := info[r := info[r].(refcount := info[r].refcount + 1)];
      handles := handles[r := handles[r] + 1];
    }

    /** dlclose of a handle that dlopen returned and that is still open. Exactly the libraries that
        nothing leads to any more are gone. It crashes exactly when this ends the last reference to libdl. */
    method DlClose(handle: Id) returns (crashed: bool)
      requires Valid() && |handles| == SO_MAX + 1 && handles[handle] > 0
      modifies this
      ensures crashed == LosesLibdl(old(View()), handle)
      ensures !crashed ==> Valid() && Closes(old(View()), View(), handle)
      ensures !crashed ==> Finalized(old(loaded), old(log), loaded, log, {}) && attempts == old(attempts)
    {
      hide Sound, Dropping, Partition, Trims, Supported, Unheld, Survivors, Unloading, Agrees, Finalized;
      ghost var g := View();
      SoundFacts(g, log, {});
      BeginClose(g, log, handle);
      assert {handle} - {handle} == {};
      handles := handles[handle := handles[handle] - 1];
      ghost var g1 := View();
      ghost var keep := Survivors(g1);
      crashed := Unload(handle, {handle}, keep);
      if crashed {
        ClosesCrashed(g, handle);
      } else {
        DroppedAll(View(), log);
        ClosesExactly(g, View(), log, handle);
      }
    }

    /** Any client of the two calls, closing only what it has opened. Whatever it asks for, each request
        is answered as dlopen and dlclose promise, the client's books of open handles are right, and
        the run ends early exactly at a close that ends the last reference to libdl. */
    method Serve(requests: seq<Request>)
        returns (results: seq<int>, open: seq<nat>, crashed: bool, ghost trace: seq<Moment>)
      requires Valid() && handles == Tally([], [])
      modifies this
      ensures Run(world, requests, results, trace) && trace[0] == old(Now())
      ensures forall m <- trace :: Sound(m.g, m.log, {})
      ensures open == Tally(requests[..|results|], results)
      ensures !crashed ==> |results| == |requests| && Valid() && Now() == trace[|results|] && open == handles
      ensures crashed ==> |results| < |requests| && Crashes(trace[|results|], requests[|results|])
    {
      hide Sound, Partition, Run, Tally, Crashes;
      results, open, crashed, trace := [], seq(SO_MAX + 1, _ => 0), false, [Now()];
      RunStarts(world, requests, Now());
      for k := 0 to |requests|
        invariant Valid() && |results| == k && |trace| == k + 1 && Now() == trace[k] && trace[0] == old(Now())
        invariant Run(world, requests, results, trace) && open == handles && |handles| == SO_MAX + 1
        invariant forall m <- trace :: Sound(m.g, m.log, {})
        invariant open == Tally(requests[..k], results)
      {
        var r;
        r, open, crashed := ServeOne(requests[k], open);
        if crashed {
          return;
        }
        RunMore(world, requests, results, trace, r, Now());
        TallyMore(requests[..k], results, requests[k], r);
        assert requests[..k + 1] == requests[..k] + [requests[k]];
        results, trace := results + [r], trace + [Now()];
      }
      assert requests[..|requests|] == requests;
    }

    method ServeOne(request: Request, open: seq<nat>) returns (r: int, open': seq<nat>, crashed: bool)
      requires Valid() && open == handles && |handles| == SO_MAX + 1
      modifies this
      ensures crashed ==> Crashes(old(Now()), request) && open' == open
      ensures !crashed ==> Valid() && Step(world, old(Now()), request, r, Now())
      ensures !crashed ==> open' == handles == Book(open, request, r) && |handles| == SO_MAX + 1
    {
      hide Sound, Partition, Opened, Crashes, Closes, Finalized, Step, Book;
      ghost var m := Now();
      r, open', crashed := NULL, open, false;
      match request {
        case Open(path) =>
          r := DlOpen(path);
          OpenStep(world, m, path, r, Now());
          if r != NULL {
            open' := open[r := open[r] + 1];
          }
        case Close(handle) =>
          if open[handle] > 0 {
            crashed := ServeClose(handle);
            if !crashed {
              open' := open[handle := open[handle] - 1];
            }
          } else {
            IgnoreStep(world, m, handle);
          }
      }
    }

    method ServeClose(handle: Id) returns (crashed: bool)
      requires Valid() && |handles| == SO_MAX + 1 && handles[handle] > 0
      modifies this
      ensures crashed ==> Crashes(old(Now()), Close(handle))
      ensures !crashed ==> Valid() && Step(world, old(Now()), Close(handle), NULL, Now())
      ensures !crashed ==>
        handles == Book(old(handles), Close(handle), NULL) == old(handles)[handle := old(handles)[handle] - 1]
    {
      hide Sound, Partition, Closes, LosesLibdl, Finalized, Step;
      ghost var m := Now();
      SoundFacts(m.g, log, {});
      crashed := DlClose(handle);
      if !crashed {
        CloseStep(world, m, handle, Now());
      }
    }
  }

  /** A client that opens a library which needs nothing but libdl, and closes it again: the process
      crashes. The files offer no other library. */
  method CrashingClient(world: World, path: string) returns (crashed: bool)
    requires world.look(path, 0).Image? && NeedsLibdlOnly(world.look(path, 0)) && Basename(path) != "libdl.so"
    requires |Basename(path)| < 128
    requires OneName(world, path)
    ensures crashed
  {
    hide Sound, Partition, Opened, LosesLibdl, Closes, Finalized, Basename;
    var linker := new Linker(world);
    ghost var m := linker.Now();
    SoundFacts(m.g, m.log, {});
    var r := linker.DlOpen(path);
    UserLosesLibdl(world, m, path, r, linker.Now());
    crashed := linker.DlClose(r);
  }

  /** A library that was found but is not yet counted. */
  function Found(r: int): set<Id> {
    if 0 <= r <= SO_MAX then {r} else {}
  }

  lemma WithoutLast(ids: seq<Id>, si: Id, k: nat)
    requires si !in ids && k < |ids| + 1 && (ids + [si])[k] == si
    ensures Without(ids + [si], k) == ids
  {
    assert k == |ids|;
  }

  lemma LoadedBound(next: seq<int>, freelist: int, sonext: int, socount: int, loaded: seq<Id>, free: seq<Id>)
    requires Partition(next, freelist, sonext, socount, loaded, free)
    ensures |loaded| <= SO_MAX + 1
  {
    LoadedCount(next, freelist, sonext, socount, loaded, free);
  }
}
