/** What dlclose leaves: a library survives if and only if something that is left still leads to it. */
module LibraryRemoval {
  import opened SoPool
  import opened LibraryGraph
  import opened LinkerLog

  /** The invariant of slots and log while references are being dropped: the libraries in `dropped`
      have had their constructors, and those in `ended` their destructors. */
  ghost predicate Dropping(g: Graph, log: seq<Event>, dropped: set<Id>, ended: set<Id>) {
    Unloading(g, dropped) && Agrees(g, log, {}, ended) && forall x <- dropped :: Inited(log, x)
  }

  lemma DroppedAll(g: Graph, log: seq<Event>)
    requires Dropping(g, log, {}, {})
    ensures Sound(g, log, {})
  {
    hide Agrees, Shape, Ranked, Counted, Held, Inited;
  }

  /** What unloading one library does: it drops libraries linked no later than r, none of `keep`, and
      changes only counts of those that stay. The entries of `but` are in the middle of a change. */
  ghost predicate Trims(g: Graph, g': Graph, r: nat, keep: set<Id>, but: set<Id>) {
    && |g.info| == SO_MAX + 1 == |g'.info| && |g.rank| == SO_MAX + 1
    && g'.handles == g.handles && g'.rank == g.rank && g'.clock == g.clock
    && (forall x <- g'.loaded :: x in g.loaded)
    && (forall x <- g.loaded :: x !in but && (g.rank[x] > r || x in keep) ==> x in g'.loaded)
    && (forall x <- g'.loaded :: x !in but ==> g'.info[x] == g.info[x].(refcount := g'.info[x].refcount))
    && (forall x <- g'.loaded :: x !in but && g.rank[x] > r ==> g'.info[x] == g.info[x])
    && (g.info[0].refcount > 0 ==> g'.info[0].refcount > 0) && g'.info[0].refcount <= g.info[0].refcount
  }

  lemma TrimsTransitive(g: Graph, g1: Graph, g2: Graph, r1: nat, r: nat, keep: set<Id>, but: set<Id>)
    requires Trims(g, g1, r, keep, but) && Trims(g1, g2, r1, keep, {}) && r1 < r
    ensures Trims(g, g2, r, keep, but)
  {
  }

  /** Each library of the set is held by a root or by another one of the set. */
  ghost predicate Supported(g: Graph, keep: set<Id>) {
    && |g.info| == SO_MAX + 1 && |g.handles| == SO_MAX + 1
    && forall y <- keep :: y in g.loaded && (Root(g, y) || exists a <- keep :: y in g.info[a].needed)
  }

  lemma SupportedTrims(g: Graph, g': Graph, r: nat, keep: set<Id>, but: set<Id>)
    requires Supported(g, keep) && Trims(g, g', r, keep, but) && keep !! but
    ensures Supported(g', keep)
  {
    forall y | y in keep ensures y in g'.loaded && (Root(g', y) || exists a <- keep :: y in g'.info[a].needed) {
      if !Root(g, y) {
        var a :| a in keep && y in g.info[a].needed;
        assert a in g.loaded;
      }
    }
  }

  /** A library whose last reference is being dropped is not one of those to keep. */
  lemma LastReference(g: Graph, dropped: set<Id>, keep: set<Id>, si: Id)
    requires Unloading(g, dropped) && Supported(g, keep)
    requires si in dropped && si in g.loaded && g.info[si].refcount == 1
    ensures g.handles[si] == 0 && forall a <- g.loaded :: si !in g.info[a].needed
    ensures Usable(g.info[si]) && si != 0 ==> si !in keep
  {
    assert EdgesTo(g.loaded, g.info, si) == 0;
    forall a | a in g.loaded ensures si !in g.info[a].needed {
      NoEdges(g.loaded, g.info, si, a);
    }
  }

  // ---------------------------------------------------------------- destructors

  /** A library that has left the list, or is about to. */
  ghost predicate Gone(loaded: seq<Id>, loaded': seq<Id>, pending: set<Id>, x: Id) {
    x in loaded && (x !in loaded' || x in pending)
  }

  /** All that has happened is that destructors were called: once for each library that is gone, and
      for no other. */
  ghost predicate Finalized(loaded: seq<Id>, log: seq<Event>, loaded': seq<Id>, log': seq<Event>, pending: set<Id>) {
    && log <= log'
    && (forall k :: |log| <= k < |log'| ==> log'[k].Fini? && Gone(loaded, loaded', pending, log'[k].id))
    && (forall j, k :: |log| <= j < k < |log'| ==> log'[j] != log'[k])
    && (forall x: Id :: Gone(loaded, loaded', pending, x) ==> exists k :: |log| <= k < |log'| && log'[k] == Fini(x))
  }

  lemma FinalizedSelf(loaded: seq<Id>, log: seq<Event>)
    ensures Finalized(loaded, log, loaded, log, {})
  {
  }

  lemma FinalizedFini(loaded: seq<Id>, log: seq<Event>, si: Id)
    requires si in loaded
    ensures Finalized(loaded, log, loaded, log + [Fini(si)], {si})
  {
    assert (log + [Fini(si)])[|log|] == Fini(si);
  }

  /** One unloading after another, with libraries in between that are still pending. */
  lemma FinalizedThen(loaded: seq<Id>, log: seq<Event>, loaded1: seq<Id>, log1: seq<Event>,
                      loaded2: seq<Id>, log2: seq<Event>, pending: set<Id>)
    requires Finalized(loaded, log, loaded1, log1, pending) && Finalized(loaded1, log1, loaded2, log2, {})
    requires (forall x <- loaded1 :: x in loaded) && (forall x <- loaded2 :: x in loaded1)
    requires forall x <- pending :: x in loaded2
    ensures Finalized(loaded, log, loaded2, log2, pending)
  {
    forall k | |log| <= k < |log2| ensures log2[k].Fini? && Gone(loaded, loaded2, pending, log2[k].id) {
      if k < |log1| {
        assert log2[k] == log1[k];
      }
    }
    forall j, k | |log| <= j < k < |log2| ensures log2[j] != log2[k] {
      if j < |log1| {
        assert log2[j] == log1[j];
        assert Gone(loaded, loaded1, pending, log1[j].id);
        if k < |log1| {
          assert log2[k] == log1[k];
        } else {
          assert Gone(loaded1, loaded2, {}, log2[k].id);
        }
      }
    }
    forall x: Id | Gone(loaded, loaded2, pending, x) ensures exists k :: |log| <= k < |log2| && log2[k] == Fini(x) {
      if x in loaded1 && x !in pending {
        assert Gone(loaded1, loaded2, {}, x);
        var k :| |log1| <= k < |log2| && log2[k] == Fini(x);
      } else {
        assert Gone(loaded, loaded1, pending, x);
        var k :| |log| <= k < |log1| && log1[k] == Fini(x);
        assert log2[k] == Fini(x);
      }
    }
  }

  lemma FinalizedRemoved(loaded: seq<Id>, log: seq<Event>, loaded1: seq<Id>, log1: seq<Event>, k: nat)
    requires 0 < k < |loaded1| && Distinct(loaded1) && loaded1[k] in loaded
    requires Finalized(loaded, log, loaded1, log1, {loaded1[k]})
    ensures Finalized(loaded, log, Without(loaded1, k), log1, {})
  {
    WithoutFacts(loaded1, k);
    hide Without, Distinct;
    forall x: Id ensures Gone(loaded, Without(loaded1, k), {}, x) <==> Gone(loaded, loaded1, {loaded1[k]}, x) {
    }
  }

  lemma TrimsLoaded(g: Graph, g': Graph, r: nat, keep: set<Id>, but: set<Id>)
    requires Trims(g, g', r, keep, but)
    ensures forall x <- g'.loaded :: x in g.loaded
  {
  }

  // ---------------------------------------------------------------- the steps of unload_library

  lemma DropDecrement(g: Graph, log: seq<Event>, dropped: set<Id>, ended: set<Id>, keep: set<Id>, si: Id)
    requires Dropping(g, log, dropped, ended) && si in dropped && si in g.loaded && g.info[si].refcount != 1
    requires Supported(g, keep)
    ensures g.info[si].refcount > 1 && Dropping(Decrement(g, si), log, dropped - {si}, ended)
    ensures Trims(g, Decrement(g, si), g.rank[si], keep, {})
  {
    hide Unloading, Agrees, Inited;
    DropCounted(g, log, dropped, ended, si);
    DropFacts(g, log, dropped, ended);
    DecrementKeeps(g, dropped, si);
    AgreesHandles(g, log, {}, ended);
    AgreesSame(g, Decrement(g, si), log, {}, ended);
  }

  lemma DropCounted(g: Graph, log: seq<Event>, dropped: set<Id>, ended: set<Id>, si: Id)
    requires Dropping(g, log, dropped, ended) && si in dropped && si in g.loaded
    ensures g.info[si].refcount > 0
  {
    hide Agrees, Ranked, Held, Inited;
  }

  lemma DropFacts(g: Graph, log: seq<Event>, dropped: set<Id>, ended: set<Id>)
    requires Dropping(g, log, dropped, ended)
    ensures |g.info| == SO_MAX + 1 && |g.handles| == SO_MAX + 1 && |g.rank| == SO_MAX + 1
    ensures Distinct(g.loaded) && |g.loaded| > 0 && g.loaded[0] == 0
  {
    hide Agrees, Ranked, Counted, Held, Inited;
  }

  lemma DropFini(g: Graph, log: seq<Event>, dropped: set<Id>, ended: set<Id>, keep: set<Id>, si: Id)
    requires Dropping(g, log, dropped, ended) && Supported(g, keep)
    requires si in dropped && si in g.loaded && g.info[si].refcount == 1
    ensures Dropping(g, log + [Fini(si)], dropped, ended + {si})
    ensures Usable(g.info[si]) && si != 0 ==> si !in keep
  {
    hide Unloading, Agrees, Inited, Depends;
    LastReference(g, dropped, keep, si);
    AgreesFini(g, log, ended, si);
    AfterEvent(log, Fini(si));
  }

  /** What a finished library needs is finished too. */
  lemma NeededInited(g: Graph, log: seq<Event>, ended: set<Id>, si: Id, b: Id)
    requires |g.info| == SO_MAX + 1 && Agrees(g, log, {}, ended) && Inited(log, si) && si in g.loaded
    requires b in g.info[si].needed
    ensures Inited(log, b)
  {
    hide SafeLog, Inited, Depends;
  }

  lemma DropPop(g: Graph, log: seq<Event>, dropped: set<Id>, ended: set<Id>, si: Id)
    requires Dropping(g, log, dropped, ended) && si in g.loaded && Usable(g.info[si]) && g.info[si].needed != []
    requires g.info[si].needed[0] !in dropped && si in dropped && si in ended
    ensures var b := g.info[si].needed[0];
      && Dropping(PopNeeded(g, si), log, dropped + {b}, ended)
      && b in g.loaded && Usable(g.info[b]) && g.rank[b] < g.rank[si]
  {
    hide Unloading, Agrees, Inited;
    DropFacts(g, log, dropped, ended);
    NeededInited(g, log, ended, si, g.info[si].needed[0]);
    PopKeeps(g, dropped, si);
    AgreesPop(g, log, ended, si);
  }

  /** A dependency is not itself being dropped, since it was linked earlier than all that are. */
  lemma DropFresh(g: Graph, log: seq<Event>, dropped: set<Id>, ended: set<Id>, si: Id)
    requires Dropping(g, log, dropped, ended) && si in g.loaded && Usable(g.info[si]) && g.info[si].needed != []
    requires forall a <- dropped :: g.rank[a] >= g.rank[si]
    ensures g.info[si].needed[0] !in dropped
  {
    hide Agrees, Counted, Held, Inited;
    assert EdgeOk(g, si, g.info[si].needed[0]);
  }

  lemma DropRemove(g: Graph, log: seq<Event>, dropped: set<Id>, ended: set<Id>, k: nat)
    requires Dropping(g, log, dropped, ended) && 0 < k < |g.loaded| && g.info[g.loaded[k]].needed == []
    requires g.loaded[k] in dropped && g.loaded[k] in ended && g.info[g.loaded[k]].refcount == 1
    ensures Dropping(Remove(g, k), log, dropped - {g.loaded[k]}, ended - {g.loaded[k]})
  {
    hide Unloading, Agrees, Inited;
    DropFacts(g, log, dropped, ended);
    RemoveKeeps(g, dropped, k);
    AgreesRemove(g, log, ended, k);
  }

  lemma TrimsRemove(g: Graph, g1: Graph, keep: set<Id>, k: nat)
    requires |g.rank| == SO_MAX + 1 && 0 < k < |g1.loaded| && Distinct(g1.loaded)
    requires g1.loaded[k] !in keep && g1.loaded[k] != 0 && Trims(g, g1, g.rank[g1.loaded[k]], keep, {g1.loaded[k]})
    ensures Trims(g, Remove(g1, k), g.rank[g1.loaded[k]], keep, {})
  {
    WithoutFacts(g1.loaded, k);
    hide Without, Distinct;
  }

  lemma TrimsPop(g: Graph, g1: Graph, keep: set<Id>, si: Id)
    requires |g.rank| == SO_MAX + 1 && |g1.info| == SO_MAX + 1 && g1.info[si].needed != [] && si != 0
    requires Trims(g, g1, g.rank[si], keep, {si})
    ensures Trims(g, PopNeeded(g1, si), g.rank[si], keep, {si})
  {
  }

  lemma TrimsSelf(g: Graph, r: nat, keep: set<Id>, but: set<Id>)
    requires |g.info| == SO_MAX + 1 == |g.rank|
    ensures Trims(g, g, r, keep, but)
  {
  }

  /** A library linked later than r is not touched. */
  lemma TrimsAt(g: Graph, g': Graph, r: nat, keep: set<Id>, si: Id)
    requires Trims(g, g', r, keep, {}) && si in g.loaded && g.rank[si] > r
    ensures si in g'.loaded && g'.info[si] == g.info[si] && g'.rank == g.rank
  {
  }

  /** libdl is referenced, but neither by a handle nor by one of the libraries to keep. */
  ghost predicate Unheld(g: Graph, keep: set<Id>) {
    && |g.info| == SO_MAX + 1 == |g.handles| && g.handles[0] == 0 && g.info[0].refcount > 0
    && forall y <- keep :: 0 !in g.info[y].needed
  }

  lemma UnheldLast(g: Graph, log: seq<Event>, dropped: set<Id>, ended: set<Id>, keep: set<Id>)
    requires Dropping(g, log, dropped, ended) && Supported(g, keep) && 0 in dropped && 0 in g.loaded
    requires g.info[0].refcount == 1
    ensures Unheld(g, keep)
  {
    hide Agrees, Inited;
    LastReference(g, dropped, keep, 0);
  }

  lemma UnheldBefore(g: Graph, g': Graph, r: nat, keep: set<Id>, but: set<Id>)
    requires Trims(g, g', r, keep, but) && Unheld(g', keep) && Supported(g', keep) && keep !! but
    ensures Unheld(g, keep)
  {
  }

  /** Clearing the first entry: everything the unloading of its library asks for. */
  lemma PopFirst(g: Graph, log: seq<Event>, dropped: set<Id>, keep: set<Id>, si: Id, g0: Graph)
    requires Dropping(g, log, dropped, dropped) && Supported(g, keep) && si !in keep && si != 0
    requires |g.info| == SO_MAX + 1 == |g.rank| && si in dropped && si in g.loaded && Usable(g.info[si])
    requires g.info[si].needed != []
    requires forall a <- dropped :: a != si ==> g.rank[a] > g.rank[si]
    requires Trims(g0, g, g.rank[si], keep, {si})
    ensures var b := g.info[si].needed[0];
      && Dropping(PopNeeded(g, si), log, dropped + {b}, dropped) && b !in dropped
      && b in g.loaded && Usable(g.info[b]) && g.rank[b] < g.rank[si] == g0.rank[si]
    ensures Supported(PopNeeded(g, si), keep) && Trims(g0, PopNeeded(g, si), g.rank[si], keep, {si})
  {
    hide Dropping, Supported;
    DropFresh(g, log, dropped, dropped, si);
    DropPop(g, log, dropped, dropped, si);
    TrimsSelf(g, g.rank[si], keep, {si});
    TrimsPop(g, g, keep, si);
    SupportedTrims(g, PopNeeded(g, si), g.rank[si], keep, {si});
    TrimsPop(g0, g, keep, si);
  }

  // ---------------------------------------------------------------- what survives

  /** The listed libraries to which something that is left leads. */
  ghost function Survivors(g: Graph): set<Id>
    requires |g.info| == SO_MAX + 1 && |g.handles| == SO_MAX + 1
  {
    set x: Id | x in g.loaded && exists p :: Reaches(g, p, x)
  }

  lemma SurvivorsSupported(g: Graph, dropped: set<Id>)
    requires Unloading(g, dropped)
    ensures Supported(g, Survivors(g))
  {
    hide Counted, Held;
    forall y | y in Survivors(g) && !Root(g, y) ensures exists a <- Survivors(g) :: y in g.info[a].needed {
      var p :| Reaches(g, p, y);
      var q := p[..|p| - 1];
      var a := p[|p| - 2];
      assert p[|p| - 2 + 1] in g.info[a].needed;
      assert Reaches(g, q, a) by {
        assert forall i :: 0 <= i < |q| ==> q[i] == p[i];
      }
      assert a in Survivors(g);
    }
  }

  /** A path through what is left was a path before. */
  lemma TrimmedPath(g: Graph, g': Graph, r: nat, keep: set<Id>, p: seq<Id>, x: Id)
    requires Trims(g, g', r, keep, {}) && |g.handles| == SO_MAX + 1 && Reaches(g', p, x)
    ensures Reaches(g, p, x)
  {
  }

  /** After a complete unloading exactly the survivors are left. */
  lemma ExactlySurvivors(g: Graph, g': Graph, r: nat, x: Id)
    requires |g.info| == SO_MAX + 1 && |g.handles| == SO_MAX + 1
    requires Trims(g, g', r, Survivors(g), {}) && Inv(g')
    ensures x in g'.loaded <==> x in Survivors(g)
  {
    if x in g'.loaded {
      var p := LiveIsReachable(g', x);
      TrimmedPath(g, g', r, Survivors(g), p, x);
    }
  }

  /** libdl is still referenced after a complete unloading only if a survivor needs it or a handle is open. */
  lemma StillNeeded(g: Graph, g': Graph, r: nat)
    requires |g.info| == SO_MAX + 1 && |g.handles| == SO_MAX + 1
    requires Trims(g, g', r, Survivors(g), {}) && Inv(g') && g.info[0].refcount > 0
    ensures g.handles[0] > 0 || exists y <- Survivors(g) :: 0 in g.info[y].needed
  {
    if forall y <- Survivors(g) :: 0 !in g.info[y].needed {
      forall a | a in g'.loaded ensures 0 !in g'.info[a].needed {
        ExactlySurvivors(g, g', r, a);
      }
      EdgesAbsent(g'.loaded, g'.info, 0);
    }
  }

  // ---------------------------------------------------------------- dlclose

  /** What dlclose does, seen from outside: one handle less; the libraries that handles, failed links
      or libdl still lead to stay as they were but for their counts, and all others are gone. */
  ghost predicate Closes(g: Graph, g': Graph, handle: Id) {
    && |g.info| == SO_MAX + 1 == |g'.info| && |g.handles| == SO_MAX + 1 && g.handles[handle] > 0
    && g'.handles == g.handles[handle := g.handles[handle] - 1]
    && (forall x: Id :: x in g'.loaded <==> x in Survivors(Release(g, handle)))
    && (forall x <- g'.loaded :: g'.info[x] == g.info[x].(refcount := g'.info[x].refcount))
  }

  /** libdl is referenced, but after this close neither a handle nor a library that stays refers to it. */
  ghost predicate LosesLibdl(g: Graph, handle: Id)
    requires |g.info| == SO_MAX + 1 == |g.handles| && g.handles[handle] > 0
  {
    var g1 := Release(g, handle);
    g.info[0].refcount > 0 && g1.handles[0] == 0 && forall y <- Survivors(g1) :: 0 !in g.info[y].needed
  }

  lemma BeginClose(g: Graph, log: seq<Event>, handle: Id)
    requires Sound(g, log, {}) && |g.handles| == SO_MAX + 1 && g.handles[handle] > 0
    ensures Dropping(Release(g, handle), log, {handle}, {}) && handle in g.loaded && |g.info| == SO_MAX + 1
    ensures Usable(g.info[handle]) && Supported(Release(g, handle), Survivors(Release(g, handle)))
  {
    hide Survivors, Supported, Unloading, Agrees, Inited;
    SoundFacts(g, log, {});
    SoundRelease(g, log, handle);
    SurvivorsSupported(Release(g, handle), {handle});
  }

  lemma ClosesCrashed(g: Graph, handle: Id)
    requires |g.info| == SO_MAX + 1 == |g.handles| && g.handles[handle] > 0
    requires Unheld(Release(g, handle), Survivors(Release(g, handle)))
    ensures LosesLibdl(g, handle)
  {
    hide Survivors;
  }

  lemma ClosesExactly(g: Graph, g': Graph, log: seq<Event>, handle: Id)
    requires |g.info| == SO_MAX + 1 == |g.handles| && |g.rank| == SO_MAX + 1 && g.handles[handle] > 0
    requires Trims(Release(g, handle), g', g.rank[handle], Survivors(Release(g, handle)), {}) && Sound(g', log, {})
    ensures Closes(g, g', handle) && !LosesLibdl(g, handle)
  {
    hide Survivors, Inv, Sound;
    SoundInv(g', log);
    var g1 := Release(g, handle);
    forall x: Id ensures x in g'.loaded <==> x in Survivors(g1) {
      ExactlySurvivors(g1, g', g.rank[handle], x);
    }
    if g.info[0].refcount > 0 {
      StillNeeded(g1, g', g.rank[handle]);
    }
  }
}
