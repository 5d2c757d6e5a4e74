/** What the linker does to the outside world: loading, constructors and destructors, in order. */
module LinkerLog {
  import opened SoPool
  import opened LibraryGraph

  /** Loads: a slot is filled. Needs: a DT_NEEDED entry of `id` is resolved to `dep`. Preinit, Init:
      the functions of DT_PREINIT_ARRAY, then DT_INIT and DT_INIT_ARRAY, are called. Fini:
      DT_FINI_ARRAY and DT_FINI are called. */
  datatype Event =
    | Loads(id: Id)
    | Needs(id: Id, dep: Id)
    | Preinit(id: Id)
    | Init(id: Id)
    | Fini(id: Id)

  /** Whether the constructors of x have finished since it was last loaded. */
  predicate Inited(log: seq<Event>, x: Id) {
    if log == [] then false
    else
      var e := log[|log| - 1];
      if e == Init(x) then true
      else if e == Loads(x) then false
      else Inited(log[..|log| - 1], x)
  }

  /** Whether a has recorded that it needs b and its destructors have not been called since. */
  predicate Depends(log: seq<Event>, a: Id, b: Id) {
    if log == [] then false
    else
      var e := log[|log| - 1];
      if e == Needs(a, b) then true
      else if e == Fini(a) then false
      else Depends(log[..|log| - 1], a, b)
  }

  /** An event is safe after a history: constructors run once per load, and after those of every
      library that is needed; destructors run only after the constructors, and only when no library
      that is still alive needs the library. */
  ghost predicate Safe(log: seq<Event>, e: Event) {
    match e
    case Init(a) => !Inited(log, a) && forall b: Id :: Depends(log, a, b) ==> Inited(log, b)
    case Fini(b) => Inited(log, b) && forall a: Id :: !Depends(log, a, b)
    case _ => true
  }

  ghost predicate SafeLog(log: seq<Event>) {
    forall k :: 0 <= k < |log| ==> Safe(log[..k], log[k])
  }

  lemma SafeExtends(log: seq<Event>, e: Event)
    requires SafeLog(log) && Safe(log, e)
    ensures SafeLog(log + [e])
  {
    forall k | 0 <= k < |log + [e]| ensures Safe((log + [e])[..k], (log + [e])[k]) {
      assert (log + [e])[..k] == if k < |log| then log[..k] else log;
    }
  }

  lemma InitedExtends(log: seq<Event>, e: Event, x: Id)
    ensures Inited(log + [e], x) == if e == Init(x) then true else if e == Loads(x) then false else Inited(log, x)
  {
    assert (log + [e])[..|log|] == log;
  }

  lemma DependsExtends(log: seq<Event>, e: Event, a: Id, b: Id)
    ensures Depends(log + [e], a, b) ==
      if e == Needs(a, b) then true else if e == Fini(a) then false else Depends(log, a, b)
  {
    assert (log + [e])[..|log|] == log;
  }

  /** The history has only grown, and no destructor was called. */
  ghost predicate Grows(log: seq<Event>, log': seq<Event>) {
    log <= log' && forall k :: |log| <= k < |log'| ==> !log'[k].Fini?
  }

  lemma GrowsBy(log: seq<Event>, e: Event)
    requires !e.Fini?
    ensures Grows(log, log + [e])
  {
  }

  lemma GrowsSelf(log: seq<Event>)
    ensures Grows(log, log)
  {
  }

  lemma GrowsTransitive(log: seq<Event>, log1: seq<Event>, log2: seq<Event>)
    requires Grows(log, log1) && Grows(log1, log2)
    ensures Grows(log, log2)
  {
    assert forall k :: |log| <= k < |log1| ==> log2[k] == log1[k];
  }

  // ---------------------------------------------------------------- how log and slots agree

  /** A library is marked if and only if its constructors have finished, except for the `busy` ones,
      whose constructors are running. */
  ghost predicate Marked(g: Graph, log: seq<Event>, busy: set<Id>)
    requires |g.info| == SO_MAX + 1
  {
    && (forall x <- g.loaded :: x !in busy ==> (g.info[x].called <==> Inited(log, x)))
    && (forall x <- busy :: x in g.loaded && g.info[x].called && !Inited(log, x))
  }

  /** The log shows exactly the recorded entries of the listed libraries, except for the `ended` ones,
      whose destructors have been called. */
  ghost predicate Mirrors(g: Graph, log: seq<Event>, ended: set<Id>)
    requires |g.info| == SO_MAX + 1
  {
    forall a: Id, b: Id :: Depends(log, a, b) <==> a in g.loaded && a !in ended && b in g.info[a].needed
  }

  /** What has had its constructors is linked, and everything it needs has had them too; so has
      everything with an open handle. */
  ghost predicate Finished(g: Graph, log: seq<Event>)
    requires |g.info| == SO_MAX + 1
  {
    && |g.handles| == SO_MAX + 1
    && (forall a <- g.loaded :: Inited(log, a) ==> g.info[a].linked)
    && (forall a <- g.loaded :: Inited(log, a) ==> forall b <- g.info[a].needed :: Inited(log, b))
    && (forall x: Id :: g.handles[x] > 0 ==> Inited(log, x))
  }

  ghost predicate Agrees(g: Graph, log: seq<Event>, busy: set<Id>, ended: set<Id>)
    requires |g.info| == SO_MAX + 1
  {
    SafeLog(log) && Marked(g, log, busy) && Mirrors(g, log, ended) && Finished(g, log)
  }

  /** Entries lead to listed libraries, and so do handles. */
  ghost predicate Closed(g: Graph)
    requires |g.info| == SO_MAX + 1
  {
    && |g.handles| == SO_MAX + 1
    && (forall a <- g.loaded :: forall b <- g.info[a].needed :: b in g.loaded)
    && (forall x: Id :: g.handles[x] > 0 ==> x in g.loaded)
  }

  /** What one more event changes. */
  lemma AfterEvent(log: seq<Event>, e: Event)
    ensures forall x: Id :: Inited(log + [e], x) == (e == Init(x) || (e != Loads(x) && Inited(log, x)))
    ensures forall a: Id, b: Id ::
      Depends(log + [e], a, b) == (e == Needs(a, b) || (e != Fini(a) && Depends(log, a, b)))
  {
    forall x: Id ensures Inited(log + [e], x) == (e == Init(x) || (e != Loads(x) && Inited(log, x))) {
      InitedExtends(log, e, x);
    }
    forall a: Id, b: Id
      ensures Depends(log + [e], a, b) == (e == Needs(a, b) || (e != Fini(a) && Depends(log, a, b)))
    {
      DependsExtends(log, e, a, b);
    }
  }

  lemma AgreesLoad(g: Graph, log: seq<Event>, si: Id, name: string)
    requires |g.info| == SO_MAX + 1 && Agrees(g, log, {}, {}) && Closed(g) && si !in g.loaded
    ensures Agrees(Load(g, si, name), log + [Loads(si)], {}, {})
  {
    hide SafeLog, Inited, Depends;
    SafeExtends(log, Loads(si));
    AfterEvent(log, Loads(si));
  }

  /** Loading into a slot that is given back at once. */
  lemma AgreesSpoilt(g: Graph, log: seq<Event>, si: Id, name: string)
    requires |g.info| == SO_MAX + 1 && Agrees(g, log, {}, {}) && Closed(g) && si !in g.loaded
    ensures Agrees(Load(g, si, name).(loaded := g.loaded), log + [Loads(si)], {}, {})
  {
    hide SafeLog, Inited, Depends;
    SafeExtends(log, Loads(si));
    AfterEvent(log, Loads(si));
  }

  lemma AgreesNeed(g: Graph, log: seq<Event>, si: Id, b: Id)
    requires |g.info| == SO_MAX + 1 && Agrees(g, log, {}, {}) && si in g.loaded && !g.info[si].linked
    ensures Agrees(Need(g, si, b), log + [Needs(si, b)], {}, {})
  {
    hide SafeLog, Inited, Depends;
    SafeExtends(log, Needs(si, b));
    AfterEvent(log, Needs(si, b));
  }

  /** Counts do not matter to the log, nor do flags and handles that only finished libraries get. */
  lemma AgreesSame(g: Graph, g': Graph, log: seq<Event>, busy: set<Id>, ended: set<Id>)
    requires |g.info| == SO_MAX + 1 == |g'.info| && Agrees(g, log, busy, ended) && g'.loaded == g.loaded
    requires forall x <- g.loaded :: g'.info[x].called == g.info[x].called && g'.info[x].needed == g.info[x].needed
    requires forall x <- g.loaded :: g.info[x].linked ==> g'.info[x].linked
    requires |g'.handles| == SO_MAX + 1 && forall x: Id :: g'.handles[x] > 0 ==> Inited(log, x)
    ensures Agrees(g', log, busy, ended)
  {
    hide SafeLog, Inited, Depends;
  }

  /** The slot is marked before its constructors are called. */
  function Call(g: Graph, si: Id): Graph
    requires |g.info| == SO_MAX + 1
  {
    g.(info := g.info[si := g.info[si].(called := true)])
  }

  lemma AgreesCall(g: Graph, log: seq<Event>, busy: set<Id>, si: Id)
    requires |g.info| == SO_MAX + 1 && Agrees(g, log, busy, {}) && si in g.loaded && !g.info[si].called
    ensures Agrees(Call(g, si), log + [Preinit(si)], busy + {si}, {})
  {
    hide SafeLog, Inited, Depends;
    SafeExtends(log, Preinit(si));
    AfterEvent(log, Preinit(si));
  }

  lemma AgreesInit(g: Graph, log: seq<Event>, busy: set<Id>, si: Id)
    requires |g.info| == SO_MAX + 1 && Agrees(g, log, busy, {}) && si in busy && g.info[si].linked
    requires forall b <- g.info[si].needed :: Inited(log, b)
    ensures Agrees(g, log + [Init(si)], busy - {si}, {})
  {
    hide SafeLog, Inited, Depends;
    SafeExtends(log, Init(si));
    AfterEvent(log, Init(si));
  }

  lemma AgreesFini(g: Graph, log: seq<Event>, ended: set<Id>, si: Id)
    requires |g.info| == SO_MAX + 1 && Agrees(g, log, {}, ended) && Inited(log, si)
    requires forall a <- g.loaded :: si !in g.info[a].needed
    ensures Agrees(g, log + [Fini(si)], {}, ended + {si})
  {
    hide SafeLog, Inited, Depends;
    SafeExtends(log, Fini(si));
    AfterEvent(log, Fini(si));
  }

  lemma AgreesPop(g: Graph, log: seq<Event>, ended: set<Id>, si: Id)
    requires |g.info| == SO_MAX + 1 && Agrees(g, log, {}, ended) && g.info[si].needed != [] && si in ended
    ensures Agrees(PopNeeded(g, si), log, {}, ended)
  {
    hide SafeLog, Inited, Depends;
  }

  lemma AgreesRemove(g: Graph, log: seq<Event>, ended: set<Id>, k: nat)
    requires |g.info| == SO_MAX + 1 && Agrees(g, log, {}, ended) && Distinct(g.loaded) && 0 < k < |g.loaded|
    requires g.loaded[k] in ended
    ensures Agrees(Remove(g, k), log, {}, ended - {g.loaded[k]})
  {
    hide SafeLog, Inited, Depends, Without, Distinct;
    WithoutFacts(g.loaded, k);
  }

  // ---------------------------------------------------------------- slots and log together, while loading

  ghost predicate Sound(g: Graph, log: seq<Event>, except: set<Id>) {
    Loading(g, except) && Agrees(g, log, {}, {})
  }

  lemma SoundFacts(g: Graph, log: seq<Event>, except: set<Id>)
    requires Sound(g, log, except)
    ensures |g.info| == SO_MAX + 1 && |g.handles| == SO_MAX + 1 && |g.rank| == SO_MAX + 1
    ensures 0 in g.loaded && Usable(g.info[0]) && g.info[0].needed == [] && Distinct(g.loaded)
    ensures Extends(g, g, {})
  {
    hide Agrees, Ranked, Counted, Held;
  }

  lemma LoadingClosed(g: Graph, except: set<Id>)
    requires Loading(g, except)
    ensures Closed(g)
  {
    hide Counted, Held;
    forall a, b | a in g.loaded && b in g.info[a].needed ensures b in g.loaded {
      assert EdgeOk(g, a, b);
    }
  }

  lemma SoundWeaken(g: Graph, log: seq<Event>, except: set<Id>)
    requires Sound(g, log, {})
    ensures Sound(g, log, except)
  {
    hide Agrees, Ranked, Counted, Shape;
  }

  lemma SoundLoad(g: Graph, log: seq<Event>, si: Id, name: string)
    requires Sound(g, log, {}) && si !in g.loaded && Unnamed(g, name)
    ensures Sound(Load(g, si, name), log + [Loads(si)], {}) && Extends(g, Load(g, si, name), {})
  {
    hide Agrees, Loading, Closed;
    SoundFacts(g, log, {});
    LoadingClosed(g, {});
    LoadKeeps(g, si, name);
    AgreesLoad(g, log, si, name);
  }

  lemma SoundSpoilt(g: Graph, log: seq<Event>, si: Id, name: string)
    requires Sound(g, log, {}) && si !in g.loaded
    ensures var g' := Load(g, si, name).(loaded := g.loaded);
      Sound(g', log + [Loads(si)], {}) && Extends(g, g', {})
  {
    hide Agrees, Loading, Closed;
    SoundFacts(g, log, {});
    LoadingClosed(g, {});
    AgreesSpoilt(g, log, si, name);
    StaleSlot(g, Load(g, si, name).(loaded := g.loaded), {}, si, SoInfo(name, false, false, 0, [], false));
  }

  lemma SoundNeed(g: Graph, log: seq<Event>, si: Id, b: Id)
    requires Sound(g, log, {b}) && si in g.loaded && !g.info[si].linked && b in g.loaded && Usable(g.info[b])
    ensures Sound(Need(g, si, b), log + [Needs(si, b)], {}) && Extends(g, Need(g, si, b), {si})
  {
    hide Agrees, Loading;
    SoundFacts(g, log, {b});
    NeedKeeps(g, si, b);
    AgreesNeed(g, log, si, b);
  }

  /** Open handles belong to libraries whose constructors have finished. */
  lemma AgreesHandles(g: Graph, log: seq<Event>, busy: set<Id>, ended: set<Id>)
    requires |g.info| == SO_MAX + 1 && Agrees(g, log, busy, ended)
    ensures |g.handles| == SO_MAX + 1 && forall x: Id :: g.handles[x] > 0 ==> Inited(log, x)
  {
    hide SafeLog, Inited, Depends;
  }

  lemma SoundLink(g: Graph, log: seq<Event>, si: Id)
    requires Sound(g, log, {}) && si in g.loaded && !g.info[si].linked && !g.info[si].error
    ensures Sound(Link(g, si), log, {si}) && Extends(g, Link(g, si), {si})
  {
    hide Agrees, Loading, Inited;
    SoundFacts(g, log, {});
    LinkKeeps(g, si);
    AgreesHandles(g, log, {}, {});
    AgreesSame(g, Link(g, si), log, {}, {});
  }

  lemma SoundFail(g: Graph, log: seq<Event>, si: Id, late: bool)
    requires Sound(g, log, {}) && si in g.loaded && !g.info[si].linked && !g.info[si].error
    ensures Sound(Fail(g, si, late), log, {}) && Extends(g, Fail(g, si, late), {si})
  {
    hide Agrees, Loading, Inited;
    SoundFacts(g, log, {});
    FailKeeps(g, si, late);
    AgreesHandles(g, log, {}, {});
    AgreesSame(g, Fail(g, si, late), log, {}, {});
  }

  // ---------------------------------------------------------------- calling constructors

  /** The invariant while constructors run; `busy` are the libraries whose constructors have begun. */
  ghost predicate Running(g: Graph, log: seq<Event>, except: set<Id>, busy: set<Id>) {
    Loading(g, except) && Agrees(g, log, busy, {})
  }

  /** Calling constructors changes only the marks; no destructor is called, and finished constructors
      stay finished. */
  ghost predicate Calls(g: Graph, log: seq<Event>, g': Graph, log': seq<Event>) {
    && Grows(log, log')
    && |g.info| == SO_MAX + 1 == |g'.info| && g' == g.(info := g'.info)
    && (forall x: Id :: g'.info[x] == g.info[x].(called := g'.info[x].called))
    && (forall x: Id :: Inited(log, x) ==> Inited(log', x))
  }

  lemma CallsTransitive(g: Graph, log: seq<Event>, g1: Graph, log1: seq<Event>, g2: Graph, log2: seq<Event>)
    requires Calls(g, log, g1, log1) && Calls(g1, log1, g2, log2)
    ensures Calls(g, log, g2, log2)
  {
    hide Inited, Grows;
    GrowsTransitive(log, log1, log2);
    forall x: Id ensures g2.info[x] == g.info[x].(called := g2.info[x].called) {
      assert g2.info[x] == g1.info[x].(called := g2.info[x].called);
      assert g1.info[x] == g.info[x].(called := g1.info[x].called);
    }
  }

  lemma CallsSelf(g: Graph, log: seq<Event>)
    requires |g.info| == SO_MAX + 1
    ensures Calls(g, log, g, log)
  {
  }

  lemma CallKeeps(g: Graph, except: set<Id>, si: Id)
    requires Loading(g, except)
    ensures Loading(Call(g, si), except)
  {
    hide NamesDiffer;
    NamesKept(g.loaded, g.info, Call(g, si).loaded, Call(g, si).info);
    var g' := Call(g, si);
    SameNeeds(g, g', {});
    hide EdgesTo, Counted;
    forall a, c | a in g'.loaded && c in g'.info[a].needed ensures EdgeOk(g', a, c) {
      assert EdgeOk(g, a, c);
    }
  }

  lemma RunningCall(g: Graph, log: seq<Event>, except: set<Id>, busy: set<Id>, si: Id)
    requires Running(g, log, except, busy) && si in g.loaded && !g.info[si].called
    ensures Running(Call(g, si), log + [Preinit(si)], except, busy + {si})
    ensures Calls(g, log, Call(g, si), log + [Preinit(si)])
  {
    hide Loading, Agrees, Inited, Grows, Depends;
    RunningFacts(g, log, except, busy);
    CallKeeps(g, except, si);
    AgreesCall(g, log, busy, si);
    AfterEvent(log, Preinit(si));
    GrowsBy(log, Preinit(si));
  }

  lemma RunningInit(g: Graph, log: seq<Event>, except: set<Id>, busy: set<Id>, si: Id)
    requires Running(g, log, except, busy + {si}) && si !in busy && g.info[si].linked
    requires forall b <- g.info[si].needed :: Inited(log, b)
    ensures var log' := log + [Init(si)];
      Running(g, log', except, busy) && Calls(g, log, g, log') && Inited(log', si)
  {
    hide Loading, Agrees, Inited, Grows, Depends;
    RunningFacts(g, log, except, busy + {si});
    AgreesInit(g, log, busy + {si}, si);
    AfterEvent(log, Init(si));
    GrowsBy(log, Init(si));
    assert busy + {si} - {si} == busy;
  }

  /** A marked library whose constructors are not running has had them all. */
  lemma RunningMarked(g: Graph, log: seq<Event>, except: set<Id>, busy: set<Id>, si: Id)
    requires Running(g, log, except, busy) && si in g.loaded && si !in busy
    ensures g.info[si].called ==> Inited(log, si)
  {
    hide Loading, Inited, Depends, SafeLog;
  }

  lemma RunningFacts(g: Graph, log: seq<Event>, except: set<Id>, busy: set<Id>)
    requires Running(g, log, except, busy)
    ensures |g.info| == SO_MAX + 1 == |g.rank| && |g.handles| == SO_MAX + 1
    ensures forall a <- g.loaded :: forall b <- g.info[a].needed :: EdgeOk(g, a, b)
  {
    hide Counted, Held, Agrees;
  }

  /** Constructors change nothing else, and undo none. */
  lemma CallsAt(g: Graph, log: seq<Event>, g': Graph, log': seq<Event>, si: Id)
    requires Calls(g, log, g', log')
    ensures |g'.info| == SO_MAX + 1 && g'.info[si] == g.info[si].(called := g'.info[si].called)
    ensures forall x: Id :: Inited(log, x) ==> Inited(log', x)
  {
    hide Inited;
  }

  lemma SoundRunning(g: Graph, log: seq<Event>, except: set<Id>)
    requires Sound(g, log, except)
    ensures Running(g, log, except, {})
  {
    hide Loading, Agrees;
  }

  /** dlopen's reference, once the constructors have run. */
  lemma SoundAcquire(g: Graph, log: seq<Event>, x: Id)
    requires Running(g, log, {x}, {}) && x in g.loaded && Usable(g.info[x]) && Inited(log, x)
    ensures Sound(Acquire(g, x), log, {})
  {
    hide Agrees, Inited, Shape, Ranked, Counted, Held;
    RunningFacts(g, log, {x}, {});
    AcquireKeeps(g, x);
    AgreesHandles(g, log, {}, {});
    AgreesSame(g, Acquire(g, x), log, {}, {});
  }

  // ---------------------------------------------------------------- what holds between calls

  /** A handle that is being given back. */
  lemma SoundRelease(g: Graph, log: seq<Event>, x: Id)
    requires Sound(g, log, {}) && |g.handles| == SO_MAX + 1 && g.handles[x] > 0
    ensures Unloading(Release(g, x), {x}) && Agrees(Release(g, x), log, {}, {}) && Inited(log, x)
    ensures x in g.loaded && Usable(g.info[x])
  {
    hide Agrees, Inited, Shape, Ranked, Counted, Held;
    SoundFacts(g, log, {});
    ReleaseKeeps(g, x);
    AgreesHandles(g, log, {}, {});
    AgreesSame(g, Release(g, x), log, {}, {});
  }

  lemma SoundInv(g: Graph, log: seq<Event>)
    ensures Sound(g, log, {}) <==> Unloading(g, {}) && Agrees(g, log, {}, {})
    ensures Sound(g, log, {}) ==> Inv(g) && SafeLog(log)
  {
  }
}
