/** Whole runs of dlopen and dlclose, seen from a client. */
module LinkerRuns {
  import opened SoPool
  import opened LibraryGraph
  import opened LinkerLog
  import opened LibraryLoading
  import opened LibraryRemoval

  datatype Request = Open(path: string) | Close(handle: Id)

  /** What a dlopen that answers r does. The answer is that of the search; every library that is new was
      loaded because it was asked for or needed. A failed dlopen of a path without an image leaves the
      libraries alone. */
  ghost predicate Opened(world: World, m: Moment, path: string, r: int, m': Moment) {
    && Finds(m.g, Basename(path), world.look(path, m.attempts), r)
    && Grows(m.log, m'.log) && NewLoaded(world, m, m', [path]) && Brought(world, m, path, r, m')
    && (r == NULL ==> Extends(m.g, m'.g, {}))
    && (r != NULL ==> OpenedAs(m, path, r, m'))
  }

  ghost predicate OpenedAs(m: Moment, path: string, r: int, m': Moment) {
    Serves(m'.g, r, path) && Opens(m.g, m'.g, r) && Inited(m'.log, r)
  }

  /** What a dlopen brings: a library that gets a slot comes right behind those that were listed, from
      the image of the very path, with the entries that the names of the image led to, and is the answer
      if there is one. In all other cases nothing is loaded, and without an answer nothing happens. */
  ghost predicate Brought(world: World, m: Moment, path: string, r: int, m': Moment)
    requires |m.g.info| == SO_MAX + 1
  {
    if Unnamed(m.g, Basename(path)) && Placeable(m.g, Basename(path), world.look(path, m.attempts)) then
      |m.g.loaded| < |m'.g.loaded| && var si := m'.g.loaded[|m.g.loaded|];
      LoadedAs(world, m, m', si, path, m.attempts) && (r != NULL ==> r == si)
    else m'.g.loaded == m.g.loaded && (r == NULL ==> Untouched(m.g, m'.g))
  }

  /** A request to close is heeded if the handle is open. */
  ghost predicate Heeded(m: Moment, request: Request) {
    request.Close? ==> |m.g.handles| == SO_MAX + 1 && m.g.handles[request.handle] > 0
  }

  /** The process ends with a request exactly if that closes the last reference to libdl. */
  ghost predicate Crashes(m: Moment, request: Request) {
    && request.Close? && Heeded(m, request) && |m.g.info| == SO_MAX + 1
    && LosesLibdl(m.g, request.handle)
  }

  /** One request and its answer. */
  ghost predicate Step(world: World, m: Moment, request: Request, r: int, m': Moment) {
    && !Crashes(m, request)
    && match request
       case Open(path) => Opened(world, m, path, r, m')
       case Close(handle) =>
         if Heeded(m, request) then Closes(m.g, m'.g, handle) && Finalized(m.g.loaded, m.log, m'.g.loaded, m'.log, {})
         else m' == m
  }

  /** The requests served so far, with their answers and the states between them. */
  ghost predicate Run(world: World, requests: seq<Request>, results: seq<int>, trace: seq<Moment>) {
    && |trace| == |results| + 1 && |results| <= |requests|
    && forall k :: 0 <= k < |results| ==> Step(world, trace[k], requests[k], results[k], trace[k + 1])
  }

  /** What the invariant means at any moment: the counts are exact, the entries form no cycle, a library
      is listed exactly if something leads to it, and the history is safe. */
  lemma MomentSafe(m: Moment)
    requires Sound(m.g, m.log, {})
    ensures Inv(m.g) && SafeLog(m.log)
    ensures forall p :: Path(m.g, p) && |p| > 1 ==> p[0] != p[|p| - 1]
    ensures forall x: Id :: x in m.g.loaded <==> exists p :: Reaches(m.g, p, x)
  {
    hide Sound, SafeLog, Reaches;
    SoundInv(m.g, m.log);
    forall p | Path(m.g, p) && |p| > 1 ensures p[0] != p[|p| - 1] {
      Acyclic(m.g, p);
    }
    forall x: Id ensures x in m.g.loaded <==> exists p :: Reaches(m.g, p, x) {
      LoadedIffReachable(m.g, x);
    }
  }

  /** The handles that a client holds, by its own books. */
  function Tally(requests: seq<Request>, results: seq<int>): (open: seq<nat>)
    requires |requests| == |results|
    ensures |open| == SO_MAX + 1
  {
    if requests == [] then seq(SO_MAX + 1, _ => 0)
    else
      var n := |requests| - 1;
      Book(Tally(requests[..n], results[..n]), requests[n], results[n])
  }

  function Book(open: seq<nat>, request: Request, r: int): (open': seq<nat>)
    requires |open| == SO_MAX + 1
    ensures |open'| == SO_MAX + 1
  {
    match request
    case Open(_) => if 0 <= r <= SO_MAX then open[r := open[r] + 1] else open
    case Close(handle) => if open[handle] > 0 then open[handle := open[handle] - 1] else open
  }

  lemma TallyMore(requests: seq<Request>, results: seq<int>, request: Request, r: int)
    requires |requests| == |results|
    ensures Tally(requests + [request], results + [r]) == Book(Tally(requests, results), request, r)
  {
    assert (requests + [request])[..|requests|] == requests && (results + [r])[..|results|] == results;
  }

  /** The books are right. */
  lemma StepBooks(world: World, m: Moment, request: Request, r: int, m': Moment)
    requires Step(world, m, request, r, m') && |m.g.handles| == SO_MAX + 1
    ensures m'.g.handles == Book(m.g.handles, request, r)
  {
    hide Finds, Brought, Finalized, LosesLibdl, NewLoaded, Grows, Survivors, Inited, Basename;
  }

  lemma {:induction false} RunBooks(world: World, requests: seq<Request>, results: seq<int>, trace: seq<Moment>, k: nat)
    requires Run(world, requests, results, trace) && trace[0].g.handles == Tally([], []) && k <= |results|
    ensures trace[k].g.handles == Tally(requests[..k], results[..k])
  {
    hide Step, Book, Tally;
    if k > 0 {
      RunBooks(world, requests, results, trace, k - 1);
      StepBooks(world, trace[k - 1], requests[k - 1], results[k - 1], trace[k - 1 + 1]);
      TallyMore(requests[..k - 1], results[..k - 1], requests[k - 1], results[k - 1]);
      assert requests[..k] == requests[..k - 1] + [requests[k - 1]];
      assert results[..k] == results[..k - 1] + [results[k - 1]];
    } else {
      assert requests[..0] == [] && results[..0] == [];
    }
  }

  /** A run ends with a crash only at a request after which the client holds no handle of libdl: who
      keeps one open never crashes. */
  lemma CrashWithoutLibdl(world: World, requests: seq<Request>, results: seq<int>, trace: seq<Moment>)
    requires Run(world, requests, results, trace) && trace[0].g.handles == Tally([], [])
    requires |results| < |requests| && Crashes(trace[|results|], requests[|results|])
    ensures Tally(requests[..|results| + 1], results + [NULL])[0] == 0
  {
    var n := |results|;
    hide Step, Tally, Survivors;
    RunBooks(world, requests, results, trace, n);
    assert results[..n] == results && requests[..n + 1] == requests[..n] + [requests[n]];
    TallyMore(requests[..n], results, requests[n], NULL);
  }

  lemma {:induction false} TallyKeeps(requests: seq<Request>, results: seq<int>)
    requires |requests| == |results| > 0 && requests[0].Open? && results[0] == 0
    requires forall k :: 0 < k < |requests| ==> requests[k] != Close(0)
    ensures Tally(requests, results)[0] > 0
  {
    var n := |requests| - 1;
    if n > 0 {
      TallyKeeps(requests[..n], results[..n]);
    }
  }

  /** A client that begins by opening libdl and never closes it does not crash. */
  lemma HoldingLibdl(world: World, requests: seq<Request>, results: seq<int>, trace: seq<Moment>, path: string)
    requires Run(world, requests, results, trace) && trace[0].g.handles == Tally([], [])
    requires Sound(trace[0].g, trace[0].log, {}) && |results| < |requests|
    requires requests[0] == Open(path) && Basename(path) == "libdl.so"
    requires forall k :: 0 < k < |requests| ==> requests[k] != Close(0)
    ensures !Crashes(trace[|results|], requests[|results|])
  {
    hide Run, Tally, Sound, Crashes, Basename;
    var n := |results|;
    RunSizes(world, requests, results, trace);
    if Crashes(trace[n], requests[n]) {
      CrashCloses(trace[n], requests[n]);
      FirstLibdl(world, requests, results, trace, path);
      CrashWithoutLibdl(world, requests, results, trace);
      TallyKeeps(requests[..n + 1], results + [NULL]);
    }
  }

  lemma RunSizes(world: World, requests: seq<Request>, results: seq<int>, trace: seq<Moment>)
    requires Run(world, requests, results, trace)
    ensures |trace| == |results| + 1
  {
    hide Step;
  }

  lemma CrashCloses(m: Moment, request: Request)
    requires Crashes(m, request)
    ensures request.Close?
  {
  }

  lemma FirstLibdl(world: World, requests: seq<Request>, results: seq<int>, trace: seq<Moment>, path: string)
    requires Run(world, requests, results, trace) && |results| > 0
    requires Sound(trace[0].g, trace[0].log, {}) && requests[0] == Open(path) && Basename(path) == LIBDL
    ensures results[0] == 0
  {
    hide Opened, Sound, Basename;
    assert Step(world, trace[0], requests[0], results[0], trace[0 + 1]);
    LibdlAnswers(world, trace[0], path, results[0], trace[1]);
  }

  /** Opening libdl answers 0. */
  lemma LibdlAnswers(world: World, m: Moment, path: string, r: int, m': Moment)
    requires Sound(m.g, m.log, {}) && Opened(world, m, path, r, m') && Basename(path) == "libdl.so"
    ensures r == 0
  {
    hide Brought, NewLoaded, Grows, OpenedAs, Agrees, Ranked, Counted, Held, Basename, Placeable;
  }

  lemma RunMore(world: World, requests: seq<Request>, results: seq<int>, trace: seq<Moment>, r: int, m: Moment)
    requires Run(world, requests, results, trace) && |results| < |requests|
    requires Step(world, trace[|results|], requests[|results|], r, m)
    ensures Run(world, requests, results + [r], trace + [m])
  {
    hide Step;
    var results', trace' := results + [r], trace + [m];
    forall k | 0 <= k < |results'| ensures Step(world, trace'[k], requests[k], results'[k], trace'[k + 1]) {
      if k < |results| {
        assert trace'[k] == trace[k] && trace'[k + 1] == trace[k + 1];
      }
    }
  }

  lemma RunStarts(world: World, requests: seq<Request>, m: Moment)
    ensures Run(world, requests, [], [m]) && Tally(requests[..0], []) == seq(SO_MAX + 1, _ => 0)
  {
  }

  lemma OpenStep(world: World, m: Moment, path: string, r: int, m': Moment)
    requires Opened(world, m, path, r, m') && |m.g.handles| == SO_MAX + 1
    ensures Step(world, m, Open(path), r, m') && m'.g.handles == Book(m.g.handles, Open(path), r)
    ensures r == NULL ==> m'.g.handles == m.g.handles
    ensures r != NULL ==> 0 <= r <= SO_MAX && m'.g.handles == m.g.handles[r := m.g.handles[r] + 1]
  {
    hide Finds, Brought, NewLoaded, Grows, Inited, Basename;
  }

  lemma IgnoreStep(world: World, m: Moment, handle: Id)
    requires |m.g.handles| == SO_MAX + 1 && m.g.handles[handle] == 0
    ensures Step(world, m, Close(handle), NULL, m) && Book(m.g.handles, Close(handle), NULL) == m.g.handles
  {
  }

  lemma CloseStep(world: World, m: Moment, handle: Id, m': Moment)
    requires |m.g.info| == SO_MAX + 1 == |m.g.handles| && m.g.handles[handle] > 0 && !LosesLibdl(m.g, handle)
    requires Closes(m.g, m'.g, handle) && Finalized(m.g.loaded, m.log, m'.g.loaded, m'.log, {})
    ensures Step(world, m, Close(handle), NULL, m')
    ensures m'.g.handles == Book(m.g.handles, Close(handle), NULL) == m.g.handles[handle := m.g.handles[handle] - 1]
  {
    hide Finalized, LosesLibdl, Survivors;
  }

  // ---------------------------------------------------------------- the end of dlopen

  lemma OpenedNothing(world: World, m: Moment, path: string, m': Moment)
    requires Advances(world, m, m', {}, [path]) && Searched(world, m, path, NULL, m') && Fetched(world, m, path, m')
    ensures Opened(world, m, path, NULL, m')
  {
    hide Placeable, NewLoaded, Grows, Basename, Extends, LoadedAs, ImageOf;
  }

  /** With the constructors run and the handle counted, dlopen has done its work. */
  lemma OpenedAfter(world: World, m: Moment, m1: Moment, g2: Graph, log2: seq<Event>, r: Id, path: string)
    requires Advances(world, m, m1, {}, [path]) && Calls(m1.g, m1.log, g2, log2) && |m.g.handles| == SO_MAX + 1
    requires Searched(world, m, path, r, m1) && Fetched(world, m, path, m1) && Inited(log2, r)
    requires Serves(g2, r, path)
    ensures |g2.handles| == SO_MAX + 1 && |g2.info| == SO_MAX + 1
    ensures Opened(world, m, path, r, Moment(Acquire(g2, r), log2, m1.attempts))
  {
    hide Searched, Fetched, Inited, NewLoaded, Opens, Grows, Basename, Advances, Calls, Finds, Brought, Serves;
    OpenedLoads(world, m, m1, g2, log2, r, path);
    OpenedBrings(world, m, m1, g2, log2, r, path);
    SearchedFinds(world, m, path, r, m1);
    ServesFacts(g2, r, path);
    ServesAcquired(g2, r, path);
  }

  lemma ServesAcquired(g: Graph, r: Id, path: string)
    requires Serves(g, r, path) && |g.handles| == SO_MAX + 1
    ensures |g.info| == SO_MAX + 1 && Serves(Acquire(g, r), r, path)
  {
    hide Basename;
  }

  lemma SearchedFinds(world: World, m: Moment, path: string, r: int, m': Moment)
    requires Searched(world, m, path, r, m')
    ensures |m.g.info| == SO_MAX + 1 && Finds(m.g, Basename(path), world.look(path, m.attempts), r)
  {
    hide Basename, Placed, Untouched, Placeable;
  }

  /** dlopen's own reference: the invariant is restored and the work is done. */
  lemma Retained(world: World, m: Moment, m1: Moment, g2: Graph, log2: seq<Event>, r: Id, path: string)
    requires Advances(world, m, m1, {}, [path]) && Calls(m1.g, m1.log, g2, log2) && |m.g.handles| == SO_MAX + 1
    requires Searched(world, m, path, r, m1) && Fetched(world, m, path, m1)
    requires Running(g2, log2, {r}, {}) && Inited(log2, r) && Serves(g2, r, path)
    ensures |g2.handles| == SO_MAX + 1 && |g2.info| == SO_MAX + 1 && Sound(Acquire(g2, r), log2, {})
    ensures Opened(world, m, path, r, Moment(Acquire(g2, r), log2, m1.attempts))
  {
    hide Searched, Fetched, Inited, Opened, Basename, Advances, Calls, Running, Sound, Usable, Serves;
    ServesFacts(g2, r, path);
    SoundAcquire(g2, log2, r);
    OpenedAfter(world, m, m1, g2, log2, r, path);
  }

  /** Constructors and a handle change nothing in what was loaded. */
  lemma OpenedLoads(world: World, m: Moment, m1: Moment, g2: Graph, log2: seq<Event>, r: Id, path: string)
    requires Advances(world, m, m1, {}, [path]) && Calls(m1.g, m1.log, g2, log2) && |m.g.handles| == SO_MAX + 1
    ensures |g2.info| == SO_MAX + 1 == |g2.handles|
    ensures var m2 := Moment(Acquire(g2, r), log2, m1.attempts);
      Opens(m.g, m2.g, r) && Grows(m.log, log2) && NewLoaded(world, m, m2, [path])
  {
    hide Inited, LoadedFrom, Grows, Later, Needed;
    OpensAfter(m.g, m1.g, m1.log, g2, log2, r);
    GrowsTransitive(m.log, m1.log, log2);
    var m2 := Moment(Acquire(g2, r), log2, m1.attempts);
    AdvancesLater(world, m, m1, {}, [path]);
    LaterEnds(m, m1);
    LaterCalled(m1, g2, log2, r);
    forall x | x in m2.g.loaded && x !in m.g.loaded ensures LoadedFrom(world, m, m2, x, [path]) {
      LoadedFromWiden(world, m, m, m1, m2, x, [path], [path]);
    }
  }

  lemma OpenedBrings(world: World, m: Moment, m1: Moment, g2: Graph, log2: seq<Event>, r: Id, path: string)
    requires Advances(world, m, m1, {}, [path]) && Calls(m1.g, m1.log, g2, log2) && |m.g.handles| == SO_MAX + 1
    requires Searched(world, m, path, r, m1) && Fetched(world, m, path, m1) && |g2.handles| == SO_MAX + 1
    ensures |g2.info| == SO_MAX + 1 == |m.g.info|
    ensures Brought(world, m, path, r, Moment(Acquire(g2, r), log2, m1.attempts))
  {
    hide Inited, NewLoaded, Grows, Later, LoadedAs, ImageOf, Basename, Placeable, Finds;
    AdvancesLater(world, m, m1, {}, [path]);
    LaterEnds(m, m1);
    LaterCalled(m1, g2, log2, r);
    if Unnamed(m.g, Basename(path)) && Placeable(m.g, Basename(path), world.look(path, m.attempts)) {
      LoadedAsWiden(world, m, m, m1, Moment(Acquire(g2, r), log2, m1.attempts),
        m1.g.loaded[|m.g.loaded|], path, m.attempts);
    }
  }

  lemma LaterCalled(m: Moment, g: Graph, log: seq<Event>, r: Id)
    requires Calls(m.g, m.log, g, log) && |g.handles| == SO_MAX + 1
    ensures Later(m, Moment(Acquire(g, r), log, m.attempts))
  {
    hide Inited, Grows;
  }

  // ---------------------------------------------------------------- a client that crashes

  /** An image that links and whose names all stand for libdl. */
  predicate NeedsLibdlOnly(image: Outcome)
    requires image.Image?
  {
    image.result == Links && image.needed != [] && forall n <- image.needed :: Basename(n) == LIBDL
  }

  /** The files offer no library of another name. */
  ghost predicate OneName(world: World, path: string) {
    forall p, t :: world.look(p, t).Image? ==> Basename(p) == Basename(path)
  }

  /** libdl alone is loaded and nothing is open. */
  ghost predicate Starting(m: Moment) {
    && m.g.loaded == [0] && |m.g.info| == SO_MAX + 1 && m.g.info[0].name == LIBDL && Usable(m.g.info[0])
    && m.g.handles == Tally([], []) && m.attempts == 0
  }

  lemma UserComes(world: World, m: Moment, path: string, r: int, m': Moment)
    requires Starting(m) && Opened(world, m, path, r, m') && Basename(path) != LIBDL
    requires |Basename(path)| < SOINFO_NAME_LEN && world.look(path, 0).Image? && NeedsLibdlOnly(world.look(path, 0))
    ensures 0 < r <= SO_MAX && LoadedAs(world, m, m', r, path, 0) && Opens(m.g, m'.g, r)
    ensures Serves(m'.g, r, path) && NewLoaded(world, m, m', [path])
  {
    hide Basename, LoadedAs, Grows, NewLoaded, Inited;
    assert Unnamed(m.g, Basename(path));
  }

  lemma LibdlStays(m: Moment, h: Moment)
    requires Starting(m) && Later(m, h)
    ensures |h.g.info| == SO_MAX + 1 && 0 in h.g.loaded && h.g.info[0].name == LIBDL && Usable(h.g.info[0])
  {
    hide Grows, Tally;
    assert 0 in m.g.loaded;
  }

  /** A name that stands for libdl leads to libdl. */
  lemma ChosenLibdl(world: World, m: Moment, m': Moment, b: Id, name: string)
    requires Starting(m) && Chosen(world, m, m', b, name) && Basename(name) == LIBDL
    ensures b == 0
  {
    hide Basename, Searched, Later, Starting;
    var h, h', r :| ChosenAt(world, m, h, h', m', b, name, r);
    LibdlStays(m, h);
    SearchedLibdl(world, h, name, r, h');
  }

  lemma UserNeedsLibdl(world: World, m: Moment, m': Moment, r: Id, path: string)
    requires Starting(m) && LoadedAs(world, m, m', r, path, 0) && world.look(path, 0).Image?
    requires NeedsLibdlOnly(world.look(path, 0)) && |m'.g.info| == SO_MAX + 1 && Usable(m'.g.info[r])
    ensures 0 in m'.g.info[r].needed
  {
    hide Basename, Chosen, Entry, ImageOf, Starting;
    var names, needed := world.look(path, 0).needed, m'.g.info[r].needed;
    assert Chosen(world, m, m', needed[0], names[0]);
    assert names[0] in names;
    ChosenLibdl(world, m, m', needed[0], names[0]);
    assert needed[0] in needed;
  }

  /** Where only one name has an image, nothing else is loaded. */
  lemma NothingElse(world: World, m: Moment, m': Moment, r: Id, path: string)
    requires Starting(m) && NewLoaded(world, m, m', [path]) && LoadedAs(world, m, m', r, path, 0)
    requires NamesDiffer(m'.g.loaded, m'.g.info) && OneName(world, path)
    ensures forall y <- m'.g.loaded :: y == 0 || y == r
  {
    hide Basename, Resolved, Needed;
    forall y | y in m'.g.loaded && y != 0 ensures y == r {
      assert LoadedFrom(world, m, m', y, [path]);
      var p, t :| LoadedAs(world, m, m', y, p, t);
    }
  }

  /** After the open, closing the library takes the last reference to libdl away. */
  lemma UserLosesLibdl(world: World, m: Moment, path: string, r: int, m': Moment)
    requires Starting(m) && Opened(world, m, path, r, m') && Sound(m'.g, m'.log, {})
    requires world.look(path, 0).Image? && NeedsLibdlOnly(world.look(path, 0)) && Basename(path) != LIBDL
    requires |Basename(path)| < SOINFO_NAME_LEN
    requires OneName(world, path)
    ensures 0 <= r <= SO_MAX && |m'.g.info| == SO_MAX + 1 == |m'.g.handles| && m'.g.handles[r] > 0
    ensures LosesLibdl(m'.g, r)
  {
    hide *;
    UserComes(world, m, path, r, m');
    OpensHandles(m.g, m'.g, r);
    ServesFacts(m'.g, r, path);
    UserNeedsLibdl(world, m, m', r, path);
    SoundInv(m'.g, m'.log);
    InvNames(m'.g);
    NothingElse(world, m, m', r, path);
    StartingHandles(m);
    LastUser(m.g, m'.g, r);
  }

  lemma OpensHandles(g: Graph, g': Graph, r: Id)
    requires Opens(g, g', r)
    ensures |g.handles| == SO_MAX + 1 && g'.handles == g.handles[r := g.handles[r] + 1]
  {
  }

  lemma InvNames(g: Graph)
    requires Inv(g)
    ensures |g.info| == SO_MAX + 1 && NamesDiffer(g.loaded, g.info)
  {
    hide Ranked, Counted, Held, NamesDiffer;
  }

  lemma StartingHandles(m: Moment)
    requires Starting(m)
    ensures m.g.handles == Tally([], [])
  {
  }

  lemma LastUser(g: Graph, g': Graph, r: Id)
    requires Inv(g') && r != 0 && r in g'.loaded && Usable(g'.info[r]) && 0 in g'.info[r].needed
    requires forall y <- g'.loaded :: y == 0 || y == r
    requires g.handles == Tally([], []) && g'.handles == g.handles[r := g.handles[r] + 1]
    ensures |g'.info| == SO_MAX + 1 == |g'.handles| && g'.handles[r] > 0 && LosesLibdl(g', r)
  {
    hide EdgesTo;
    var g1 := Release(g', r);
    assert g'.info[0].refcount > 0 by {
      if EdgesTo(g'.loaded, g'.info, 0) == 0 {
        NoEdges(g'.loaded, g'.info, 0, r);
      }
    }
    forall y, p | y in g1.loaded && Reaches(g1, p, y) ensures y == 0 {
      if |p| > 1 {
        assert p[0 + 1] in g1.info[p[0]].needed;
      }
    }
  }
}
