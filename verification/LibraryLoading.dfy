/** What dlopen loads: which library a name leads to, and where the recorded entries come from. */
module LibraryLoading {
  import opened SoPool
  import opened LibraryGraph
  import opened LinkerLog

  /** How linking a mapped image ends. */
  datatype LinkResult = NoTables | RelocationFails | RelroFails | Links

  /** What opening a path leads to: no usable file, one whose segments cannot be mapped, or an image
      with its DT_NEEDED names. */
  datatype Outcome = NotFound | Unmappable | Image(needed: seq<string>, result: LinkResult)

  /** The files, as the linker finds them at each attempt. */
  datatype World = World(look: (string, nat) -> Outcome)

  const SOINFO_NAME_LEN := 128

  /** A state of the linker: libraries, history, and how often a file was looked for. */
  datatype Moment = Moment(g: Graph, log: seq<Event>, attempts: nat)

  /** What follows the last slash. */
  function Basename(path: string): (b: string)
    ensures '/' !in b && |b| <= |path| && path[|path| - |b|..] == b
    ensures |b| < |path| ==> path[|path| - |b| - 1] == '/'
  {
    if path == [] || path[|path| - 1] == '/' then [] else
    var rest := Basename(path[..|path| - 1]);
    rest + [path[|path| - 1]]
  }

  // ---------------------------------------------------------------- what a name leads to

  /** A library that is not listed gets a slot: it is mapped, its name fits and a slot is free. */
  ghost predicate Placeable(g: Graph, name: string, image: Outcome) {
    image.Image? && |name| < 128 && |g.loaded| <= 128
  }

  /** What find_library answers: the listed library of the name if that is usable, nothing if it is
      listed but failed or is still being linked; otherwise a library that gets a slot and links. */
  ghost predicate Finds(g: Graph, name: string, image: Outcome, r: int) {
    && |g.info| == SO_MAX + 1
    && (forall x <- g.loaded :: g.info[x].name == name ==> r == if Usable(g.info[x]) then x else NULL)
    && (Unnamed(g, name) ==> (r != NULL <==> Placeable(g, name, image) && image.result == Links))
  }

  /** A usable library that a path may stand for. */
  ghost predicate Serves(g: Graph, r: int, path: string) {
    && |g.info| == SO_MAX + 1 && 0 <= r <= SO_MAX && r in g.loaded
    && Usable(g.info[r]) && g.info[r].name == Basename(path)
  }

  lemma ServesFacts(g: Graph, r: int, path: string)
    requires Serves(g, r, path)
    ensures |g.info| == SO_MAX + 1 && 0 <= r <= SO_MAX && r in g.loaded && Usable(g.info[r])
  {
  }

  lemma ServesWhen(g: Graph, r: Id, path: string)
    requires |g.info| == SO_MAX + 1 && r in g.loaded && Usable(g.info[r]) && g.info[r].name == Basename(path)
    ensures Serves(g, r, path)
  {
  }

  lemma ServesCalled(g: Graph, log: seq<Event>, g': Graph, log': seq<Event>, r: int, path: string)
    requires Serves(g, r, path) && Calls(g, log, g', log')
    ensures Serves(g', r, path)
  {
    hide Inited, Grows, Basename;
  }

  // ---------------------------------------------------------------- one state after another

  /** A later state while libraries are only loaded: what is listed stays listed under its name, and
      a library whose linking has ended stays as it was linked, with its entries. */
  ghost predicate Later(m: Moment, m': Moment) {
    && |m.g.info| == SO_MAX + 1 == |m'.g.info| && m.g.loaded <= m'.g.loaded
    && Grows(m.log, m'.log) && m.attempts <= m'.attempts
    && (forall x <- m.g.loaded :: m'.g.info[x].name == m.g.info[x].name)
    && (forall x <- m.g.loaded :: Done(m.g.info[x]) ==> SameLink(m.g.info[x], m'.g.info[x]))
  }

  predicate SameLink(i: SoInfo, i': SoInfo) {
    i'.linked == i.linked && i'.error == i.error && i'.needed == i.needed
  }

  lemma LaterEnds(m: Moment, m': Moment)
    requires Later(m, m')
    ensures Later(m, m) && Later(m', m')
  {
  }

  lemma LaterTransitive(m: Moment, m1: Moment, m2: Moment)
    requires Later(m, m1) && Later(m1, m2)
    ensures Later(m, m2)
  {
    hide Grows;
    GrowsTransitive(m.log, m1.log, m2.log);
    assert forall x <- m.g.loaded :: x in m1.g.loaded;
  }

  lemma LaterAt(m: Moment, m': Moment, x: Id)
    requires Later(m, m') && x in m.g.loaded && Done(m.g.info[x])
    ensures |m.g.info| == SO_MAX + 1 == |m'.g.info| && m.attempts <= m'.attempts && x in m'.g.loaded
    ensures m'.g.info[x].name == m.g.info[x].name && SameLink(m.g.info[x], m'.g.info[x])
  {
    hide Grows, SameLink;
  }

  lemma LaterSince(m: Moment, m': Moment)
    requires Later(m, m')
    ensures m.attempts <= m'.attempts && forall x <- m.g.loaded :: x in m'.g.loaded
  {
    hide Grows, SameLink;
  }

  /** Nothing has happened to the libraries. */
  ghost predicate Untouched(g: Graph, g': Graph) {
    && |g.info| == SO_MAX + 1 == |g'.info| && g' == g.(info := g'.info)
    && forall x <- g.loaded :: g'.info[x] == g.info[x]
  }

  lemma UntouchedSelf(g: Graph)
    requires |g.info| == SO_MAX + 1
    ensures Untouched(g, g)
  {
  }

  // ---------------------------------------------------------------- where libraries and entries come from

  /** The flags after linking: the library has failed unless everything is in order, and counts as linked
      once it is relocated. */
  predicate EndsAs(i: SoInfo, result: LinkResult) {
    && (i.error <==> result != Links)
    && (i.linked <==> result == Links || result == RelroFails)
  }

  /** A library that was put in its slot on the way from m to m', for the image found under a path at an
      attempt; it has the base name of the path and the flags that linking the image ends with. */
  ghost predicate ImageOf(world: World, m: Moment, m': Moment, x: Id, path: string, t: nat) {
    && m.attempts <= t < m'.attempts && |m'.g.info| == SO_MAX + 1
    && x in m'.g.loaded && x !in m.g.loaded && m'.g.info[x].name == Basename(path)
    && world.look(path, t).Image? && EndsAs(m'.g.info[x], world.look(path, t).result)
  }

  /** What a search for a path does, from m to m', and its answer: nothing if the name is listed; nothing
      to the libraries if there is no image or no place for it; otherwise the image of that very path
      takes the next place of the load list, and is the answer if it links. */
  ghost predicate Searched(world: World, m: Moment, path: string, r: int, m': Moment) {
    var name, image := Basename(path), world.look(path, m.attempts);
    && Finds(m.g, name, image, r)
    && (!Unnamed(m.g, name) ==> m' == m)
    && (Unnamed(m.g, name) && !Placeable(m.g, name, image) ==> Untouched(m.g, m'.g))
    && (Unnamed(m.g, name) && Placeable(m.g, name, image) ==> Placed(world, m, path, r, m'))
  }

  ghost predicate Placed(world: World, m: Moment, path: string, r: int, m': Moment) {
    && |m.g.loaded| < |m'.g.loaded| && var si := m'.g.loaded[|m.g.loaded|];
       ImageOf(world, m, m', si, path, m.attempts) && (r != NULL ==> r == si)
  }

  /** The entry for a name: what a search on the way answered, or libdl if it answered nothing. */
  ghost predicate Chosen(world: World, m: Moment, m': Moment, b: Id, path: string) {
    exists h: Moment, h': Moment, r: int :: ChosenAt(world, m, h, h', m', b, path, r)
  }

  ghost predicate ChosenAt(world: World, m: Moment, h: Moment, h': Moment, m': Moment, b: Id, path: string, r: int) {
    && Later(m, h) && Searched(world, h, path, r, h') && Later(h, h') && Later(h', m')
    && b == if r == NULL then 0 else r
  }

  /** ... which is usable and has the name, unless it is libdl. */
  ghost predicate Entry(g: Graph, b: Id, path: string) {
    |g.info| == SO_MAX + 1 && b in g.loaded && (b == 0 || (Usable(g.info[b]) && g.info[b].name == Basename(path)))
  }

  ghost predicate Resolved(world: World, m: Moment, m': Moment, needed: seq<Id>, names: seq<string>) {
    && |needed| == |names|
    && forall k :: 0 <= k < |names| ==>
         Chosen(world, m, m', needed[k], names[k]) && Entry(m'.g, needed[k], names[k])
  }

  /** The entries of an image, whether or not its relocation succeeds: what its names led to, or none if
      linking fails before it gets to them. */
  ghost predicate Entries(world: World, m: Moment, m': Moment, needed: seq<Id>, image: Outcome)
    requires image.Image?
  {
    if image.result == NoTables then needed == [] else Resolved(world, m, m', needed, image.needed)
  }

  /** A library that was loaded from an image, with its entries. */
  ghost predicate LoadedAs(world: World, m: Moment, m': Moment, x: Id, path: string, t: nat) {
    && ImageOf(world, m, m', x, path, t)
    && Entries(world, m, m', m'.g.info[x].needed, world.look(path, t))
  }

  /** A path that a new library needs which was put in its slot before attempt t. */
  ghost predicate Needed(world: World, m: Moment, m': Moment, path: string, t: nat) {
    exists y: Id, p: string, t': nat :: NeededBy(world, m, m', path, t, y, p, t')
  }

  ghost predicate NeededBy(world: World, m: Moment, m': Moment, path: string, t: nat, y: Id, p: string, t': nat) {
    t' < t && ImageOf(world, m, m', y, p, t') && path in world.look(p, t').needed
  }

  /** A library was loaded under one of the paths asked for, or because an earlier new library needs it. */
  ghost predicate LoadedFrom(world: World, m: Moment, m': Moment, x: Id, asked: seq<string>) {
    exists path: string, t: nat ::
      LoadedAs(world, m, m', x, path, t) && (path in asked || Needed(world, m, m', path, t))
  }

  /** Every library that is new was loaded in this way. */
  ghost predicate NewLoaded(world: World, m: Moment, m': Moment, asked: seq<string>) {
    && |m'.g.info| == SO_MAX + 1
    && forall x <- m'.g.loaded :: x !in m.g.loaded ==> LoadedFrom(world, m, m', x, asked)
  }

  lemma ImageOfWiden(world: World, m0: Moment, m: Moment, m': Moment, m1: Moment, x: Id, path: string, t: nat)
    requires ImageOf(world, m, m', x, path, t) && Later(m0, m) && Later(m', m1)
    ensures ImageOf(world, m0, m1, x, path, t)
  {
    hide Basename, Later;
    LaterAt(m', m1, x);
    LaterSince(m0, m);
  }

  lemma ChosenWiden(world: World, m0: Moment, m: Moment, m': Moment, m1: Moment, b: Id, path: string)
    requires Chosen(world, m, m', b, path) && Later(m0, m) && Later(m', m1)
    ensures Chosen(world, m0, m1, b, path)
  {
    hide Later, Searched;
    var h, h', r :| ChosenAt(world, m, h, h', m', b, path, r);
    LaterTransitive(m0, m, h);
    LaterTransitive(h', m', m1);
    assert ChosenAt(world, m0, h, h', m1, b, path, r);
  }

  lemma EntryLater(m: Moment, m': Moment, b: Id, path: string)
    requires Later(m, m') && Entry(m.g, b, path)
    ensures Entry(m'.g, b, path)
  {
    hide Basename, Grows;
  }

  lemma ResolvedWiden(world: World, m0: Moment, m: Moment, m': Moment, m1: Moment, needed: seq<Id>, names: seq<string>)
    requires Resolved(world, m, m', needed, names) && Later(m0, m) && Later(m', m1)
    ensures Resolved(world, m0, m1, needed, names)
  {
    hide Later, Chosen, Entry;
    forall k | 0 <= k < |names|
      ensures Chosen(world, m0, m1, needed[k], names[k]) && Entry(m1.g, needed[k], names[k])
    {
      ChosenWiden(world, m0, m, m', m1, needed[k], names[k]);
      EntryLater(m', m1, needed[k], names[k]);
    }
  }

  lemma EntriesWiden(world: World, m0: Moment, m: Moment, m': Moment, m1: Moment, needed: seq<Id>, image: Outcome)
    requires image.Image? && Entries(world, m, m', needed, image) && Later(m0, m) && Later(m', m1)
    ensures Entries(world, m0, m1, needed, image)
  {
    hide Resolved, Later;
    if image.result != NoTables {
      ResolvedWiden(world, m0, m, m', m1, needed, image.needed);
    }
  }

  lemma LoadedAsWiden(world: World, m0: Moment, m: Moment, m': Moment, m1: Moment, x: Id, path: string, t: nat)
    requires LoadedAs(world, m, m', x, path, t) && Later(m0, m) && Later(m', m1)
    ensures LoadedAs(world, m0, m1, x, path, t)
  {
    hide Entries, Basename, Grows;
    ImageOfWiden(world, m0, m, m', m1, x, path, t);
    EntriesWiden(world, m0, m, m', m1, m'.g.info[x].needed, world.look(path, t));
  }

  lemma NeededWiden(world: World, m0: Moment, m: Moment, m': Moment, m1: Moment, path: string, t: nat)
    requires Needed(world, m, m', path, t) && Later(m0, m) && Later(m', m1)
    ensures Needed(world, m0, m1, path, t)
  {
    hide ImageOf, Later;
    var y, p, t' :| NeededBy(world, m, m', path, t, y, p, t');
    ImageOfWiden(world, m0, m, m', m1, y, p, t');
    assert NeededBy(world, m0, m1, path, t, y, p, t');
  }

  lemma NeededEver(world: World, m: Moment, m': Moment, path: string, t: nat, t1: nat)
    requires Needed(world, m, m', path, t) && t <= t1
    ensures Needed(world, m, m', path, t1)
  {
    hide ImageOf;
    var y, p, t' :| NeededBy(world, m, m', path, t, y, p, t');
    assert NeededBy(world, m, m', path, t1, y, p, t');
  }

  lemma LoadedFromWiden(world: World, m0: Moment, m: Moment, m': Moment, m1: Moment, x: Id,
                        asked: seq<string>, asked': seq<string>)
    requires LoadedFrom(world, m, m', x, asked) && Later(m0, m) && Later(m', m1)
    requires forall path <- asked :: path in asked' || Needed(world, m0, m1, path, m.attempts)
    ensures LoadedFrom(world, m0, m1, x, asked')
  {
    hide LoadedAs, Needed, Later;
    var path, t :| LoadedAs(world, m, m', x, path, t) && (path in asked || Needed(world, m, m', path, t));
    LoadedAsWiden(world, m0, m, m', m1, x, path, t);
    LoadedSince(world, m, m', x, path, t);
    if Needed(world, m, m', path, t) {
      NeededWiden(world, m0, m, m', m1, path, t);
    } else if path !in asked' {
      NeededEver(world, m0, m1, path, m.attempts, t);
    }
  }

  lemma LoadedSince(world: World, m: Moment, m': Moment, x: Id, path: string, t: nat)
    requires LoadedAs(world, m, m', x, path, t)
    ensures m.attempts <= t
  {
    hide Resolved, Basename;
  }

  // ---------------------------------------------------------------- progress

  /** What loading does: the libraries in `but` are still being linked at first, what was listed stays as
      it was but for counts, and every library that is new was loaded because it was asked for or needed. */
  ghost predicate Advances(world: World, m: Moment, m': Moment, but: set<Id>, asked: seq<string>) {
    && Extends(m.g, m'.g, but) && Grows(m.log, m'.log) && m.attempts <= m'.attempts
    && (forall x <- but :: x in m.g.loaded && !Done(m.g.info[x]) && m'.g.info[x].name == m.g.info[x].name)
    && NewLoaded(world, m, m', asked)
  }

  lemma AdvancesLater(world: World, m: Moment, m': Moment, but: set<Id>, asked: seq<string>)
    requires Advances(world, m, m', but, asked)
    ensures Later(m, m')
  {
    hide LoadedFrom, Grows;
  }

  /** A step on which no library is loaded. */
  lemma AdvancesPlain(world: World, m: Moment, m': Moment, but: set<Id>)
    requires Extends(m.g, m'.g, but) && Grows(m.log, m'.log) && m.attempts <= m'.attempts
    requires forall x <- but :: x in m.g.loaded && !Done(m.g.info[x]) && m'.g.info[x].name == m.g.info[x].name
    requires m'.g.loaded == m.g.loaded
    ensures Advances(world, m, m', but, [])
  {
    hide LoadedFrom, Grows;
  }

  lemma AdvancesSelf(world: World, m: Moment, but: set<Id>)
    requires |m.g.info| == SO_MAX + 1 && forall x <- but :: x in m.g.loaded && !Done(m.g.info[x])
    ensures Advances(world, m, m, but, [])
  {
    hide LoadedFrom;
  }

  /** More may be still being linked, and more may have been asked for. */
  lemma AdvancesWeaken(world: World, m: Moment, m': Moment, but: set<Id>, but': set<Id>,
                       asked: seq<string>, asked': seq<string>)
    requires Advances(world, m, m', but, asked) && but <= but' && forall path <- asked :: path in asked'
    requires |m.g.info| == SO_MAX + 1 == |m'.g.info|
    requires forall x <- but' :: x in m.g.loaded && !Done(m.g.info[x]) && m'.g.info[x].name == m.g.info[x].name
    ensures Advances(world, m, m', but', asked')
  {
    hide LoadedFrom, Grows, Later, Needed;
    AdvancesLater(world, m, m', but, asked);
    LaterEnds(m, m');
    forall x | x in m'.g.loaded && x !in m.g.loaded ensures LoadedFrom(world, m, m', x, asked') {
      LoadedFromWiden(world, m, m, m', m', x, asked, asked');
    }
  }

  lemma NewLoadedThen(world: World, m: Moment, m1: Moment, m2: Moment, but: set<Id>, a1: seq<string>, a2: seq<string>)
    requires Advances(world, m, m1, but, a1) && Advances(world, m1, m2, but, a2)
    ensures NewLoaded(world, m, m2, a1 + a2)
  {
    hide LoadedFrom, Grows, Later, Needed;
    AdvancesLater(world, m, m1, but, a1);
    AdvancesLater(world, m1, m2, but, a2);
    LaterEnds(m, m1);
    LaterEnds(m1, m2);
    forall x | x in m2.g.loaded && x !in m.g.loaded ensures LoadedFrom(world, m, m2, x, a1 + a2) {
      if x in m1.g.loaded {
        LoadedFromWiden(world, m, m, m1, m2, x, a1, a1 + a2);
      } else {
        LoadedFromWiden(world, m, m1, m2, m2, x, a2, a1 + a2);
      }
    }
  }

  lemma AdvancesTransitive(world: World, m: Moment, m1: Moment, m2: Moment, but: set<Id>,
                           a1: seq<string>, a2: seq<string>)
    requires Advances(world, m, m1, but, a1) && Advances(world, m1, m2, but, a2)
    ensures Advances(world, m, m2, but, a1 + a2)
  {
    hide Extends, Grows, NewLoaded;
    NewLoadedThen(world, m, m1, m2, but, a1, a2);
    GrowsTransitive(m.log, m1.log, m2.log);
    ExtendsTransitive(m.g, m1.g, m2.g, but);
    ExtendsSizes(m.g, m1.g, but);
    ExtendsSizes(m1.g, m2.g, but);
  }

  lemma ExtendsSizes(g: Graph, g': Graph, but: set<Id>)
    requires Extends(g, g', but)
    ensures |g.info| == SO_MAX + 1 == |g'.info| && g.loaded <= g'.loaded
  {
  }

  // ---------------------------------------------------------------- a new library

  /** A slot has been filled for an image that was looked for: the library is last on the list and is
      about to be linked; nothing else has changed. */
  ghost predicate Fills(m: Moment, m1: Moment, si: Id, name: string) {
    && Extends(m.g, m1.g, {}) && Grows(m.log, m1.log) && m1.attempts == m.attempts + 1
    && si !in m.g.loaded && m1.g.loaded == m.g.loaded + [si]
    && m1.g.info[si] == SoInfo(name, false, false, 0, [], false)
  }

  lemma FillsName(m: Moment, m1: Moment, si: Id, name: string)
    requires Fills(m, m1, si, name)
    ensures |m1.g.info| == SO_MAX + 1 && m1.g.info[si].name == name && m1.attempts == m.attempts + 1
  {
  }

  lemma FillsLater(m: Moment, m1: Moment, si: Id, name: string)
    requires Fills(m, m1, si, name)
    ensures Later(m, m1)
  {
    hide Grows;
  }

  /** An image was placed and linked: its slot was filled, then its names were resolved. */
  ghost predicate LinksInto(world: World, m: Moment, m1: Moment, m2: Moment, si: Id, path: string) {
    && world.look(path, m.attempts).Image? && Fills(m, m1, si, Basename(path))
    && Advances(world, m1, m2, {si}, world.look(path, m.attempts).needed)
  }

  /** The slot after the list as it was belongs to the library just loaded. */
  lemma ImageHere(world: World, m: Moment, m1: Moment, m2: Moment, si: Id, path: string)
    requires LinksInto(world, m, m1, m2, si, path) && |m2.g.info| == SO_MAX + 1
    requires world.look(path, m.attempts).Image? && EndsAs(m2.g.info[si], world.look(path, m.attempts).result)
    ensures ImageOf(world, m, m2, si, path, m.attempts)
    ensures |m.g.loaded| < |m2.g.loaded| && m2.g.loaded[|m.g.loaded|] == si
  {
    hide Basename, Grows, NewLoaded;
    assert m1.g.loaded[|m.g.loaded|] == si;
  }

  lemma LinksLater(world: World, m: Moment, m1: Moment, m2: Moment, si: Id, path: string)
    requires LinksInto(world, m, m1, m2, si, path)
    ensures Later(m, m1) && Later(m1, m2) && Later(m, m) && Later(m2, m2) && m1.attempts == m.attempts + 1
  {
    hide Fills, Advances, Later, Basename;
    FillsName(m, m1, si, Basename(path));
    FillsLater(m, m1, si, Basename(path));
    AdvancesLater(world, m1, m2, {si}, world.look(path, m.attempts).needed);
    LaterEnds(m, m1);
    LaterEnds(m1, m2);
  }

  lemma LoadedHere(world: World, m: Moment, m1: Moment, m2: Moment, si: Id, path: string)
    requires LinksInto(world, m, m1, m2, si, path) && ImageOf(world, m, m2, si, path, m.attempts)
    requires Entries(world, m1, m2, m2.g.info[si].needed, world.look(path, m.attempts))
    ensures LoadedAs(world, m, m2, si, path, m.attempts)
  {
    hide LinksInto, Entries, Basename, Later;
    LinksLater(world, m, m1, m2, si, path);
    EntriesWiden(world, m, m1, m2, m2, m2.g.info[si].needed, world.look(path, m.attempts));
  }

  /** Filling a new slot and linking it: one library is loaded because it was asked for, and the others
      because it needs them. */
  lemma AdvancesNew(world: World, m: Moment, m1: Moment, m2: Moment, si: Id, path: string)
    requires LinksInto(world, m, m1, m2, si, path) && LoadedAs(world, m, m2, si, path, m.attempts)
    ensures Advances(world, m, m2, {}, [path])
  {
    hide Grows, NewLoaded, LoadedAs, Basename;
    GrowsTransitive(m.log, m1.log, m2.log);
    assert forall x <- m.g.loaded :: x in m1.g.loaded;
    NewWithNeeded(world, m, m1, m2, si, path);
  }

  lemma NewWithNeeded(world: World, m: Moment, m1: Moment, m2: Moment, si: Id, path: string)
    requires LinksInto(world, m, m1, m2, si, path) && LoadedAs(world, m, m2, si, path, m.attempts)
    ensures NewLoaded(world, m, m2, [path])
  {
    hide LoadedFrom, Later, Needed, Basename, LoadedAs, LinksInto;
    LinksLater(world, m, m1, m2, si, path);
    NamesNeeded(world, m, m2, si, path, m1.attempts);
    NewHere(world, m, m2, si, path);
    NewBeyond(world, m, m1, m2, si, path);
    forall x | x in m2.g.loaded && x !in m.g.loaded ensures LoadedFrom(world, m, m2, x, [path]) {
      if x != si {
        LoadedFromWiden(world, m, m1, m2, m2, x, world.look(path, m.attempts).needed, [path]);
      }
    }
  }

  lemma NewBeyond(world: World, m: Moment, m1: Moment, m2: Moment, si: Id, path: string)
    requires LinksInto(world, m, m1, m2, si, path)
    ensures |m2.g.info| == SO_MAX + 1
    ensures forall x <- m2.g.loaded :: x !in m.g.loaded && x != si ==>
      LoadedFrom(world, m1, m2, x, world.look(path, m.attempts).needed)
  {
    hide LoadedFrom, Basename, Grows, Extends;
  }

  lemma NamesNeeded(world: World, m: Moment, m2: Moment, si: Id, path: string, t: nat)
    requires LoadedAs(world, m, m2, si, path, m.attempts) && m.attempts < t
    ensures world.look(path, m.attempts).Image?
    ensures forall p <- world.look(path, m.attempts).needed :: Needed(world, m, m2, p, t)
  {
    hide Resolved, Basename;
    forall p | p in world.look(path, m.attempts).needed ensures Needed(world, m, m2, p, t) {
      assert NeededBy(world, m, m2, p, t, si, path, m.attempts);
    }
  }

  lemma NewHere(world: World, m: Moment, m2: Moment, si: Id, path: string)
    requires LoadedAs(world, m, m2, si, path, m.attempts)
    ensures LoadedFrom(world, m, m2, si, [path])
  {
    hide LoadedAs;
  }

  /** A library that is listed keeps everything but its count. */
  lemma AdvancesAt(world: World, m: Moment, m': Moment, si: Id, asked: seq<string>)
    requires Advances(world, m, m', {}, asked) && si in m.g.loaded
    ensures si in m'.g.loaded && |m'.g.info| == SO_MAX + 1 == |m.g.info| && |m.g.loaded| <= |m'.g.loaded|
    ensures m'.g.info[si] == m.g.info[si].(refcount := m'.g.info[si].refcount)
  {
    hide NewLoaded, Grows;
  }

  // ---------------------------------------------------------------- the answers of a search

  /** There is only one listed library of a name. */
  lemma FindsListed(g: Graph, log: seq<Event>, si: Id, name: string, image: Outcome)
    requires Sound(g, log, {}) && si in g.loaded && |g.info| == SO_MAX + 1 && g.info[si].name == name
    ensures Finds(g, name, image, if Usable(g.info[si]) then si else NULL) && !Unnamed(g, name)
  {
    hide Agrees, Ranked, Counted, Held, Placeable;
  }

  lemma SearchedListed(world: World, m: Moment, path: string, si: Id)
    requires Sound(m.g, m.log, {}) && si in m.g.loaded && |m.g.info| == SO_MAX + 1
    requires m.g.info[si].name == Basename(path)
    ensures Searched(world, m, path, if Usable(m.g.info[si]) then si else NULL, m)
  {
    hide Sound, Finds, Basename, Usable, Placeable, Placed, Unnamed, Untouched;
    FindsListed(m.g, m.log, si, Basename(path), world.look(path, m.attempts));
  }

  lemma SearchedNothing(world: World, m: Moment, path: string, m': Moment)
    requires |m.g.info| == SO_MAX + 1 && Unnamed(m.g, Basename(path)) && Untouched(m.g, m'.g)
    requires !Placeable(m.g, Basename(path), world.look(path, m.attempts))
    ensures Searched(world, m, path, NULL, m')
  {
    hide Placeable, Basename, Placed, Untouched;
  }

  lemma SearchedNew(world: World, m: Moment, path: string, si: Id, r: int, m': Moment)
    requires |m.g.info| == SO_MAX + 1 && Unnamed(m.g, Basename(path))
    requires Placeable(m.g, Basename(path), world.look(path, m.attempts))
    requires ImageOf(world, m, m', si, path, m.attempts) && |m.g.loaded| < |m'.g.loaded|
    requires m'.g.loaded[|m.g.loaded|] == si
    requires r == if world.look(path, m.attempts).result == Links then si else NULL
    ensures Searched(world, m, path, r, m')
  {
    hide Placeable, Basename, Untouched, ImageOf;
  }

  /** A library that gets a slot is loaded from its image, entries and all. */
  ghost predicate Fetched(world: World, m: Moment, path: string, m': Moment) {
    |m.g.info| == SO_MAX + 1 && Unnamed(m.g, Basename(path))
      && Placeable(m.g, Basename(path), world.look(path, m.attempts)) ==>
      |m.g.loaded| < |m'.g.loaded| && LoadedAs(world, m, m', m'.g.loaded[|m.g.loaded|], path, m.attempts)
  }

  lemma FetchedNothing(world: World, m: Moment, path: string, m': Moment)
    requires |m.g.info| == SO_MAX + 1
    requires Unnamed(m.g, Basename(path)) ==> !Placeable(m.g, Basename(path), world.look(path, m.attempts))
    ensures Fetched(world, m, path, m')
  {
    hide Placeable, Basename, LoadedAs, Unnamed;
  }

  lemma FetchedNew(world: World, m: Moment, path: string, si: Id, m': Moment)
    requires LoadedAs(world, m, m', si, path, m.attempts)
    requires |m.g.loaded| < |m'.g.loaded| && m'.g.loaded[|m.g.loaded|] == si
    ensures Fetched(world, m, path, m')
  {
    hide Placeable, Basename, LoadedAs, Unnamed;
  }

  /** A search that finds no image or no place for it. */
  lemma NothingLoaded(world: World, m: Moment, path: string, m': Moment)
    requires |m.g.info| == SO_MAX + 1 && Unnamed(m.g, Basename(path))
    requires !Placeable(m.g, Basename(path), world.look(path, m.attempts))
    requires Untouched(m.g, m'.g) && Grows(m.log, m'.log) && m.attempts <= m'.attempts
    ensures Advances(world, m, m', {}, [path]) && Searched(world, m, path, NULL, m') && Fetched(world, m, path, m')
  {
    hide Searched, Fetched, Placeable, Basename, Unnamed, NewLoaded, Grows, Advances;
    SearchedNothing(world, m, path, m');
    FetchedNothing(world, m, path, m');
    AdvancesPlain(world, m, m', {});
    AdvancesWeaken(world, m, m', {}, {}, [], [path]);
  }

  /** libdl answers to its name in every state, and nothing is loaded for it. */
  lemma SearchedLibdl(world: World, m: Moment, path: string, r: int, m': Moment)
    requires |m.g.info| == SO_MAX + 1 && 0 in m.g.loaded && m.g.info[0].name == LIBDL && Usable(m.g.info[0])
    requires Searched(world, m, path, r, m') && Basename(path) == LIBDL
    ensures r == 0 && m' == m
  {
    hide Placeable, Basename, Placed, Untouched;
  }

  // ---------------------------------------------------------------- the loop over DT_NEEDED

  /** One more entry, chosen for the name. */
  ghost predicate NewEntry(world: World, m: Moment, m': Moment, si: Id, path: string) {
    && |m.g.info| == SO_MAX + 1 == |m'.g.info|
    && exists b: Id :: m'.g.info[si].needed == m.g.info[si].needed + [b]
         && Chosen(world, m, m', b, path) && Entry(m'.g, b, path)
  }

  /** The entry that was counted is the one that was found. */
  lemma EntryChosen(world: World, m: Moment, m1: Moment, m2: Moment, si: Id, lsi: Id, path: string, r: int)
    requires Later(m, m1) && Later(m1, m2) && |m1.g.info| == SO_MAX + 1 == |m2.g.info|
    requires Searched(world, m, path, r, m1) && lsi == if r == NULL then 0 else r
    requires |m.g.info| == SO_MAX + 1
    requires m1.g.info[si].needed == m.g.info[si].needed && m2.g.info[si].needed == m1.g.info[si].needed + [lsi]
    requires (r != NULL ==> Serves(m1.g, r, path)) && 0 in m1.g.loaded
    ensures NewEntry(world, m, m2, si, path)
  {
    hide Searched, Basename, Later;
    assert Entry(m1.g, lsi, path);
    hide Entry;
    LaterEnds(m, m1);
    EntryLater(m1, m2, lsi, path);
    assert ChosenAt(world, m, m, m1, m2, lsi, path, r);
  }

  lemma ResolvedNone(world: World, m: Moment)
    ensures Resolved(world, m, m, [], [])
  {
  }

  lemma ResolvedMore(world: World, m0: Moment, m: Moment, m': Moment, si: Id, names: seq<string>, k: nat)
    requires Later(m0, m) && Later(m, m') && k < |names| && |m.g.info| == SO_MAX + 1
    requires Resolved(world, m0, m, m.g.info[si].needed, names[..k]) && NewEntry(world, m, m', si, names[k])
    ensures |m'.g.info| == SO_MAX + 1 && Resolved(world, m0, m', m'.g.info[si].needed, names[..k + 1])
  {
    hide Chosen, Entry, Later;
    LaterEnds(m0, m);
    ResolvedWiden(world, m0, m0, m, m', m.g.info[si].needed, names[..k]);
    var b :| m'.g.info[si].needed == m.g.info[si].needed + [b]
      && Chosen(world, m, m', b, names[k]) && Entry(m'.g, b, names[k]);
    LaterEnds(m, m');
    ChosenWiden(world, m0, m, m', m', b, names[k]);
    assert forall i :: 0 <= i < k ==> names[..k + 1][i] == names[..k][i];
  }

  // ---------------------------------------------------------------- dlopen

  /** What a successful dlopen does: one more handle; what was loaded stays as it was, but for counts
      that grow and constructors that have run. */
  ghost predicate Opens(g: Graph, g': Graph, r: Id) {
    && |g.info| == SO_MAX + 1 == |g'.info| && |g.handles| == SO_MAX + 1
    && g.loaded <= g'.loaded && g'.handles == g.handles[r := g.handles[r] + 1]
    && forall x <- g.loaded ::
         && g'.info[x] == g.info[x].(refcount := g'.info[x].refcount, called := g'.info[x].called)
         && g'.info[x].refcount >= g.info[x].refcount
  }

  lemma OpensAfter(g: Graph, g1: Graph, log1: seq<Event>, g2: Graph, log2: seq<Event>, r: Id)
    requires Extends(g, g1, {}) && Calls(g1, log1, g2, log2) && |g.handles| == SO_MAX + 1
    ensures |g2.info| == SO_MAX + 1 == |g2.handles| && Opens(g, Acquire(g2, r), r)
  {
    hide Inited;
    forall x | x in g.loaded ensures
      && Acquire(g2, r).info[x]
           == g.info[x].(refcount := Acquire(g2, r).info[x].refcount, called := Acquire(g2, r).info[x].called)
      && Acquire(g2, r).info[x].refcount >= g.info[x].refcount
    {
      assert x in g1.loaded;
      assert g2.info[x] == g1.info[x].(called := g2.info[x].called);
    }
  }
}
