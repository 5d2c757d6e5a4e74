/** The relocation of a library: each entry's symbol is searched for, and its place is patched. */
module LibraryRelocation {
  import opened ElfHash
  import opened Relocations
  import opened SymbolSearch
  import opened Words

  /** A library that is being linked: the scope of its symbols, which begins with its own table, the load
      addresses of the scope, and the host. */
  datatype Library = Library(host: Host, scope: Scope, bases: seq<u32>)

  /** Every table is fit for lookup, and the library itself is loaded at the base. */
  ghost predicate Ready(lib: Library, base: u32) {
    && |lib.bases| == |Order(lib.scope)| && lib.bases[0] == base
    && forall t <- Order(lib.scope) :: WellFormed(t) || OneBucket(t)
  }

  /** What the search answers for an entry of the library's own symbol table. */
  ghost function Resolver(lib: Library): nat -> Resolution {
    (sym: nat) =>
      if sym < |lib.scope.self.symbols| then
        var s := lib.scope.self.symbols[sym];
        Answer(lib.host, lib.scope, lib.bases, s.name, s.bind == 2)
      else Undefined(false)
  }

  predicate InTable(lib: Library, rels: seq<Rel>) {
    forall r <- rels :: r.sym < |lib.scope.self.symbols|
  }

  /** The search for the symbol of an entry, if it has one. */
  method Search(lib: Library, ghost base: u32, r: Rel) returns (s: Resolution)
    requires Ready(lib, base) && r.sym < |lib.scope.self.symbols|
    ensures r.sym != 0 ==> s == Resolver(lib)(r.sym)
  {
    hide WellFormed, OneBucket, Resolves, Answer;
    s := Undefined(false);
    if r.sym != 0 {
      var symbol := lib.scope.self.symbols[r.sym];
      s := ResolveSymbol(lib.host, lib.scope, lib.bases, symbol.name, symbol.bind == STB_WEAK);
    }
  }

  /** reloc_library: it succeeds if and only if every entry can be processed, whatever the order; with
      places that do not overlap, every place then holds the word of the psABI, with S what the search
      answers for the entry's symbol, and nothing else has changed. */
  method Relocate(mem: Memory, lib: Library, base: u32, rels: seq<Rel>) returns (ok: bool, mem': Memory)
    requires Ready(lib, base) && InTable(lib, rels)
    ensures ok <==> forall r <- rels :: Accepts(Resolver(lib), r)
    ensures ok && Disjoint(base, rels) ==> Relocated(mem, mem', Resolver(lib), base, rels)
  {
    hide Accepts, Relocated, Write, Wanted, Disjoint, Target, Ready, Resolver;
    ghost var resolve := Resolver(lib);
    mem' := mem;
    RelocatedNone(mem, resolve, base);
    for k := 0 to |rels|
      invariant forall j :: 0 <= j < k ==> Accepts(resolve, rels[j])
      invariant Disjoint(base, rels) ==> Relocated(mem, mem', resolve, base, rels[..k])
    {
      if Disjoint(base, rels) {
        RelocatedMore(mem, mem', resolve, base, rels, k);
      }
      var s := Search(lib, base, rels[k]);
      ok, mem' := RelocateOne(mem', resolve, s, base, rels[k]);
      if !ok {
        assert rels[k] in rels;
        return;
      }
    }
    assert rels[..|rels|] == rels;
    ok := true;
  }

  /** The two passes of link_image, first over the PLT's table, are one pass over both. */
  method RelocateImage(mem: Memory, lib: Library, base: u32, pltRel: seq<Rel>, rel: seq<Rel>)
      returns (ok: bool, mem': Memory)
    requires Ready(lib, base) && InTable(lib, pltRel) && InTable(lib, rel)
    ensures ok <==> forall r <- pltRel + rel :: Accepts(Resolver(lib), r)
    ensures ok && Disjoint(base, pltRel + rel) ==> Relocated(mem, mem', Resolver(lib), base, pltRel + rel)
  {
    hide Accepts, Relocated, Disjoint, Ready, InTable, Resolver;
    ok, mem' := Relocate(mem, lib, base, pltRel);
    if !ok {
      return;
    }
    ghost var mid := mem';
    ok, mem' := Relocate(mem', lib, base, rel);
    if ok && Disjoint(base, pltRel + rel) {
      DisjointParts(base, pltRel, rel);
      RelocatedConcat(mem, mid, mem', Resolver(lib), base, pltRel, rel);
    }
  }

  /** The word at the place of an entry that refers to a symbol, in terms of the search. */
  lemma RelocatedSymbol(mem: Memory, mem': Memory, lib: Library, base: u32, rels: seq<Rel>, i: nat, s: Resolution)
    requires Relocated(mem, mem', Resolver(lib), base, rels) && i < |rels|
    requires 0 < rels[i].sym < |lib.scope.self.symbols|
    requires var symbol := lib.scope.self.symbols[rels[i].sym];
      Resolves(lib.host, lib.scope, lib.bases, symbol.name, symbol.bind == 2, s)
    ensures var p := Target(base, rels[i]);
      var value := if s.Address? then s.addr else if rels[i].kind == 2 then p else 0;
      Read(mem', p) == PsabiValue(rels[i].kind, value, Read(mem, p), p, base)
  {
    var symbol := lib.scope.self.symbols[rels[i].sym];
    hide Relocated, Resolves, Read, PsabiValue, Target;
    RelocatedWord(mem, mem', Resolver(lib), base, rels, i);
    ResolvesUnique(lib.host, lib.scope, lib.bases, symbol.name, symbol.bind == STB_WEAK, s,
      Answer(lib.host, lib.scope, lib.bases, symbol.name, symbol.bind == STB_WEAK));
  }
}
