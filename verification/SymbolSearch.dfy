/** The search for the symbol of a relocation: the host's hooks, the libraries, the host's own symbols. */
module SymbolSearch {
  import opened ElfHash
  import opened Relocations
  import opened Words

  /** What the host's dlsym knows: the hook for a name and the symbol of that name; 0 for none. */
  datatype Host = Host(hooks: Name -> u32, symbols: Name -> u32)

  /** Whether the answer is right: a hook comes first, then the first library of the scope that defines
      the name, with its load address added, then the host; otherwise the symbol is undefined. */
  ghost predicate Resolves(host: Host, scope: Scope, bases: seq<u32>, name: Name, weak: bool, r: Resolution) {
    if host.hooks(name) != 0 then r == Address(host.hooks(name))
    else if forall t <- Order(scope) :: !Exports(t, name) then
      r == if host.symbols(name) != 0 then Address(host.symbols(name)) else Undefined(weak)
    else exists lib: nat, n: nat :: DefinedBy(scope, bases, name, lib, n, r)
  }

  ghost predicate DefinedBy(scope: Scope, bases: seq<u32>, name: Name, lib: nat, n: nat, r: Resolution) {
    && |bases| == |Order(scope)| && lib < |bases| && FirstExport(Order(scope), name, lib, n)
    && r == Address((Order(scope)[lib].symbols[n].value + bases[lib]) % TWO32)
  }

  /** The definition that provides a name is global or weak and has a section, and no library before it has
      such an entry; an import, which has none, provides nothing. */
  lemma DefinedWhere(scope: Scope, bases: seq<u32>, name: Name, lib: nat, n: nat, r: Resolution)
    requires DefinedBy(scope, bases, name, lib, n, r)
    ensures var s := Order(scope)[lib].symbols[n]; s.name == name && s.bind in {1, 2} && s.shndx != 0
    ensures forall i, k :: 0 <= i < lib && 0 < k < |Order(scope)[i].symbols| ==>
      var s := Order(scope)[i].symbols[k]; s.name != name || s.bind !in {1, 2} || s.shndx == 0
  {
    hide Covers, Definition, GabiHash;
    forall i, k | 0 <= i < lib && 0 < k < |Order(scope)[i].symbols| ensures
      var s := Order(scope)[i].symbols[k]; s.name != name || s.bind !in {1, 2} || s.shndx == 0
    {
      assert !Exports(Order(scope)[i], name);
    }
  }

  lemma ResolvesUnique(host: Host, scope: Scope, bases: seq<u32>, name: Name, weak: bool, r: Resolution, r': Resolution)
    requires Resolves(host, scope, bases, name, weak, r) && Resolves(host, scope, bases, name, weak, r')
    ensures r == r'
  {
    hide FirstExport, Exports;
    if host.hooks(name) == 0 && !(forall t <- Order(scope) :: !Exports(t, name)) {
      var lib, n :| DefinedBy(scope, bases, name, lib, n, r);
      var lib', n' :| DefinedBy(scope, bases, name, lib', n', r');
      FirstExportUnique(Order(scope), name, lib, n, lib', n');
    }
  }

  /** The answer to the search for a symbol. */
  ghost function Answer(host: Host, scope: Scope, bases: seq<u32>, name: Name, weak: bool): Resolution {
    if exists r :: Resolves(host, scope, bases, name, weak, r) then
      var r :| Resolves(host, scope, bases, name, weak, r); r
    else Undefined(weak)
  }

  /** The first part of a pass of reloc_library. */
  method ResolveSymbol(host: Host, scope: Scope, bases: seq<u32>, name: Name, weak: bool) returns (r: Resolution)
    requires |bases| == |Order(scope)| && forall t <- Order(scope) :: WellFormed(t) || OneBucket(t)
    ensures Resolves(host, scope, bases, name, weak, r) && r == Answer(host, scope, bases, name, weak)
  {
    hide Resolves;
    r := FindAddress(host, scope, bases, name, weak);
    ResolvesUnique(host, scope, bases, name, weak, r, Answer(host, scope, bases, name, weak));
  }

  method FindAddress(host: Host, scope: Scope, bases: seq<u32>, name: Name, weak: bool) returns (r: Resolution)
    requires |bases| == |Order(scope)| && forall t <- Order(scope) :: WellFormed(t) || OneBucket(t)
    ensures Resolves(host, scope, bases, name, weak, r)
  {
    hide WellFormed, OneBucket, Exports, Covers, Definition, GabiHash;
    var hook := host.hooks(name);
    if hook != 0 {
      return Address(hook);
    }
    var lib, n := DoLookup(scope, name);
    var order := Order(scope);
    if lib < |order| {
      ExportsHere(order, name, lib, n);
      r := Address((order[lib].symbols[n].value + bases[lib]) % TWO32);
      assert DefinedBy(scope, bases, name, lib, n, r);
    } else {
      var symbol := host.symbols(name);
      r := if symbol != 0 then Address(symbol) else Undefined(weak);
    }
  }

  lemma ExportsHere(order: seq<Table>, name: Name, lib: nat, n: nat)
    requires FirstExport(order, name, lib, n) && lib < |order|
    ensures order[lib] in order && Exports(order[lib], name)
  {
    hide Covers, Definition, GabiHash;
  }
}
