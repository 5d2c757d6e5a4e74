/** Symbol lookup through the SysV hash table of a shared library (gABI, chapter 5, "Hash Table"). */
module ElfHash {

  type Name = seq<bv8>

  // ---------------------------------------------------------------- the hash function

  /** The operators, by name. */
  function Xor(a: bv32, b: bv32): bv32 { a ^ b }

  function And(a: bv32, b: bv32): bv32 { a & b }

  function Not(a: bv32): bv32 { !a }

  function Top(x: bv32): bv32 { x & 0xf0000000 }

  function Fold(g: bv32): bv32 { g >> 24 }

  function Shifted(h: bv32, c: bv8): bv32 { (h << 4) + c as bv32 }

  /** One step of the hash function as the gABI writes it. */
  function GabiStep(h: bv32, c: bv8): bv32 {
    var x := Shifted(h, c);
    var g := Top(x);
    And(if g != 0 then Xor(x, Fold(g)) else x, Not(g))
  }

  function GabiHash(name: Name): bv32 {
    if name == [] then 0 else GabiStep(GabiHash(name[..|name| - 1]), name[|name| - 1])
  }

  lemma HashStep(name: Name, k: nat)
    requires k < |name|
    ensures GabiHash(name[..k + 1]) == GabiStep(GabiHash(name[..k]), name[k]) && GabiHash(name[..0]) == 0
  {
    assert name[..k + 1][..k] == name[..k];
  }

  lemma KnownSteps()
    ensures GabiStep(0x00000000, 0x73) == 0x00000073 && GabiStep(0x00000073, 0x79) == 0x000007a9
    ensures GabiStep(0x000007a9, 0x73) == 0x00007b03 && GabiStep(0x00007b03, 0x63) == 0x0007b093
    ensures GabiStep(0x0007b093, 0x61) == 0x007b0991 && GabiStep(0x007b0991, 0x6c) == 0x07b0997c
    ensures GabiStep(0x07b0997c, 0x6c) == 0x0b09985c
  {
  }

  /** The hash value of "syscall", a name that is long enough for the top bits to be folded. */
  lemma KnownHash()
    ensures GabiHash([0x73, 0x79, 0x73, 0x63, 0x61, 0x6c, 0x6c]) == 0x0b09985c
  {
    hide GabiStep, GabiHash;
    var name: Name := [0x73, 0x79, 0x73, 0x63, 0x61, 0x6c, 0x6c];
    KnownSteps();
    HashStep(name, 0);
    HashStep(name, 1);
    HashStep(name, 2);
    HashStep(name, 3);
    HashStep(name, 4);
    HashStep(name, 5);
    HashStep(name, 6);
    assert name[..7] == name;
  }

  /** One pass of the linker's loop. */
  function Step(h: bv32, c: bv8): bv32 {
    var x := Shifted(h, c);
    var g := Top(x);
    Xor(Xor(x, g), Fold(g))
  }

  lemma FoldBits(x: bv32)
    ensures (x ^ ((x & 0xf0000000) >> 24)) & !(x & 0xf0000000) == (x ^ (x & 0xf0000000)) ^ ((x & 0xf0000000) >> 24)
  {
  }

  lemma Folded(x: bv32)
    ensures And(Xor(x, Fold(Top(x))), Not(Top(x))) == Xor(Xor(x, Top(x)), Fold(Top(x)))
  {
    FoldBits(x);
  }

  lemma NotFolded(x: bv32)
    ensures Xor(x, Fold(0)) == x
  {
  }

  lemma StepTop(x: bv32)
    ensures Top(Xor(Xor(x, Top(x)), Fold(Top(x)))) == 0
  {
  }

  /** The linker's pass is the gABI's step, and leaves the top four bits clear. */
  lemma StepAgrees(h: bv32, c: bv8)
    ensures Step(h, c) == GabiStep(h, c) && Top(Step(h, c)) == 0
  {
    hide Xor, And, Not, Top, Fold, Shifted;
    var x := Shifted(h, c);
    Folded(x);
    NotFolded(x);
    StepTop(x);
  }

  /** elfhash. */
  method Hash(name: Name) returns (h: bv32)
    ensures h == GabiHash(name) && Top(h) == 0
  {
    hide Step, GabiStep;
    h := 0;
    for i := 0 to |name|
      invariant h == GabiHash(name[..i]) && Top(h) == 0
    {
      StepAgrees(h, name[i]);
      assert name[..i + 1][..i] == name[..i];
      h := Step(h, name[i]);
    }
    assert name[..|name|] == name;
  }

  // ---------------------------------------------------------------- tables

  const STB_GLOBAL := 1
  const STB_WEAK := 2

  datatype Symbol = Symbol(name: Name, bind: nat, shndx: nat, value: nat)

  datatype Table = Table(symbols: seq<Symbol>, buckets: seq<nat>, chains: seq<nat>)

  /** A global or weak definition of the name. */
  predicate Defines(s: Symbol, name: Name) {
    s.name == name && (s.bind == STB_GLOBAL || s.bind == STB_WEAK) && s.shndx != 0
  }

  /** The indices that the walk from n visits. */
  ghost predicate Chain(t: Table, n: nat, ids: seq<nat>)
    decreases |ids|
  {
    if n == 0 then ids == []
    else |ids| > 0 && ids[0] == n && n < |t.symbols| && n < |t.chains| && Chain(t, t.chains[n], ids[1..])
  }

  ghost predicate Ends(t: Table, n: nat) {
    exists ids :: Chain(t, n, ids)
  }

  ghost predicate OnChain(t: Table, n: nat, k: nat) {
    exists ids :: Chain(t, n, ids) && k in ids
  }

  lemma {:induction false} ChainUnique(t: Table, n: nat, ids: seq<nat>, ids': seq<nat>)
    requires Chain(t, n, ids) && Chain(t, n, ids')
    ensures ids == ids'
    decreases |ids|
  {
    if n != 0 {
      ChainUnique(t, t.chains[n], ids[1..], ids'[1..]);
      assert ids == [ids[0]] + ids[1..] && ids' == [ids'[0]] + ids'[1..];
    }
  }

  /** The bucket of the hash leads to an ending chain that holds every definition of the name. */
  ghost predicate Covers(t: Table, hash: nat, name: Name) {
    if |t.buckets| == 0 then forall k :: 0 < k < |t.symbols| ==> !Defines(t.symbols[k], name)
    else
      var n := t.buckets[hash % |t.buckets|];
      Ends(t, n) && forall k :: 0 < k < |t.symbols| && Defines(t.symbols[k], name) ==> OnChain(t, n, k)
  }

  /** The gABI's table: every chain ends, and every defined global or weak symbol is on the chain of
      the bucket that its hash selects. */
  ghost predicate WellFormed(t: Table) {
    && (forall b :: 0 <= b < |t.buckets| ==> Ends(t, t.buckets[b]))
    && (forall k :: 0 < k < |t.symbols| && Visible(t.symbols[k]) ==>
          |t.buckets| > 0 && OnChain(t, t.buckets[GabiHash(t.symbols[k].name) as nat % |t.buckets|], k))
  }

  predicate Visible(s: Symbol) {
    Defines(s, s.name)
  }

  lemma WellFormedCovers(t: Table, name: Name)
    requires WellFormed(t)
    ensures Covers(t, GabiHash(name) as nat, name)
  {
    hide GabiHash;
    forall k | 0 < k < |t.symbols| && Defines(t.symbols[k], name)
      ensures |t.buckets| > 0 && OnChain(t, t.buckets[GabiHash(name) as nat % |t.buckets|], k)
    {
      assert Visible(t.symbols[k]);
    }
  }

  // ---------------------------------------------------------------- lookup

  /** The first definition among the indices, or 0. */
  function FirstOn(t: Table, ids: seq<nat>, name: Name): nat {
    if ids == [] then 0
    else if ids[0] < |t.symbols| && Defines(t.symbols[ids[0]], name) then ids[0]
    else FirstOn(t, ids[1..], name)
  }

  ghost function ChainFrom(t: Table, n: nat): (ids: seq<nat>)
    requires Ends(t, n)
    ensures Chain(t, n, ids)
  {
    var ids :| Chain(t, n, ids);
    ids
  }

  /** The definition that a name leads to: the first on the chain of its bucket. */
  ghost function Definition(t: Table, hash: nat, name: Name): nat
    requires Covers(t, hash, name)
  {
    if |t.buckets| == 0 then 0 else FirstOn(t, ChainFrom(t, t.buckets[hash % |t.buckets|]), name)
  }

  /** _elf_lookup: the walk ends with the first definition on the chain, and finds one if and only if
      there is one in the whole symbol table; 0 stands for none. */
  method ElfLookup(t: Table, hash: nat, name: Name) returns (n: nat)
    requires Covers(t, hash, name)
    ensures n == 0 <==> forall k :: 0 < k < |t.symbols| ==>
      t.symbols[k].name != name || t.symbols[k].bind !in {1, 2} || t.symbols[k].shndx == 0
    ensures n != 0 ==>
      && n < |t.symbols|
      && t.symbols[n].name == name && t.symbols[n].bind in {1, 2} && t.symbols[n].shndx != 0
    ensures n == Definition(t, hash, name)
  {
    if |t.buckets| == 0 {
      return 0;
    }
    n := t.buckets[hash % |t.buckets|];
    ghost var start := n;
    ghost var all := ChainFrom(t, n);
    ghost var rest: seq<nat> := all;
    while n != 0
      invariant Chain(t, n, rest)
      invariant FirstOn(t, rest, name) == FirstOn(t, all, name)
      invariant forall k :: k in all && k !in rest ==> k < |t.symbols| && !Defines(t.symbols[k], name)
      decreases |rest|
    {
      if Defines(t.symbols[n], name) {
        assert n < |t.symbols|;
        return;
      }
      assert rest == [n] + rest[1..];
      n := t.chains[n];
      rest := rest[1..];
    }
    forall k | 0 < k < |t.symbols| ensures !Defines(t.symbols[k], name) {
      if Defines(t.symbols[k], name) {
        assert OnChain(t, start, k);
        var ids :| Chain(t, start, ids) && k in ids;
        ChainUnique(t, start, ids, all);
      }
    }
  }

  // ---------------------------------------------------------------- the scope of a library

  /** The symbol table defines the name. */
  ghost predicate Exports(t: Table, name: Name) {
    exists k :: 0 < k < |t.symbols| && Defines(t.symbols[k], name)
  }

  /** Where a library's symbols are looked for: in itself, in the preloaded libraries, in those it needs
      and, if there is one, in the main executable. */
  datatype Scope = Scope(self: Table, preloads: seq<Table>, needed: seq<Table>, main: seq<Table>)

  function Order(scope: Scope): seq<Table> {
    [scope.self] + scope.preloads + scope.needed + scope.main
  }

  /** The first library of a list that defines the name, and the definition; or the length of the list. */
  ghost predicate FirstExport(tables: seq<Table>, name: Name, lib: nat, n: nat) {
    && lib <= |tables| && (forall i :: 0 <= i < lib ==> !Exports(tables[i], name))
    && (lib < |tables| ==> 0 < n < |tables[lib].symbols| && Defines(tables[lib].symbols[n], name))
    && (lib < |tables| ==> var hash := GabiHash(name) as nat;
          Covers(tables[lib], hash, name) && n == Definition(tables[lib], hash, name))
  }

  lemma FirstExportUnique(tables: seq<Table>, name: Name, lib: nat, n: nat, lib': nat, n': nat)
    requires FirstExport(tables, name, lib, n) && FirstExport(tables, name, lib', n')
    ensures lib == lib' && (lib < |tables| ==> n == n')
  {
    hide Covers, Definition, GabiHash;
  }

  lemma FirstExportConcat(a: seq<Table>, b: seq<Table>, name: Name, lib: nat, n: nat, lib': nat, n': nat)
    requires FirstExport(a, name, lib, n) && FirstExport(b, name, lib', n')
    ensures if lib < |a| then FirstExport(a + b, name, lib, n) else FirstExport(a + b, name, |a| + lib', n')
  {
    hide Exports, Covers, Definition, GabiHash;
    assert forall i :: |a| <= i < |a| + |b| ==> (a + b)[i] == b[i - |a|];
  }

  lemma FirstExportPrefix(a: seq<Table>, b: seq<Table>, name: Name, lib: nat, n: nat)
    requires FirstExport(a, name, lib, n) && lib < |a|
    ensures FirstExport(a + b, name, lib, n)
  {
    hide Exports, Covers, Definition, GabiHash;
  }

  /** One of the loops of _do_lookup. */
  method LookupIn(tables: seq<Table>, hash: bv32, name: Name) returns (lib: nat, n: nat)
    requires hash == GabiHash(name) && forall t <- tables :: WellFormed(t) || OneBucket(t)
    ensures FirstExport(tables, name, lib, n)
  {
    hide Covers, GabiHash, WellFormed, OneBucket, Definition;
    lib, n := 0, 0;
    while lib < |tables|
      invariant lib <= |tables| && forall i :: 0 <= i < lib ==> !Exports(tables[i], name)
    {
      ScopeCovers(tables, lib, name);
      n := ElfLookup(tables[lib], hash as nat, name);
      if n != 0 {
        return;
      }
      lib := lib + 1;
    }
  }

  /** _do_lookup: the first library of the scope that defines the name provides it. */
  method DoLookup(scope: Scope, name: Name) returns (lib: nat, n: nat)
    requires forall t <- Order(scope) :: WellFormed(t) || OneBucket(t)
    ensures FirstExport(Order(scope), name, lib, n)
  {
    hide FirstExport, GabiHash, WellFormed, OneBucket;
    var hash := Hash(name);
    var self, preloads := [scope.self], scope.preloads;
    lib, n := LookupIn(self, hash, name);
    lib, n := LookupNext(self, preloads, hash, name, lib, n);
    lib, n := LookupNext(self + preloads, scope.needed, hash, name, lib, n);
    lib, n := LookupNext(self + preloads + scope.needed, scope.main, hash, name, lib, n);
  }

  /** The next part of the scope, unless the name was found before. */
  method LookupNext(before: seq<Table>, tables: seq<Table>, hash: bv32, name: Name, lib: nat, n: nat)
      returns (lib': nat, n': nat)
    requires hash == GabiHash(name) && forall t <- tables :: WellFormed(t) || OneBucket(t)
    requires FirstExport(before, name, lib, n)
    ensures FirstExport(before + tables, name, lib', n')
  {
    hide FirstExport, GabiHash, WellFormed, OneBucket;
    FirstExportBound(before, name, lib, n);
    lib', n' := lib, n;
    if lib < |before| {
      FirstExportPrefix(before, tables, name, lib, n);
    } else {
      lib', n' := LookupIn(tables, hash, name);
      FirstExportConcat(before, tables, name, lib, n, lib', n');
      lib' := |before| + lib';
    }
  }

  lemma FirstExportBound(tables: seq<Table>, name: Name, lib: nat, n: nat)
    requires FirstExport(tables, name, lib, n)
    ensures lib <= |tables|
  {
    hide Exports, Covers, Definition, GabiHash;
  }

  // ---------------------------------------------------------------- libdl's table

  /** A single bucket whose chain runs through all symbols. */
  predicate OneBucket(t: Table) {
    && t.buckets == [1] && |t.symbols| == |t.chains| > 1
    && (forall k :: 0 < k < |t.chains| - 1 ==> t.chains[k] == k + 1)
    && t.chains[|t.chains| - 1] == 0
  }

  lemma ScopeCovers(scope: seq<Table>, lib: nat, name: Name)
    requires lib < |scope| && forall t <- scope :: WellFormed(t) || OneBucket(t)
    ensures Covers(scope[lib], GabiHash(name) as nat, name)
  {
    hide Covers, GabiHash, WellFormed, OneBucket;
    var t := scope[lib];
    assert t in scope;
    if WellFormed(t) {
      WellFormedCovers(t, name);
    } else {
      OneBucketCovers(t, GabiHash(name) as nat, name);
    }
  }

  function UpTo(k: nat, n: nat): (ids: seq<nat>)
    ensures forall i: nat :: k <= i < n ==> i in ids
    decreases n - k
  {
    if k >= n then [] else [k] + UpTo(k + 1, n)
  }

  lemma {:induction false} OneBucketChain(t: Table, k: nat)
    requires OneBucket(t) && 0 < k < |t.symbols|
    ensures Chain(t, k, UpTo(k, |t.symbols|))
    decreases |t.symbols| - k
  {
    if k < |t.symbols| - 1 {
      OneBucketChain(t, k + 1);
    }
  }

  /** Such a table serves every hash value. */
  lemma OneBucketCovers(t: Table, hash: nat, name: Name)
    requires OneBucket(t)
    ensures Covers(t, hash, name)
  {
    OneBucketChain(t, 1);
    assert hash % 1 == 0;
    assert Chain(t, t.buckets[0], UpTo(1, |t.symbols|));
  }

  lemma LibdlTable(symbols: seq<Symbol>)
    requires |symbols| == 7
    ensures OneBucket(Table(symbols, [1], [0, 2, 3, 4, 5, 6, 0]))
  {
  }
}
