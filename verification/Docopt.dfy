/** docopt's expansion of a usage pattern into a single choice between plain argument lists. */
module Docopt {

  datatype Value = Missing | Flag(on: bool) | Text(text: string)

  /** The tips of a pattern tree. */
  datatype Leaf =
    | Argument(name: string, value: Value)
    | Command(name: string, value: Value)
    | Option(short: string, long: string, argcount: nat, value: Value)

  datatype Pattern =
    | Tip(leaf: Leaf)
    | Required(children: seq<Pattern>)
    | Optional(children: seq<Pattern>)
    | OptionsShortcut(children: seq<Pattern>)
    | Either(children: seq<Pattern>)
    | OneOrMore(children: seq<Pattern>)

  // ---------------------------------------------------------------- the meaning of a pattern

  /** The cases of a pattern, each the multiset of its leaves. */
  type Cases = seq<multiset<Leaf>>

  function AddAll(x: multiset<Leaf>, ys: Cases): (r: Cases)
  {
    seq(|ys|, i requires 0 <= i < |ys| => x + ys[i])
  }

  /** Every case of the one with every case of the other. */
  function Cross(xs: Cases, ys: Cases): Cases {
    if xs == [] then [] else AddAll(xs[0], ys) + Cross(xs[1..], ys)
  }

  /** The recursive disjunctive expansion: a choice unites the cases of its children, a repetition
      takes its children twice, and every other branch takes one case of each child. */
  function Expansion(p: Pattern): Cases
    decreases p
  {
    match p
    case Tip(l) => [multiset{l}]
    case Either(cs) => Union(cs)
    case OneOrMore(cs) => Cross(Product(cs), Product(cs))
    case Required(cs) => Product(cs)
    case Optional(cs) => Product(cs)
    case OptionsShortcut(cs) => Product(cs)
  }

  function Product(ps: seq<Pattern>): Cases
    decreases ps
  {
    if ps == [] then [multiset{}] else Cross(Expansion(ps[0]), Product(ps[1..]))
  }

  function Union(ps: seq<Pattern>): Cases
    decreases ps
  {
    if ps == [] then [] else Expansion(ps[0]) + Union(ps[1..])
  }

  // ---------------------------------------------------------------- the algebra of cases

  lemma AddAllTwice(x: multiset<Leaf>, y: multiset<Leaf>, zs: Cases)
    ensures AddAll(x, AddAll(y, zs)) == AddAll(x + y, zs) == AddAll(y, AddAll(x, zs))
  {
    forall i | 0 <= i < |zs| ensures x + (y + zs[i]) == (x + y) + zs[i] == y + (x + zs[i]) {
    }
  }

  lemma AddAllConcat(x: multiset<Leaf>, ys: Cases, zs: Cases)
    ensures AddAll(x, ys + zs) == AddAll(x, ys) + AddAll(x, zs)
  {
  }

  lemma AddAllEmpty(zs: Cases)
    ensures AddAll(multiset{}, zs) == zs
  {
    assert forall i :: 0 <= i < |zs| ==> multiset{} + zs[i] == zs[i];
  }

  lemma {:induction false} CrossConcat(a: Cases, b: Cases, c: Cases)
    ensures Cross(a + b, c) == Cross(a, c) + Cross(b, c)
  {
    if a == [] {
      assert a + b == b;
    } else {
      assert (a + b)[1..] == a[1..] + b;
      CrossConcat(a[1..], b, c);
    }
  }

  lemma {:induction false} CrossAdd(x: multiset<Leaf>, a: Cases, c: Cases)
    ensures Cross(AddAll(x, a), c) == AddAll(x, Cross(a, c))
  {
    if a != [] {
      assert AddAll(x, a)[1..] == AddAll(x, a[1..]);
      CrossAdd(x, a[1..], c);
      AddAllTwice(x, a[0], c);
      AddAllConcat(x, AddAll(a[0], c), Cross(a[1..], c));
    }
  }

  lemma {:induction false} CrossAddRight(a: Cases, x: multiset<Leaf>, c: Cases)
    ensures Cross(a, AddAll(x, c)) == AddAll(x, Cross(a, c))
  {
    if a != [] {
      CrossAddRight(a[1..], x, c);
      AddAllTwice(x, a[0], c);
      AddAllConcat(x, AddAll(a[0], c), Cross(a[1..], c));
    }
  }

  lemma {:induction false} CrossAssociates(a: Cases, b: Cases, c: Cases)
    ensures Cross(Cross(a, b), c) == Cross(a, Cross(b, c))
  {
    if a != [] {
      CrossConcat(AddAll(a[0], b), Cross(a[1..], b), c);
      CrossAdd(a[0], b, c);
      CrossAssociates(a[1..], b, c);
    }
  }

  lemma CrossUnit(c: Cases)
    ensures Cross([multiset{}], c) == c
  {
    AddAllEmpty(c);
    assert Cross([multiset{}][1..], c) == [];
  }

  lemma CrossOne(x: multiset<Leaf>, c: Cases)
    ensures Cross([x], c) == AddAll(x, c)
  {
    assert Cross([x][1..], c) == [];
  }

  lemma {:induction false} ProductConcat(ps: seq<Pattern>, qs: seq<Pattern>)
    ensures Product(ps + qs) == Cross(Product(ps), Product(qs))
  {
    if ps == [] {
      assert ps + qs == qs;
      CrossUnit(Product(qs));
    } else {
      assert (ps + qs)[1..] == ps[1..] + qs;
      ProductConcat(ps[1..], qs);
      CrossAssociates(Expansion(ps[0]), Product(ps[1..]), Product(qs));
    }
  }

  lemma ProductCons(p: Pattern, ps: seq<Pattern>)
    ensures Product([p] + ps) == Cross(Expansion(p), Product(ps))
  {
    assert ([p] + ps)[1..] == ps;
  }

  predicate Tips(ps: seq<Pattern>) {
    forall p <- ps :: p.Tip?
  }

  /** A branch may be expanded ahead of the tips that stand before it. */
  lemma {:induction false} TipsLast(tips: seq<Pattern>, p: Pattern, rest: seq<Pattern>)
    requires Tips(tips)
    ensures Product(tips + [p] + rest) == Cross(Expansion(p), Product(tips + rest))
  {
    if tips == [] {
      assert tips + [p] + rest == [p] + rest && tips + rest == rest;
      ProductCons(p, rest);
    } else {
      var x := multiset{tips[0].leaf};
      assert tips + [p] + rest == [tips[0]] + (tips[1..] + [p] + rest);
      assert tips + rest == [tips[0]] + (tips[1..] + rest);
      TipsLast(tips[1..], p, rest);
      ProductCons(tips[0], tips[1..] + [p] + rest);
      ProductCons(tips[0], tips[1..] + rest);
      CrossOne(x, Product(tips[1..] + [p] + rest));
      CrossOne(x, Product(tips[1..] + rest));
      CrossAddRight(Expansion(p), x, Product(tips[1..] + rest));
    }
  }

  // ---------------------------------------------------------------- one step of the worklist

  /** The position of the first child that is not a tip. */
  function FirstBranch(ps: seq<Pattern>): (i: nat)
    ensures i <= |ps| && Tips(ps[..i]) && (i < |ps| ==> !ps[i].Tip?)
  {
    if ps == [] || !ps[0].Tip? then 0 else
    var i := 1 + FirstBranch(ps[1..]);
    assert ps[..i] == [ps[0]] + ps[1..][..i - 1];
    i
  }

  /** One group for each child of a choice. */
  function Choices(cs: seq<Pattern>, others: seq<Pattern>): (r: seq<seq<Pattern>>)
    ensures |r| == |cs| && forall k :: 0 <= k < |cs| ==> r[k] == [cs[k]] + others
  {
    if cs == [] then [] else [[cs[0]] + others] + Choices(cs[1..], others)
  }

  /** The groups that replace a group whose first branch is at i. */
  function Successors(ps: seq<Pattern>, i: nat): seq<seq<Pattern>>
    requires i < |ps| && !ps[i].Tip?
  {
    var child, others := ps[i], ps[..i] + ps[i + 1..];
    if child.Either? then Choices(child.children, others)
    else if child.OneOrMore? then [child.children + child.children + others]
    else [child.children + others]
  }

  function AllCases(groups: seq<seq<Pattern>>): Cases {
    if groups == [] then [] else Product(groups[0]) + AllCases(groups[1..])
  }

  lemma {:induction false} ChoiceCases(cs: seq<Pattern>, others: seq<Pattern>)
    ensures AllCases(Choices(cs, others)) == Cross(Union(cs), Product(others))
  {
    if cs != [] {
      ProductCons(cs[0], others);
      ChoiceCases(cs[1..], others);
      CrossConcat(Expansion(cs[0]), Union(cs[1..]), Product(others));
      assert Choices(cs, others)[1..] == Choices(cs[1..], others);
    }
  }

  lemma CasesOfOne(ps: seq<Pattern>)
    ensures AllCases([ps]) == Product(ps)
  {
    assert AllCases([ps][1..]) == [];
  }

  /** A step keeps the cases, in order. */
  lemma StepKeepsCases(ps: seq<Pattern>, i: nat)
    requires i < |ps| && Tips(ps[..i]) && !ps[i].Tip?
    ensures AllCases(Successors(ps, i)) == Product(ps)
  {
    var child, others := ps[i], ps[..i] + ps[i + 1..];
    assert ps == ps[..i] + [child] + ps[i + 1..];
    TipsLast(ps[..i], child, ps[i + 1..]);
    if child.Either? {
      ChoiceCases(child.children, others);
    } else if child.OneOrMore? {
      CasesOfOne(child.children + child.children + others);
      ProductConcat(child.children + child.children, others);
      ProductConcat(child.children, child.children);
    } else {
      CasesOfOne(child.children + others);
      ProductConcat(child.children, others);
    }
  }

  lemma {:induction false} AllCasesConcat(a: seq<seq<Pattern>>, b: seq<seq<Pattern>>)
    ensures AllCases(a + b) == AllCases(a) + AllCases(b)
  {
    if a == [] {
      assert a + b == b;
    } else {
      assert (a + b)[1..] == a[1..] + b;
      AllCasesConcat(a[1..], b);
    }
  }

  // ---------------------------------------------------------------- the number of steps

  /** A size that every step decreases: what stands under a repetition counts twice. */
  function Weight(p: Pattern): nat
    decreases p
  {
    match p
    case Tip(_) => 1
    case OneOrMore(cs) => 1 + 2 * Weights(cs)
    case Required(cs) => 1 + Weights(cs)
    case Optional(cs) => 1 + Weights(cs)
    case OptionsShortcut(cs) => 1 + Weights(cs)
    case Either(cs) => 1 + Weights(cs)
  }

  function Weights(ps: seq<Pattern>): nat
    decreases ps
  {
    if ps == [] then 0 else Weight(ps[0]) + Weights(ps[1..])
  }

  lemma {:induction false} WeightsConcat(a: seq<Pattern>, b: seq<Pattern>)
    ensures Weights(a + b) == Weights(a) + Weights(b)
  {
    if a == [] {
      assert a + b == b;
    } else {
      assert (a + b)[1..] == a[1..] + b;
      WeightsConcat(a[1..], b);
    }
  }

  lemma {:induction false} WeightOfChild(cs: seq<Pattern>, k: nat)
    requires k < |cs|
    ensures Weight(cs[k]) <= Weights(cs)
  {
    if k > 0 {
      WeightOfChild(cs[1..], k - 1);
    }
  }

  lemma SuccessorsLighter(ps: seq<Pattern>, i: nat, k: nat)
    requires i < |ps| && !ps[i].Tip? && k < |Successors(ps, i)|
    ensures Weights(Successors(ps, i)[k]) < Weights(ps)
  {
    var child, others := ps[i], ps[..i] + ps[i + 1..];
    assert ps == ps[..i] + ([child] + ps[i + 1..]);
    WeightsConcat(ps[..i], [child] + ps[i + 1..]);
    assert ([child] + ps[i + 1..])[1..] == ps[i + 1..];
    WeightsConcat(ps[..i], ps[i + 1..]);
    if child.Either? {
      WeightOfChild(child.children, k);
      assert ([child.children[k]] + others)[1..] == others;
    } else if child.OneOrMore? {
      WeightsConcat(child.children + child.children, others);
      WeightsConcat(child.children, child.children);
    } else {
      WeightsConcat(child.children, others);
    }
  }

  /** How often the worklist is visited for a group and all that comes of it. */
  ghost function Visits(ps: seq<Pattern>): nat
    decreases Weights(ps), 1, 0
  {
    var i := FirstBranch(ps);
    if i == |ps| then 1 else
    assert forall k :: 0 <= k < |Successors(ps, i)| ==> Weights(Successors(ps, i)[k]) < Weights(ps) by {
      forall k | 0 <= k < |Successors(ps, i)| ensures Weights(Successors(ps, i)[k]) < Weights(ps) {
        SuccessorsLighter(ps, i, k);
      }
    }
    1 + VisitsBelow(Successors(ps, i), Weights(ps))
  }

  ghost function VisitsBelow(groups: seq<seq<Pattern>>, bound: nat): nat
    requires forall g <- groups :: Weights(g) < bound
    decreases bound, 0, |groups|
  {
    if groups == [] then 0 else Visits(groups[0]) + VisitsBelow(groups[1..], bound)
  }

  ghost function AllVisits(groups: seq<seq<Pattern>>): nat {
    if groups == [] then 0 else Visits(groups[0]) + AllVisits(groups[1..])
  }

  lemma {:induction false} VisitsAnyBound(groups: seq<seq<Pattern>>, bound: nat)
    requires forall g <- groups :: Weights(g) < bound
    ensures VisitsBelow(groups, bound) == AllVisits(groups)
  {
    if groups != [] {
      VisitsAnyBound(groups[1..], bound);
    }
  }

  lemma {:induction false} AllVisitsConcat(a: seq<seq<Pattern>>, b: seq<seq<Pattern>>)
    ensures AllVisits(a + b) == AllVisits(a) + AllVisits(b)
  {
    if a == [] {
      assert a + b == b;
    } else {
      assert (a + b)[1..] == a[1..] + b;
      AllVisitsConcat(a[1..], b);
    }
  }

  lemma VisitsOfStep(ps: seq<Pattern>)
    ensures var i := FirstBranch(ps);
      Visits(ps) == if i == |ps| then 1 else 1 + AllVisits(Successors(ps, i))
  {
    var i := FirstBranch(ps);
    if i < |ps| {
      forall k | 0 <= k < |Successors(ps, i)| ensures Weights(Successors(ps, i)[k]) < Weights(ps) {
        SuccessorsLighter(ps, i, k);
      }
      VisitsAnyBound(Successors(ps, i), Weights(ps));
    }
  }

  // ---------------------------------------------------------------- transform

  /** A single choice between plain argument lists. */
  predicate Flat(p: Pattern) {
    p.Either? && forall c <- p.children :: c.Required? && Tips(c.children)
  }

  function Leaves(ps: seq<Pattern>): multiset<Leaf>
    requires Tips(ps)
  {
    if ps == [] then multiset{} else multiset{ps[0].leaf} + Leaves(ps[1..])
  }

  /** The argument lists of a flat pattern, each as the multiset of its leaves. */
  function Lists(cs: seq<Pattern>): (r: Cases)
    requires forall c <- cs :: c.Required? && Tips(c.children)
    ensures |r| == |cs| && forall k :: 0 <= k < |cs| ==> r[k] == Leaves(cs[k].children)
  {
    if cs == [] then [] else [Leaves(cs[0].children)] + Lists(cs[1..])
  }

  lemma {:induction false} TipsHaveOneCase(ps: seq<Pattern>)
    requires Tips(ps)
    ensures Product(ps) == [Leaves(ps)]
  {
    if ps != [] {
      TipsHaveOneCase(ps[1..]);
      CrossOne(multiset{ps[0].leaf}, Product(ps[1..]));
    }
  }

  /** The cases of a flat pattern are its lists. */
  lemma {:induction false} ListsAreCases(cs: seq<Pattern>)
    requires forall c <- cs :: c.Required? && Tips(c.children)
    ensures Union(cs) == Lists(cs)
  {
    if cs != [] {
      TipsHaveOneCase(cs[0].children);
      ListsAreCases(cs[1..]);
    }
  }

  function Wrapped(result: seq<seq<Pattern>>): (r: seq<Pattern>)
    ensures |r| == |result| && forall k :: 0 <= k < |r| ==> r[k] == Required(result[k])
  {
    seq(|result|, k requires 0 <= k < |result| => Required(result[k]))
  }

  lemma {:induction false} WrappedCases(result: seq<seq<Pattern>>)
    ensures Expansion(Either(Wrapped(result))) == Union(Wrapped(result)) == AllCases(result)
  {
    if result != [] {
      WrappedCases(result[1..]);
      assert Wrapped(result)[1..] == Wrapped(result[1..]);
      assert Expansion(Wrapped(result)[0]) == Product(result[0]);
    }
  }

  /** The loop over the children of a choice. */
  method AppendChoices(groups: seq<seq<Pattern>>, cs: seq<Pattern>, others: seq<Pattern>)
      returns (groups': seq<seq<Pattern>>)
    ensures groups' == groups + Choices(cs, others)
  {
    groups' := groups;
    for k := 0 to |cs|
      invariant groups' == groups + Choices(cs, others)[..k]
    {
      groups' := groups' + [[cs[k]] + others];
    }
  }

  /** What a pass of the loop does to the worklist, in terms of the cases that are left. */
  lemma PassKeepsCases(result: seq<seq<Pattern>>, groups: seq<seq<Pattern>>)
    requires groups != []
    ensures var ps := groups[0]; var i := FirstBranch(ps);
      multiset(AllCases(result)) + multiset(AllCases(groups)) ==
        if i == |ps| then multiset(AllCases(result + [ps])) + multiset(AllCases(groups[1..]))
        else multiset(AllCases(result)) + multiset(AllCases(groups[1..] + Successors(ps, i)))
  {
    var ps := groups[0];
    var i := FirstBranch(ps);
    if i == |ps| {
      AllCasesConcat(result, [ps]);
      CasesOfOne(ps);
    } else {
      StepKeepsCases(ps, i);
      AllCasesConcat(groups[1..], Successors(ps, i));
    }
  }

  lemma PassVisits(groups: seq<seq<Pattern>>)
    requires groups != []
    ensures var ps := groups[0]; var i := FirstBranch(ps);
      AllVisits(groups) == 1 + AllVisits(if i == |ps| then groups[1..] else groups[1..] + Successors(ps, i))
  {
    var ps := groups[0];
    var i := FirstBranch(ps);
    VisitsOfStep(ps);
    if i < |ps| {
      AllVisitsConcat(groups[1..], Successors(ps, i));
    }
  }

  /** transform. It ends on every pattern, after exactly Visits([pattern]) passes, with a single choice
      between lists of tips that has the same cases as the pattern, each as often. */
  method Transform(pattern: Pattern) returns (r: Pattern, ghost passes: nat)
    ensures Flat(r) && multiset(Lists(r.children)) == multiset(Expansion(pattern))
    ensures passes == Visits([pattern])
  {
    hide AllCases, AllVisits, Visits, Expansion, Product, Successors, Lists, Union;
    var result: seq<seq<Pattern>> := [];
    var groups := [[pattern]];
    passes := 0;
    StartingCases(pattern);
    while groups != []
      invariant multiset(AllCases(result)) + multiset(AllCases(groups)) == multiset(Expansion(pattern))
      invariant forall e <- result :: Tips(e)
      invariant passes + AllVisits(groups) == Visits([pattern])
      decreases AllVisits(groups)
    {
      PassKeepsCases(result, groups);
      PassVisits(groups);
      passes := passes + 1;
      var children := groups[0];
      groups := groups[1..];
      var i := FirstBranch(children);
      if i < |children| {
        groups := Replace(groups, children, i);
      } else {
        assert children[..i] == children;
        result := result + [children];
      }
    }
    EndingCases(result, groups);
    WrappedCases(result);
    r := Either(Wrapped(result));
    ListsAreCases(r.children);
  }

  /** The replacement of a group by what its first branch stands for. */
  method Replace(groups: seq<seq<Pattern>>, children: seq<Pattern>, i: nat) returns (groups': seq<seq<Pattern>>)
    requires i < |children| && !children[i].Tip?
    ensures groups' == groups + Successors(children, i)
  {
    var child, others := children[i], children[..i] + children[i + 1..];
    if child.Either? {
      groups' := AppendChoices(groups, child.children, others);
    } else if child.OneOrMore? {
      groups' := groups + [child.children + child.children + others];
    } else {
      groups' := groups + [child.children + others];
    }
  }

  lemma StartingCases(p: Pattern)
    ensures multiset(AllCases([])) + multiset(AllCases([[p]])) == multiset(Expansion(p))
    ensures AllVisits([[p]]) == Visits([p])
  {
    CasesOfOne([p]);
    ProductCons(p, []);
    assert [p] + [] == [p];
    CrossUnitRight(Expansion(p));
    assert [[p]][1..] == [];
  }

  lemma EndingCases(result: seq<seq<Pattern>>, groups: seq<seq<Pattern>>)
    requires groups == []
    ensures multiset(AllCases(result)) + multiset(AllCases(groups)) == multiset(AllCases(result))
    ensures AllVisits(groups) == 0
  {
  }

  lemma {:induction false} CrossUnitRight(a: Cases)
    ensures Cross(a, [multiset{}]) == a
  {
    if a != [] {
      CrossUnitRight(a[1..]);
      assert a[0] + multiset{} == a[0];
      assert AddAll(a[0], [multiset{}]) == [a[0]];
    }
  }

  // ---------------------------------------------------------------- repeated leaves

  /** How often a leaf occurs in the case where it occurs most; -1 if there is no case. */
  function Most(xs: Cases, l: Leaf): int {
    if xs == [] then -1 else Max(xs[0][l], Most(xs[1..], l))
  }

  function Max(a: int, b: int): int {
    if a < b then b else a
  }

  lemma {:induction false} MostBounds(xs: Cases, l: Leaf, m: int)
    ensures Most(xs, l) > m >= 0 <==> m >= 0 && exists x <- xs :: x[l] > m
    ensures Most(xs, l) >= -1
  {
    if xs != [] {
      assert xs == [xs[0]] + xs[1..];
      MostBounds(xs[1..], l, m);
    }
  }

  lemma {:induction false} MostConcat(xs: Cases, ys: Cases, l: Leaf)
    ensures Most(xs + ys, l) == Max(Most(xs, l), Most(ys, l))
  {
    if xs == [] {
      assert xs + ys == ys;
      MostBounds(ys, l, 0);
    } else {
      assert (xs + ys)[1..] == xs[1..] + ys;
      MostConcat(xs[1..], ys, l);
    }
  }

  /** Counts add up over a product, unless one side has no case. */
  function Plus(a: int, b: int): int {
    if a < 0 || b < 0 then -1 else a + b
  }

  lemma {:induction false} MostAddAll(x: multiset<Leaf>, ys: Cases, l: Leaf)
    ensures Most(AddAll(x, ys), l) == Plus(x[l], Most(ys, l))
  {
    if ys != [] {
      assert AddAll(x, ys)[1..] == AddAll(x, ys[1..]);
      MostAddAll(x, ys[1..], l);
      MostBounds(ys[1..], l, 0);
    }
  }

  lemma {:induction false} MostCross(xs: Cases, ys: Cases, l: Leaf)
    ensures Most(Cross(xs, ys), l) == Plus(Most(xs, l), Most(ys, l))
  {
    if xs != [] {
      MostAddAll(xs[0], ys, l);
      MostCross(xs[1..], ys, l);
      MostConcat(AddAll(xs[0], ys), Cross(xs[1..], ys), l);
      MostBounds(xs[1..], l, 0);
      MostBounds(ys, l, 0);
    }
  }

  /** The count read off the tree: one for the leaf itself, the greatest of the children of a choice,
      the sum of the children otherwise, twice under a repetition. */
  function Occurs(p: Pattern, l: Leaf): int
    decreases p
  {
    match p
    case Tip(k) => if k == l then 1 else 0
    case Either(cs) => OccursAny(cs, l)
    case OneOrMore(cs) => Plus(OccursAll(cs, l), OccursAll(cs, l))
    case Required(cs) => OccursAll(cs, l)
    case Optional(cs) => OccursAll(cs, l)
    case OptionsShortcut(cs) => OccursAll(cs, l)
  }

  function OccursAny(ps: seq<Pattern>, l: Leaf): int
    decreases ps
  {
    if ps == [] then -1 else Max(Occurs(ps[0], l), OccursAny(ps[1..], l))
  }

  function OccursAll(ps: seq<Pattern>, l: Leaf): int
    decreases ps
  {
    if ps == [] then 0 else Plus(Occurs(ps[0], l), OccursAll(ps[1..], l))
  }

  lemma {:induction false} OccursIsMost(p: Pattern, l: Leaf)
    ensures Occurs(p, l) == Most(Expansion(p), l)
    decreases p
  {
    match p
    case Tip(k) =>
      assert Most([multiset{k}][1..], l) == -1;
    case Either(cs) => OccursAnyIsMost(cs, l);
    case OneOrMore(cs) =>
      OccursAllIsMost(cs, l);
      MostCross(Product(cs), Product(cs), l);
    case Required(cs) => OccursAllIsMost(cs, l);
    case Optional(cs) => OccursAllIsMost(cs, l);
    case OptionsShortcut(cs) => OccursAllIsMost(cs, l);
  }

  lemma {:induction false} OccursAnyIsMost(ps: seq<Pattern>, l: Leaf)
    ensures OccursAny(ps, l) == Most(Union(ps), l)
    decreases ps
  {
    if ps != [] {
      OccursIsMost(ps[0], l);
      OccursAnyIsMost(ps[1..], l);
      MostConcat(Expansion(ps[0]), Union(ps[1..]), l);
    }
  }

  lemma {:induction false} OccursAllIsMost(ps: seq<Pattern>, l: Leaf)
    ensures OccursAll(ps, l) == Most(Product(ps), l)
    decreases ps
  {
    if ps == [] {
      assert Most([multiset{}][1..], l) == -1;
    } else {
      OccursIsMost(ps[0], l);
      OccursAllIsMost(ps[1..], l);
      MostCross(Expansion(ps[0]), Product(ps[1..]), l);
    }
  }

  lemma MemberLists(cs: seq<Pattern>, l: Leaf)
    requires forall c <- cs :: c.Required? && Tips(c.children)
    ensures (exists c <- cs :: Leaves(c.children)[l] > 1) <==> (exists x <- Lists(cs) :: x[l] > 1)
  {
    hide Leaves;
    if c :| c in cs && Leaves(c.children)[l] > 1 {
      var k :| 0 <= k < |cs| && cs[k] == c;
      assert Lists(cs)[k] == Leaves(c.children);
    }
    if x :| x in Lists(cs) && x[l] > 1 {
      var k :| 0 <= k < |cs| && Lists(cs)[k] == x;
      assert cs[k] in cs;
    }
  }

  lemma SameMembers(xs: Cases, ys: Cases, l: Leaf)
    requires multiset(xs) == multiset(ys)
    ensures (exists x <- xs :: x[l] > 1) <==> (exists y <- ys :: y[l] > 1)
  {
    assert forall x :: x in xs <==> x in multiset(xs);
    assert forall y :: y in ys <==> y in multiset(ys);
  }

  /** What the transformed pattern is used for: a leaf is repeated in one of its lists if and only if
      it occurs more than once by the count read off the tree. */
  lemma RepeatedLeaves(pattern: Pattern, r: Pattern, l: Leaf)
    requires Flat(r) && multiset(Lists(r.children)) == multiset(Expansion(pattern))
    ensures (exists c <- r.children :: Leaves(c.children)[l] > 1) <==> Occurs(pattern, l) > 1
  {
    hide Leaves, Lists, Expansion, Occurs;
    OccursIsMost(pattern, l);
    MostBounds(Expansion(pattern), l, 1);
    SameMembers(Lists(r.children), Expansion(pattern), l);
    MemberLists(r.children, l);
  }
}
