/** How the fake JVM rewrites the separators of a class name, in place. */
module ClassNames {
  import opened Spans

  /** What cstr_replace leaves: the replacement stops at a separator that follows no other character. */
  function Replaced(s: string, seps: set<char>, w: char): (r: string)
    ensures |r| == |s|
    decreases |s|
  {
    var n := Span(s, seps);
    if n == 0 || n == |s| then s else s[..n] + [w] + Replaced(s[n + 1..], seps, w)
  }

  /** The replacement that its name suggests. */
  function ReplacedAll(s: string, seps: set<char>, w: char): (r: string)
  {
    seq(|s|, i requires 0 <= i < |s| => if s[i] in seps then w else s[i])
  }

  /** No separator stands first or right after another. */
  predicate Separated(s: string, seps: set<char>) {
    forall i :: 0 <= i < |s| && s[i] in seps ==> i > 0 && s[i - 1] !in seps
  }

  /** Every separator is replaced if and only if none stands first or right after another. */
  lemma {:induction false} ReplacedIffSeparated(s: string, seps: set<char>, w: char)
    requires w !in seps
    ensures Replaced(s, seps, w) == ReplacedAll(s, seps, w) <==> Separated(s, seps)
    decreases |s|
  {
    hide Replaced;
    ReplacedUnfolds(s, seps, w);
    var n := Span(s, seps);
    if n == |s| {
      assert ReplacedAll(s, seps, w) == s;
    } else if n == 0 {
      assert ReplacedAll(s, seps, w)[0] == w && s[0] in seps;
    } else {
      var rest := s[n + 1..];
      ReplacedIffSeparated(rest, seps, w);
      AllSplit(s, seps, w, n);
      hide ReplacedAll, Separated, Span;
      SameTails(s[..n] + [w], Replaced(rest, seps, w), ReplacedAll(rest, seps, w));
      SeparatedTail(s, seps, n);
    }
  }

  lemma AllSplit(s: string, seps: set<char>, w: char, n: nat)
    requires n < |s| && s[n] in seps && forall i :: 0 <= i < n ==> s[i] !in seps
    ensures ReplacedAll(s, seps, w) == s[..n] + [w] + ReplacedAll(s[n + 1..], seps, w)
  {
  }

  lemma SameTails(a: string, b: string, c: string)
    ensures a + b == a + c <==> b == c
  {
    assert (a + b)[|a|..] == b && (a + c)[|a|..] == c;
  }

  lemma SeparatedTail(s: string, seps: set<char>, n: nat)
    requires 0 < n < |s| && s[n] in seps && forall i :: 0 <= i < n ==> s[i] !in seps
    ensures Separated(s, seps) <==> Separated(s[n + 1..], seps)
  {
    var rest := s[n + 1..];
    if Separated(rest, seps) {
      forall i | 0 <= i < |s| && s[i] in seps ensures i > 0 && s[i - 1] !in seps {
        if i > n {
          assert rest[i - n - 1] == s[i];
          assert rest[i - n - 2] == s[i - 1];
        }
      }
    }
    if Separated(s, seps) {
      forall i | 0 <= i < |rest| && rest[i] in seps ensures i > 0 && rest[i - 1] !in seps {
        assert rest[i] == s[n + 1 + i];
      }
    }
  }

  lemma ReplacedUnfolds(s: string, seps: set<char>, w: char)
    ensures var n := Span(s, seps);
      Replaced(s, seps, w) == if n == 0 || n == |s| then s else s[..n] + [w] + Replaced(s[n + 1..], seps, w)
  {
  }

  lemma Regroup(a: string, b: string, c: string, d: string)
    ensures a + (b + c + d) == a + b + c + d
  {
  }

  lemma ReplacedStep(s: string, seps: set<char>, w: char, done: string, k: nat)
    requires k <= |s| && done + Replaced(s[k..], seps, w) == Replaced(s, seps, w)
    ensures var n := Span(s[k..], seps);
      if n == 0 || k + n == |s| then done + s[k..] == Replaced(s, seps, w)
      else done + s[k..k + n] + [w] + Replaced(s[k + n + 1..], seps, w) == Replaced(s, seps, w)
  {
    hide Replaced, Span;
    var n := Span(s[k..], seps);
    ReplacedUnfolds(s[k..], seps, w);
    if 0 < n < |s| - k {
      assert s[k..][..n] == s[k..k + n];
      assert s[k..][n + 1..] == s[k + n + 1..];
      Regroup(done, s[k..k + n], [w], Replaced(s[k + n + 1..], seps, w));
    }
  }

  lemma PutAt(now: string, was: string, s: nat, i: nat, w: char)
    requires s + i < |now| == |was| && now[s..] == was[s..]
    ensures now[s + i := w][..s + i + 1] == now[..s] + was[s..s + i] + [w]
    ensures now[s + i := w][s + i + 1..] == was[s + i + 1..]
  {
    assert forall j :: s <= j < |now| ==> now[j] == now[s..][j - s] == was[s..][j - s] == was[j];
  }

  /** The state of the loop: what is done, and the rest as it was. */
  ghost predicate Midway(now: string, was: string, seps: set<char>, w: char, s: nat) {
    && s <= |was| == |now| && now[s..] == was[s..]
    && now[..s] + Replaced(was[s..], seps, w) == Replaced(was, seps, w)
  }

  lemma MidwayStarts(was: string, seps: set<char>, w: char)
    ensures Midway(was, was, seps, w, 0)
  {
    assert was[0..] == was;
  }

  lemma MidwayStep(now: string, was: string, seps: set<char>, w: char, s: nat)
    requires Midway(now, was, seps, w, s)
    ensures s <= |was| == |now| && now[s..] == was[s..]
    ensures var i := Span(was[s..], seps);
      if i == 0 || s + i == |was| then now == Replaced(was, seps, w)
      else Midway(now[s + i := w], was, seps, w, s + i + 1)
  {
    hide Replaced, Span;
    var i := Span(was[s..], seps);
    ReplacedStep(was, seps, w, now[..s], s);
    if i == 0 || s + i == |was| {
      assert now == now[..s] + now[s..];
    } else {
      PutAt(now, was, s, i, w);
    }
  }

  /** cstr_replace, on the characters before the terminator. */
  method CstrReplace(cstr: array<char>, seps: set<char>, w: char)
    modifies cstr
    ensures cstr[..] == Replaced(old(cstr[..]), seps, w)
  {
    hide Replaced, Span, Midway;
    ghost var was := cstr[..];
    var s := 0;
    MidwayStarts(was, seps, w);
    while s < cstr.Length
      invariant 0 <= s <= cstr.Length && Midway(cstr[..], was, seps, w, s)
      decreases cstr.Length - s
    {
      ghost var now := cstr[..];
      MidwayStep(now, was, seps, w, s);
      var i := Scan(cstr, s, seps);
      if i == 0 || s + i == cstr.Length {
        return;
      }
      cstr[s + i] := w;
      assert cstr[..] == now[s + i := w];
      s := s + i + 1;
    }
    MidwayEnds(cstr[..], was, seps, w, s);
  }

  lemma MidwayEnds(now: string, was: string, seps: set<char>, w: char, s: nat)
    requires Midway(now, was, seps, w, s) && s == |was|
    ensures now == Replaced(was, seps, w)
  {
    assert was[s..] == [] && now[..s] == now;
  }

  method Scan(cstr: array<char>, s: nat, seps: set<char>) returns (i: nat)
    requires s <= cstr.Length
    ensures i == Span(cstr[..][s..], seps)
  {
    assert cstr[..][s..] == cstr[s..];
    i := 0;
    while s + i < cstr.Length && cstr[s + i] !in seps
      invariant s + i <= cstr.Length && Span(cstr[s..], seps) == i + Span(cstr[s + i..], seps)
    {
      assert cstr[s + i..][1..] == cstr[s + i + 1..];
      i := i + 1;
    }
  }
}
