/** How the linker splits a library search path into at most eight directories, in a fixed buffer. */
module LibraryPath {
  import opened Spans

  const BUFSIZE := 512
  const MAX := 8
  const NULL := -1
  const NUL := '\0'

  // ---------------------------------------------------------------- components of a path

  /** The non-empty components. */
  function Parts(s: string, d: set<char>): seq<string>
    decreases |s|
  {
    if s == [] then []
    else if s[0] in d then Parts(s[1..], d)
    else [s[..Span(s, d)]] + Parts(s[Span(s, d)..], d)
  }

  /** The components that a delimiter follows. */
  function Closed(s: string, d: set<char>): seq<string> {
    WithoutOpen(Parts(s, d), Open(s, d))
  }

  predicate Open(s: string, d: set<char>) {
    s != [] && s[|s| - 1] !in d
  }

  function WithoutOpen(parts: seq<string>, open: bool): seq<string> {
    if open && parts != [] then parts[..|parts| - 1] else parts
  }

  /** How many characters a scan has passed once it has found k components, each with its delimiter. */
  function Passed(s: string, d: set<char>, k: nat): nat
    decreases |s|
  {
    if k == 0 || s == [] then 0
    else if s[0] in d then 1 + Passed(s[1..], d, k)
    else
      var n := Span(s, d);
      if n == |s| then n else n + 1 + Passed(s[n + 1..], d, k - 1)
  }

  function First(parts: seq<string>, n: nat): seq<string> {
    if |parts| <= n then parts else parts[..n]
  }

  /** What is kept of a path. A path that fits the buffer is split completely. Of a longer one, the
      components whose delimiter is inside the buffer are candidates; the eighth is given up although
      it is whole, unless its delimiter is the last character in the buffer. */
  function Kept(path: string, d: set<char>): seq<string> {
    if |path| < BUFSIZE then First(Parts(path, d), MAX) else
    var t := path[..BUFSIZE - 1];
    First(Closed(t, d), if Passed(t, d, MAX) == BUFSIZE - 1 then MAX else MAX - 1)
  }

  lemma PartsSkip(s: string, d: set<char>)
    requires s != [] && s[0] in d
    ensures Parts(s, d) == Parts(s[1..], d)
  {
  }

  /** One component and its delimiter. */
  lemma PartsToken(s: string, d: set<char>)
    ensures var n := Span(s, d);
      Parts(s, d) == (if n == 0 then [] else [s[..n]]) + if n == |s| then [] else Parts(s[n + 1..], d)
    decreases |s|
  {
    var n := Span(s, d);
    if 0 < n < |s| {
      PartsSkip(s[n..], d);
      assert s[n..][1..] == s[n + 1..];
    } else if n == |s| && s != [] {
      assert s[n..] == [];
    }
  }

  /** What is closed stays a component of every longer path. */
  lemma {:induction false} ClosedPrefix(a: string, b: string, d: set<char>)
    ensures Closed(a, d) <= Parts(a + b, d)
    decreases |a|
  {
    hide Parts, Span;
    var n := Span(a, d);
    PartsToken(a, d);
    if n == |a| {
      assert Closed(a, d) == [];
    } else {
      hide Closed;
      var rest := a[n + 1..];
      ClosedPrefix(rest, b, d);
      SpanConcat(a, b, d);
      PartsToken(a + b, d);
      assert (a + b)[..n] == a[..n];
      assert (a + b)[n + 1..] == rest + b;
      ClosedToken(a, d);
    }
  }

  lemma SpanConcat(a: string, b: string, d: set<char>)
    requires Span(a, d) < |a|
    ensures Span(a + b, d) == Span(a, d)
  {
    SpanIs(a + b, d, Span(a, d));
  }

  lemma ClosedToken(s: string, d: set<char>)
    requires Span(s, d) < |s|
    ensures var n := Span(s, d);
      Closed(s, d) == (if n == 0 then [] else [s[..n]]) + Closed(s[n + 1..], d)
  {
    hide Parts, Span, WithoutOpen;
    var n := Span(s, d);
    var rest := s[n + 1..];
    PartsToken(s, d);
    assert Open(s, d) == Open(rest, d);
    if Open(rest, d) {
      LastComponent(rest, d);
    }
    OpenLast(if n == 0 then [] else [s[..n]], Parts(rest, d), Open(rest, d));
  }

  lemma OpenLast(a: seq<string>, b: seq<string>, open: bool)
    requires open ==> b != []
    ensures WithoutOpen(a + b, open) == a + WithoutOpen(b, open)
  {
  }

  lemma {:induction false} LastComponent(s: string, d: set<char>)
    requires s != [] && s[|s| - 1] !in d
    ensures Parts(s, d) != []
    decreases |s|
  {
    PartsToken(s, d);
    var n := Span(s, d);
    if n == 0 {
      LastComponent(s[1..], d);
    }
  }

  lemma PassedToken(s: string, d: set<char>, k: nat)
    requires k > 0 && Span(s, d) < |s|
    ensures var n := Span(s, d); Passed(s, d, k) == n + 1 + Passed(s[n + 1..], d, if n == 0 then k else k - 1)
  {
  }

  /** At most eight whole components are kept, from the front. */
  lemma KeptPrefix(path: string, d: set<char>)
    ensures Kept(path, d) <= Parts(path, d) && |Kept(path, d)| <= 8
  {
    hide Parts, Closed, Passed;
    if |path| >= BUFSIZE {
      var t := path[..BUFSIZE - 1];
      assert path == t + path[BUFSIZE - 1..];
      ClosedPrefix(t, path[BUFSIZE - 1..], d);
    }
  }

  // ---------------------------------------------------------------- whole components that are lost

  lemma {:induction false} TrailingDelimiter(s: string, d: set<char>, c: char)
    requires c in d
    ensures Parts(s + [c], d) == Parts(s, d)
    decreases |s|
  {
    hide Parts, Span;
    var n := Span(s, d);
    PartsToken(s, d);
    PartsToken(s + [c], d);
    if n < |s| {
      SpanConcat(s, [c], d);
      assert (s + [c])[..n] == s[..n];
      assert (s + [c])[n + 1..] == s[n + 1..] + [c];
      TrailingDelimiter(s[n + 1..], d, c);
    } else {
      SpanIs(s + [c], d, n);
      assert (s + [c])[..n] == s[..n];
      assert (s + [c])[n + 1..] == [];
      PartsToken([], d);
    }
  }

  lemma {:induction false} TrailingOther(s: string, d: set<char>, c: char)
    requires c !in d
    ensures Closed(s + [c], d) == Closed(s, d)
    decreases |s|
  {
    hide Parts, Span;
    var n := Span(s, d);
    if n < |s| {
      hide Closed;
      SpanConcat(s, [c], d);
      ClosedToken(s, d);
      ClosedToken(s + [c], d);
      assert (s + [c])[..n] == s[..n];
      assert (s + [c])[n + 1..] == s[n + 1..] + [c];
      TrailingOther(s[n + 1..], d, c);
    } else {
      SpanIs(s + [c], d, n + 1);
      PartsToken(s, d);
      PartsToken(s + [c], d);
    }
  }

  /** A scan that stops after k components has not passed the open one behind them. */
  lemma {:induction false} PassedShort(s: string, d: set<char>, k: nat)
    requires Open(s, d) && |Closed(s, d)| >= k
    ensures Passed(s, d, k) < |s|
    decreases |s|
  {
    hide Parts, Span, Closed, Passed;
    var n := Span(s, d);
    if k == 0 {
      PassedNone(s, d);
    } else if n == |s| {
      NothingClosed(s, d);
    } else {
      ClosedToken(s, d);
      PassedToken(s, d, k);
      assert Open(s[n + 1..], d);
      PassedShort(s[n + 1..], d, if n == 0 then k else k - 1);
    }
  }

  lemma NothingClosed(s: string, d: set<char>)
    requires Span(s, d) == |s|
    ensures Closed(s, d) == []
  {
    hide Parts, Span;
    PartsToken(s, d);
  }

  /** The whole components that fit the buffer are those that a delimiter follows in the first 512
      characters. One more than in the first 511 if the buffer ends with a component and its delimiter
      comes next. */
  lemma WholeComponents(t: string, d: set<char>, c: char)
    ensures Closed(t + [c], d) == if Open(t, d) && c in d then Parts(t, d) else Closed(t, d)
    ensures Open(t, d) ==> |Parts(t, d)| == |Closed(t, d)| + 1
  {
    hide Parts;
    if c in d {
      TrailingDelimiter(t, d, c);
    } else {
      TrailingOther(t, d, c);
    }
    if Open(t, d) {
      LastComponent(t, d);
    }
  }

  /** Of a path that was cut off, the first eight of the whole components that fit the buffer are kept
      if and only if the buffer does not end right before the delimiter of a component, and either
      fewer than eight components are delimited in it or the eighth ends with its last character. */
  lemma KeptIffRoom(path: string, d: set<char>)
    requires |path| >= BUFSIZE
    ensures var t, u := path[..BUFSIZE - 1], path[..BUFSIZE];
      Kept(path, d) == First(Closed(u, d), MAX) <==>
        && !(t[BUFSIZE - 2] !in d && path[BUFSIZE - 1] in d)
        && (|Closed(t, d)| < MAX || Passed(t, d, MAX) == BUFSIZE - 1)
  {
    hide Parts, Closed, Passed;
    var t, u := path[..BUFSIZE - 1], path[..BUFSIZE];
    assert u == t + [path[BUFSIZE - 1]];
    WholeComponents(t, d, path[BUFSIZE - 1]);
    if Open(t, d) && |Closed(t, d)| >= MAX {
      PassedShort(t, d, MAX);
    }
  }

  /** A component that fills the buffer is given up although it is whole. */
  lemma LongGivenUp(name: string, d: set<char>, c: char, rest: string)
    requires |name| == 511 && c in d && forall i :: 0 <= i < |name| ==> name[i] !in d
    ensures var path := name + [c] + rest;
      Kept(path, d) == [] && Parts(path, d) == [name] + Parts(rest, d) && Closed(path[..512], d) == [name]
  {
    hide Parts, Closed, Passed, Span;
    var path := name + [c] + rest;
    SpanIs(name, d, |name|);
    NothingClosed(name, d);
    assert path[..BUFSIZE - 1] == name;
    SpanIs(path, d, |name|);
    PartsToken(path, d);
    assert path[..|name|] == name && path[|name| + 1..] == rest;
    assert path[..BUFSIZE] == name + [c];
    PartsToken(name, d);
    assert name[..|name|] == name;
    WholeComponents(name, d, c);
  }

  function Repeated(n: nat, tail: string): (r: string)
    ensures |r| == 2 * n + |tail|
  {
    if n == 0 then tail else "a:" + Repeated(n - 1, tail)
  }

  lemma OneMore(rest: string, n: nat)
    requires n > 0
    ensures |Closed("a:" + rest, {':'})| == 1 + |Closed(rest, {':'})|
    ensures Passed("a:" + rest, {':'}, n) == 2 + Passed(rest, {':'}, n - 1)
  {
    hide Closed, Passed, Parts;
    var s := "a:" + rest;
    SpanIs(s, {':'}, 1);
    hide Span;
    assert s[2..] == rest;
    ClosedToken(s, {':'});
    PassedToken(s, {':'}, n);
  }

  lemma RepeatedUnfolds(n: nat, tail: string)
    requires n > 0
    ensures Repeated(n, tail) == "a:" + Repeated(n - 1, tail)
  {
  }

  lemma PassedNone(s: string, d: set<char>)
    ensures Passed(s, d, 0) == 0
  {
  }

  lemma {:induction false} RepeatedComponents(n: nat, tail: string)
    ensures |Closed(Repeated(n, tail), {':'})| >= n && Passed(Repeated(n, tail), {':'}, n) == 2 * n
  {
    hide Closed, Passed, Repeated;
    if n == 0 {
      PassedNone(Repeated(n, tail), {':'});
    } else {
      RepeatedComponents(n - 1, tail);
      RepeatedUnfolds(n, tail);
      OneMore(Repeated(n - 1, tail), n);
    }
  }

  lemma {:induction false} RepeatedCut(n: nat, tail: string, k: nat)
    requires 2 * n <= k <= 2 * n + |tail|
    ensures Repeated(n, tail)[..k] == Repeated(n, tail[..k - 2 * n])
  {
    if n > 0 {
      RepeatedCut(n - 1, tail, k - 2);
      assert Repeated(n, tail)[..k] == "a:" + Repeated(n - 1, tail)[..k - 2];
    }
  }

  /** Eight short components before a long rest: the eighth is given up. */
  lemma EighthGivenUp(tail: string)
    requires |tail| >= 496
    ensures var path := Repeated(MAX, tail);
      |Kept(path, {':'})| == 7 && |Closed(path[..512], {':'})| >= 8
  {
    hide Repeated, Closed, Passed;
    RepeatedCut(MAX, tail, BUFSIZE - 1);
    RepeatedCut(MAX, tail, BUFSIZE);
    RepeatedComponents(MAX, tail[..BUFSIZE - 1 - 2 * MAX]);
    RepeatedComponents(MAX, tail[..BUFSIZE - 2 * MAX]);
  }

  // ---------------------------------------------------------------- strings in the buffer

  /** The string that begins at a position. */
  function CString(b: string, s: nat): (r: string)
    ensures s + |r| <= |b| || r == []
    decreases |b| - s
  {
    if s >= |b| || b[s] == NUL then [] else [b[s]] + CString(b, s + 1)
  }

  lemma {:induction false} CStringIs(b: string, s: nat, n: nat)
    requires s + n < |b| && b[s + n] == NUL && forall i :: s <= i < s + n ==> b[i] != NUL
    ensures CString(b, s) == b[s..s + n]
    decreases n
  {
    if n > 0 {
      CStringIs(b, s + 1, n - 1);
    }
  }

  lemma {:induction false} CStringFrame(b: string, s: nat, q: nat, c: char)
    requires s + |CString(b, s)| < q < |b|
    ensures CString(b[q := c], s) == CString(b, s)
    decreases |b| - s
  {
    if s < |b| && b[s] != NUL {
      CStringFrame(b, s + 1, q, c);
    }
  }

  function Texts(b: string, starts: seq<nat>): (r: seq<string>)
    ensures |r| == |starts|
  {
    seq(|starts|, k requires 0 <= k < |starts| => CString(b, starts[k]))
  }

  // ---------------------------------------------------------------- the scan

  /** The state of the scan of t: p is where the next token begins, or NULL. */
  ghost predicate Fits(t: string, d: set<char>, b: string, p: int, starts: seq<nat>) {
    && |t| < BUFSIZE == |b| && |starts| <= MAX && NUL !in t && NUL !in d
    && (p == NULL || (0 <= p <= |t| && b[p..|t| + 1] == t[p..] + [NUL] && (p > 0 ==> t[p - 1] in d)))
    && (p != NULL ==> forall s <- starts :: s + |CString(b, s)| < p)
  }

  /** What is stored and what is left make up all components. */
  ghost predicate Collected(t: string, d: set<char>, b: string, p: int, starts: seq<nat>) {
    && NULL <= p <= |t|
    && Parts(t, d) == Texts(b, starts) + (if p < 0 then [] else Parts(t[p..], d))
    && (p == NULL && t != [] && t[|t| - 1] in d ==> |starts| < MAX)
  }

  ghost predicate Counted(t: string, d: set<char>, p: int, n: nat) {
    0 <= p <= |t| && n <= MAX ==> Passed(t, d, MAX) == p + Passed(t[p..], d, MAX - n)
  }

  /** The last place of a full buffer shows whether its delimiter was reached. */
  ghost predicate Marked(t: string, d: set<char>, b: string, p: int) {
    |t| == BUFSIZE - 1 && |b| == BUFSIZE ==>
      (b[BUFSIZE - 2] == NUL <==> p == BUFSIZE - 1 || (p == NULL && t[BUFSIZE - 2] in d))
  }

  ghost predicate Scanning(t: string, d: set<char>, b: string, p: int, starts: seq<nat>) {
    Fits(t, d, b, p, starts) && Collected(t, d, b, p, starts) && Counted(t, d, p, |starts|) && Marked(t, d, b, p)
  }

  /** The buffer after one strsep, and where it leaves off. */
  function Cut(t: string, d: set<char>, b: string, p: nat): (string, int)
    requires p <= |t| < |b|
  {
    var q := p + Span(t[p..], d);
    if q < |t| then (b[q := NUL], q + 1) else (b, NULL)
  }

  lemma TokenText(t: string, d: set<char>, b: string, p: nat)
    requires p <= |t| < |b| && NUL !in t && b[p..|t| + 1] == t[p..] + [NUL]
    ensures var n := Span(t[p..], d); CString(Cut(t, d, b, p).0, p) == t[p..][..n]
  {
    var n := Span(t[p..], d);
    var b' := Cut(t, d, b, p).0;
    assert forall i :: p <= i <= |t| ==> b[i] == b[p..|t| + 1][i - p] == (t[p..] + [NUL])[i - p];
    assert forall i :: p <= i < p + n ==> b'[i] == t[i];
    CStringIs(b', p, n);
    hide CString, Span;
    assert b'[p..p + n] == t[p..][..n];
  }

  lemma TextsFrame(b: string, starts: seq<nat>, p: nat, q: nat)
    requires p <= q < |b| && forall s <- starts :: s + |CString(b, s)| < p
    ensures Texts(b[q := NUL], starts) == Texts(b, starts)
    ensures forall s <- starts :: s + |CString(b[q := NUL], s)| < p
  {
    forall s | s in starts ensures CString(b[q := NUL], s) == CString(b, s) {
      CStringFrame(b, s, q, NUL);
    }
    hide CString;
    assert forall k :: 0 <= k < |starts| ==> starts[k] in starts;
  }

  function Stored(b: string, p: nat, starts: seq<nat>): seq<nat> {
    if CString(b, p) == [] then starts else starts + [p]
  }

  lemma BufferRest(t: string, b: string, p: nat, q: nat)
    requires p <= q < |t| < |b| && b[p..|t| + 1] == t[p..] + [NUL]
    ensures b[q := NUL][q + 1..|t| + 1] == t[q + 1..] + [NUL]
  {
    assert forall i :: p <= i <= |t| ==> b[i] == b[p..|t| + 1][i - p] == (t[p..] + [NUL])[i - p];
  }

  lemma StepFits(t: string, d: set<char>, b: string, p: int, starts: seq<nat>)
    requires Fits(t, d, b, p, starts) && p != NULL && |starts| < MAX
    ensures var c := Cut(t, d, b, p); Fits(t, d, c.0, c.1, Stored(c.0, p, starts))
  {
    hide CString, Span;
    TokenText(t, d, b, p);
    var q := p + Span(t[p..], d);
    if q < |t| {
      TextsFrame(b, starts, p, q);
      BufferRest(t, b, p, q);
    }
  }

  /** One strsep: the buffer, the place to go on from, and the texts stored before. */
  lemma CutFacts(t: string, d: set<char>, b: string, p: int, starts: seq<nat>)
    requires Fits(t, d, b, p, starts) && p != NULL
    ensures var q, c := p + Span(t[p..], d), Cut(t, d, b, p);
      c.1 == (if q < |t| then q + 1 else NULL) && Texts(c.0, starts) == Texts(b, starts)
  {
    hide CString, Span, Texts;
    var q := p + Span(t[p..], d);
    if q < |t| {
      TextsFrame(b, starts, p, q);
    }
  }

  lemma LeftOver(t: string, d: set<char>, p: nat)
    requires p <= |t|
    ensures var n := Span(t[p..], d);
      Parts(t[p..], d) == (if n == 0 then [] else [t[p..][..n]]) + if p + n == |t| then [] else Parts(t[p + n + 1..], d)
  {
    hide Parts, Span;
    var n := Span(t[p..], d);
    PartsToken(t[p..], d);
    if p + n < |t| {
      assert t[p..][n + 1..] == t[p + n + 1..];
    }
  }

  lemma StepCollected(t: string, d: set<char>, b: string, p: int, starts: seq<nat>)
    requires Fits(t, d, b, p, starts) && Collected(t, d, b, p, starts) && p != NULL && |starts| < MAX
    ensures var c := Cut(t, d, b, p); Collected(t, d, c.0, c.1, Stored(c.0, p, starts))
  {
    hide CString, Parts, Span, Texts, Stored, Cut;
    var n := Span(t[p..], d);
    TokenText(t, d, b, p);
    LeftOver(t, d, p);
    CutFacts(t, d, b, p, starts);
    StoredTexts(Cut(t, d, b, p).0, p, starts);
    Regrouped(Texts(b, starts), if n == 0 then [] else [t[p..][..n]],
      if p + n == |t| then [] else Parts(t[p + n + 1..], d));
    if p + n == |t| && n > 0 {
      SpanLast(t[p..], d);
    }
  }

  lemma Regrouped(a: seq<string>, b: seq<string>, c: seq<string>)
    ensures a + (b + c) == a + b + c
  {
  }

  lemma StoredTexts(b: string, p: nat, starts: seq<nat>)
    ensures Texts(b, Stored(b, p, starts)) == Texts(b, starts) + if CString(b, p) == [] then [] else [CString(b, p)]
    ensures |Stored(b, p, starts)| == |starts| + if CString(b, p) == [] then 0 else 1
  {
    hide CString;
  }

  /** A token that runs to the end does not end with a delimiter. */
  lemma SpanLast(s: string, d: set<char>)
    requires Span(s, d) == |s| > 0
    ensures s[|s| - 1] !in d
  {
  }

  lemma StepCounted(t: string, d: set<char>, b: string, p: int, starts: seq<nat>)
    requires Fits(t, d, b, p, starts) && Counted(t, d, p, |starts|) && p != NULL && |starts| < MAX
    ensures var c := Cut(t, d, b, p); Counted(t, d, c.1, |Stored(c.0, p, starts)|)
  {
    hide CString, Passed, Span;
    TokenText(t, d, b, p);
    var q := p + Span(t[p..], d);
    if q < |t| {
      PassedToken(t[p..], d, MAX - |starts|);
      assert t[p..][q - p + 1..] == t[q + 1..];
    }
  }

  lemma StepMarked(t: string, d: set<char>, b: string, p: int, starts: seq<nat>)
    requires Fits(t, d, b, p, starts) && Marked(t, d, b, p) && p != NULL
    ensures var c := Cut(t, d, b, p); Marked(t, d, c.0, c.1)
  {
    hide CString;
    var n := Span(t[p..], d);
    if p + n == |t| && n > 0 {
      SpanLast(t[p..], d);
    }
    hide Span;
  }

  lemma ScanStep(t: string, d: set<char>, b: string, p: int, starts: seq<nat>)
    requires Scanning(t, d, b, p, starts) && p != NULL && |starts| < MAX
    ensures var c := Cut(t, d, b, p); Scanning(t, d, c.0, c.1, Stored(c.0, p, starts))
  {
    hide Fits, Collected, Counted, Marked, Cut, Stored;
    StepFits(t, d, b, p, starts);
    StepCollected(t, d, b, p, starts);
    StepCounted(t, d, b, p, starts);
    StepMarked(t, d, b, p, starts);
  }

  // ---------------------------------------------------------------- the end of the scan

  lemma TextsDropLast(b: string, starts: seq<nat>)
    requires starts != []
    ensures Texts(b, starts[..|starts| - 1]) == Texts(b, starts)[..|starts| - 1]
  {
    hide CString;
  }

  /** A path that fits: everything was stored, up to eight. */
  lemma EndShort(t: string, d: set<char>, b: string, p: int, starts: seq<nat>)
    requires Scanning(t, d, b, p, starts) && (p == NULL || |starts| == MAX)
    ensures Texts(b, starts) == First(Parts(t, d), MAX)
  {
    hide Parts, CString, Passed, Texts, Closed;
  }

  /** A path that was cut off, with eight components found before the end. */
  lemma EndEarly(t: string, d: set<char>, b: string, p: int, starts: seq<nat>)
    requires Scanning(t, d, b, p, starts) && |t| == BUFSIZE - 1 && p != NULL && |starts| == MAX
    ensures First(Closed(t, d), if Passed(t, d, MAX) == BUFSIZE - 1 then MAX else MAX - 1)
      == if b[BUFSIZE - 2] == NUL then Texts(b, starts) else Texts(b, starts)[..MAX - 1]
  {
    assert Passed(t[p..], d, 0) == 0;
    hide Parts, CString, Passed, Texts;
    if p == BUFSIZE - 1 {
      PartsToken([], d);
      assert t[p..] == [];
    }
  }

  /** A path that was cut off, scanned to the end of the buffer. */
  lemma EndLate(t: string, d: set<char>, b: string, starts: seq<nat>, n: nat)
    requires Scanning(t, d, b, NULL, starts) && |t| == BUFSIZE - 1 && n >= MAX - 1
    ensures b[BUFSIZE - 2] != NUL ==> starts != []
    ensures First(Closed(t, d), n) ==
      if b[BUFSIZE - 2] == NUL then Texts(b, starts) else Texts(b, starts)[..|starts| - 1]
  {
    hide Parts, CString, Passed, Texts;
    if t[BUFSIZE - 2] !in d {
      LastComponent(t, d);
    }
  }

  lemma ScanEnds(path: string, d: set<char>, b: string, p: int, starts: seq<nat>)
    requires Scanning(if |path| < BUFSIZE then path else path[..BUFSIZE - 1], d, b, p, starts)
    requires p == NULL || |starts| == MAX
    ensures |b| == BUFSIZE
    ensures var drop := starts != [] && |path| >= BUFSIZE && b[BUFSIZE - 2] != NUL;
      Kept(path, d) == Texts(b, if drop then starts[..|starts| - 1] else starts)
  {
    hide Parts, CString, Passed, Texts, Closed, Scanning;
    var t := if |path| < BUFSIZE then path else path[..BUFSIZE - 1];
    ScanSize(t, d, b, p, starts);
    if |path| < BUFSIZE {
      EndShort(t, d, b, p, starts);
    } else {
      if starts != [] {
        TextsDropLast(b, starts);
      }
      if p == NULL {
        EndLate(t, d, b, starts, if Passed(t, d, MAX) == BUFSIZE - 1 then MAX else MAX - 1);
      } else {
        EndEarly(t, d, b, p, starts);
      }
    }
  }

  lemma ScanSize(t: string, d: set<char>, b: string, p: int, starts: seq<nat>)
    requires Scanning(t, d, b, p, starts)
    ensures |b| == BUFSIZE && |starts| <= MAX && NULL <= p <= |t| < BUFSIZE && NUL !in t && NUL !in d
    ensures p != NULL ==> b[p..|t| + 1] == t[p..] + [NUL]
  {
    hide Parts, CString, Passed, Texts;
  }

  lemma ScanStarts(t: string, d: set<char>, b: string)
    requires |t| < BUFSIZE == |b| && NUL !in t && NUL !in d && b[..|t| + 1] == t + [NUL]
    ensures Scanning(t, d, b, 0, [])
  {
    assert t[0..] == t && b[0..|t| + 1] == b[..|t| + 1];
    hide Parts, CString, Passed;
    assert |t| == BUFSIZE - 1 ==> b[BUFSIZE - 2] == (t + [NUL])[BUFSIZE - 2];
  }

  // ---------------------------------------------------------------- the code

  /** A character of a string or its terminator. */
  function At(s: string, k: nat): char
    requires k <= |s|
  {
    if k < |s| then s[k] else NUL
  }

  /** strlcpy: as much as fits is copied and terminated; the length of the source is returned. */
  method Strlcpy(dst: array<char>, src: string) returns (len: nat)
    requires NUL !in src
    modifies dst
    ensures len == |src|
    ensures dst.Length > 0 ==> var m := if |src| < dst.Length then |src| else dst.Length - 1;
      dst[..m + 1] == src[..m] + [NUL] && dst[m + 1..] == old(dst[m + 1..])
  {
    var k, n := 0, dst.Length;
    if n != 0 {
      n := n - 1;
      while n != 0
        invariant 0 <= n && k == dst.Length - 1 - n && k <= |src|
        invariant forall j :: 0 <= j < k ==> dst[j] == src[j]
        invariant forall j :: k <= j < dst.Length ==> dst[j] == old(dst[j])
      {
        dst[k] := At(src, k);
        if dst[k] == NUL {
          return k;
        }
        k := k + 1;
        n := n - 1;
      }
      dst[k] := NUL;
    }
    while k < |src|
      invariant k <= |src|
    {
      k := k + 1;
    }
    len := k;
  }

  /** strsep: ends the token that begins at p and steps behind its delimiter. */
  method Strsep(buf: array<char>, p: nat, d: set<char>, ghost t: string) returns (rest: int)
    requires p <= |t| < BUFSIZE == buf.Length && buf[..][p..|t| + 1] == t[p..] + [NUL] && NUL !in t && NUL !in d
    modifies buf
    ensures (buf[..], rest) == Cut(t, d, old(buf[..]), p)
  {
    BufferAt(t, buf[..], p);
    var q := p;
    while buf[q] != NUL && buf[q] !in d
      invariant p <= q <= |t| && forall i :: p <= i < q ==> t[i] !in d
      decreases |t| - q
    {
      q := q + 1;
    }
    SpanIs(t[p..], d, q - p);
    hide Span;
    if buf[q] == NUL {
      rest := NULL;
    } else {
      ghost var was := buf[..];
      buf[q] := NUL;
      assert buf[..] == was[q := NUL];
      rest := q + 1;
    }
  }

  lemma BufferAt(t: string, b: string, p: nat)
    requires p <= |t| < |b| && b[p..|t| + 1] == t[p..] + [NUL]
    ensures b[|t|] == NUL && forall i :: p <= i < |t| ==> b[i] == t[i]
  {
    assert forall i :: p <= i <= |t| ==> b[i] == b[p..|t| + 1][i - p] == (t[p..] + [NUL])[i - p];
  }

  /** dl_parse_library_path: the strings at the positions stored are what is to be kept of the path. */
  method ParseLibraryPath(buf: array<char>, path: string, d: set<char>) returns (starts: seq<nat>)
    requires buf.Length == BUFSIZE && NUL !in path && NUL !in d
    modifies buf
    ensures Texts(buf[..], starts) == Kept(path, d)
  {
    hide Parts, CString, Passed, Texts, Closed, Scanning, Cut, Kept, Stored;
    var len := Strlcpy(buf, path);
    ghost var t := if |path| < BUFSIZE then path else path[..BUFSIZE - 1];
    assert buf[..][..|t| + 1] == t + [NUL];
    ScanStarts(t, d, buf[..]);
    var p := 0;
    starts := [];
    while |starts| < MAX && p != NULL
      invariant Scanning(t, d, buf[..], p, starts)
      decreases if p == NULL then 0 else BUFSIZE + 1 - p
    {
      ScanSize(t, d, buf[..], p, starts);
      ScanStep(t, d, buf[..], p, starts);
      CutForward(t, d, buf[..], p);
      var token := p;
      p := Strsep(buf, token, d, t);
      StoredIf(buf[..], token, starts);
      if buf[token] != NUL {
        starts := starts + [token];
      }
    }
    ScanSize(t, d, buf[..], p, starts);
    ScanEnds(path, d, buf[..], p, starts);
    if |starts| > 0 && len >= BUFSIZE && buf[BUFSIZE - 2] != NUL {
      starts := starts[..|starts| - 1];
    }
  }

  lemma StoredIf(b: string, p: nat, starts: seq<nat>)
    requires p < |b|
    ensures Stored(b, p, starts) == if b[p] != NUL then starts + [p] else starts
  {
  }

  lemma CutForward(t: string, d: set<char>, b: string, p: nat)
    requires p <= |t| < |b|
    ensures var q := Cut(t, d, b, p).1; q == NULL || p < q <= |t|
  {
    hide Span;
  }
}
