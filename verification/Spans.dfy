/** Leading parts of strings. */
module Spans {

  /** strcspn: the length of the part that holds no separator. */
  function Span(s: string, seps: set<char>): (n: nat)
    ensures n <= |s| && (n < |s| ==> s[n] in seps) && forall i :: 0 <= i < n ==> s[i] !in seps
  {
    if s == [] || s[0] in seps then 0 else 1 + Span(s[1..], seps)
  }

  lemma SpanIs(s: string, d: set<char>, n: nat)
    requires n <= |s| && (n < |s| ==> s[n] in d) && forall i :: 0 <= i < n ==> s[i] !in d
    ensures Span(s, d) == n
  {
  }
}
