/** Quotations in single or double quotes, without escapes, in terms of positions. */
module Quotes {
  /** The quotation mark at p, itself outside of any quotation, has not been repeated before position i. */
  ghost predicate Opens(s: string, i: nat, p: nat)
    requires i <= |s|
    decreases i, 0
  {
    p < i && (s[p] == '\'' || s[p] == '"') && !Quoted(s, p) && forall k :: p < k < i ==> s[k] != s[p]
  }

  /** Position i is inside a quotation. */
  ghost predicate Quoted(s: string, i: nat)
    requires i <= |s|
    decreases i
  {
    exists p: nat :: p < i && Opens(s, i, p)
  }

  lemma OneOpener(s: string, i: nat, p: nat, q: nat)
    requires i <= |s| && Opens(s, i, p) && Opens(s, i, q)
    ensures p == q
  {
    assert p < q ==> Opens(s, q, p);
  }

  lemma OpensOneMore(s: string, n: nat, p: nat)
    requires n < |s|
    ensures Opens(s, n + 1, p) <==>
      if p == n then (s[n] == '\'' || s[n] == '"') && !Quoted(s, n) else Opens(s, n, p) && s[n] != s[p]
  {
  }
}
