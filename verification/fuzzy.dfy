/**
  What the bounded-mismatch search (`Search`, AutoCompleteTrieSearch.cs:344-413)
  matches: a stored text qualifies for a query when its first `|query|`
  characters differ from the query in at most the allowed number of positions.
  Only substitutions count; the search never skips or inserts characters.
 */
module FuzzyMatch {
  import opened TrieNodes

  /** The number of positions at which two equally long texts differ. */
  function Mismatches(a: string, b: string): nat
    requires |a| == |b|
    decreases |a|
  {
    if a == [] then 0
    else (if a[0] == b[0] then 0 else 1) + Mismatches(a[1..], b[1..])
  }

  /** The cost of following the edge labelled `c` for query character `q`. */
  function EdgeCost(c: char, q: char): nat
  {
    if c == q then 0 else 1
  }

  /** `s` starts with `q` up to at most `k` substitutions. */
  predicate FuzzyPrefix(s: string, q: string, k: int)
  {
    |s| >= |q| && Mismatches(s[..|q|], q) <= k
  }

  /** The identifiers of the records whose text fuzzily starts with `q`. */
  ghost function Matching<V>(entries: map<string, NodeValue<V>>, q: string, k: int): set<Id>
  {
    set s | s in entries && FuzzyPrefix(s, q, k) :: entries[s].id
  }

  /** Mismatches count positions: none for equal texts, at most one per
      character, and they do not depend on argument order. */
  lemma {:induction false} MismatchesFacts(a: string, b: string)
    requires |a| == |b|
    ensures Mismatches(a, b) <= |a|
    ensures Mismatches(a, b) == 0 <==> a == b
    ensures Mismatches(a, b) == Mismatches(b, a)
    decreases |a|
  {
    if a != [] {
      MismatchesFacts(a[1..], b[1..]);
      assert a == [a[0]] + a[1..] && b == [b[0]] + b[1..];
    }
  }

  /** Prepending the edge character to a stored suffix costs exactly that
      edge's mismatch against the query's first character. */
  lemma FuzzyStep(c: char, t: string, q: string, k: int)
    requires |q| > 0
    ensures FuzzyPrefix([c] + t, q, k) <==> FuzzyPrefix(t, q[1..], k - EdgeCost(c, q[0]))
  {
    if |t| >= |q| - 1 {
      var s := [c] + t;
      assert s[..|q|][1..] == t[..|q| - 1];
    }
  }

  /** What matches below a child also matches at its parent, with the edge's
      cost taken from the budget. */
  lemma MatchingLifted<V>(parent: map<string, NodeValue<V>>, c: char, child: map<string, NodeValue<V>>, q: string, k: int)
    requires Lifted(parent, c, child) && |q| > 0
    ensures Matching(child, q[1..], k - EdgeCost(c, q[0])) <= Matching(parent, q, k)
  {
    forall x | x in Matching(child, q[1..], k - EdgeCost(c, q[0])) ensures x in Matching(parent, q, k) {
      var t :| t in child && FuzzyPrefix(t, q[1..], k - EdgeCost(c, q[0])) && child[t].id == x;
      FuzzyStep(c, t, q, k);
      assert [c] + t in parent;
    }
  }

  /** The empty query matches every record while the budget is not negative. */
  lemma MatchingEmptyQuery<V>(entries: map<string, NodeValue<V>>, k: int)
    requires k >= 0
    ensures Matching(entries, [], k) == Ids(entries)
  {
    forall x | x in Ids(entries) ensures x in Matching(entries, [], k) {
      var s :| s in entries && entries[s].id == x;
      assert FuzzyPrefix(s, [], k);
    }
  }

  /** A text that starts with the query matches it under any budget. */
  lemma ExactPrefixMatches(s: string, q: string, k: int)
    requires k >= 0 && |q| <= |s| && s[..|q|] == q
    ensures FuzzyPrefix(s, q, k)
  {
    MismatchesFacts(q, q);
  }

  /** With one substitution allowed, the predicate admits "cat" for the
      query "cbt" and rejects it for the query "cow". */
  lemma OneSubstitutionBoundary()
    ensures FuzzyPrefix("cat", "cbt", 1)
    ensures !FuzzyPrefix("cat", "cow", 1)
  {
    assert "cat"[..3] == "cat";
  }
}
