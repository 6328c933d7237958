/**
  The rank-list merge of `MergeRankList` (AutoCompleteTrieSearch.cs:415-486)
  as a function: two weight-ordered lists are merged head by head, an entry of
  the first list is dropped when both heads carry the same identifier, entries
  with the excluded identifier are skipped, and output stops at `cap` entries.
  The lemmas state what the merge guarantees and what it does not.
 */
module RankMerge {
  import opened Wrappers
  import opened TrieNodes

  /** The most entries a cap of `n` allows: `n` itself, and 0 when `n` is
      negative, so the result is empty whenever the cap `n <= 0`. */
  function Cap(n: int): nat
  {
    if n < 0 then 0 else n
  }

  /** The remaining entries of one list, in order, skipping the excluded
      identifier, while fewer than `cap` more may be emitted. */
  function Drain(s: seq<Rank>, ignore: Option<Id>, cap: int): seq<Rank>
    decreases |s|
  {
    if cap <= 0 || s == [] then []
    else if ignore == Some(s[0].id) then Drain(s[1..], ignore, cap)
    else [s[0]] + Drain(s[1..], ignore, cap - 1)
  }

  /** The merge, one head comparison per step. */
  function Merge(a: seq<Rank>, b: seq<Rank>, ignore: Option<Id>, cap: int): seq<Rank>
    decreases |a| + |b|
  {
    if cap <= 0 then []
    else if a == [] then Drain(b, ignore, cap)
    else if b == [] then Drain(a, ignore, cap)
    else if a[0].id == b[0].id then Merge(a[1..], b, ignore, cap)
    else if ignore == Some(a[0].id) then Merge(a[1..], b, ignore, cap)
    else if ignore == Some(b[0].id) then Merge(a, b[1..], ignore, cap)
    else if a[0].weight >= b[0].weight then [a[0]] + Merge(a[1..], b, ignore, cap - 1)
    else [b[0]] + Merge(a, b[1..], ignore, cap - 1)
  }

  /** `out` is obtained by walking `a` and `b` front to back and keeping some
      entries of each: every entry comes from one of the lists, and the order
      each list gives its entries is kept. */
  ghost predicate Picks(out: seq<Rank>, a: seq<Rank>, b: seq<Rank>)
    decreases |a| + |b|
  {
    if out == [] then true
    else
      || (a != [] && out[0] == a[0] && Picks(out[1..], a[1..], b))
      || (b != [] && out[0] == b[0] && Picks(out[1..], a, b[1..]))
      || (a != [] && Picks(out, a[1..], b))
      || (b != [] && Picks(out, a, b[1..]))
  }

  /** The first `n` entries of `s` (all of them if it is shorter). */
  function Take(s: seq<Rank>, n: int): seq<Rank>
  {
    if n <= 0 then [] else if n >= |s| then s else s[..n]
  }

  /** `s` without the entries that carry identifier `x`. */
  function Without(s: seq<Rank>, x: Id): seq<Rank>
  {
    if s == [] then []
    else (if s[0].id == x then [] else [s[0]]) + Without(s[1..], x)
  }

  lemma TakeCons(y: Rank, s: seq<Rank>, n: int)
    requires n >= 1
    ensures Take([y] + s, n) == [y] + Take(s, n - 1)
  {
    if n - 1 < |s| && n - 1 > 0 {
      assert ([y] + s)[..n] == [y] + s[..n - 1];
    }
  }

  /** Once one list is used up, or no more entries may be emitted, the merge
      is what is left of either list. */
  lemma MergeExhausted(a: seq<Rank>, b: seq<Rank>, ignore: Option<Id>, cap: int)
    requires a == [] || b == [] || cap <= 0
    ensures Merge(a, b, ignore, cap) == Drain(a, ignore, cap) + Drain(b, ignore, cap)
  {
  }

  // ---------------------------------------------------------------------
  // The merge as the three loops of `MergeRankList` compute it: entries are
  // appended to an accumulator `acc` until it holds `cap` entries
  // ---------------------------------------------------------------------

  /** The second and third loops: appending what is left of one list. */
  function DrainOnto(acc: seq<Rank>, s: seq<Rank>, ignore: Option<Id>, cap: int): seq<Rank>
    decreases |s|
  {
    if |acc| >= cap || s == [] then acc
    else if ignore == Some(s[0].id) then DrainOnto(acc, s[1..], ignore, cap)
    else DrainOnto(acc + [s[0]], s[1..], ignore, cap)
  }

  /** The first loop, then the other two. */
  function MergeOnto(acc: seq<Rank>, a: seq<Rank>, b: seq<Rank>, ignore: Option<Id>, cap: int): seq<Rank>
    decreases |a| + |b|
  {
    if |acc| >= cap || a == [] || b == [] then DrainOnto(DrainOnto(acc, a, ignore, cap), b, ignore, cap)
    else if a[0].id == b[0].id || ignore == Some(a[0].id) then MergeOnto(acc, a[1..], b, ignore, cap)
    else if ignore == Some(b[0].id) then MergeOnto(acc, a, b[1..], ignore, cap)
    else if a[0].weight >= b[0].weight then MergeOnto(acc + [a[0]], a[1..], b, ignore, cap)
    else MergeOnto(acc + [b[0]], a, b[1..], ignore, cap)
  }

  /** One round of the first loop of `MergeRankList`, on the unmerged
      suffixes `a[i..]` and `b[j..]`. */
  lemma MergeOntoStep(acc: seq<Rank>, a: seq<Rank>, i: nat, b: seq<Rank>, j: nat, ignore: Option<Id>, cap: int)
    requires |acc| < cap && i < |a| && j < |b|
    ensures MergeOnto(acc, a[i..], b[j..], ignore, cap)
         == if a[i].id == b[j].id || ignore == Some(a[i].id) then MergeOnto(acc, a[i + 1..], b[j..], ignore, cap)
            else if ignore == Some(b[j].id) then MergeOnto(acc, a[i..], b[j + 1..], ignore, cap)
            else if a[i].weight >= b[j].weight then MergeOnto(acc + [a[i]], a[i + 1..], b[j..], ignore, cap)
            else MergeOnto(acc + [b[j]], a[i..], b[j + 1..], ignore, cap)
  {
    assert a[i..][0] == a[i] && a[i..][1..] == a[i + 1..];
    assert b[j..][0] == b[j] && b[j..][1..] == b[j + 1..];
  }

  /** Draining onto an accumulator appends the drained list to it. */
  lemma {:induction false} DrainOntoAppends(acc: seq<Rank>, s: seq<Rank>, ignore: Option<Id>, cap: int)
    ensures DrainOnto(acc, s, ignore, cap) == acc + Drain(s, ignore, cap - |acc|)
    decreases |s|
  {
    if |acc| >= cap || s == [] {
      assert Drain(s, ignore, cap - |acc|) == [];
    } else if ignore == Some(s[0].id) {
      DrainOntoAppends(acc, s[1..], ignore, cap);
    } else {
      DrainOntoAppends(acc + [s[0]], s[1..], ignore, cap);
      assert acc + [s[0]] + Drain(s[1..], ignore, cap - |acc| - 1)
          == acc + ([s[0]] + Drain(s[1..], ignore, cap - |acc| - 1));
    }
  }

  /** The loops compute the merge: merging onto an accumulator appends the
      merge, under what is left of the cap, to it. */
  lemma {:induction false} MergeOntoAppends(acc: seq<Rank>, a: seq<Rank>, b: seq<Rank>, ignore: Option<Id>, cap: int)
    ensures MergeOnto(acc, a, b, ignore, cap) == acc + Merge(a, b, ignore, cap - |acc|)
    decreases |a| + |b|
  {
    if |acc| >= cap || a == [] || b == [] {
      var rest := DrainOnto(acc, a, ignore, cap);
      DrainOntoAppends(acc, a, ignore, cap);
      DrainOntoAppends(rest, b, ignore, cap);
      MergeExhausted(a, b, ignore, cap - |acc|);
      if |acc| < cap && a != [] {
        assert b == [];
      }
      assert acc + Drain(a, ignore, cap - |acc|) + Drain(b, ignore, cap - |rest|)
          == acc + (Drain(a, ignore, cap - |acc|) + Drain(b, ignore, cap - |acc|));
    } else if a[0].id == b[0].id || ignore == Some(a[0].id) {
      MergeOntoAppends(acc, a[1..], b, ignore, cap);
    } else if ignore == Some(b[0].id) {
      MergeOntoAppends(acc, a, b[1..], ignore, cap);
    } else if a[0].weight >= b[0].weight {
      MergeOntoAppends(acc + [a[0]], a[1..], b, ignore, cap);
      assert acc + [a[0]] + Merge(a[1..], b, ignore, cap - |acc| - 1)
          == acc + ([a[0]] + Merge(a[1..], b, ignore, cap - |acc| - 1));
    } else {
      MergeOntoAppends(acc + [b[0]], a, b[1..], ignore, cap);
      assert acc + [b[0]] + Merge(a, b[1..], ignore, cap - |acc| - 1)
          == acc + ([b[0]] + Merge(a, b[1..], ignore, cap - |acc| - 1));
    }
  }

  // ---------------------------------------------------------------------
  // Size bound
  // ---------------------------------------------------------------------

  lemma {:induction false} DrainBound(s: seq<Rank>, ignore: Option<Id>, cap: int)
    ensures |Drain(s, ignore, cap)| <= Cap(cap)
    ensures |Drain(s, ignore, cap)| <= |s|
    decreases |s|
  {
    if cap > 0 && s != [] {
      if ignore == Some(s[0].id) {
        DrainBound(s[1..], ignore, cap);
      } else {
        DrainBound(s[1..], ignore, cap - 1);
      }
    }
  }

  /** The merge never returns more than `cap` entries, nor more than its
      inputs hold together. */
  lemma {:induction false} MergeBound(a: seq<Rank>, b: seq<Rank>, ignore: Option<Id>, cap: int)
    ensures |Merge(a, b, ignore, cap)| <= Cap(cap)
    ensures |Merge(a, b, ignore, cap)| <= |a| + |b|
    decreases |a| + |b|
  {
    if cap <= 0 {
    } else if a == [] {
      DrainBound(b, ignore, cap);
    } else if b == [] {
      DrainBound(a, ignore, cap);
    } else if a[0].id == b[0].id || ignore == Some(a[0].id) {
      MergeBound(a[1..], b, ignore, cap);
    } else if ignore == Some(b[0].id) {
      MergeBound(a, b[1..], ignore, cap);
    } else if a[0].weight >= b[0].weight {
      MergeBound(a[1..], b, ignore, cap - 1);
    } else {
      MergeBound(a, b[1..], ignore, cap - 1);
    }
  }

  // ---------------------------------------------------------------------
  // Provenance and order
  // ---------------------------------------------------------------------

  lemma {:induction false} DrainPicks(s: seq<Rank>, ignore: Option<Id>, cap: int)
    ensures Picks(Drain(s, ignore, cap), s, [])
    ensures Picks(Drain(s, ignore, cap), [], s)
    decreases |s|
  {
    if cap > 0 && s != [] {
      if ignore == Some(s[0].id) {
        DrainPicks(s[1..], ignore, cap);
      } else {
        DrainPicks(s[1..], ignore, cap - 1);
      }
    }
  }

  /** Every merged entry comes from one of the two lists, and each list's
      relative order survives the merge. */
  lemma {:induction false} MergePicks(a: seq<Rank>, b: seq<Rank>, ignore: Option<Id>, cap: int)
    ensures Picks(Merge(a, b, ignore, cap), a, b)
    decreases |a| + |b|
  {
    var out := Merge(a, b, ignore, cap);
    if cap <= 0 {
    } else if a == [] {
      DrainPicks(b, ignore, cap);
    } else if b == [] {
      DrainPicks(a, ignore, cap);
    } else if a[0].id == b[0].id || ignore == Some(a[0].id) {
      MergePicks(a[1..], b, ignore, cap);
    } else if ignore == Some(b[0].id) {
      MergePicks(a, b[1..], ignore, cap);
    } else if a[0].weight >= b[0].weight {
      MergePicks(a[1..], b, ignore, cap - 1);
      assert out[1..] == Merge(a[1..], b, ignore, cap - 1);
    } else {
      MergePicks(a, b[1..], ignore, cap - 1);
      assert out[1..] == Merge(a, b[1..], ignore, cap - 1);
    }
  }

  /** An order-preserving pick only holds entries of its two sources. */
  lemma {:induction false} PicksMembers(out: seq<Rank>, a: seq<Rank>, b: seq<Rank>)
    requires Picks(out, a, b)
    ensures forall x :: x in out ==> x in a || x in b
    decreases |a| + |b|
  {
    if out != [] {
      if a != [] && out[0] == a[0] && Picks(out[1..], a[1..], b) {
        PicksMembers(out[1..], a[1..], b);
        assert out == [out[0]] + out[1..];
      } else if b != [] && out[0] == b[0] && Picks(out[1..], a, b[1..]) {
        PicksMembers(out[1..], a, b[1..]);
        assert out == [out[0]] + out[1..];
      } else if a != [] && Picks(out, a[1..], b) {
        PicksMembers(out, a[1..], b);
      } else {
        PicksMembers(out, a, b[1..]);
      }
    }
  }

  /** Every merged entry is an entry of `a` or of `b`. */
  lemma MergeMembers(a: seq<Rank>, b: seq<Rank>, ignore: Option<Id>, cap: int)
    ensures forall x :: x in Merge(a, b, ignore, cap) ==> x in a || x in b
    ensures RankIds(Merge(a, b, ignore, cap)) <= RankIds(a) + RankIds(b)
  {
    MergePicks(a, b, ignore, cap);
    PicksMembers(Merge(a, b, ignore, cap), a, b);
  }

  /** A merge of two weight-ordered lists that only name identifiers of
      `ids` is a weight-ordered list that only names identifiers of `ids`. */
  lemma MergeWithin(a: seq<Rank>, b: seq<Rank>, ignore: Option<Id>, cap: int, ids: set<Id>)
    requires Sorted(a) && Sorted(b) && RankIds(a) <= ids && RankIds(b) <= ids
    ensures Sorted(Merge(a, b, ignore, cap)) && RankIds(Merge(a, b, ignore, cap)) <= ids
  {
    MergeSorted(a, b, ignore, cap);
    MergeMembers(a, b, ignore, cap);
  }

  /** A one-entry list is ordered and names its entry's identifier. */
  lemma Singleton(r: Rank)
    ensures Sorted([r]) && RankIds([r]) == {r.id}
  {
    assert r in [r];
  }

  lemma DrainMembers(s: seq<Rank>, ignore: Option<Id>, cap: int)
    ensures forall x :: x in Drain(s, ignore, cap) ==> x in s
  {
    DrainPicks(s, ignore, cap);
    PicksMembers(Drain(s, ignore, cap), s, []);
  }

  // ---------------------------------------------------------------------
  // Exclusion
  // ---------------------------------------------------------------------

  lemma {:induction false} DrainExcludes(s: seq<Rank>, x: Id, cap: int)
    ensures forall r :: r in Drain(s, Some(x), cap) ==> r.id != x
    decreases |s|
  {
    if cap > 0 && s != [] {
      if s[0].id == x {
        DrainExcludes(s[1..], x, cap);
      } else {
        DrainExcludes(s[1..], x, cap - 1);
      }
    }
  }

  /** With an excluded identifier, no merged entry carries it. */
  lemma {:induction false} MergeExcludes(a: seq<Rank>, b: seq<Rank>, x: Id, cap: int)
    ensures forall r :: r in Merge(a, b, Some(x), cap) ==> r.id != x
    ensures x !in RankIds(Merge(a, b, Some(x), cap))
    decreases |a| + |b|
  {
    var ignore := Some(x);
    if cap <= 0 {
    } else if a == [] {
      DrainExcludes(b, x, cap);
    } else if b == [] {
      DrainExcludes(a, x, cap);
    } else if a[0].id == b[0].id || ignore == Some(a[0].id) {
      MergeExcludes(a[1..], b, x, cap);
    } else if ignore == Some(b[0].id) {
      MergeExcludes(a, b[1..], x, cap);
    } else if a[0].weight >= b[0].weight {
      MergeExcludes(a[1..], b, x, cap - 1);
    } else {
      MergeExcludes(a, b[1..], x, cap - 1);
    }
  }

  lemma {:induction false} DrainWithout(s: seq<Rank>, x: Id, cap: int)
    ensures Drain(s, Some(x), cap) == Take(Without(s, x), cap)
    decreases |s|
  {
    if cap > 0 && s != [] {
      DrainWithout(s[1..], x, if s[0].id == x then cap else cap - 1);
      if s[0].id != x {
        TakeCons(s[0], Without(s[1..], x), cap);
      }
    }
  }

  /** Merging with an empty list under an exclusion (how delete scrubs a
      cached list) keeps the first `cap` entries of the list that do not carry
      the excluded identifier. */
  lemma ScrubIsFilteredPrefix(s: seq<Rank>, x: Id, cap: int)
    ensures Merge(s, [], Some(x), cap) == Take(Without(s, x), cap)
  {
    DrainWithout(s, x, cap);
  }

  // ---------------------------------------------------------------------
  // Ordering
  // ---------------------------------------------------------------------

  lemma SortedCons(x: Rank, s: seq<Rank>)
    requires Sorted(s)
    requires forall y :: y in s ==> y.weight <= x.weight
    ensures Sorted([x] + s)
  {
    forall i, j | 0 <= i < j < |[x] + s| ensures ([x] + s)[i].weight >= ([x] + s)[j].weight {
      if i > 0 {
        assert ([x] + s)[i] == s[i - 1];
      }
      assert ([x] + s)[j] == s[j - 1];
    }
  }

  lemma {:induction false} DrainSorted(s: seq<Rank>, ignore: Option<Id>, cap: int)
    requires Sorted(s)
    ensures Sorted(Drain(s, ignore, cap))
    decreases |s|
  {
    if cap > 0 && s != [] {
      if ignore == Some(s[0].id) {
        DrainSorted(s[1..], ignore, cap);
      } else {
        DrainSorted(s[1..], ignore, cap - 1);
        DrainMembers(s[1..], ignore, cap - 1);
        SortedCons(s[0], Drain(s[1..], ignore, cap - 1));
      }
    }
  }

  /** Merging two weight-ordered lists gives a weight-ordered list. */
  lemma {:induction false} MergeSorted(a: seq<Rank>, b: seq<Rank>, ignore: Option<Id>, cap: int)
    requires Sorted(a) && Sorted(b)
    ensures Sorted(Merge(a, b, ignore, cap))
    decreases |a| + |b|
  {
    if cap <= 0 {
    } else if a == [] {
      DrainSorted(b, ignore, cap);
    } else if b == [] {
      DrainSorted(a, ignore, cap);
    } else if a[0].id == b[0].id || ignore == Some(a[0].id) {
      MergeSorted(a[1..], b, ignore, cap);
    } else if ignore == Some(b[0].id) {
      MergeSorted(a, b[1..], ignore, cap);
    } else if a[0].weight >= b[0].weight {
      MergeSorted(a[1..], b, ignore, cap - 1);
      MergeMembers(a[1..], b, ignore, cap - 1);
      SortedCons(a[0], Merge(a[1..], b, ignore, cap - 1));
    } else {
      MergeSorted(a, b[1..], ignore, cap - 1);
      MergeMembers(a, b[1..], ignore, cap - 1);
      SortedCons(b[0], Merge(a, b[1..], ignore, cap - 1));
    }
  }

  lemma {:induction false} DrainAll(s: seq<Rank>, cap: int)
    ensures Drain(s, None, cap) == Take(s, cap)
    decreases |s|
  {
    if cap > 0 && s != [] {
      DrainAll(s[1..], cap - 1);
      TakeCons(s[0], s[1..], cap);
      assert [s[0]] + s[1..] == s;
    }
  }

  /** Ties go to the first list: when no entry of `b` outweighs an entry of
      `a` (equal weights included) and the lists share no identifier, the merge
      is `a` followed by `b`, cut at `cap`. */
  lemma {:induction false} MergeFirstListWinsTies(a: seq<Rank>, b: seq<Rank>, cap: int)
    requires forall x, y :: x in a && y in b ==> x.weight >= y.weight && x.id != y.id
    ensures Merge(a, b, None, cap) == Take(a + b, cap)
    decreases |a|
  {
    if cap <= 0 {
    } else if a == [] {
      DrainAll(b, cap);
      assert a + b == b;
    } else if b == [] {
      DrainAll(a, cap);
      assert a + b == a;
    } else {
      assert a[0] in a && b[0] in b;
      MergeFirstListWinsTies(a[1..], b, cap - 1);
      TakeCons(a[0], a[1..] + b, cap);
      assert a + b == [a[0]] + (a[1..] + b);
    }
  }

  // ---------------------------------------------------------------------
  // Reinforcement: merging a cached list with a node's bumped own rank
  // ---------------------------------------------------------------------

  /** When the only copy of `r`'s identifier in a sorted list sits at
      position `k`, is lighter than `r`, and every earlier entry is at least as
      heavy as `r`, merging with `[r]` replaces the copy by `r` in place. */
  lemma {:induction false} ReinforceInPlace(l: seq<Rank>, r: Rank, k: nat, cap: int)
    requires Sorted(l) && k < |l| && l[k].id == r.id && l[k].weight < r.weight
    requires forall i :: 0 <= i < k ==> l[i].weight >= r.weight
    requires forall i :: 0 <= i < |l| && i != k ==> l[i].id != r.id
    ensures Merge(l, [r], None, cap) == Take(l[..k] + [r] + l[k + 1..], cap)
    decreases k
  {
    if cap <= 0 {
    } else if k == 0 {
      ReinforceAtHead(l, r, cap);
      assert l[..0] + [r] + l[1..] == [r] + l[1..];
    } else {
      var tail := l[1..];
      assert l[0].weight >= r.weight && l[0].id != r.id;
      assert Merge(l, [r], None, cap) == [l[0]] + Merge(tail, [r], None, cap - 1);
      assert Sorted(tail);
      ReinforceInPlace(tail, r, k - 1, cap - 1);
      var rest := tail[..k - 1] + [r] + tail[k..];
      TakeCons(l[0], rest, cap);
      assert l[..k] == [l[0]] + tail[..k - 1];
      assert l[k + 1..] == tail[k..];
      assert l[..k] + [r] + l[k + 1..] == [l[0]] + rest;
    }
  }

  /** The heads align: the stale copy at the head is dropped, then `r`
      outweighs the rest. */
  lemma ReinforceAtHead(l: seq<Rank>, r: Rank, cap: int)
    requires Sorted(l) && 0 < |l| && l[0].id == r.id && l[0].weight < r.weight && cap > 0
    requires forall i :: 0 < i < |l| ==> l[i].id != r.id
    ensures Merge(l, [r], None, cap) == Take([r] + l[1..], cap)
  {
    var tail := l[1..];
    assert Merge(l, [r], None, cap) == Merge(tail, [r], None, cap);
    forall y | y in tail ensures y.weight < r.weight && y.id != r.id {
      var i :| 0 <= i < |tail| && tail[i] == y;
      assert l[i + 1] == y;
    }
    MergeHeadWins(tail, r, cap);
  }

  /** A rank heavier than every entry of `s` (and with another identifier)
      comes first when merged with `s`. */
  lemma MergeHeadWins(s: seq<Rank>, r: Rank, cap: int)
    requires forall y :: y in s ==> y.weight < r.weight && y.id != r.id
    ensures Merge(s, [r], None, cap) == Take([r] + s, cap)
  {
    if cap > 0 {
      if s == [] {
        DrainAll([r], cap);
      } else {
        assert s[0] in s;
        assert Merge(s, [r], None, cap) == [r] + Merge(s, [], None, cap - 1);
        DrainAll(s, cap - 1);
        TakeCons(r, s, cap);
      }
    }
  }

  /** When both heads carry the same identifier the first list's entry is
      dropped and the merge goes on with the second list untouched, whatever
      the weights: a heavier first entry that is the only one of its kind is
      lost. */
  lemma SameIdDropsFirst(a: seq<Rank>, b: seq<Rank>, ignore: Option<Id>, cap: int)
    requires a != [] && b != [] && a[0].id == b[0].id
    ensures Merge(a, b, ignore, cap) == Merge(a[1..], b, ignore, cap)
    ensures a[0].weight != b[0].weight
            && (forall i :: 0 < i < |a| ==> a[i].id != a[0].id)
            && (forall j :: 0 < j < |b| ==> b[j].id != a[0].id)
            ==> a[0] !in Merge(a, b, ignore, cap)
  {
    MergeMembers(a[1..], b, ignore, cap);
    if a[0].weight != b[0].weight && a[0] in a[1..] {
      var i :| 0 <= i < |a[1..]| && a[1..][i] == a[0];
      assert a[i + 1].id == a[0].id;
    }
    if a[0].weight != b[0].weight && a[0] in b {
      var j :| 0 <= j < |b| && b[j] == a[0];
      assert b[j].id == a[0].id && j != 0;
    }
  }

  /** The merge does not deduplicate in general: after a reinsertion bumps an
      entry past a tie, the stale copy survives next to the new one. Here a
      node's cached list is [B:1, O:1] and its own rank O is bumped to 2. */
  lemma StaleCopySurvives()
    ensures Merge([Rank(1, 1), Rank(0, 1)], [Rank(0, 2)], None, 10)
         == [Rank(0, 2), Rank(1, 1), Rank(0, 1)]
  {
  }

  /** `s` as seen through shared `Rank` objects after the one carrying `id`
      has its weight set to `w` in place: every entry with that identifier
      changes with it. */
  function Raised(s: seq<Rank>, id: Id, w: Int32): (r: seq<Rank>)
    ensures |r| == |s|
    ensures forall i :: 0 <= i < |s| ==> r[i].id == s[i].id
    ensures forall i :: 0 <= i < |s| ==> r[i].weight == if s[i].id == id then w else s[i].weight
  {
    seq(|s|, i requires 0 <= i < |s| => if s[i].id == id then s[i].(weight := w) else s[i])
  }

  /** With shared rank objects the reinforcement breaks the order: the same
      node's list [B:1, O:1] reads [B:1, O:2] once O is raised in place, and
      merging the raised O into it yields O twice with B between them. */
  lemma AliasedReinforceUnsorted()
    ensures Raised([Rank(1, 1), Rank(0, 1)], 0, 2) == [Rank(1, 1), Rank(0, 2)]
    ensures Merge(Raised([Rank(1, 1), Rank(0, 1)], 0, 2), [Rank(0, 2)], None, 10)
         == [Rank(0, 2), Rank(1, 1), Rank(0, 2)]
    ensures !Sorted(Merge(Raised([Rank(1, 1), Rank(0, 1)], 0, 2), [Rank(0, 2)], None, 10))
  {
    var r := Raised([Rank(1, 1), Rank(0, 1)], 0, 2);
    assert r == [Rank(1, 1), Rank(0, 2)];
    var m := Merge(r, [Rank(0, 2)], None, 10);
    assert m == [Rank(0, 2), Rank(1, 1), Rank(0, 2)];
    assert m[1].weight < m[2].weight;
  }
}
