/**
  The records of the index (TrieNode.cs): a rank entry, the stored entry record
  and the trie node. Identifiers come from a fresh-id supply (a counter in the
  index) instead of `Guid.NewGuid()`, and values are a type parameter instead
  of `object`.
 */
module TrieNodes {
  import opened Wrappers
  import opened Text

  /** A C# `int`. */
  type Int32 = x: int | -0x8000_0000 <= x < 0x8000_0000

  /** `x++` on a C# `int` in an unchecked context: wraps from the largest value
      to the smallest. */
  function Inc32(x: Int32): (r: Int32)
    ensures x < 0x7fff_ffff ==> r == x + 1
    ensures x == 0x7fff_ffff ==> r == -0x8000_0000
  {
    if x == 0x7fff_ffff then -0x8000_0000 else x + 1
  }

  /** An identifier; the source uses GUID strings. */
  type Id = nat

  /** `Rank`: the unit ranked lists are made of. */
  datatype Rank = Rank(id: Id, weight: Int32)

  /** The stored value: the caller's object, or the entry's text when the
      caller supplied none (`options.Value ?? options.Text`). */
  datatype Payload<V> = Supplied(v: V) | TextFallback(text: string)

  /** `NodeValueOptions`: what a caller hands to insert and delete. */
  datatype NodeValueOptions<V> = NodeValueOptions(text: Option<string>, value: Option<V>, weight: Int32)

  /** `NodeValue`: the record a terminal trie node holds. */
  datatype NodeValue<V> = NodeValue(id: Id, text: string, value: Payload<V>, weight: Int32)

  const DEFAULT_WEIGHT: Int32 := 1

  /** The `NodeValue` constructor, given the fresh identifier it draws: it
      throws on blank text, falls back to the text as value and replaces a zero
      weight by the default. */
  function NewNodeValue<V>(options: NodeValueOptions<V>, freshId: Id): (r: Result<NodeValue<V>>)
    ensures r.Failure? <==> IsNullOrWhiteSpace(options.text)
    ensures r.Failure? ==> r.error == EmptyText
    ensures r.Success? ==> r.value.id == freshId && Some(r.value.text) == options.text
    ensures r.Success? && options.value.Some? ==> r.value.value == Supplied(options.value.value)
    ensures r.Success? && options.value.None? ==> r.value.value == TextFallback(r.value.text)
    ensures r.Success? ==> r.value.weight != 0
    ensures r.Success? && options.weight != 0 ==> r.value.weight == options.weight
    ensures r.Success? && options.weight == 0 ==> r.value.weight == DEFAULT_WEIGHT
  {
    if IsNullOrWhiteSpace(options.text) then Failure(EmptyText)
    else
      var text := options.text.value;
      var value := if options.value.Some? then Supplied(options.value.value) else TextFallback(text);
      var weight := if options.weight == 0 then DEFAULT_WEIGHT else options.weight;
      Success(NodeValue(freshId, text, value, weight))
  }

  /** Weights never increase along the list. */
  predicate Sorted(s: seq<Rank>)
  {
    forall i, j :: 0 <= i < j < |s| ==> s[i].weight >= s[j].weight
  }

  /** The identifiers that occur in a rank list. */
  function RankIds(s: seq<Rank>): set<Id>
  {
    set r | r in s :: r.id
  }

  /** The identifiers of the records in an entry map. */
  ghost function Ids<V>(entries: map<string, NodeValue<V>>): set<Id>
  {
    set s | s in entries :: entries[s].id
  }

  /** Every record of a child's entry map appears in its parent's, one
      character further from the leaves. */
  ghost predicate Lifted<V>(parent: map<string, NodeValue<V>>, c: char, child: map<string, NodeValue<V>>)
  {
    forall t :: t in child ==> [c] + t in parent && parent[[c] + t] == child[t]
  }

  lemma IdsLifted<V>(parent: map<string, NodeValue<V>>, c: char, child: map<string, NodeValue<V>>)
    requires Lifted(parent, c, child)
    ensures Ids(child) <= Ids(parent)
  {
    forall x | x in Ids(child) ensures x in Ids(parent) {
      var t :| t in child && child[t].id == x;
      assert [c] + t in parent;
    }
  }

  /** Replacing a record by one with the same identifier, or adding a new key,
      loses no identifier. */
  lemma IdsUpdate<V>(m: map<string, NodeValue<V>>, k: string, v: NodeValue<V>)
    requires k in m ==> m[k].id == v.id
    ensures Ids(m[k := v]) == Ids(m) + {v.id}
  {
    var m' := m[k := v];
    forall x | x in Ids(m') ensures x in Ids(m) + {v.id} {
      var t :| t in m' && m'[t].id == x;
      if t != k { assert t in m; }
    }
    forall x | x in Ids(m) + {v.id} ensures x in Ids(m') {
      if x == v.id { assert m'[k].id == x; }
      else {
        var t :| t in m && m[t].id == x;
        assert t != k && m'[t].id == x;
      }
    }
  }

  /** Removing a key loses at most that key's identifier. */
  lemma IdsRemove<V>(m: map<string, NodeValue<V>>, k: string)
    requires k in m
    ensures Ids(m) - {m[k].id} <= Ids(m - {k})
    ensures Ids(m - {k}) <= Ids(m)
  {
    forall x | x in Ids(m) - {m[k].id} ensures x in Ids(m - {k}) {
      var t :| t in m && m[t].id == x;
      assert t != k;
      assert (m - {k})[t].id == x;
    }
  }

  /** Storing under a key outside a child's branch keeps the child's records
      lifted into the parent. */
  lemma LiftedStoreOther<V>(parent: map<string, NodeValue<V>>, c: char, child: map<string, NodeValue<V>>,
                            k: string, v: NodeValue<V>)
    requires Lifted(parent, c, child) && (k == [] || k[0] != c)
    ensures Lifted(parent[k := v], c, child)
  {
    forall t | t in child ensures [c] + t != k {
      assert ([c] + t)[0] == c;
    }
  }

  /** So does removing a key outside the child's branch. */
  lemma LiftedRemoveOther<V>(parent: map<string, NodeValue<V>>, c: char, child: map<string, NodeValue<V>>,
                             k: string)
    requires Lifted(parent, c, child) && (k == [] || k[0] != c)
    ensures Lifted(parent - {k}, c, child)
  {
    forall t | t in child ensures [c] + t != k {
      assert ([c] + t)[0] == c;
    }
  }

  /** Storing the same record in the parent and, one character down, in the
      child keeps the child's records lifted into the parent. */
  lemma LiftedSameStore<V>(parent: map<string, NodeValue<V>>, c: char, child: map<string, NodeValue<V>>,
                           t: string, v: NodeValue<V>)
    requires Lifted(parent, c, child)
    ensures Lifted(parent[[c] + t := v], c, child[t := v])
  {
    forall u | u in child ensures ([c] + u == [c] + t) == (u == t) {
      if [c] + u == [c] + t {
        assert u == ([c] + u)[1..] && t == ([c] + t)[1..];
      }
    }
  }

  /** So does removing the same record from both. */
  lemma LiftedSameRemove<V>(parent: map<string, NodeValue<V>>, c: char, child: map<string, NodeValue<V>>,
                            t: string)
    requires Lifted(parent, c, child)
    ensures Lifted(parent - {[c] + t}, c, child - {t})
  {
    forall u | u in child ensures ([c] + u == [c] + t) == (u == t) {
      if [c] + u == [c] + t {
        assert u == ([c] + u)[1..] && t == ([c] + t)[1..];
      }
    }
  }

  /** The records below a child, or none when there is no such child. */
  function KidOr<V>(kids: map<char, map<string, NodeValue<V>>>, c: char): map<string, NodeValue<V>>
  {
    if c in kids then kids[c] else map[]
  }

  /** The entry map of a node after its own record is set or cleared. */
  function WithOwn<V>(entries: map<string, NodeValue<V>>, own: Option<NodeValue<V>>): map<string, NodeValue<V>>
  {
    if own.Some? then entries[[] := own.value] else entries - {[]}
  }

  /** How a node's records relate to its own record and to its children's
      records (`kids` maps each edge character to the child's entry map): the
      empty suffix is the node's own record, and every other suffix is a
      child's suffix one character longer. */
  ghost predicate Holds<V>(entries: map<string, NodeValue<V>>, own: Option<NodeValue<V>>,
                           kids: map<char, map<string, NodeValue<V>>>)
  {
    && ([] in entries <==> own.Some?)
    && (own.Some? ==> entries[[]] == own.value)
    && (forall s :: s in entries && s != [] ==>
          s[0] in kids && s[1..] in kids[s[0]] && entries[s] == kids[s[0]][s[1..]])
    && (forall c :: c in kids ==> Lifted(entries, c, kids[c]))
  }

  /** The relation determines the entry map. */
  lemma HoldsUnique<V>(e1: map<string, NodeValue<V>>, e2: map<string, NodeValue<V>>, own: Option<NodeValue<V>>,
                       kids: map<char, map<string, NodeValue<V>>>)
    requires Holds(e1, own, kids) && Holds(e2, own, kids)
    ensures e1 == e2
  {
    forall s | s in e1 ensures s in e2 && e2[s] == e1[s] {
      if s != [] {
        assert Lifted(e2, s[0], kids[s[0]]);
        assert s == [s[0]] + s[1..];
      }
    }
    forall s | s in e2 ensures s in e1 {
      if s != [] {
        assert Lifted(e1, s[0], kids[s[0]]);
        assert s == [s[0]] + s[1..];
      }
    }
  }

  /** A suffix one character below the node is recorded exactly when the
      child records the rest. */
  lemma HoldsLookup<V>(entries: map<string, NodeValue<V>>, own: Option<NodeValue<V>>,
                       kids: map<char, map<string, NodeValue<V>>>, c: char, t: string)
    requires Holds(entries, own, kids)
    ensures [c] + t in entries <==> t in KidOr(kids, c)
    ensures [c] + t in entries ==> entries[[c] + t] == kids[c][t]
  {
    var s := [c] + t;
    assert s[0] == c && s[1..] == t;
  }

  /** Setting or clearing the own record keeps the relation. */
  lemma HoldsOwn<V>(entries: map<string, NodeValue<V>>, own: Option<NodeValue<V>>,
                    kids: map<char, map<string, NodeValue<V>>>, own2: Option<NodeValue<V>>)
    requires Holds(entries, own, kids)
    ensures Holds(WithOwn(entries, own2), own2, kids)
  {
    forall c | c in kids ensures Lifted(WithOwn(entries, own2), c, kids[c]) {
      if own2.Some? {
        LiftedStoreOther(entries, c, kids[c], [], own2.value);
      } else {
        LiftedRemoveOther(entries, c, kids[c], []);
      }
    }
  }

  /** Storing a record one character down, in the node and in the child,
      keeps the relation. */
  lemma HoldsStore<V>(entries: map<string, NodeValue<V>>, own: Option<NodeValue<V>>,
                      kids: map<char, map<string, NodeValue<V>>>, c: char, t: string, v: NodeValue<V>)
    requires Holds(entries, own, kids)
    ensures Holds(entries[[c] + t := v], own, kids[c := KidOr(kids, c)[t := v]])
  {
    var e2 := entries[[c] + t := v];
    var k2 := kids[c := KidOr(kids, c)[t := v]];
    assert ([c] + t)[0] == c && ([c] + t)[1..] == t;
    forall s | s in e2 && s != [] ensures s[0] in k2 && s[1..] in k2[s[0]] && e2[s] == k2[s[0]][s[1..]] {
      if s != [c] + t && s[0] == c {
        assert s[1..] != t by { assert s == [s[0]] + s[1..]; }
      }
    }
    forall d | d in k2 ensures Lifted(e2, d, k2[d]) {
      if d == c {
        LiftedSameStore(entries, c, KidOr(kids, c), t, v);
      } else {
        LiftedStoreOther(entries, d, kids[d], [c] + t, v);
      }
    }
  }

  /** Removing a record one character down, in the node and in the child,
      keeps the relation. */
  lemma HoldsRemove<V>(entries: map<string, NodeValue<V>>, own: Option<NodeValue<V>>,
                       kids: map<char, map<string, NodeValue<V>>>, c: char, t: string)
    requires Holds(entries, own, kids) && c in kids
    ensures Holds(entries - {[c] + t}, own, kids[c := kids[c] - {t}])
  {
    SuffixesRemove(entries, own, kids, c, t);
    var e2 := entries - {[c] + t};
    var k2 := kids[c := kids[c] - {t}];
    forall d | d in k2 ensures Lifted(e2, d, k2[d]) {
      if d == c {
        LiftedSameRemove(entries, c, kids[c], t);
      } else {
        LiftedRemoveOther(entries, d, kids[d], [c] + t);
      }
    }
  }

  /** The suffix half of `HoldsRemove`: every remaining suffix is still a
      child's suffix one character longer. */
  lemma SuffixesRemove<V>(entries: map<string, NodeValue<V>>, own: Option<NodeValue<V>>,
                          kids: map<char, map<string, NodeValue<V>>>, c: char, t: string)
    requires Holds(entries, own, kids) && c in kids
    ensures var e2 := entries - {[c] + t};
            var k2 := kids[c := kids[c] - {t}];
            forall s :: s in e2 && s != [] ==> s[0] in k2 && s[1..] in k2[s[0]] && e2[s] == k2[s[0]][s[1..]]
  {
    var e2 := entries - {[c] + t};
    var k2 := kids[c := kids[c] - {t}];
    forall s | s in e2 && s != [] ensures s[0] in k2 && s[1..] in k2[s[0]] && e2[s] == k2[s[0]][s[1..]] {
      if s[0] == c {
        assert s == [c] + s[1..];
      }
    }
  }

  /** A child without records can be dropped. */
  lemma HoldsDetach<V>(entries: map<string, NodeValue<V>>, own: Option<NodeValue<V>>,
                       kids: map<char, map<string, NodeValue<V>>>, c: char)
    requires Holds(entries, own, kids) && c in kids && kids[c] == map[]
    ensures Holds(entries, own, kids - {c})
  {
  }

  /** Setting the own record a node already has changes nothing. */
  lemma HoldsOwnKept<V>(entries: map<string, NodeValue<V>>, own: Option<NodeValue<V>>,
                        kids: map<char, map<string, NodeValue<V>>>)
    requires Holds(entries, own, kids)
    ensures WithOwn(entries, own) == entries
  {
  }

  /** Removing the last record below a child, and the child with it, keeps
      the relation. */
  lemma HoldsDropped<V>(entries: map<string, NodeValue<V>>, own: Option<NodeValue<V>>,
                        kids: map<char, map<string, NodeValue<V>>>, c: char, t: string)
    requires Holds(entries, own, kids) && c in kids && kids[c] - {t} == map[]
    ensures Holds(entries - {[c] + t}, own, kids - {c})
  {
    HoldsRemove(entries, own, kids, c, t);
    HoldsDetach(entries - {[c] + t}, own, kids[c := kids[c] - {t}], c);
    assert kids[c := kids[c] - {t}] - {c} == kids - {c};
  }

  /** Prepending one character is injective. */
  lemma ConsInjective()
    ensures forall c: char, t: string, d: char, u: string :: [c] + t == [d] + u ==> c == d && t == u
  {
    forall c: char, t: string, d: char, u: string | [c] + t == [d] + u ensures c == d && t == u {
      assert ([c] + t)[0] == c && ([c] + t)[1..] == t;
      assert ([d] + u)[0] == d && ([d] + u)[1..] == u;
    }
  }

  /** The texts of a set, each with `c` in front. */
  function Lift(c: char, p: set<string>): set<string>
  {
    set t | t in p :: [c] + t
  }

  /** The prefixes of a text, from the empty one to the text itself. */
  function Prefixes(s: string): set<string>
  {
    set i | 0 <= i <= |s| :: s[..i]
  }

  /**
    `TrieNode`: the cached rank list, the children by edge character, the
    record ending here (null when none) and the node's own rank.
   */
  datatype TrieNode<V> = TrieNode(
    rankList: seq<Rank>,
    children: map<char, TrieNode<V>>,
    nodeValue: Option<NodeValue<V>>,
    ownRank: Rank)
  {
    /** The record at the end of the path spelled by `s`, if there is one. */
    ghost function Find(s: string): Option<NodeValue<V>>
      decreases |s|
    {
      if s == [] then nodeValue
      else if s[0] in children then children[s[0]].Find(s[1..])
      else None
    }

    /** Every record of the subtree, by the text suffix that leads from this
        node to the node holding it. */
    ghost function Entries(): map<string, NodeValue<V>>
    {
      map s | s in Paths() && Find(s).Some? :: Find(s).value
    }

    /** The children's entry maps, by edge character. */
    ghost function Kids(): map<char, map<string, NodeValue<V>>>
    {
      map c | c in children :: children[c].Entries()
    }

    /** The paths from this node to every node of the subtree, itself included. */
    ghost function Paths(): set<string>
      decreases this
    {
      {[]} + set c, t | c in children && t in children[c].Paths() :: [c] + t
    }

    /** The number of nodes of the subtree, this one included. */
    ghost function Size(): nat
      decreases this, |children.Keys| + 1
    {
      Count(children.Keys)
    }

    /** One, plus the number of nodes below the children named in `keys`. */
    ghost function Count(keys: set<char>): nat
      decreases this, |keys|
    {
      if keys == {} then 1
      else
        var c :| c in keys;
        (if c in children then children[c].Size() else 0) + Count(keys - {c})
    }

    /** Every identifier named by a cached rank list in the subtree. */
    ghost function ListIds(): set<Id>
      decreases this
    {
      RankIds(rankList) + set c, x | c in children && x in children[c].ListIds() :: x
    }

    /** Every node of the subtree has its own rank mirror its record, and a
        cached list sorted by weight that only names records of its subtree. */
    ghost predicate Valid()
      decreases this
    {
      && (forall c :: c in children ==> children[c].Valid())
      && (nodeValue.Some? ==> ownRank == Rank(nodeValue.value.id, nodeValue.value.weight))
      && Sorted(rankList)
      && RankIds(rankList) <= Ids(Entries())
    }
  }

  /** `new TrieNode()`: no rank list, no children, no record, and an own rank
      of weight 0 under a fresh identifier. */
  function NewTrieNode<V>(rankId: Id): TrieNode<V>
  {
    TrieNode([], map[], None, Rank(rankId, 0))
  }

  /** A new node is valid, holds no record and is the only node of its
      subtree. */
  lemma NewTrieNodeEmpty<V>(rankId: Id)
    ensures var r := NewTrieNode<V>(rankId);
            r.Valid() && r.Entries() == map[] && r.Paths() == {[]} && r.ListIds() == {} && r.Size() == 1
  {
  }

  /** Paths start at the node and go down one child at a time. */
  lemma PathsStep<V>(n: TrieNode<V>, c: char, t: string)
    ensures [] in n.Paths()
    ensures [c] + t in n.Paths() <==> c in n.children && t in n.children[c].Paths()
  {
    var s := [c] + t;
    assert s[0] == c && s[1..] == t;
    if s in n.Paths() {
      var d, u :| d in n.children && u in n.children[d].Paths() && s == [d] + u;
      assert s[0] == d && s[1..] == u;
    }
  }

  /** Every record sits at the end of a path. */
  lemma {:induction false} FoundOnPath<V>(n: TrieNode<V>, s: string)
    requires n.Find(s).Some?
    ensures s in n.Paths()
    decreases |s|
  {
    if s != [] {
      FoundOnPath(n.children[s[0]], s[1..]);
      PathsStep(n, s[0], s[1..]);
      assert s == [s[0]] + s[1..];
    }
  }

  /** The entry map is exactly what `Find` finds. */
  lemma EntriesFind<V>(n: TrieNode<V>)
    ensures forall s :: s in n.Entries() <==> n.Find(s).Some?
    ensures forall s :: s in n.Entries() ==> n.Entries()[s] == n.Find(s).value
  {
    forall s | n.Find(s).Some? ensures s in n.Entries() {
      FoundOnPath(n, s);
    }
  }

  /** A node's records are its own record and its children's records, one
      character further down. */
  lemma EntriesHolds<V>(n: TrieNode<V>)
    ensures Holds(n.Entries(), n.nodeValue, n.Kids())
  {
    var e, kids := n.Entries(), n.Kids();
    EntriesFind(n);
    forall s | s in e && s != [] ensures s[0] in kids && s[1..] in kids[s[0]] && e[s] == kids[s[0]][s[1..]] {
      EntriesFind(n.children[s[0]]);
    }
    forall c | c in kids ensures Lifted(e, c, kids[c]) {
      EntriesFind(n.children[c]);
      forall t | t in kids[c] ensures [c] + t in e && e[[c] + t] == kids[c][t] {
        var s := [c] + t;
        assert s[0] == c && s[1..] == t;
      }
    }
  }

  /** What the search needs of a child: its records sit in its parent's one
      character further down, and it is valid when its parent is. */
  lemma ChildLifted<V>(n: TrieNode<V>, c: char)
    requires c in n.children
    ensures Lifted(n.Entries(), c, n.children[c].Entries())
    ensures n.Valid() ==> n.children[c].Valid()
  {
    EntriesHolds(n);
  }

  /** A node with no record and no children holds no records. */
  lemma EmptyNode<V>(n: TrieNode<V>)
    requires n.nodeValue.None? && n.children == map[]
    ensures n.Entries() == map[] && n.Paths() == {[]}
  {
  }

  /** Replacing the own record and leaving the children changes the records
      at the empty suffix only. */
  lemma SameChildren<V>(n: TrieNode<V>, m: TrieNode<V>)
    requires n.children == m.children
    ensures m.Entries() == WithOwn(n.Entries(), m.nodeValue)
    ensures m.Paths() == n.Paths()
  {
    EntriesHolds(n);
    EntriesHolds(m);
    assert n.Kids() == m.Kids();
    HoldsOwn(n.Entries(), n.nodeValue, n.Kids(), m.nodeValue);
    HoldsUnique(m.Entries(), WithOwn(n.Entries(), m.nodeValue), m.nodeValue, m.Kids());
  }

  /** The children's entry maps after the child under `c` is replaced. */
  lemma KidsWith<V>(n: TrieNode<V>, c: char, k: TrieNode<V>)
    ensures n.(children := n.children[c := k]).Kids() == n.Kids()[c := k.Entries()]
  {
  }

  /** The children's entry maps after the child under `c` is dropped. */
  lemma KidsWithout<V>(n: TrieNode<V>, c: char)
    ensures n.(children := n.children - {c}).Kids() == n.Kids() - {c}
  {
  }

  /** Putting under `c` a child that holds one record more (or a replaced
      one) stores that record one character further up. */
  lemma ChildStored<V>(n: TrieNode<V>, c: char, k: TrieNode<V>, t: string, v: NodeValue<V>)
    requires k.Entries() == (if c in n.children then n.children[c].Entries() else map[])[t := v]
    ensures n.(children := n.children[c := k]).Entries() == n.Entries()[[c] + t := v]
  {
    var m := n.(children := n.children[c := k]);
    assert KidOr(n.Kids(), c) == if c in n.children then n.children[c].Entries() else map[];
    EntriesHolds(n);
    EntriesHolds(m);
    KidsWith(n, c, k);
    HoldsStore(n.Entries(), n.nodeValue, n.Kids(), c, t, v);
    HoldsUnique(m.Entries(), n.Entries()[[c] + t := v], n.nodeValue, m.Kids());
  }

  /** Putting under `c` a child that holds one record less removes that
      record one character further up. */
  lemma ChildRemoved<V>(n: TrieNode<V>, c: char, k: TrieNode<V>, t: string)
    requires c in n.children && k.Entries() == n.children[c].Entries() - {t}
    ensures n.(children := n.children[c := k]).Entries() == n.Entries() - {[c] + t}
  {
    var m := n.(children := n.children[c := k]);
    EntriesHolds(n);
    EntriesHolds(m);
    KidsWith(n, c, k);
    HoldsRemove(n.Entries(), n.nodeValue, n.Kids(), c, t);
    HoldsUnique(m.Entries(), n.Entries() - {[c] + t}, n.nodeValue, m.Kids());
  }

  /** Dropping the child under `c`, when its only record was the one at `t`,
      removes that record one character further up. */
  lemma ChildDropped<V>(n: TrieNode<V>, c: char, t: string)
    requires c in n.children && n.children[c].Entries() - {t} == map[]
    ensures n.(children := n.children - {c}).Entries() == n.Entries() - {[c] + t}
  {
    var m := n.(children := n.children - {c});
    var kids := n.Kids();
    EntriesHolds(n);
    EntriesHolds(m);
    HoldsDropped(n.Entries(), n.nodeValue, kids, c, t);
    KidsWithout(n, c);
    HoldsUnique(m.Entries(), n.Entries() - {[c] + t}, n.nodeValue, m.Kids());
  }

  /** The prefixes of a text one character longer: the empty one, and the
      shorter text's prefixes behind that character. */
  lemma PrefixesCons(c: char, t: string)
    ensures Prefixes([c] + t) == {[]} + Lift(c, Prefixes(t))
  {
    var s := [c] + t;
    forall p | p in Prefixes(s) ensures p in {[]} + Lift(c, Prefixes(t)) {
      var i :| 0 <= i <= |s| && p == s[..i];
      if i > 0 {
        assert p == [c] + t[..i - 1];
      }
    }
    forall p | p in Lift(c, Prefixes(t)) ensures p in Prefixes(s) {
      var u :| u in Prefixes(t) && p == [c] + u;
      var i :| 0 <= i <= |t| && u == t[..i];
      assert p == s[..i + 1];
    }
    assert [] == s[..0];
  }

  /** The paths after the child under `c` is replaced by `k`: the other
      children's paths, and `k`'s paths behind `c`, which are new. */
  lemma PathsWith<V>(n: TrieNode<V>, c: char, k: TrieNode<V>)
    ensures n.(children := n.children[c := k]).Paths() == n.(children := n.children - {c}).Paths() + Lift(c, k.Paths())
    ensures n.(children := n.children - {c}).Paths() !! Lift(c, k.Paths())
  {
    var m, b := n.(children := n.children[c := k]), n.(children := n.children - {c});
    forall s | s in m.Paths() ensures s in b.Paths() + Lift(c, k.Paths()) {
      if s != [] {
        var d, u :| d in m.children && u in m.children[d].Paths() && s == [d] + u;
        if d != c {
          PathsStep(b, d, u);
        }
      }
    }
    forall s | s in b.Paths() ensures s in m.Paths() && s !in Lift(c, k.Paths()) {
      if s != [] {
        var d, u :| d in b.children && u in b.children[d].Paths() && s == [d] + u;
        PathsStep(m, d, u);
        assert s[0] == d;
      }
    }
    forall s | s in Lift(c, k.Paths()) ensures s in m.Paths() {
      var u :| u in k.Paths() && s == [c] + u;
      PathsStep(m, c, u);
    }
  }

  /** A node's paths: those through its other children, and those through
      the child under `c`. */
  lemma PathsSplit<V>(n: TrieNode<V>, c: char)
    requires c in n.children
    ensures n.Paths() == n.(children := n.children - {c}).Paths() + Lift(c, n.children[c].Paths())
    ensures n.(children := n.children - {c}).Paths() !! Lift(c, n.children[c].Paths())
  {
    PathsWith(n, c, n.children[c]);
    UpdateSame(n.children, c);
  }

  lemma RemoveAbsent<K, W>(m: map<K, W>, k: K)
    requires k !in m
    ensures m - {k} == m
  {
  }

  lemma UpdateSame<K, W>(m: map<K, W>, k: K)
    requires k in m
    ensures m[k := m[k]] == m
  {
  }

  /** Inserting below the child under `c` adds every prefix of the inserted
      suffix as a path. */
  lemma PathsGrown<V>(n: TrieNode<V>, c: char, k: TrieNode<V>, t: string)
    requires k.Paths() == (if c in n.children then n.children[c].Paths() else {[]}) + Prefixes(t)
    ensures n.(children := n.children[c := k]).Paths() == n.Paths() + Prefixes([c] + t)
  {
    var b := n.(children := n.children - {c});
    var before := if c in n.children then n.children[c].Paths() else {[]};
    PathsWith(n, c, k);
    PrefixesCons(c, t);
    LiftUnion(c, before, Prefixes(t));
    PathsStep(n, c, []);
    if c in n.children {
      PathsSplit(n, c);
      Regrouped(n.Paths(), b.Paths(), Lift(c, before), Lift(c, Prefixes(t)), []);
    } else {
      RemoveAbsent(n.children, c);
      assert [] in Prefixes(t) by { assert [] == t[..0]; }
      assert [c] + [] in Lift(c, Prefixes(t));
      Regrouped(n.Paths(), b.Paths(), Lift(c, before), Lift(c, Prefixes(t)), []);
    }
  }

  lemma LiftUnion(c: char, a: set<string>, b: set<string>)
    ensures Lift(c, a + b) == Lift(c, a) + Lift(c, b)
  {
  }

  /** The set algebra behind `PathsGrown`. */
  lemma Regrouped<T>(n: set<T>, b: set<T>, lb: set<T>, lt: set<T>, e: T)
    requires n == b + lb || (n == b && lb <= lt)
    requires e in n
    ensures b + (lb + lt) == n + ({e} + lt)
  {
  }

  /** Lifting a shrunk set of texts loses only lifted texts of the bound. */
  lemma LiftShrunk(c: char, pc: set<string>, pk: set<string>, t: string)
    requires pk <= pc && pc - pk <= Prefixes(t) - {[]}
    ensures Lift(c, pk) <= Lift(c, pc)
    ensures Lift(c, pc) - Lift(c, pk) <= Prefixes([c] + t) - {[]}
  {
    PrefixesCons(c, t);
    forall s | s in Lift(c, pc) - Lift(c, pk) ensures s in Lift(c, Prefixes(t)) && s != [] {
      var u :| u in pc && s == [c] + u;
      assert u !in pk;
      assert u in pc - pk;
      assert u in Prefixes(t) - {[]};
      assert |s| > 0;
    }
  }

  /** Shrinking one part of a union loses only what that part lost. */
  lemma UnionShrunk<T>(b: set<T>, lk: set<T>, lc: set<T>, bound: set<T>)
    requires lk <= lc && lc - lk <= bound
    ensures b + lk <= b + lc && (b + lc) - (b + lk) <= bound
  {
  }

  /** Removing below the child under `c`, where only nonempty prefixes of the
      removed suffix stopped being paths, removes only nonempty prefixes of
      the longer suffix. */
  lemma PathsShrunk<V>(n: TrieNode<V>, c: char, k: TrieNode<V>, t: string)
    requires c in n.children
    requires k.Paths() <= n.children[c].Paths() && n.children[c].Paths() - k.Paths() <= Prefixes(t) - {[]}
    ensures n.(children := n.children[c := k]).Paths() <= n.Paths()
    ensures n.Paths() - n.(children := n.children[c := k]).Paths() <= Prefixes([c] + t) - {[]}
  {
    PathsWith(n, c, k);
    PathsSplit(n, c);
    LiftShrunk(c, n.children[c].Paths(), k.Paths(), t);
    UnionShrunk(n.(children := n.children - {c}).Paths(), Lift(c, k.Paths()), Lift(c, n.children[c].Paths()),
                Prefixes([c] + t) - {[]});
  }

  /** Dropping the child under `c`, whose paths are all prefixes of the
      removed suffix, removes only nonempty prefixes of the longer suffix. */
  lemma PathsDropped<V>(n: TrieNode<V>, c: char, t: string)
    requires c in n.children && n.children[c].Paths() <= Prefixes(t)
    ensures n.(children := n.children - {c}).Paths() <= n.Paths()
    ensures n.Paths() - n.(children := n.children - {c}).Paths() <= Prefixes([c] + t) - {[]}
  {
    PathsSplit(n, c);
    PrefixesCons(c, t);
  }

  /** Every identifier a cached list names in a valid subtree belongs to one
      of the subtree's records. */
  lemma {:induction false} ListIdsWithin<V>(n: TrieNode<V>)
    requires n.Valid()
    ensures n.ListIds() <= Ids(n.Entries())
    decreases n
  {
    forall c | c in n.children ensures n.children[c].ListIds() <= Ids(n.Entries()) {
      ChildLifted(n, c);
      ListIdsWithin(n.children[c]);
      IdsLifted(n.Entries(), c, n.children[c].Entries());
    }
  }

  /** A node whose children are valid and whose own rank mirrors its record
      is valid with any sorted list naming only its records; replacing the
      list changes neither its records nor its paths. */
  lemma WithList<V>(n: TrieNode<V>, list: seq<Rank>)
    requires forall c :: c in n.children ==> n.children[c].Valid()
    requires n.nodeValue.Some? ==> n.ownRank == Rank(n.nodeValue.value.id, n.nodeValue.value.weight)
    requires Sorted(list) && RankIds(list) <= Ids(n.Entries())
    ensures n.(rankList := list).Valid()
    ensures n.(rankList := list).Entries() == n.Entries() && n.(rankList := list).Paths() == n.Paths()
  {
    SameChildren(n, n.(rankList := list));
    EntriesHolds(n);
    HoldsOwnKept(n.Entries(), n.nodeValue, n.Kids());
  }

  /** Setting the own record (keeping the identifier of one already there)
      and mirroring it in the own rank stores it at the empty suffix. */
  lemma OwnSet<V>(n: TrieNode<V>, rec: NodeValue<V>)
    requires n.Valid()
    requires [] in n.Entries() ==> n.Entries()[[]].id == rec.id
    ensures var m := n.(nodeValue := Some(rec), ownRank := Rank(rec.id, rec.weight));
            && m.Valid() && m.Entries() == n.Entries()[[] := rec] && m.Paths() == n.Paths()
            && m.ownRank.id in Ids(m.Entries())
  {
    var m := n.(nodeValue := Some(rec), ownRank := Rank(rec.id, rec.weight));
    SameChildren(n, m);
    IdsUpdate(n.Entries(), [], rec);
  }

  /** Clearing the own record, with a list that no longer names it, removes
      the record at the empty suffix. */
  lemma OwnCleared<V>(n: TrieNode<V>, m: TrieNode<V>)
    requires n.Valid() && n.nodeValue.Some?
    requires m == n.(nodeValue := None, rankList := m.rankList)
    requires Sorted(m.rankList) && RankIds(m.rankList) <= RankIds(n.rankList) - {n.nodeValue.value.id}
    ensures m.Valid() && m.Entries() == n.Entries() - {[]} && m.Paths() == n.Paths()
  {
    SameChildren(n, m);
    EntriesHolds(n);
    IdsRemove(n.Entries(), []);
  }

  /** The nodes below the children named in `keys` can be counted starting
      from any one of them. */
  lemma {:induction false} CountOf<V>(n: TrieNode<V>, keys: set<char>, d: char)
    requires d in keys
    ensures n.Count(keys) == (if d in n.children then n.children[d].Size() else 0) + n.Count(keys - {d})
    decreases |keys|
  {
    var c :| c in keys && n.Count(keys) == (if c in n.children then n.children[c].Size() else 0) + n.Count(keys - {c});
    if c != d {
      CountOf(n, keys - {c}, d);
      CountOf(n, keys - {d}, c);
      assert keys - {c} - {d} == keys - {d} - {c};
    }
  }

  /** Two nodes with the same children under `keys` count the same nodes
      below them. */
  lemma {:induction false} CountAgree<V>(n: TrieNode<V>, m: TrieNode<V>, keys: set<char>)
    requires forall d :: d in keys ==> (d in n.children <==> d in m.children)
    requires forall d :: d in keys && d in n.children ==> n.children[d] == m.children[d]
    ensures n.Count(keys) == m.Count(keys)
    decreases |keys|
  {
    if keys != {} {
      var c :| c in keys;
      CountOf(n, keys, c);
      CountOf(m, keys, c);
      CountAgree(n, m, keys - {c});
    }
  }

  /** The number of nodes depends on the children alone. */
  lemma SizeSameChildren<V>(n: TrieNode<V>, m: TrieNode<V>)
    requires m.children == n.children
    ensures m.Size() == n.Size()
  {
    CountAgree(m, n, n.children.Keys);
  }

  /** Putting `k` under `c` trades the nodes of the child there, if any, for
      those of `k`. */
  lemma SizeWith<V>(n: TrieNode<V>, m: TrieNode<V>, c: char, k: TrieNode<V>)
    requires m.children == n.children[c := k]
    ensures m.Size() == n.Size() - (if c in n.children then n.children[c].Size() else 0) + k.Size()
  {
    var keys := n.children.Keys;
    assert m.children.Keys == keys + {c};
    CountOf(m, keys + {c}, c);
    CountAgree(m, n, keys + {c} - {c});
    if c in n.children {
      CountOf(n, keys, c);
      assert keys + {c} - {c} == keys - {c};
    } else {
      assert keys + {c} - {c} == keys;
    }
  }

  /** Dropping the child under `c` removes its nodes. */
  lemma SizeWithout<V>(n: TrieNode<V>, m: TrieNode<V>, c: char)
    requires c in n.children && m.children == n.children - {c}
    ensures m.Size() == n.Size() - n.children[c].Size()
  {
    CountOf(n, n.children.Keys, c);
    assert m.children.Keys == n.children.Keys - {c};
    CountAgree(m, n, n.children.Keys - {c});
  }

  /** One level of an insertion: the child under `c` (new when there was
      none) took record `v` at suffix `t` and gained the prefixes of `t` as
      paths, and the node took a new list merged from its own and the
      child's. */
  lemma Grown<V>(n: TrieNode<V>, c: char, k: TrieNode<V>, t: string, v: NodeValue<V>, list: seq<Rank>)
    requires n.Valid() && k.Valid()
    requires k.Entries() == (if c in n.children then n.children[c].Entries() else map[])[t := v]
    requires k.Paths() == (if c in n.children then n.children[c].Paths() else {[]}) + Prefixes(t)
    requires [c] + t in n.Entries() ==> n.Entries()[[c] + t].id == v.id
    requires Sorted(list) && RankIds(list) <= RankIds(n.rankList) + RankIds(k.rankList)
    ensures var m := n.(rankList := list, children := n.children[c := k]);
            && m.Valid()
            && m.Entries() == n.Entries()[[c] + t := v]
            && m.Paths() == n.Paths() + Prefixes([c] + t)
            && m.Size() == n.Size() - (if c in n.children then n.children[c].Size() else 0) + k.Size()
  {
    var g := n.(children := n.children[c := k]);
    GrownChild(n, c, k, t, v);
    WithList(g, list);
    SizeWith(n, g.(rankList := list), c, k);
  }

  /** `Grown` before the list is replaced. */
  lemma GrownChild<V>(n: TrieNode<V>, c: char, k: TrieNode<V>, t: string, v: NodeValue<V>)
    requires n.Valid() && k.Valid()
    requires k.Entries() == (if c in n.children then n.children[c].Entries() else map[])[t := v]
    requires k.Paths() == (if c in n.children then n.children[c].Paths() else {[]}) + Prefixes(t)
    requires [c] + t in n.Entries() ==> n.Entries()[[c] + t].id == v.id
    ensures var g := n.(children := n.children[c := k]);
            && (forall d :: d in g.children ==> g.children[d].Valid())
            && RankIds(n.rankList) + RankIds(k.rankList) <= Ids(g.Entries())
            && g.Entries() == n.Entries()[[c] + t := v]
            && g.Paths() == n.Paths() + Prefixes([c] + t)
  {
    var g := n.(children := n.children[c := k]);
    assert forall d :: d in g.children ==> g.children[d].Valid();
    assert g.Entries() == n.Entries()[[c] + t := v] by {
      ChildStored(n, c, k, t, v);
    }
    assert RankIds(n.rankList) <= Ids(g.Entries()) by {
      IdsUpdate(n.Entries(), [c] + t, v);
    }
    assert RankIds(k.rankList) <= Ids(g.Entries()) by {
      ChildLifted(g, c);
      IdsLifted(g.Entries(), c, k.Entries());
    }
    PathsGrown(n, c, k, t);
  }

  /** Storing at the node itself adds no path. */
  lemma PathsHere<V>(n: TrieNode<V>)
    ensures n.Paths() + Prefixes([]) == n.Paths()
  {
    var e: string := [];
    assert Prefixes(e) == {e} by {
      assert e[..0] == e;
    }
    PathsStep(n, ' ', []);
  }

  /** One level of a removal that keeps the child under `c`: the child lost
      its record at `t` and only nonempty prefixes of `t` as paths, and the
      node took a list that no longer names the record. */
  lemma Shrunk<V>(n: TrieNode<V>, c: char, k: TrieNode<V>, t: string, list: seq<Rank>)
    requires n.Valid() && k.Valid() && c in n.children && t in n.children[c].Entries()
    requires k.Entries() == n.children[c].Entries() - {t}
    requires k.Paths() <= n.children[c].Paths() && n.children[c].Paths() - k.Paths() <= Prefixes(t) - {[]}
    requires Sorted(list) && RankIds(list) <= RankIds(n.rankList) - {n.children[c].Entries()[t].id}
    ensures var m := n.(rankList := list, children := n.children[c := k]);
            && m.Valid()
            && [c] + t in n.Entries() && n.Entries()[[c] + t] == n.children[c].Entries()[t]
            && m.Entries() == n.Entries() - {[c] + t}
            && m.Paths() <= n.Paths() && n.Paths() - m.Paths() <= Prefixes([c] + t) - {[]}
            && m.Size() == n.Size() - n.children[c].Size() + k.Size()
  {
    var g := n.(children := n.children[c := k]);
    ShrunkChild(n, c, k, t);
    assert g.Paths() <= n.Paths() && n.Paths() - g.Paths() <= Prefixes([c] + t) - {[]} by {
      PathsShrunk(n, c, k, t);
    }
    SizeWith(n, g.(rankList := list), c, k);
    WithList(g, list);
  }

  /** `Shrunk` before the list is replaced: the records it keeps. */
  lemma ShrunkChild<V>(n: TrieNode<V>, c: char, k: TrieNode<V>, t: string)
    requires n.Valid() && k.Valid() && c in n.children && t in n.children[c].Entries()
    requires k.Entries() == n.children[c].Entries() - {t}
    ensures var g := n.(children := n.children[c := k]);
            && (forall d :: d in g.children ==> g.children[d].Valid())
            && [c] + t in n.Entries() && n.Entries()[[c] + t] == n.children[c].Entries()[t]
            && g.Entries() == n.Entries() - {[c] + t}
            && RankIds(n.rankList) - {n.children[c].Entries()[t].id} <= Ids(g.Entries())
  {
    var g := n.(children := n.children[c := k]);
    assert [c] + t in n.Entries() && n.Entries()[[c] + t] == n.children[c].Entries()[t] by {
      ChildLifted(n, c);
    }
    ChildrenValid(n, c, k, g.children);
    assert g.Entries() == n.Entries() - {[c] + t} by {
      ChildRemoved(n, c, k, t);
    }
    IdsRemove(n.Entries(), [c] + t);
  }

  lemma ChildrenValid<V>(n: TrieNode<V>, c: char, k: TrieNode<V>, kids: map<char, TrieNode<V>>)
    requires n.Valid() && k.Valid() && kids == n.children[c := k]
    ensures forall d :: d in kids ==> kids[d].Valid()
  {
  }

  /** One level of a removal that drops the child under `c`, which held only
      the record at `t` and no other node. */
  lemma Dropped<V>(n: TrieNode<V>, c: char, t: string, list: seq<Rank>)
    requires n.Valid() && c in n.children && t in n.children[c].Entries()
    requires n.children[c].Entries() - {t} == map[] && n.children[c].Paths() <= Prefixes(t)
    requires Sorted(list) && RankIds(list) <= RankIds(n.rankList) - {n.children[c].Entries()[t].id}
    ensures var m := n.(rankList := list, children := n.children - {c});
            && m.Valid()
            && [c] + t in n.Entries() && n.Entries()[[c] + t] == n.children[c].Entries()[t]
            && m.Entries() == n.Entries() - {[c] + t}
            && m.Paths() <= n.Paths() && n.Paths() - m.Paths() <= Prefixes([c] + t) - {[]}
            && m.Size() == n.Size() - n.children[c].Size()
  {
    var g := n.(children := n.children - {c});
    assert [c] + t in n.Entries() && n.Entries()[[c] + t] == n.children[c].Entries()[t] by {
      ChildLifted(n, c);
    }
    assert g.Entries() == n.Entries() - {[c] + t} by {
      ChildDropped(n, c, t);
    }
    assert RankIds(list) <= Ids(g.Entries()) by {
      IdsRemove(n.Entries(), [c] + t);
    }
    PathsDropped(n, c, t);
    SizeWithout(n, g.(rankList := list), c);
    WithList(g, list);
  }
}
