/**
  The index (AutoCompleteTrieSearch.cs): a trie of `TrieNode`s under `root`,
  a store from identifier to value, a node counter and the configuration.
  Insertion and deletion walk the text's path recursively and rebuild each
  node's cached rank list through `MergeRankList` on the way back up; the
  search walks the trie with a bounded number of substitutions.
 */
module AutoComplete {
  import opened Wrappers
  import opened Text
  import opened TrieNodes
  import opened RankMerge
  import opened FuzzyMatch

  const DEFAULT_MISMATCH_ALLOW: int := 3
  const DEFAULT_MAX_SUGGESTION: int := 10
  const DEFAULT_IGNORE_CASE: bool := true

  /** `AutoCompleteTrieSearchOptions`: every setting may be left null. */
  datatype SearchOptions = SearchOptions(
    maxSuggestion: Option<int>,
    allowedMismatchCount: Option<int>,
    ignoreCase: Option<bool>)

  /** The `AllowedMismatchCount` setter's normalisation: zero and values above
      the default become the default; everything else, negative values
      included, is kept. */
  function MismatchSetting(value: int): (r: int)
    ensures r != 0 && r <= DEFAULT_MISMATCH_ALLOW
    ensures r == value || r == DEFAULT_MISMATCH_ALLOW
    ensures r == value <==> value != 0 && value <= DEFAULT_MISMATCH_ALLOW
  {
    if DEFAULT_MISMATCH_ALLOW < value || value == 0 then DEFAULT_MISMATCH_ALLOW else value
  }

  /** `Add` accepts a record exactly when it and its text are there and the
      text is not blank. */
  predicate Acceptable<V>(node: Option<NodeValueOptions<V>>)
  {
    node.Some? && !IsNullOrWhiteSpace(node.value.text)
  }

  /** The key a record is stored under, when it is accepted. */
  function AcceptedKey<V>(node: Option<NodeValueOptions<V>>, ignoreCase: bool): set<string>
  {
    if Acceptable(node) then {NormalizeText(node.value.text.value, ignoreCase)} else {}
  }

  /** The keys a batch of records is stored under. */
  function AcceptedKeys<V>(nodes: seq<Option<NodeValueOptions<V>>>, ignoreCase: bool): set<string>
    decreases |nodes|
  {
    if nodes == [] then {}
    else AcceptedKeys(nodes[..|nodes| - 1], ignoreCase) + AcceptedKey(nodes[|nodes| - 1], ignoreCase)
  }

  /** The record stored under `key`, if there is one. */
  function Lookup<V>(entries: map<string, NodeValue<V>>, key: string): (r: Option<NodeValue<V>>)
    ensures r.Some? <==> key in entries
    ensures r.Some? ==> r.value == entries[key]
  {
    if key in entries then Some(entries[key]) else None
  }

  /** The record held where `incoming` is inserted, when `prior` was held
      there before: a re-insertion keeps the stored identifier and text,
      takes the new value and raises the weight by one whatever weight was
      supplied; a first insertion stores the incoming record. */
  function StoredAfterInsert<V>(prior: Option<NodeValue<V>>, incoming: NodeValue<V>): NodeValue<V>
  {
    if prior.Some? then prior.value.(value := incoming.value, weight := Inc32(prior.value.weight))
    else incoming
  }

  /** The store once `incoming` has been inserted where `prior` was held: a
      re-insertion puts the new value under the stored record's identifier;
      a first insertion adds it under the incoming identifier unless that
      identifier is already there (`AddValueById`). */
  function StoreAfterInsert<V>(store: map<Id, Payload<V>>, prior: Option<NodeValue<V>>,
                               incoming: NodeValue<V>): map<Id, Payload<V>>
  {
    if prior.Some? then store[prior.value.id := incoming.value]
    else if incoming.id in store then store
    else store[incoming.id := incoming.value]
  }

  /** What the update callback receives when `incoming` is inserted where
      `prior` was held: on a re-insertion, the incoming record carrying the
      raised weight; on a first insertion, nothing. */
  function Reported<V>(prior: Option<NodeValue<V>>, incoming: NodeValue<V>): seq<NodeValue<V>>
  {
    if prior.Some? then [incoming.(weight := StoredAfterInsert(prior, incoming).weight)] else []
  }

  /** What the update callback receives when `nv` is inserted at the end of
      path `s` below `node`: on a re-insertion, `nv` carrying the weight of
      that node's own rank raised by one; on a first insertion, nothing. */
  ghost function ReportedAt<V>(node: TrieNode<V>, s: string, nv: NodeValue<V>): seq<NodeValue<V>>
    decreases |s|
  {
    if s == [] then
      if node.nodeValue.Some? then [nv.(weight := Inc32(node.ownRank.weight))] else []
    else if s[0] in node.children then ReportedAt(node.children[s[0]], s[1..], nv)
    else []
  }

  /** One character down the path of `s[index..]`: what is found and what
      is reported there are what is found and reported below that character's
      child, and nothing when there is no such child. */
  lemma PathStep<V>(node: TrieNode<V>, s: string, index: nat, nv: NodeValue<V>)
    requires index < |s|
    ensures var c := s[index];
            && node.Find(s[index..]) == (if c in node.children then node.children[c].Find(s[index + 1..]) else None)
            && ReportedAt(node, s[index..], nv)
               == (if c in node.children then ReportedAt(node.children[c], s[index + 1..], nv) else [])
  {
    assert s[index..][0] == s[index] && s[index..][1..] == s[index + 1..];
  }

  /** In a valid trie the own rank mirrors the record, so the report carries
      the weight the re-inserted record is stored with. */
  lemma {:induction false} ReportedAtFind<V>(node: TrieNode<V>, s: string, nv: NodeValue<V>)
    requires node.Valid()
    ensures ReportedAt(node, s, nv) == Reported(node.Find(s), nv)
    decreases |s|
  {
    if s != [] && s[0] in node.children {
      ReportedAtFind(node.children[s[0]], s[1..], nv);
    }
  }

  /** The outcome of an insertion below a node: the rebuilt node, and the
      identifier supply once every node created on the path took one. */
  datatype Insertion<V> = Insertion(node: TrieNode<V>, nextId: Id)

  /** The end case of `InsertInToTrie`: a node without a record takes `nv`
      and mirrors it in its own rank; a node with one raises its own rank's
      weight by one (wrapping at 32 bits), keeps its record's identifier and
      takes the new value and weight. Either way the own rank is merged into
      the cached list. */
  function StoreHere<V>(node: TrieNode<V>, nv: NodeValue<V>, cap: int): TrieNode<V>
  {
    var m :=
      if node.nodeValue.Some? then
        var own := node.ownRank.(weight := Inc32(node.ownRank.weight));
        node.(ownRank := own, nodeValue := Some(node.nodeValue.value.(value := nv.value, weight := own.weight)))
      else
        node.(nodeValue := Some(nv), ownRank := Rank(nv.id, nv.weight));
    m.(rankList := Merge(m.rankList, [m.ownRank], None, cap))
  }

  /** `InsertInToTrie` on values: walks `nv.text[index..]` below `node`,
      creating each missing node with an own rank under the next identifier
      of the supply, stores `nv` at the end and, on the way back, merges each
      child's list into its parent's. */
  function InsertTrie<V>(node: TrieNode<V>, nv: NodeValue<V>, index: nat, nextId: Id, cap: int): Insertion<V>
    requires index <= |nv.text|
    decreases |nv.text| - index
  {
    if index == |nv.text| then Insertion(StoreHere(node, nv, cap), nextId)
    else
      var c := nv.text[index];
      var child := if c in node.children then node.children[c] else NewTrieNode(nextId);
      var below := InsertTrie(child, nv, index + 1, if c in node.children then nextId else nextId + 1, cap);
      Insertion(node.(rankList := Merge(node.rankList, below.node.rankList, None, cap),
                      children := node.children[c := below.node]),
                below.nextId)
  }

  /** How many characters of `s` have no node yet on the path from `node`:
      all of them from the first missing child on. */
  function MissingOnPath<V>(node: TrieNode<V>, s: string): (r: nat)
    ensures r <= |s|
    ensures s != [] && s[0] !in node.children ==> r == |s|
    decreases |s|
  {
    if s == [] then 0
    else if s[0] in node.children then MissingOnPath(node.children[s[0]], s[1..])
    else |s|
  }

  /** Insertion creates one node, and draws one identifier, per character
      that has no node yet on the path, and no more. */
  lemma {:induction false} InsertDrawsPerMissing<V>(node: TrieNode<V>, nv: NodeValue<V>, index: nat, nextId: Id, cap: int)
    requires index <= |nv.text|
    ensures InsertTrie(node, nv, index, nextId, cap).nextId == nextId + MissingOnPath(node, nv.text[index..])
    decreases |nv.text| - index
  {
    if index < |nv.text| {
      var c := nv.text[index];
      var t := nv.text[index + 1..];
      assert nv.text[index..][0] == c && nv.text[index..][1..] == t;
      if c in node.children {
        InsertDrawsPerMissing(node.children[c], nv, index + 1, nextId, cap);
      } else {
        InsertDrawsPerMissing(NewTrieNode<V>(nextId), nv, index + 1, nextId + 1, cap);
        assert MissingOnPath(NewTrieNode<V>(nextId), t) == |t|;
      }
    }
  }

  /** Storing at a valid node keeps it valid, puts the stored record at the
      empty suffix and adds no path. */
  lemma StoreHereSpec<V>(node: TrieNode<V>, nv: NodeValue<V>, cap: int)
    requires node.Valid()
    ensures var r := StoreHere(node, nv, cap);
            && r.Valid()
            && r.Entries() == node.Entries()[[] := StoredAfterInsert(node.Find([]), nv)]
            && r.Paths() == node.Paths()
            && r.Size() == node.Size()
  {
    assert [] in node.Entries() ==> node.Entries()[[]] == node.nodeValue.value by {
      EntriesHolds(node);
    }
    var rec := StoredAfterInsert(node.nodeValue, nv);
    var m := node.(nodeValue := Some(rec), ownRank := Rank(rec.id, rec.weight));
    OwnSet(node, rec);
    Singleton(m.ownRank);
    MergeWithin(m.rankList, [m.ownRank], None, cap, Ids(m.Entries()));
    WithList(m, Merge(m.rankList, [m.ownRank], None, cap));
    SizeSameChildren(node, StoreHere(node, nv, cap));
  }

  /** Insertion keeps a valid node valid, stores the record at the inserted
      suffix (keeping the identifier of one already there), makes every
      prefix of the suffix a path, and creates exactly as many nodes as it
      draws identifiers. */
  lemma {:induction false} InsertTrieSpec<V>(node: TrieNode<V>, nv: NodeValue<V>, index: nat, nextId: Id, cap: int)
    requires node.Valid() && index <= |nv.text|
    ensures var res := InsertTrie(node, nv, index, nextId, cap);
            var s := nv.text[index..];
            && res.node.Valid()
            && res.node.Entries() == node.Entries()[s := StoredAfterInsert(node.Find(s), nv)]
            && res.node.Paths() == node.Paths() + Prefixes(s)
            && res.nextId >= nextId
            && res.node.Size() == node.Size() + (res.nextId - nextId)
    decreases |nv.text| - index
  {
    if index == |nv.text| {
      assert nv.text[index..] == [];
      StoreHereSpec(node, nv, cap);
      PathsHere(node);
    } else {
      var c := nv.text[index];
      var t := nv.text[index + 1..];
      assert nv.text[index..] == [c] + t;
      var child := if c in node.children then node.children[c] else NewTrieNode(nextId);
      var next1 := if c in node.children then nextId else nextId + 1;
      var below := InsertTrie(child, nv, index + 1, next1, cap);
      assert child.Valid() && (c !in node.children ==> child.Entries() == map[] && child.Paths() == {[]} && child.Size() == 1) by {
        if c in node.children {
          ChildLifted(node, c);
        } else {
          NewTrieNodeEmpty<V>(nextId);
        }
      }
      InsertTrieSpec(child, nv, index + 1, next1, cap);
      assert node.Find([c] + t) == child.Find(t) by {
        assert ([c] + t)[0] == c && ([c] + t)[1..] == t;
      }
      var v := StoredAfterInsert(child.Find(t), nv);
      assert [c] + t in node.Entries() ==> node.Entries()[[c] + t].id == v.id by {
        EntriesFind(node);
      }
      MergeWithin(node.rankList, below.node.rankList, None, cap, RankIds(node.rankList) + RankIds(below.node.rankList));
      Grown(node, c, below.node, t, v, Merge(node.rankList, below.node.rankList, None, cap));
    }
  }

  /** The outcome of a removal below a node: the rebuilt node, the
      identifier of the removed record (none when nothing was removed) and
      the number of nodes detached. */
  datatype Removal<V> = Removal(node: TrieNode<V>, removed: Option<Id>, detached: nat)

  /** `Remove` on values: walks `text[index..]` below `node`; if a record
      ends there it is cleared, its identifier is scrubbed from the cached
      list of every node on the path, and a child left without record and
      children is detached on the way back. */
  function RemoveTrie<V>(node: TrieNode<V>, text: string, index: nat, cap: int): Removal<V>
    requires index <= |text|
    decreases |text| - index
  {
    if index == |text| then
      if node.nodeValue.None? then Removal(node, None, 0)
      else
        var id := node.nodeValue.value.id;
        Removal(node.(nodeValue := None, rankList := Merge(node.rankList, [], Some(id), cap)), Some(id), 0)
    else
      var c := text[index];
      if c !in node.children then Removal(node, None, 0)
      else
        var below := RemoveTrie(node.children[c], text, index + 1, cap);
        if below.removed.None? then Removal(node, None, 0)
        else
          var k := below.node;
          var detach := k.nodeValue.None? && |k.children| == 0;
          var m := if detach then node.(children := node.children - {c}) else node.(children := node.children[c := k]);
          Removal(m.(rankList := Merge(m.rankList, [], Some(below.removed.value), cap)), below.removed,
                  below.detached + if detach then 1 else 0)
  }

  /** Removal from a valid node removes a record exactly when one is stored
      at the suffix; it then returns that record's identifier, keeps the
      node valid, drops only that record, leaves the identifier in no list
      on the path, and loses only nonempty prefixes of the suffix as paths,
      one per detached node. Otherwise the node is unchanged. */
  lemma {:induction false} RemoveTrieSpec<V>(node: TrieNode<V>, text: string, index: nat, cap: int)
    requires node.Valid() && index <= |text|
    ensures var res := RemoveTrie(node, text, index, cap);
            var s := text[index..];
            && (res.removed.Some? <==> s in node.Entries())
            && (res.removed.None? ==> res.node == node && res.detached == 0)
            && (res.removed.Some? ==>
                  && res.removed.value == node.Entries()[s].id
                  && res.node.Valid()
                  && res.node.Entries() == node.Entries() - {s}
                  && res.removed.value !in RankIds(res.node.rankList)
                  && res.node.Paths() <= node.Paths()
                  && node.Paths() - res.node.Paths() <= Prefixes(s) - {[]}
                  && res.node.Size() == node.Size() - res.detached)
    decreases |text| - index
  {
    if index == |text| {
      assert text[index..] == [];
      RemovedHere(node, cap);
    } else {
      var c := text[index];
      var t := text[index + 1..];
      assert text[index..] == [c] + t;
      assert [c] + t in node.Entries() <==> c in node.children && t in node.children[c].Entries() by {
        EntriesHolds(node);
        HoldsLookup(node.Entries(), node.nodeValue, node.Kids(), c, t);
      }
      if c in node.children {
        ChildLifted(node, c);
        RemoveTrieSpec(node.children[c], text, index + 1, cap);
        var below := RemoveTrie(node.children[c], text, index + 1, cap);
        if below.removed.Some? {
          RemovedBelow(node, c, t, below.node, cap);
        }
      }
    }
  }

  /** The end case of a removal: clearing the record of a valid node and
      scrubbing its identifier from the list removes exactly the record at
      the empty suffix and no path. */
  lemma RemovedHere<V>(node: TrieNode<V>, cap: int)
    requires node.Valid()
    ensures [] in node.Entries() <==> node.nodeValue.Some?
    ensures node.nodeValue.Some? ==>
              var id := node.nodeValue.value.id;
              var m := node.(nodeValue := None, rankList := Merge(node.rankList, [], Some(id), cap));
              && node.Entries()[[]].id == id
              && m.Valid()
              && m.Entries() == node.Entries() - {[]}
              && id !in RankIds(m.rankList)
              && m.Paths() == node.Paths()
              && node.Paths() - m.Paths() <= Prefixes([]) - {[]}
              && m.Size() == node.Size()
  {
    assert ([] in node.Entries() <==> node.nodeValue.Some?)
        && (node.nodeValue.Some? ==> node.Entries()[[]] == node.nodeValue.value) by {
      EntriesHolds(node);
    }
    if node.nodeValue.Some? {
      var id := node.nodeValue.value.id;
      MergeMembers(node.rankList, [], Some(id), cap);
      MergeExcludes(node.rankList, [], id, cap);
      MergeSorted(node.rankList, [], Some(id), cap);
      OwnCleared(node, node.(nodeValue := None, rankList := Merge(node.rankList, [], Some(id), cap)));
      SizeSameChildren(node, node.(nodeValue := None, rankList := Merge(node.rankList, [], Some(id), cap)));
    }
  }

  /** One level of a removal: the child under `c` lost its record at `t`
      (and only nonempty prefixes of `t` as paths); the node scrubs the
      record's identifier from its list and detaches the child when it is
      left without record and children. */
  lemma RemovedBelow<V>(node: TrieNode<V>, c: char, t: string, k: TrieNode<V>, cap: int)
    requires node.Valid() && k.Valid() && c in node.children && t in node.children[c].Entries()
    requires k.Entries() == node.children[c].Entries() - {t}
    requires k.Paths() <= node.children[c].Paths() && node.children[c].Paths() - k.Paths() <= Prefixes(t) - {[]}
    ensures var id := node.children[c].Entries()[t].id;
            var detach := k.nodeValue.None? && |k.children| == 0;
            var g := if detach then node.(children := node.children - {c}) else node.(children := node.children[c := k]);
            var m := g.(rankList := Merge(g.rankList, [], Some(id), cap));
            && m.Valid()
            && [c] + t in node.Entries() && node.Entries()[[c] + t].id == id
            && m.Entries() == node.Entries() - {[c] + t}
            && id !in RankIds(m.rankList)
            && m.Paths() <= node.Paths() && node.Paths() - m.Paths() <= Prefixes([c] + t) - {[]}
            && m.Size() == node.Size() - (node.children[c].Size() - k.Size()) - (if detach then 1 else 0)
  {
    var id := node.children[c].Entries()[t].id;
    var list := Merge(node.rankList, [], Some(id), cap);
    MergeMembers(node.rankList, [], Some(id), cap);
    MergeExcludes(node.rankList, [], id, cap);
    MergeSorted(node.rankList, [], Some(id), cap);
    if k.nodeValue.None? && |k.children| == 0 {
      DetachedBelow(node, c, t, k, list);
    } else {
      Shrunk(node, c, k, t, list);
    }
  }

  /** `RemovedBelow` when the child is left empty and is detached. */
  lemma DetachedBelow<V>(node: TrieNode<V>, c: char, t: string, k: TrieNode<V>, list: seq<Rank>)
    requires node.Valid() && c in node.children && t in node.children[c].Entries()
    requires k.Entries() == node.children[c].Entries() - {t}
    requires k.Paths() <= node.children[c].Paths() && node.children[c].Paths() - k.Paths() <= Prefixes(t) - {[]}
    requires k.nodeValue.None? && |k.children| == 0
    requires Sorted(list) && RankIds(list) <= RankIds(node.rankList) - {node.children[c].Entries()[t].id}
    ensures k.Size() == 1
    ensures var m := node.(rankList := list, children := node.children - {c});
            && m.Valid()
            && [c] + t in node.Entries() && node.Entries()[[c] + t] == node.children[c].Entries()[t]
            && m.Entries() == node.Entries() - {[c] + t}
            && m.Paths() <= node.Paths() && node.Paths() - m.Paths() <= Prefixes([c] + t) - {[]}
            && m.Size() == node.Size() - node.children[c].Size()
  {
    assert k.children == map[] by {
      assert k.children.Keys == {};
    }
    EmptyNode(k);
    assert node.children[c].Paths() <= Prefixes(t) by {
      assert [] == t[..0];
    }
    Dropped(node, c, t, list);
  }

  /** The values the store holds for the identifiers of a rank list, in list
      order, skipping identifiers it does not hold (the loop of
      `GetSuggestions`). */
  function Resolve<V>(ranks: seq<Rank>, store: map<Id, Payload<V>>): seq<Payload<V>>
  {
    if ranks == [] then []
    else
      var last := ranks[|ranks| - 1];
      Resolve(ranks[..|ranks| - 1], store) + (if last.id in store then [store[last.id]] else [])
  }

  lemma ResolveSnoc<V>(ranks: seq<Rank>, i: nat, store: map<Id, Payload<V>>)
    requires i < |ranks|
    ensures Resolve(ranks[..i + 1], store)
         == Resolve(ranks[..i], store) + (if ranks[i].id in store then [store[ranks[i].id]] else [])
  {
    assert ranks[..i + 1][..i] == ranks[..i];
  }

  /** The loop at the end of `GetSuggestions`: looks each listed identifier
      up in the store, in list order, and keeps the values it finds. */
  method ResolveRanks<V>(ranks: seq<Rank>, store: map<Id, Payload<V>>) returns (values: seq<Payload<V>>)
    ensures values == Resolve(ranks, store)
  {
    values := [];
    var i := 0;
    while i < |ranks|
      invariant 0 <= i <= |ranks|
      invariant values == Resolve(ranks[..i], store)
    {
      ResolveSnoc(ranks, i, store);
      if ranks[i].id in store {
        values := values + [store[ranks[i].id]];
      }
      i := i + 1;
    }
    assert ranks[..i] == ranks;
  }

  /** Resolving never adds entries, and every resolved value is the stored
      value of some listed identifier. */
  lemma {:induction false} ResolveSound<V>(ranks: seq<Rank>, store: map<Id, Payload<V>>)
    ensures |Resolve(ranks, store)| <= |ranks|
    ensures forall v :: v in Resolve(ranks, store) ==>
              exists r :: r in ranks && r.id in store && store[r.id] == v
    decreases |ranks|
  {
    if ranks != [] {
      var init := ranks[..|ranks| - 1];
      ResolveSound(init, store);
      forall v | v in Resolve(ranks, store)
        ensures exists r :: r in ranks && r.id in store && store[r.id] == v
      {
        if v in Resolve(init, store) {
          var r :| r in init && r.id in store && store[r.id] == v;
          assert r in ranks;
        } else {
          assert ranks[|ranks| - 1] in ranks;
        }
      }
    }
  }

  /** When the store holds every listed identifier, resolving maps the list
      position by position. */
  lemma {:induction false} ResolveAllPresent<V>(ranks: seq<Rank>, store: map<Id, Payload<V>>)
    requires RankIds(ranks) <= store.Keys
    ensures |Resolve(ranks, store)| == |ranks|
    ensures forall i :: 0 <= i < |ranks| ==> Resolve(ranks, store)[i] == store[ranks[i].id]
    decreases |ranks|
  {
    if ranks != [] {
      var init := ranks[..|ranks| - 1];
      assert RankIds(init) <= RankIds(ranks) by {
        forall x | x in RankIds(init) ensures x in RankIds(ranks) {
          var r :| r in init && r.id == x;
          assert r in ranks;
        }
      }
      ResolveAllPresent(init, store);
      assert ranks[|ranks| - 1] in ranks;
    }
  }

  lemma AcceptedKeysSnoc<V>(nodes: seq<Option<NodeValueOptions<V>>>, i: nat, ignoreCase: bool)
    requires i < |nodes|
    ensures AcceptedKeys(nodes[..i + 1], ignoreCase) == AcceptedKeys(nodes[..i], ignoreCase) + AcceptedKey(nodes[i], ignoreCase)
  {
    assert nodes[..i + 1][..i] == nodes[..i];
  }

  /** One round of the batch loop: the keys stored so far grow by what the
      next record adds, and the flag records whether any record was taken. */
  lemma BatchStep<V>(nodes: seq<Option<NodeValueOptions<V>>>, i: nat, ignoreCase: bool, start: set<string>,
                     keys: set<string>, now: set<string>, inserted: bool, ok: bool)
    requires i < |nodes|
    requires keys == start + AcceptedKeys(nodes[..i], ignoreCase)
    requires inserted <==> AcceptedKeys(nodes[..i], ignoreCase) != {}
    requires now == keys + AcceptedKey(nodes[i], ignoreCase)
    requires ok <==> Acceptable(nodes[i])
    ensures now == start + AcceptedKeys(nodes[..i + 1], ignoreCase)
    ensures inserted || ok <==> AcceptedKeys(nodes[..i + 1], ignoreCase) != {}
  {
    AcceptedKeysSnoc(nodes, i, ignoreCase);
  }

  /** A batch stores some key exactly when one of its records is accepted. */
  lemma {:induction false} AcceptedKeysNone<V>(nodes: seq<Option<NodeValueOptions<V>>>, ignoreCase: bool)
    ensures AcceptedKeys(nodes, ignoreCase) != {} <==> exists k :: 0 <= k < |nodes| && Acceptable(nodes[k])
    decreases |nodes|
  {
    if nodes != [] {
      var last := |nodes| - 1;
      AcceptedKeysNone(nodes[..last], ignoreCase);
      assert forall k :: 0 <= k < last ==> nodes[..last][k] == nodes[k];
      if Acceptable(nodes[last]) {
        assert NormalizeText(nodes[last].value.text.value, ignoreCase) in AcceptedKeys(nodes, ignoreCase);
      }
    }
  }

  /** Every value resolved from a list of matching identifiers is the value of
      a matching record, when the store holds each record's value under its
      identifier. */
  lemma ResolvedMatch<V>(entries: map<string, NodeValue<V>>, store: map<Id, Payload<V>>,
                         ranks: seq<Rank>, q: string, k: int)
    requires RankIds(ranks) <= Matching(entries, q, k)
    requires forall s :: s in entries ==> entries[s].id in store && store[entries[s].id] == entries[s].value
    ensures forall v :: v in Resolve(ranks, store) ==>
              exists s :: s in entries && FuzzyPrefix(s, q, k) && entries[s].value == v
  {
    ResolveSound(ranks, store);
    forall v | v in Resolve(ranks, store)
      ensures exists s :: s in entries && FuzzyPrefix(s, q, k) && entries[s].value == v
    {
      var r :| r in ranks && r.id in store && store[r.id] == v;
      assert r.id in RankIds(ranks);
      var s :| s in entries && FuzzyPrefix(s, q, k) && entries[s].id == r.id;
    }
  }

  /** One child's contribution to a search: merging what the child found for
      the rest of the query into what was collected so far keeps the list
      sorted, within the cap, and made of records matching at the parent. */
  lemma SearchStep<V>(parent: map<string, NodeValue<V>>, c: char, child: map<string, NodeValue<V>>,
                      q: string, k: int, kChild: int, acc: seq<Rank>, found: seq<Rank>, cap: int)
    requires Lifted(parent, c, child) && |q| > 0 && kChild == k - EdgeCost(c, q[0])
    requires Sorted(acc) && Sorted(found)
    requires RankIds(acc) <= Matching(parent, q, k)
    requires RankIds(found) <= Matching(child, q[1..], kChild)
    ensures Sorted(Merge(acc, found, None, cap))
    ensures RankIds(Merge(acc, found, None, cap)) <= Matching(parent, q, k)
    ensures |Merge(acc, found, None, cap)| <= Cap(cap)
  {
    MatchingLifted(parent, c, child, q, k);
    MergeMembers(acc, found, None, cap);
    MergeSorted(acc, found, None, cap);
    MergeBound(acc, found, None, cap);
  }

  /** At the end of the query every record below the node matches, so the
      node's list, with or without its own rank merged in, qualifies. */
  lemma SearchAtEnd<V>(entries: map<string, NodeValue<V>>, own: seq<Rank>, list: seq<Rank>, k: int, cap: int)
    requires k >= 0 && Sorted(own) && Sorted(list)
    requires RankIds(own) <= Ids(entries) && RankIds(list) <= Ids(entries)
    ensures Sorted(Merge(own, list, None, cap))
    ensures RankIds(list) <= Matching(entries, [], k)
    ensures RankIds(Merge(own, list, None, cap)) <= Matching(entries, [], k)
  {
    MatchingEmptyQuery(entries, k);
    MergeMembers(own, list, None, cap);
    MergeSorted(own, list, None, cap);
  }

  /** What the index keeps in step with its trie: every record is stored under
      its own text with an identifier drawn from the supply, no two records
      share an identifier, and the store maps exactly those identifiers to the
      records' values. */
  ghost predicate Consistent<V>(entries: map<string, NodeValue<V>>, store: map<Id, Payload<V>>, nextId: Id)
  {
    && (forall s :: s in entries ==> entries[s].text == s && entries[s].id < nextId)
    && (forall s, t {:trigger entries[s], entries[t]} :: s in entries && t in entries && entries[s].id == entries[t].id ==> s == t)
    && store.Keys == Ids(entries)
    && (forall s :: s in entries ==> entries[s].id in store && store[entries[s].id] == entries[s].value)
  }

  /** Inserting a record built under a fresh identifier keeps the index
      consistent: the store takes the new value under the identifier the
      stored record keeps. */
  lemma ConsistentAfterInsert<V>(entries: map<string, NodeValue<V>>, store: map<Id, Payload<V>>, nextId: Id,
                                 nv: NodeValue<V>, later: Id)
    requires Consistent(entries, store, nextId)
    requires nv.id == nextId && later > nextId
    ensures nv.id !in store
    ensures var prior := Lookup(entries, nv.text);
            Consistent(entries[nv.text := StoredAfterInsert(prior, nv)], StoreAfterInsert(store, prior, nv), later)
  {
    var prior := Lookup(entries, nv.text);
    var e2 := entries[nv.text := StoredAfterInsert(prior, nv)];
    var s2 := StoreAfterInsert(store, prior, nv);
    InsertedIds(entries, store, nextId, nv);
    InsertedUnique(entries, store, nextId, nv);
    InsertedValues(entries, store, nextId, nv);
    assert forall s :: s in e2 ==> e2[s].text == s && e2[s].id < later;
  }

  /** After an insertion the store's keys are still exactly the identifiers
      of the records. */
  lemma InsertedIds<V>(entries: map<string, NodeValue<V>>, store: map<Id, Payload<V>>, nextId: Id, nv: NodeValue<V>)
    requires Consistent(entries, store, nextId) && nv.id == nextId
    ensures nv.id !in store
    ensures var prior := Lookup(entries, nv.text);
            StoreAfterInsert(store, prior, nv).Keys == Ids(entries[nv.text := StoredAfterInsert(prior, nv)])
  {
    var key := nv.text;
    var stored := StoredAfterInsert(Lookup(entries, key), nv);
    assert nv.id !in Ids(entries) by {
      forall s | s in entries ensures entries[s].id != nv.id {
      }
    }
    IdsUpdate(entries, key, stored);
    if key in entries {
      assert stored.id in Ids(entries);
    }
  }

  /** After an insertion no two records share an identifier. */
  lemma InsertedUnique<V>(entries: map<string, NodeValue<V>>, store: map<Id, Payload<V>>, nextId: Id, nv: NodeValue<V>)
    requires Consistent(entries, store, nextId) && nv.id == nextId
    ensures var e2 := entries[nv.text := StoredAfterInsert(Lookup(entries, nv.text), nv)];
            forall s, t {:trigger e2[s], e2[t]} :: s in e2 && t in e2 && e2[s].id == e2[t].id ==> s == t
  {
    var key := nv.text;
    var e2 := entries[key := StoredAfterInsert(Lookup(entries, key), nv)];
    forall s, t | s in e2 && t in e2 && s != t ensures e2[s].id != e2[t].id {
      if s != key && t != key {
      } else if key !in entries {
        assert entries[if s == key then t else s].id < nextId;
      }
    }
  }

  /** After an insertion the store holds each record's value under its
      identifier. */
  lemma InsertedValues<V>(entries: map<string, NodeValue<V>>, store: map<Id, Payload<V>>, nextId: Id, nv: NodeValue<V>)
    requires Consistent(entries, store, nextId) && nv.id == nextId
    ensures var prior := Lookup(entries, nv.text);
            var e2 := entries[nv.text := StoredAfterInsert(prior, nv)];
            var s2 := StoreAfterInsert(store, prior, nv);
            forall s :: s in e2 ==> e2[s].id in s2 && s2[e2[s].id] == e2[s].value
  {
    var key := nv.text;
    var prior := Lookup(entries, key);
    var stored := StoredAfterInsert(prior, nv);
    var e2 := entries[key := stored];
    var s2 := StoreAfterInsert(store, prior, nv);
    forall s | s in e2 ensures e2[s].id in s2 && s2[e2[s].id] == e2[s].value {
      if s != key {
        assert entries[s].id != stored.id;
      }
    }
  }

  /** Removing a record keeps the index consistent once its identifier
      leaves the store, and no other record carries that identifier. */
  lemma ConsistentAfterRemove<V>(entries: map<string, NodeValue<V>>, store: map<Id, Payload<V>>, nextId: Id,
                                 key: string, later: Id)
    requires Consistent(entries, store, nextId) && key in entries && later >= nextId
    ensures entries[key].id !in Ids(entries - {key})
    ensures Consistent(entries - {key}, store - {entries[key].id}, later)
  {
    var id := entries[key].id;
    IdsRemove(entries, key);
    forall s | s in entries - {key} ensures (entries - {key})[s].id != id {
    }
  }

  lemma ConsistentLater<V>(entries: map<string, NodeValue<V>>, store: map<Id, Payload<V>>, nextId: Id, later: Id)
    requires Consistent(entries, store, nextId) && later >= nextId
    ensures Consistent(entries, store, later)
  {
  }

  /** The index invariant: a valid trie, a node count that counts its nodes
      other than the root, and a store in step with its records. */
  ghost predicate Indexed<V>(root: TrieNode<V>, nodeCount: int, store: map<Id, Payload<V>>, nextId: Id)
  {
    && root.Valid()
    && nodeCount + 1 == root.Size()
    && Consistent(root.Entries(), store, nextId)
  }

  /** Inserting a record drawn under the next identifier keeps the index
      invariant, with the node count raised by the number of nodes created,
      and stores the record under its text. */
  lemma InsertKeepsIndex<V>(root: TrieNode<V>, nodeCount: int, store: map<Id, Payload<V>>, nv: NodeValue<V>, cap: int)
    requires Indexed(root, nodeCount, store, nv.id)
    ensures var res := InsertTrie(root, nv, 0, nv.id + 1, cap);
            var prior := Lookup(root.Entries(), nv.text);
            && root.Find(nv.text) == prior
            && nv.id !in store
            && res.node.Entries() == root.Entries()[nv.text := StoredAfterInsert(prior, nv)]
            && Indexed(res.node, nodeCount + (res.nextId - (nv.id + 1)), StoreAfterInsert(store, prior, nv), res.nextId)
  {
    var res := InsertTrie(root, nv, 0, nv.id + 1, cap);
    assert nv.text[0..] == nv.text;
    InsertTrieSpec(root, nv, 0, nv.id + 1, cap);
    EntriesFind(root);
    ConsistentAfterInsert(root.Entries(), store, nv.id, nv, res.nextId);
  }

  /** Removing the record stored under a text keeps the index invariant, with
      the node count lowered by the number of nodes detached, and leaves its
      identifier in no cached list; removing nothing changes nothing. */
  lemma RemoveKeepsIndex<V>(root: TrieNode<V>, nodeCount: int, store: map<Id, Payload<V>>, nextId: Id,
                            text: string, later: Id, cap: int)
    requires Indexed(root, nodeCount, store, nextId) && later >= nextId
    ensures var res := RemoveTrie(root, text, 0, cap);
            && (res.removed.Some? <==> text in root.Entries())
            && (res.removed.None? ==> res.node == root && res.detached == 0
                                      && Indexed(root, nodeCount, store, later))
            && (res.removed.Some? ==>
                  var id := root.Entries()[text].id;
                  && res.removed.value == id
                  && res.node.Entries() == root.Entries() - {text}
                  && id !in res.node.ListIds()
                  && Indexed(res.node, nodeCount - res.detached, store - {id}, later))
  {
    var res := RemoveTrie(root, text, 0, cap);
    assert text[0..] == text;
    RemoveTrieSpec(root, text, 0, cap);
    if res.removed.Some? {
      ConsistentAfterRemove(root.Entries(), store, nextId, text, later);
      ListIdsWithin(res.node);
    } else {
      ConsistentLater(root.Entries(), store, nextId, later);
    }
  }


  class AutoCompleteTrieSearch<V> {
    var root: TrieNode<V>
    var maxSuggestion: int
    var valueByKey: map<Id, Payload<V>>
    var allowedMismatchCount: int
    var ignoreCase: bool
    var nodeCount: int
    /** The fresh-identifier supply that stands for `Guid.NewGuid()`. */
    var nextId: Id
    /** The records handed to the update callback, in order. */
    ghost var notified: seq<NodeValue<V>>

    /** The trie is valid, `nodeCount` counts its nodes other than the root,
        and the store agrees with the records. */
    ghost predicate Valid()
      reads this
    {
      Indexed(root, nodeCount, valueByKey, nextId)
    }

    /** The substitution budget `Search` can actually spend. */
    function Budget(): nat
      reads this
    {
      if allowedMismatchCount > 0 then allowedMismatchCount else 0
    }

    /** `new AutoCompleteTrieSearch()`: an empty index with the defaults. */
    constructor ()
      ensures Valid() && root.Entries() == map[] && root.rankList == []
      ensures valueByKey == map[] && nodeCount == 0 && notified == []
      ensures maxSuggestion == DEFAULT_MAX_SUGGESTION
      ensures ignoreCase == DEFAULT_IGNORE_CASE
      ensures allowedMismatchCount == DEFAULT_MISMATCH_ALLOW
    {
      valueByKey := map[];
      root := NewTrieNode(0);
      NewTrieNodeEmpty<V>(0);
      nextId := 1;
      nodeCount := 0;
      maxSuggestion := DEFAULT_MAX_SUGGESTION;
      ignoreCase := DEFAULT_IGNORE_CASE;
      allowedMismatchCount := DEFAULT_MISMATCH_ALLOW;
      notified := [];
    }

    /** `new AutoCompleteTrieSearch(options)`: each setting that is given is
        taken as is; the mismatch count does not go through the setter. */
    constructor WithOptions(options: Option<SearchOptions>)
      ensures Valid() && root.Entries() == map[] && root.rankList == []
      ensures valueByKey == map[] && nodeCount == 0 && notified == []
      ensures options.Some? && options.value.maxSuggestion.Some? ==> maxSuggestion == options.value.maxSuggestion.value
      ensures options.None? || options.value.maxSuggestion.None? ==> maxSuggestion == DEFAULT_MAX_SUGGESTION
      ensures options.Some? && options.value.ignoreCase.Some? ==> ignoreCase == options.value.ignoreCase.value
      ensures options.None? || options.value.ignoreCase.None? ==> ignoreCase == DEFAULT_IGNORE_CASE
      ensures options.Some? && options.value.allowedMismatchCount.Some? ==> allowedMismatchCount == options.value.allowedMismatchCount.value
      ensures options.None? || options.value.allowedMismatchCount.None? ==> allowedMismatchCount == DEFAULT_MISMATCH_ALLOW
    {
      valueByKey := map[];
      root := NewTrieNode(0);
      NewTrieNodeEmpty<V>(0);
      nextId := 1;
      nodeCount := 0;
      maxSuggestion := if options.Some? then options.value.maxSuggestion.GetOr(DEFAULT_MAX_SUGGESTION) else DEFAULT_MAX_SUGGESTION;
      ignoreCase := if options.Some? then options.value.ignoreCase.GetOr(DEFAULT_IGNORE_CASE) else DEFAULT_IGNORE_CASE;
      allowedMismatchCount := if options.Some? then options.value.allowedMismatchCount.GetOr(DEFAULT_MISMATCH_ALLOW) else DEFAULT_MISMATCH_ALLOW;
      notified := [];
    }

    /** Draws an identifier no record or rank has used yet. */
    method FreshId() returns (id: Id)
      modifies this`nextId
      ensures id == old(nextId) && nextId == id + 1
    {
      id := nextId;
      nextId := nextId + 1;
    }

    /** The `AllowedMismatchCount` setter. */
    method SetAllowedMismatchCount(value: int)
      modifies this`allowedMismatchCount
      ensures allowedMismatchCount == MismatchSetting(value)
    {
      var v := value;
      if DEFAULT_MISMATCH_ALLOW < v || v == 0 {
        v := DEFAULT_MISMATCH_ALLOW;
      }
      allowedMismatchCount := v;
    }

    /** `UpdateOptions`: a null options object throws before anything is
        assigned; otherwise a given maximum is taken as is, the mismatch
        count, given or current, goes through the setter, and case
        sensitivity stays. */
    method UpdateOptions(options: Option<SearchOptions>) returns (r: Result<()>)
      modifies this`maxSuggestion, this`allowedMismatchCount
      ensures options.None? ==> r == Failure(NullReference)
      ensures options.None? ==> maxSuggestion == old(maxSuggestion) && allowedMismatchCount == old(allowedMismatchCount)
      ensures options.Some? ==> r == Success(())
      ensures options.Some? ==> maxSuggestion == options.value.maxSuggestion.GetOr(old(maxSuggestion))
      ensures options.Some? ==>
                allowedMismatchCount == MismatchSetting(options.value.allowedMismatchCount.GetOr(old(allowedMismatchCount)))
    {
      if options.None? {
        return Failure(NullReference);
      }
      maxSuggestion := options.value.maxSuggestion.GetOr(maxSuggestion);
      SetAllowedMismatchCount(options.value.allowedMismatchCount.GetOr(allowedMismatchCount));
      r := Success(());
    }

    /** `AddValueById`: stores a value unless the identifier is already there. */
    method AddValueById(key: Id, value: Payload<V>)
      modifies this`valueByKey
      ensures valueByKey == if key in old(valueByKey) then old(valueByKey) else old(valueByKey)[key := value]
    {
      if key !in valueByKey {
        valueByKey := valueByKey[key := value];
      }
    }

    /** `RemoveValueById`: `Dictionary.Remove`, reporting whether the key was there. */
    method RemoveValueById(key: Id) returns (removed: bool)
      modifies this`valueByKey
      ensures removed == (key in old(valueByKey))
      ensures valueByKey == old(valueByKey) - {key}
    {
      removed := key in valueByKey;
      valueByKey := valueByKey - {key};
    }

    /** `MergeRankList`: the merge of two rank lists (null lists count as
        empty), skipping identifier `ignore`, capped at `maxSuggestion`. The
        first loop walks both lists; the second and third append what is left
        of either list, and are both `AppendRest`. */
    method MergeRankList(list1: Option<seq<Rank>>, list2: Option<seq<Rank>>, ignore: Option<Id>)
      returns (merged: seq<Rank>)
      ensures merged == Merge(list1.GetOr([]), list2.GetOr([]), ignore, maxSuggestion)
    {
      var a := if list1.Some? then list1.value else [];
      var b := if list2.Some? then list2.value else [];
      merged := [];
      var i, j := 0, 0;
      assert a[0..] == a && b[0..] == b;
      while |merged| < maxSuggestion && i < |a| && j < |b|
        invariant 0 <= i <= |a| && 0 <= j <= |b|
        invariant MergeOnto(merged, a[i..], b[j..], ignore, maxSuggestion) == MergeOnto([], a, b, ignore, maxSuggestion)
      {
        MergeOntoStep(merged, a, i, b, j, ignore, maxSuggestion);
        if a[i].id == b[j].id {
          i := i + 1;
        } else if ignore.Some? && a[i].id == ignore.value {
          i := i + 1;
        } else if ignore.Some? && b[j].id == ignore.value {
          j := j + 1;
        } else if a[i].weight >= b[j].weight {
          merged := merged + [a[i]];
          i := i + 1;
        } else {
          merged := merged + [b[j]];
          j := j + 1;
        }
      }
      merged := AppendRest(merged, a, i, ignore);
      merged := AppendRest(merged, b, j, ignore);
      MergeOntoAppends([], a, b, ignore, maxSuggestion);
      assert [] + Merge(a, b, ignore, maxSuggestion) == Merge(a, b, ignore, maxSuggestion);
    }

    /** The second and third loops of `MergeRankList`: append the entries of
        `s` from position `from` on, skipping identifier `ignore`, while fewer
        than `maxSuggestion` entries are merged. */
    method AppendRest(acc: seq<Rank>, s: seq<Rank>, from: nat, ignore: Option<Id>) returns (merged: seq<Rank>)
      requires from <= |s|
      ensures merged == DrainOnto(acc, s[from..], ignore, maxSuggestion)
    {
      merged := acc;
      var i := from;
      while |merged| < maxSuggestion && i < |s|
        invariant from <= i <= |s|
        invariant DrainOnto(merged, s[i..], ignore, maxSuggestion) == DrainOnto(acc, s[from..], ignore, maxSuggestion)
      {
        assert s[i..][0] == s[i] && s[i..][1..] == s[i + 1..];
        if ignore.Some? && ignore.value == s[i].id {
          i := i + 1;
          continue;
        }
        merged := merged + [s[i]];
        i := i + 1;
      }
    }

    /** `UpdateRankList`: merges the node's own rank into its cached list. */
    method UpdateRankList(node: TrieNode<V>) returns (r: TrieNode<V>)
      ensures r == node.(rankList := Merge(node.rankList, [node.ownRank], None, maxSuggestion))
      ensures RankIds(r.rankList) <= RankIds(node.rankList) + {node.ownRank.id}
      ensures Sorted(node.rankList) ==> Sorted(r.rankList)
      ensures |r.rankList| <= Cap(maxSuggestion)
    {
      var merged := MergeRankList(Some(node.rankList), Some([node.ownRank]), None);
      r := node.(rankList := merged);
      Singleton(node.ownRank);
      MergeMembers(node.rankList, [node.ownRank], None, maxSuggestion);
      MergeBound(node.rankList, [node.ownRank], None, maxSuggestion);
      if Sorted(node.rankList) {
        MergeSorted(node.rankList, [node.ownRank], None, maxSuggestion);
      }
    }

    /** `RemoveFromRankList`: scrubs the identifier of `ignoreNode` from the
        node's cached list by merging it with an empty list, which keeps the
        other entries in order, up to the cap. */
    method RemoveFromRankList(node: TrieNode<V>, ignoreNode: Option<NodeValue<V>>) returns (r: TrieNode<V>)
      ensures ignoreNode.None? ==> r == node
      ensures ignoreNode.Some? ==>
                r == node.(rankList := Merge(node.rankList, [], Some(ignoreNode.value.id), maxSuggestion))
      ensures ignoreNode.Some? ==> r.rankList == Take(Without(node.rankList, ignoreNode.value.id), maxSuggestion)
      ensures ignoreNode.Some? ==> ignoreNode.value.id !in RankIds(r.rankList)
      ensures RankIds(r.rankList) <= RankIds(node.rankList)
      ensures Sorted(node.rankList) ==> Sorted(r.rankList)
    {
      if ignoreNode.None? {
        return node;
      }
      var id := ignoreNode.value.id;
      var merged := MergeRankList(Some(node.rankList), Some([]), Some(id));
      r := node.(rankList := merged);
      ScrubIsFilteredPrefix(node.rankList, id, maxSuggestion);
      MergeMembers(node.rankList, [], Some(id), maxSuggestion);
      MergeExcludes(node.rankList, [], id, maxSuggestion);
      if Sorted(node.rankList) {
        MergeSorted(node.rankList, [], Some(id), maxSuggestion);
      }
    }

    /** `InsertInToTrie`: walks or creates the path of `nv.text[index..]` below
        `node` (each new node counted and given an own rank under a fresh
        identifier), stores or reinforces the record at its end, and rebuilds
        the cached rank lists on the way back; the result is `InsertTrie`'s.
        The store and the callback see exactly the record that was stored at
        the end of the path before. */
    method InsertInToTrie(node: TrieNode<V>, nv: NodeValue<V>, index: nat) returns (r: TrieNode<V>)
      requires index <= |nv.text|
      modifies this`nodeCount, this`valueByKey, this`nextId, this`notified
      ensures var res := InsertTrie(node, nv, index, old(nextId), maxSuggestion);
              r == res.node && nextId == res.nextId
      ensures nodeCount == old(nodeCount) + (nextId - old(nextId))
      ensures valueByKey == StoreAfterInsert(old(valueByKey), node.Find(nv.text[index..]), nv)
      ensures notified == old(notified) + ReportedAt(node, nv.text[index..], nv)
      decreases |nv.text| - index
    {
      if index == |nv.text| {
        assert nv.text[index..] == [];
        r := StoreAt(node, nv);
        return;
      }
      var c := nv.text[index];
      ghost var t := nv.text[index + 1..];
      PathStep(node, nv.text, index, nv);
      var child: TrieNode<V>;
      if c in node.children {
        child := node.children[c];
      } else {
        var id := FreshId();
        child := NewTrieNode(id);
        nodeCount := nodeCount + 1;
        assert child.Find(t) == None && ReportedAt(child, t, nv) == [];
      }
      var grown := InsertInToTrie(child, nv, index + 1);
      var merged := MergeRankList(Some(node.rankList), Some(grown.rankList), None);
      r := node.(rankList := merged, children := node.children[c := grown]);
    }

    /** The end of the path in `InsertInToTrie`: the node becomes
        `StoreHere`'s; a re-insertion replaces the stored value under the
        record's identifier and reports the record with its raised weight, a
        first insertion adds the value under the new identifier. */
    method StoreAt(node: TrieNode<V>, nv: NodeValue<V>) returns (r: TrieNode<V>)
      modifies this`valueByKey, this`notified
      ensures r == StoreHere(node, nv, maxSuggestion)
      ensures valueByKey == StoreAfterInsert(old(valueByKey), node.nodeValue, nv)
      ensures notified == old(notified) + ReportedAt(node, [], nv)
    {
      var m: TrieNode<V>;
      if node.nodeValue.Some? {
        var existing := node.nodeValue.value;
        var _ := RemoveValueById(existing.id);
        var own := node.ownRank.(weight := Inc32(node.ownRank.weight));
        m := node.(ownRank := own, nodeValue := Some(existing.(value := nv.value, weight := own.weight)));
        AddValueById(existing.id, nv.value);
        notified := notified + [nv.(weight := own.weight)];
      } else {
        m := node.(nodeValue := Some(nv), ownRank := Rank(nv.id, nv.weight));
        AddValueById(nv.id, nv.value);
      }
      r := UpdateRankList(m);
    }

    /** `Add`: rejects a missing record or blank text; otherwise normalises
        the text (only in case-insensitive mode), builds the record under a
        fresh identifier and inserts it: the record lands under its text,
        every prefix of the text becomes a path, and a re-insertion keeps the
        stored identifier, raises the weight and is reported. */
    method Add(node: Option<NodeValueOptions<V>>) returns (ok: bool)
      requires Valid()
      modifies this`root, this`nodeCount, this`valueByKey, this`nextId, this`notified
      ensures Valid()
      ensures ok <==> Acceptable(node)
      ensures !ok ==> unchanged(this)
      ensures ok ==>
                var key := NormalizeText(node.value.text.value, ignoreCase);
                var made := NewNodeValue(node.value.(text := Some(key)), old(nextId));
                && made.Success?
                && var prior := Lookup(old(root.Entries()), key);
                && var stored := StoredAfterInsert(prior, made.value);
                && root.Entries() == old(root.Entries())[key := stored]
                && valueByKey == old(valueByKey)[stored.id := made.value.value]
                && notified == old(notified) + Reported(prior, made.value)
                && nodeCount == old(nodeCount) + MissingOnPath(old(root), key)
    {
      if node.None? || IsNullOrWhiteSpace(node.value.text) {
        return false;
      }
      var options := node.value;
      if ignoreCase {
        options := options.(text := Some(ToLower(Trim(options.text.value))));
      }
      NormalizeKeepsContent(node.value.text.value, ignoreCase);
      var id := FreshId();
      var nv := NewNodeValue(options, id).value;
      InsertRecord(nv);
      ok := true;
    }

    /** The tail of `Add`: stores a record under the identifier just drawn
        for it, and reports it. */
    method InsertRecord(nv: NodeValue<V>)
      requires Indexed(root, nodeCount, valueByKey, nv.id) && nextId == nv.id + 1
      modifies this`root, this`nodeCount, this`valueByKey, this`nextId, this`notified
      ensures Valid()
      ensures var prior := Lookup(old(root.Entries()), nv.text);
              var stored := StoredAfterInsert(prior, nv);
              && root.Entries() == old(root.Entries())[nv.text := stored]
              && valueByKey == old(valueByKey)[stored.id := nv.value]
              && notified == old(notified) + Reported(prior, nv)
    ensures nodeCount == old(nodeCount) + MissingOnPath(old(root), nv.text)
    {
      assert nv.text[0..] == nv.text;
      ghost var before := root;
      ghost var store := valueByKey;
      ghost var count := nodeCount;
      root := InsertInToTrie(root, nv, 0);
      InsertKeepsIndex(before, count, store, nv, maxSuggestion);
      InsertDrawsPerMissing(before, nv, 0, nv.id + 1, maxSuggestion);
      ReportedAtFind(before, nv.text, nv);
    }

    /** `InsertOrUpdate(INodeValue)`: exactly `Add`. */
    method InsertOrUpdate(node: Option<NodeValueOptions<V>>) returns (ok: bool)
      requires Valid()
      modifies this`root, this`nodeCount, this`valueByKey, this`nextId, this`notified
      ensures Valid()
      ensures ok <==> Acceptable(node)
      ensures ignoreCase == old(ignoreCase)
      ensures root.Entries().Keys == old(root.Entries().Keys) + AcceptedKey(node, ignoreCase)
      ensures !ok ==> unchanged(this)
      ensures ok ==>
                var key := NormalizeText(node.value.text.value, ignoreCase);
                var made := NewNodeValue(node.value.(text := Some(key)), old(nextId));
                && made.Success?
                && var prior := Lookup(old(root.Entries()), key);
                && var stored := StoredAfterInsert(prior, made.value);
                && root.Entries() == old(root.Entries())[key := stored]
                && valueByKey == old(valueByKey)[stored.id := made.value.value]
                && notified == old(notified) + Reported(prior, made.value)
                && nodeCount == old(nodeCount) + MissingOnPath(old(root), key)
    {
      ok := Add(node);
    }

    /** `InsertOrUpdate(List<INodeValue>)`: a null list throws before any
        record is added; otherwise each record is added in turn and the
        result says whether any was accepted. */
    method InsertOrUpdateMany(list: Option<seq<Option<NodeValueOptions<V>>>>) returns (r: Result<bool>)
      requires Valid()
      modifies this`root, this`nodeCount, this`valueByKey, this`nextId, this`notified
      ensures Valid()
      ensures list.None? ==> r == Failure(NullReference) && unchanged(this)
      ensures list.Some? ==> r.Success?
      ensures list.Some? ==> (r.value <==> exists k :: 0 <= k < |list.value| && Acceptable(list.value[k]))
      ensures list.Some? ==> root.Entries().Keys == old(root.Entries().Keys) + AcceptedKeys(list.value, ignoreCase)
    {
      if list.None? {
        return Failure(NullReference);
      }
      var nodes := list.value;
      var isInserted := false;
      var i := 0;
      while i < |nodes|
        invariant 0 <= i <= |nodes|
        invariant Valid()
        invariant ignoreCase == old(ignoreCase)
        invariant isInserted <==> AcceptedKeys(nodes[..i], ignoreCase) != {}
        invariant root.Entries().Keys == old(root.Entries().Keys) + AcceptedKeys(nodes[..i], ignoreCase)
      {
        ghost var keys := root.Entries().Keys;
        var ok := InsertOrUpdate(nodes[i]);
        BatchStep(nodes, i, ignoreCase, old(root.Entries().Keys), keys, root.Entries().Keys, isInserted, ok);
        if ok {
          isInserted := true;
        }
        i := i + 1;
      }
      assert nodes[..i] == nodes;
      AcceptedKeysNone(nodes, ignoreCase);
      r := Success(isInserted);
    }

    /** `Remove`: walks the path of `nv.text[index..]`; if a record ends there
        it is removed from the store, its identifier is scrubbed from the
        cached list of every node on the path, and nodes left without record
        and children are detached (and uncounted) on the way back; the result
        is `RemoveTrie`'s. */
    method Remove(node: TrieNode<V>, nv: NodeValue<V>, index: nat) returns (isDeleted: bool, deletedId: Id, r: TrieNode<V>)
      requires index <= |nv.text|
      modifies this`nodeCount, this`valueByKey
      ensures var res := RemoveTrie(node, nv.text, index, maxSuggestion);
              && r == res.node
              && isDeleted == res.removed.Some?
              && (isDeleted ==> deletedId == res.removed.value)
              && nodeCount == old(nodeCount) - res.detached
      ensures valueByKey == if isDeleted then old(valueByKey) - {deletedId} else old(valueByKey)
      decreases |nv.text| - index
    {
      if index == |nv.text| {
        if node.nodeValue.None? {
          return false, nv.id, node;
        }
        var id := node.nodeValue.value.id;
        var _ := RemoveValueById(id);
        r := RemoveFromRankList(node.(nodeValue := None), Some(nv.(id := id)));
        return true, id, r;
      }
      var c := nv.text[index];
      if c !in node.children {
        return false, nv.id, node;
      }
      var child := node.children[c];
      var k: TrieNode<V>;
      isDeleted, deletedId, k := Remove(child, nv, index + 1);
      if !isDeleted {
        return false, deletedId, node;
      }
      var m := node.(children := node.children[c := k]);
      if k.nodeValue.None? && |k.children| == 0 {
        m := node.(children := node.children - {c});
        nodeCount := nodeCount - 1;
      }
      r := RemoveFromRankList(m, Some(nv.(id := deletedId)));
    }

    /** `Delete`: builds a record from the caller's text (which throws on a
        missing record or blank text) and removes the record stored under that
        text as given, without normalising it. */
    method Delete(node: Option<NodeValueOptions<V>>) returns (r: Result<bool>)
      requires Valid()
      modifies this`root, this`nodeCount, this`valueByKey, this`nextId
      ensures Valid()
      ensures node.None? ==> r == Failure(NullReference)
      ensures node.Some? && IsNullOrWhiteSpace(node.value.text) ==> r == Failure(EmptyText)
      ensures r.Failure? ==> unchanged(this)
      ensures r.Success? ==> node.Some? && node.value.text.Some?
      ensures r.Success? ==> r.value == (node.value.text.value in old(root.Entries()))
      ensures r == Success(false) ==>
                root == old(root) && valueByKey == old(valueByKey) && nodeCount == old(nodeCount)
      ensures r == Success(true) ==>
                var text := node.value.text.value;
                var id := old(root.Entries())[text].id;
                && root.Entries() == old(root.Entries()) - {text}
                && valueByKey == old(valueByKey) - {id}
                && id !in root.ListIds()
    {
      if node.None? {
        return Failure(NullReference);
      }
      if IsNullOrWhiteSpace(node.value.text) {
        return Failure(EmptyText);
      }
      var id := FreshId();
      var nv := NewNodeValue(node.value, id).value;
      var isDeleted := RemoveRecord(nv);
      r := Success(isDeleted);
    }

    /** The tail of `Delete`: removes the record stored under the text of a
        record built for the purpose, if there is one. */
    method RemoveRecord(nv: NodeValue<V>) returns (isDeleted: bool)
      requires Indexed(root, nodeCount, valueByKey, nv.id) && nextId == nv.id + 1
      modifies this`root, this`nodeCount, this`valueByKey
      ensures Valid()
      ensures isDeleted == (nv.text in old(root.Entries()))
      ensures !isDeleted ==> root == old(root) && valueByKey == old(valueByKey) && nodeCount == old(nodeCount)
      ensures isDeleted ==>
                var id := old(root.Entries())[nv.text].id;
                && root.Entries() == old(root.Entries()) - {nv.text}
                && valueByKey == old(valueByKey) - {id}
                && id !in root.ListIds()
    {
      assert nv.text[0..] == nv.text;
      ghost var before := root;
      ghost var store := valueByKey;
      ghost var count := nodeCount;
      var deletedId;
      isDeleted, deletedId, root := Remove(root, nv, 0);
      RemoveKeepsIndex(before, count, store, nv.id, nv.text, nextId, maxSuggestion);
    }

    /** `Search`: the ranked identifiers below `node` whose path matches
        `text[index..]` with at most `Budget() - mismatchCount` substitutions;
        null for a null node. */
    method Search(node: Option<TrieNode<V>>, text: string, mismatchCount: int, index: nat)
      returns (result: Option<seq<Rank>>)
      requires index <= |text|
      requires 0 <= mismatchCount <= Budget()
      requires node.Some? ==> node.value.Valid()
      ensures result.None? <==> node.None?
      ensures result.Some? ==> Sorted(result.value)
      ensures result.Some? ==>
                RankIds(result.value) <= Matching(node.value.Entries(), text[index..], Budget() - mismatchCount)
      ensures result.Some? && index < |text| ==> |result.value| <= Cap(maxSuggestion)
      ensures node.Some? && index < |text| && allowedMismatchCount < 0 ==> result == Some([])
      decreases |text| - index
    {
      if node.None? {
        return None;
      }
      var n := node.value;
      var q := text[index..];
      if index == |text| {
        assert q == [];
        assert ([] in n.Entries() <==> n.nodeValue.Some?)
            && (n.nodeValue.Some? ==> n.Entries()[[]] == n.nodeValue.value) by {
          EntriesHolds(n);
        }
        if mismatchCount == 0 && n.nodeValue.Some? {
          var ranke := Rank(n.nodeValue.value.id, n.ownRank.weight);
          Singleton(ranke);
          SearchAtEnd(n.Entries(), [ranke], n.rankList, Budget() - mismatchCount, maxSuggestion);
          var merged := MergeRankList(Some([ranke]), Some(n.rankList), None);
          return Some(merged);
        }
        SearchAtEnd(n.Entries(), [], n.rankList, Budget() - mismatchCount, maxSuggestion);
        return Some(n.rankList);
      }
      ghost var k := Budget() - mismatchCount;
      var rootRankList: seq<Rank> := [];
      var current := text[index];
      assert q[0] == current && q[1..] == text[index + 1..];
      if mismatchCount == allowedMismatchCount {
        if current in n.children {
          var childNode := n.children[current];
          ChildLifted(n, current);
          var resultRankList := Search(Some(childNode), text, mismatchCount, index + 1);
          SearchStep(n.Entries(), current, childNode.Entries(), q, k, Budget() - mismatchCount,
                     rootRankList, resultRankList.value, maxSuggestion);
          rootRankList := MergeRankList(Some(rootRankList), resultRankList, None);
        }
      } else {
        var keys := n.children.Keys;
        while keys != {}
          invariant keys <= n.children.Keys
          invariant Sorted(rootRankList)
          invariant RankIds(rootRankList) <= Matching(n.Entries(), q, k)
          invariant |rootRankList| <= Cap(maxSuggestion)
          invariant allowedMismatchCount < 0 ==> rootRankList == []
          decreases keys
        {
          var key :| key in keys;
          keys := keys - {key};
          var childNode := n.children[key];
          if mismatchCount < allowedMismatchCount {
            var next := if key == current then mismatchCount else mismatchCount + 1;
            ChildLifted(n, key);
            var resultRankList := Search(Some(childNode), text, next, index + 1);
            SearchStep(n.Entries(), key, childNode.Entries(), q, k, Budget() - next,
                       rootRankList, resultRankList.value, maxSuggestion);
            rootRankList := MergeRankList(Some(rootRankList), resultRankList, None);
          }
        }
      }
      return Some(rootRankList);
    }

    /** `GetSuggestions`: a blank query returns the values of the root's
        cached list, all of them and in order; any other query returns the
        values of what `Search` finds, at most `maxSuggestion` of them, each
        the value of a record whose text matches the query within the
        substitution budget. */
    method GetSuggestions(text: Option<string>) returns (suggestions: seq<Payload<V>>)
      requires Valid()
      ensures IsNullOrWhiteSpace(text) ==> suggestions == Resolve(root.rankList, valueByKey)
      ensures IsNullOrWhiteSpace(text) ==>
                |suggestions| == |root.rankList|
                && forall i :: 0 <= i < |suggestions| ==> suggestions[i] == valueByKey[root.rankList[i].id]
      ensures !IsNullOrWhiteSpace(text) ==> |suggestions| <= Cap(maxSuggestion)
      ensures !IsNullOrWhiteSpace(text) ==>
                forall v :: v in suggestions ==>
                  exists s :: s in root.Entries() && FuzzyPrefix(s, text.value, Budget()) && root.Entries()[s].value == v
      ensures !IsNullOrWhiteSpace(text) && allowedMismatchCount < 0 ==> suggestions == []
    {
      var rankList: seq<Rank>;
      if IsNullOrWhiteSpace(text) {
        rankList := root.rankList;
      } else {
        var found := Search(Some(root), text.value, 0, 0);
        rankList := found.value;
        assert text.value[0..] == text.value;
      }
      suggestions := ResolveRanks(rankList, valueByKey);
      ResolveSound(rankList, valueByKey);
      if IsNullOrWhiteSpace(text) {
        ResolveAllPresent(rankList, valueByKey);
      } else {
        ResolvedMatch(root.Entries(), valueByKey, rankList, text.value, Budget());
      }
    }

    /** `Clear`: a fresh empty root, an empty store and a zero count; a
        non-positive maximum falls back to the default, and the mismatch
        count goes through the setter. */
    method Clear()
      modifies this`root, this`valueByKey, this`nodeCount, this`nextId, this`maxSuggestion, this`allowedMismatchCount
      ensures Valid() && root.Entries() == map[] && root.rankList == []
      ensures valueByKey == map[] && nodeCount == 0
      ensures maxSuggestion == if old(maxSuggestion) > 0 then old(maxSuggestion) else DEFAULT_MAX_SUGGESTION
      ensures allowedMismatchCount
              == MismatchSetting(if old(allowedMismatchCount) > 0 then old(allowedMismatchCount) else DEFAULT_MISMATCH_ALLOW)
    {
      var id := FreshId();
      root := NewTrieNode(id);
      NewTrieNodeEmpty<V>(id);
      valueByKey := map[];
      nodeCount := 0;
      maxSuggestion := if maxSuggestion > 0 then maxSuggestion else DEFAULT_MAX_SUGGESTION;
      SetAllowedMismatchCount(if allowedMismatchCount > 0 then allowedMismatchCount else DEFAULT_MISMATCH_ALLOW);
    }
  }
}
