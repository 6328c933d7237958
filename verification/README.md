# autocomplete-trie-search in Dafny

A model of the in-memory autocomplete index `AutoCompleteTrieSearch` and its
record types (`TrieNode`, `NodeValue`, `Rank`). Entries (text, value, weight)
live in a character trie. Every node caches a rank list of `(id, weight)`
pairs sorted by weight, and a store maps each record's identifier to its
value. The model covers these operations:

- **Insertion** walks or creates the text's path. It counts every node it
  creates, stores the record at the end of the path (or reinforces the one
  already there) and rebuilds the cached lists on the way back.
- **Deletion** clears the record at the end of the path, scrubs its
  identifier from every list on the path and prunes nodes left empty.
- **Search** follows the query with a bounded number of same-position
  substitutions.
- **Suggestions** resolve the ranked identifiers to stored values.

Every ranking step goes through `MergeRankList`, a capped merge of two sorted lists
with an optional excluded identifier.

The project has six modules:

- `Wrappers`: null and exceptions as `Option` and `Result`.
- `Text`: `IsNullOrWhiteSpace`, `Trim` and `ToLower`.
- `TrieNodes`: records, ranks, trie nodes and what a node holds (`Entries`,
  `Paths`, `Size`, `Valid`).
- `RankMerge`: the merge as a function, with its guarantees and
  non-guarantees.
- `FuzzyMatch`: what a bounded-substitution query matches.
- `AutoComplete`: the index class and the specification functions its
  recursive methods are proved against (`InsertTrie`, `RemoveTrie`,
  `Resolve`).

The class invariant `Valid()` (`Indexed`) has three parts:

- the trie is valid: every own rank mirrors its record, and every cached
  list is sorted and names only records of its subtree;
- `nodeCount` is the number of nodes besides the root;
- the store holds exactly the identifiers of the records, each mapped to its
  record's value, with identifiers unique and drawn from the supply.

Every public operation keeps this invariant.

## Model

| member | source | states |
|---|---|---|
| Text.TrimShape | autocomplete-trie-search/AutoCompleteTrieSearch.cs:215-218 | `Trim` returns a slice of the text: everything cut from either end is white space, and neither end of the result is white space |
| Text.TrimEmptyIff | autocomplete-trie-search/AutoCompleteTrieSearch.cs:210-218 | trimming leaves nothing exactly when the text is all white space |
| Text.NormalizeKeepsContent | autocomplete-trie-search/AutoCompleteTrieSearch.cs:210-221 | a text that passed `Add`'s blank check is still not blank after trimming and lower-casing, so building its record cannot throw; in case-insensitive mode the stored key has no white space at either end |
| Text.NormalizeIdempotent | autocomplete-trie-search/AutoCompleteTrieSearch.cs:215-218 | normalising an already normalised key changes nothing, in either mode |
| Text.ToLowerShape | autocomplete-trie-search/AutoCompleteTrieSearch.cs:217 | lower-casing keeps the length and the white-space positions and is idempotent |
| TrieNodes.Inc32 | autocomplete-trie-search/AutoCompleteTrieSearch.cs:244 | `Weight++` on an `int` adds one below `int.MaxValue` and wraps to `int.MinValue` at it |
| TrieNodes.NewNodeValue | autocomplete-trie-search/TrieNode.cs:31-42 | the record fails with "Text can't be empty" exactly when the text is null or blank. Otherwise it keeps the text and takes the fresh identifier. Its value is the caller's value, or the text when none is given. A weight of 0 becomes 1 and any other weight, negative ones included, is kept |
| TrieNodes.NewTrieNodeEmpty | autocomplete-trie-search/TrieNode.cs:12-18 | a new node (empty list, no children, no record, own rank of weight 0) is valid, holds no record and no listed identifier, has only the empty path and counts as one node |
| RankMerge.MergeBound | autocomplete-trie-search/AutoCompleteTrieSearch.cs:432-483 | the merge never has more entries than the cap (none when the cap is not positive), nor more than both inputs together |
| RankMerge.MergePicks | autocomplete-trie-search/AutoCompleteTrieSearch.cs:432-483 | every merged entry is taken from one of the two lists, and each list's entries keep their relative order |
| RankMerge.MergeMembers | autocomplete-trie-search/AutoCompleteTrieSearch.cs:432-483 | every merged entry, and so every merged identifier, occurs in one of the inputs |
| RankMerge.MergeExcludes | autocomplete-trie-search/AutoCompleteTrieSearch.cs:439-479 | with an identifier to ignore, no merged entry carries it |
| RankMerge.MergeSorted | autocomplete-trie-search/AutoCompleteTrieSearch.cs:447-456 | two lists with non-increasing weights merge into a list with non-increasing weights |
| RankMerge.MergeFirstListWinsTies | autocomplete-trie-search/AutoCompleteTrieSearch.cs:447-451 | when every entry of the first list weighs at least as much as every entry of the second (under other identifiers), the merge is the first list followed by the second, cut to the cap: ties go to the first list |
| RankMerge.SameIdDropsFirst | autocomplete-trie-search/AutoCompleteTrieSearch.cs:435-438 | for all inputs: when both heads carry the same identifier, the first list's head is dropped whatever the weights, and the merge goes on with the rest of the first list and all of the second. A heavier head that is its identifier's only entry in either list is then absent from the result |
| RankMerge.ScrubIsFilteredPrefix | autocomplete-trie-search/AutoCompleteTrieSearch.cs:298 | merging a list with the empty list under an exclusion gives the list without that identifier, in order, cut to the cap |
| RankMerge.ReinforceInPlace | autocomplete-trie-search/AutoCompleteTrieSearch.cs:301-313 | merging a raised own rank into a sorted list replaces the stale copy in place. This holds when the list has exactly one lighter copy of the identifier and every earlier entry is at least as heavy |
| RankMerge.StaleCopySurvives | autocomplete-trie-search/AutoCompleteTrieSearch.cs:435-456 | an example showing that the merge does not deduplicate: merging the rank O:2 into [B:1, O:1] keeps two entries for O, [O:2, B:1, O:1] |
| RankMerge.AliasedReinforceUnsorted | autocomplete-trie-search/AutoCompleteTrieSearch.cs:241-313 | an example with ranks shared as in the source. Raising O in place turns the node's list [B:1, O:1] into [B:1, O:2], and merging the raised O into it gives [O:2, B:1, O:2]: the same record twice, and out of weight order |
| RankMerge.MergeOntoAppends | autocomplete-trie-search/AutoCompleteTrieSearch.cs:432-483 | the three loops' accumulator form is the accumulator followed by the merge, under the cap left after it |
| FuzzyMatch.MismatchesFacts | autocomplete-trie-search/AutoCompleteTrieSearch.cs:400-402 | the substitution count is at most the length, zero exactly for equal texts, and symmetric |
| FuzzyMatch.FuzzyStep | autocomplete-trie-search/AutoCompleteTrieSearch.cs:395-408 | a record below edge `c` matches the query at the parent exactly when its rest matches the rest of the query. The budget loses nothing when `c` is the query's character and exactly one otherwise |
| FuzzyMatch.MatchingLifted | autocomplete-trie-search/AutoCompleteTrieSearch.cs:384-408 | what matches below a child, with the edge's cost taken from the budget, matches at the parent |
| FuzzyMatch.MatchingEmptyQuery | autocomplete-trie-search/AutoCompleteTrieSearch.cs:352-376 | once the query is used up, every record below the node matches, for any budget that is not negative |
| FuzzyMatch.ExactPrefixMatches | autocomplete-trie-search/AutoCompleteTrieSearch.cs:344-413 | a text that starts with the query matches it under any budget that is not negative |
| FuzzyMatch.OneSubstitutionBoundary | autocomplete-trie-search/AutoCompleteTrieSearch.cs:382-408 | an example of the matching predicate that `Search`'s results are held to: with one substitution allowed, it admits "cat" for the query "cbt" and rejects it for "cow" |
| AutoComplete.MismatchSetting | autocomplete-trie-search/AutoCompleteTrieSearch.cs:69-81 | the setter's result is never 0 and never above the default 3. The value given is kept exactly when it is neither 0 nor above 3, so negative values are kept |
| AutoComplete.ReportedAtFind | autocomplete-trie-search/AutoCompleteTrieSearch.cs:241-250 | in a valid trie the callback receives something exactly when a record already ends the path: the incoming record, carrying the stored record's weight plus one |
| AutoComplete.StoreHereSpec | autocomplete-trie-search/AutoCompleteTrieSearch.cs:239-260 | storing at a valid node keeps it valid and changes only the record at the empty suffix. A re-insertion keeps the identifier and text, takes the new value and raises the weight by one; otherwise the new record is stored. No path or node is added |
| AutoComplete.InsertTrieSpec | autocomplete-trie-search/AutoCompleteTrieSearch.cs:229-288 | insertion keeps a valid node valid and changes only the record at the inserted suffix. Every prefix of the suffix becomes a path, and no other path appears. The node count grows by exactly the number of identifiers drawn |
| AutoComplete.InsertDrawsPerMissing | autocomplete-trie-search/AutoCompleteTrieSearch.cs:263-278 | insertion creates one node, drawing one identifier, per character of the path that has no node yet, and no more |
| AutoComplete.RemoveTrieSpec | autocomplete-trie-search/AutoCompleteTrieSearch.cs:156-205 | removal succeeds exactly when a record is stored at the suffix, and then returns that record's identifier. The node stays valid and loses only that record. The identifier leaves the node's list. Only non-empty prefixes of the suffix stop being paths, one node per detached node. On failure nothing changes |
| AutoComplete.RemovedHere | autocomplete-trie-search/AutoCompleteTrieSearch.cs:165-176 | at the end of the path a removal succeeds exactly when the node holds a record. Clearing it and scrubbing its identifier keeps the node valid, removes only the record at the empty suffix and keeps every path |
| AutoComplete.RemovedBelow | autocomplete-trie-search/AutoCompleteTrieSearch.cs:189-201 | after a removal below child `c`, the parent scrubs the identifier and loses only that record. It detaches the child exactly when the child has neither record nor children, losing one more node |
| AutoComplete.DetachedBelow | autocomplete-trie-search/AutoCompleteTrieSearch.cs:195-199 | a child left without record and children is a single node, and detaching it removes exactly its nodes |
| AutoComplete.ResolveRanks | autocomplete-trie-search/AutoCompleteTrieSearch.cs:330-339 | the suggestion loop returns, in list order, the stored value of each listed identifier the store holds |
| AutoComplete.ResolveSound | autocomplete-trie-search/AutoCompleteTrieSearch.cs:333-339 | there are never more suggestions than listed identifiers, and each is the stored value of one of them |
| AutoComplete.ResolveAllPresent | autocomplete-trie-search/AutoCompleteTrieSearch.cs:320-339 | when the store holds every listed identifier, the suggestions map the list position by position |
| AutoComplete.ResolvedMatch | autocomplete-trie-search/AutoCompleteTrieSearch.cs:325-339 | when every listed identifier is that of a matching record, every suggestion is a matching record's value |
| AutoComplete.AcceptedKeysNone | autocomplete-trie-search/AutoCompleteTrieSearch.cs:132-143 | a batch stores some key exactly when at least one of its records is accepted |
| AutoComplete.BatchStep | autocomplete-trie-search/AutoCompleteTrieSearch.cs:135-141 | one round of the batch loop adds the next record's key to those stored so far. It sets the flag exactly when some record so far was accepted |
| AutoComplete.SearchStep | autocomplete-trie-search/AutoCompleteTrieSearch.cs:395-408 | merging one child's result into what was collected keeps the list sorted and within the cap. Every identifier in it still belongs to a record that matches at the parent |
| AutoComplete.SearchAtEnd | autocomplete-trie-search/AutoCompleteTrieSearch.cs:352-376 | at the end of the query the node's list matches, with or without the node's own rank merged in, and stays sorted |
| AutoComplete.InsertedIds | autocomplete-trie-search/AutoCompleteTrieSearch.cs:241-257 | after an insertion under a fresh identifier, the store's keys are still exactly the records' identifiers |
| AutoComplete.InsertedUnique | autocomplete-trie-search/TrieNode.cs:41 | an insertion under a freshly drawn identifier leaves no two records sharing an identifier |
| AutoComplete.InsertedValues | autocomplete-trie-search/AutoCompleteTrieSearch.cs:243-256 | after an insertion the store maps every record's identifier to that record's value |
| AutoComplete.ConsistentAfterInsert | autocomplete-trie-search/AutoCompleteTrieSearch.cs:241-257 | an insertion keeps records and store in step. A re-insertion moves the new value under the kept identifier; a first insertion adds it under the fresh one |
| AutoComplete.ConsistentAfterRemove | autocomplete-trie-search/AutoCompleteTrieSearch.cs:171-173 | removing a record and its identifier from the store keeps them in step, and no other record carries that identifier |
| AutoComplete.InsertKeepsIndex | autocomplete-trie-search/AutoCompleteTrieSearch.cs:221-288 | inserting a record under the next identifier keeps the index invariant and stores the record under its text. The node count is raised by the number of nodes created |
| AutoComplete.RemoveKeepsIndex | autocomplete-trie-search/AutoCompleteTrieSearch.cs:152-205 | removing under a text succeeds exactly when a record is stored there. It keeps the index invariant, lowers the node count by the nodes detached and leaves the identifier in no cached list. Otherwise nothing changes |
| AutoComplete.AutoCompleteTrieSearch.constructor | autocomplete-trie-search/AutoCompleteTrieSearch.cs:20-28 | a new index is empty and valid, with the defaults: 10 suggestions, case-insensitive, 3 mismatches |
| AutoComplete.AutoCompleteTrieSearch.WithOptions | autocomplete-trie-search/AutoCompleteTrieSearch.cs:30-38 | each option that is given is taken as is, without the setter's normalisation, and each missing one takes its default |
| AutoComplete.AutoCompleteTrieSearch.FreshId | autocomplete-trie-search/TrieNode.cs:41 | every identifier drawn is new: the supply only moves forward |
| AutoComplete.AutoCompleteTrieSearch.SetAllowedMismatchCount | autocomplete-trie-search/AutoCompleteTrieSearch.cs:69-81 | the field becomes the setter's normalisation of the value |
| AutoComplete.AutoCompleteTrieSearch.UpdateOptions | autocomplete-trie-search/AutoCompleteTrieSearch.cs:40-44 | a null options object throws a null reference and changes nothing. Otherwise a given maximum is taken as is, the mismatch count, given or current, goes through the setter, and nothing else changes |
| AutoComplete.AutoCompleteTrieSearch.AddValueById | autocomplete-trie-search/AutoCompleteTrieSearch.cs:119-125 | a value is stored only under an identifier the store does not hold yet |
| AutoComplete.AutoCompleteTrieSearch.RemoveValueById | autocomplete-trie-search/AutoCompleteTrieSearch.cs:127-130 | the identifier leaves the store, and the result says whether it was there |
| AutoComplete.AutoCompleteTrieSearch.MergeRankList | autocomplete-trie-search/AutoCompleteTrieSearch.cs:415-486 | the three loops compute `Merge`, with null lists taken as empty; the `RankMerge` lemmas give its guarantees |
| AutoComplete.AutoCompleteTrieSearch.AppendRest | autocomplete-trie-search/AutoCompleteTrieSearch.cs:459-483 | the draining loops append the rest of one list in order, skipping the excluded identifier, until the cap is reached |
| AutoComplete.AutoCompleteTrieSearch.UpdateRankList | autocomplete-trie-search/AutoCompleteTrieSearch.cs:301-313 | the own rank is merged into the node's list. The list stays sorted and within the cap, and names nothing new besides the own rank |
| AutoComplete.AutoCompleteTrieSearch.RemoveFromRankList | autocomplete-trie-search/AutoCompleteTrieSearch.cs:291-299 | a null record changes nothing. Otherwise the list becomes itself without that identifier, in order and cut to the cap, and stays sorted |
| AutoComplete.AutoCompleteTrieSearch.InsertInToTrie | autocomplete-trie-search/AutoCompleteTrieSearch.cs:229-288 | the rebuilt node is `InsertTrie`'s, and the node count grows by the number of nodes created. The store changes as `AddValueById`/`RemoveValueById` dictate for the record found at the path's end. The callback fires exactly on a re-insertion |
| AutoComplete.AutoCompleteTrieSearch.StoreAt | autocomplete-trie-search/AutoCompleteTrieSearch.cs:239-260 | the end-of-path node becomes `StoreHere`'s. A re-insertion puts the new value under the kept identifier and fires the callback once; a first insertion stores the value under the new identifier and fires nothing |
| AutoComplete.AutoCompleteTrieSearch.Add | autocomplete-trie-search/AutoCompleteTrieSearch.cs:207-227 | `Add` returns true exactly for a non-null record with non-blank text, and otherwise changes nothing. The record, normalised only in case-insensitive mode, lands under its key with the stored identifier kept on a re-insertion. The store takes the value under that identifier, and the callback fires exactly on a re-insertion. The node count rises by the number of missing path characters, and the invariant holds |
| AutoComplete.AutoCompleteTrieSearch.InsertRecord | autocomplete-trie-search/AutoCompleteTrieSearch.cs:221-223 | the tail of `Add`: the record lands under its text, the store and callback change as for `Add`, and the node count rises by the missing path characters |
| AutoComplete.AutoCompleteTrieSearch.InsertOrUpdate | autocomplete-trie-search/AutoCompleteTrieSearch.cs:145-148 | everything `Add` promises: true exactly for an accepted record, otherwise no change. The record lands under its key with the stored identifier kept and the weight raised on a re-insertion. The store takes the value, the callback fires exactly on a re-insertion, and the node count rises by the missing path characters. The stored keys grow by exactly the record's key |
| AutoComplete.AutoCompleteTrieSearch.InsertOrUpdateMany | autocomplete-trie-search/AutoCompleteTrieSearch.cs:132-143 | a null list throws a null reference and changes nothing. Otherwise the result is true exactly when at least one record is accepted, and the stored keys grow by exactly the accepted records' keys |
| AutoComplete.AutoCompleteTrieSearch.Remove | autocomplete-trie-search/AutoCompleteTrieSearch.cs:156-205 | the rebuilt node, the result and the removed identifier are `RemoveTrie`'s. The node count drops by the nodes detached, and the store loses exactly the removed identifier |
| AutoComplete.AutoCompleteTrieSearch.Delete | autocomplete-trie-search/AutoCompleteTrieSearch.cs:150-154 | a null record throws a null reference, and blank text throws "Text can't be empty"; both leave the index unchanged. Otherwise the text is looked up as given, and the result says whether a record was stored under it. On success that record and its identifier leave the trie, the store and every cached list, and the invariant holds |
| AutoComplete.AutoCompleteTrieSearch.RemoveRecord | autocomplete-trie-search/AutoCompleteTrieSearch.cs:152-153 | the tail of `Delete`: it removes the record stored under the text, if any, keeping the invariant; otherwise it changes nothing |
| AutoComplete.AutoCompleteTrieSearch.Search | autocomplete-trie-search/AutoCompleteTrieSearch.cs:344-413 | a null node gives null and any other node gives a list. The list is sorted and names only records whose text matches the rest of the query with at most the remaining substitutions. Below the end of the query it is within the cap. With a negative allowed count, every call that still has query characters returns an empty list, since neither comparison at lines 382 and 400 lets a child be followed. The mismatch counter never exceeds the budget on any call: the allowed count, or 0 when that is negative |
| AutoComplete.AutoCompleteTrieSearch.GetSuggestions | autocomplete-trie-search/AutoCompleteTrieSearch.cs:315-342 | a blank query returns, in order, the stored value of every identifier in the root's list. Any other query returns at most the maximum number of values, each the value of a record whose text starts with the query up to the allowed substitutions. With a negative allowed count a non-blank query returns nothing |
| AutoComplete.AutoCompleteTrieSearch.Clear | autocomplete-trie-search/AutoCompleteTrieSearch.cs:488-495 | the trie, store and count are reset. A non-positive maximum falls back to 10, the mismatch count goes through the setter (a non-positive one first becomes 3), and the index stays valid |

## Behaviour of the code worth knowing

In these places the code does not do what its names and its role as a
ranked index suggest; the model does what the code does.

- `Delete` does not normalise its text (AutoCompleteTrieSearch.cs:150-153).
  In case-insensitive mode, a text inserted as " Foo " is stored as "foo".
  Deleting " Foo " then finds nothing.
- `Delete` on a null record or blank text throws: a null reference, or
  "Text can't be empty" from the `NodeValue` constructor. It does not return
  false.
- The cached lists are not kept as the exact top entries of their subtree.
  - A deletion only scrubs the identifier and never refills the list.
  - The merge drops an entry only when both heads carry the same identifier
    (`SameIdDropsFirst`), so it does not deduplicate in general.
  - A re-insertion raises the weight of the record's `Rank` object in place,
    and that object is shared by every list that names it. Merging it into
    the node's list again leaves the same object in the list twice, with
    lighter entries between the two (`AliasedReinforceUnsorted`).
  - `Valid` therefore claims only that each list names records of its
    subtree, and is sorted in the value model (see "Left out").
- The update callback receives the incoming record with the raised weight.
  It carries the identifier freshly drawn for that record, not the stored
  record's identifier (AutoCompleteTrieSearch.cs:248-249).
- The options constructor stores the mismatch count without the setter's
  correction, so 0 or a value above 3 is kept. The setter itself keeps
  negative values. A negative count makes every non-blank query return no
  suggestions. `Search` follows a child only when the counter equals the
  allowed count (line 382) or is below it (line 400). A counter starting
  at 0 is neither, so no child is visited.
- `GetSuggestions` passes the query to `Search` as given (line 327). It is
  neither trimmed nor lower-cased, although keys are in case-insensitive
  mode. An upper-case or white-space character in the query does not match
  the stored key, so it uses up a substitution. "Ca" reaches "cat" only by
  spending one of the allowed substitutions, and finds nothing when the
  allowed count is 0.
- Weights are not kept at 1 or more: a negative caller weight is stored as
  given.

## Left out

- Identifiers: `Guid.NewGuid()` is a counter, `nextId`. Each record, and
  each node's own rank, draws the next value.
  - The `Rank` built in `Search` (line 358) has its identifier overwritten at
    once, so it draws none.
  - The root's own rank takes identifier 0 in the constructors and draws one
    in `Clear`.
- The update callback is a ghost log `notified` of the records it receives.
  Registering it (`OnUpdate`, lines 46-57) and calling a delegate are not
  modelled.
- Text is a sequence of Unicode scalar values (Dafny's `char`), not of UTF-16
  code units as a C# `string` is. The trie, the node count and the
  substitution count therefore differ from the source on text outside the
  Basic Multilingual Plane:
  - the source walks such a character as two surrogate edges through two
    nodes, where the model has one edge and one node;
  - a substitution there costs one per code unit in the source and one per
    character in the model;
  - a lone surrogate, which a C# string can hold, cannot be written in the
    model.
  On text made only of Basic Multilingual Plane characters the two agree.
- `ToLower` folds ASCII letters only: culture-sensitive case mapping is not
  modelled. `Trim` and `IsNullOrWhiteSpace` use .NET's white-space
  characters.
- Values are a type parameter (`Payload<V>`), not `object`. A missing value
  falls back to the text.
- Nodes and ranks are values, not objects updated in place. The source
  mutates each node on the path and shares `Rank` objects between a node's
  own rank and the cached lists (lines 244, 283, 308). The model rebuilds
  the nodes on the path instead. So it does not capture:
  - aliasing: the in-place `Weight++` also changes entries of ancestor lists;
  - identity: a node is known by its place in the trie.
- `Add` overwrites the text of the caller's object (line 217). The model
  normalises a copy, and the caller's record is unchanged.
- The guards `rootNode == null` and `index > Text.Length` in `Remove` and
  `InsertInToTrie` (lines 159 and 232) can never fire from `Add` or
  `Delete`. The model requires a node and an index within the text instead.
  The same holds for `childNode != null` at line 281.
- `Search` visits the children in an arbitrary order: the loop picks any
  remaining key. Dictionary enumeration order is not modelled, and every
  contract holds for every order.
- `MAX_WEIGHT` (line 10) is never used by the code and is not modelled.
  `nodeCount`, `maxSuggestion` and the mismatch counts are unbounded
  integers. Weights are 32-bit, with the wrap-around of `++`.
- The getters `GetNodeCount`, `GetRoot`, `GetMaxSuggestion` and
  `IgnoreCase` read one field each and are left as field reads. The
  interface declarations and the timing tests are not part of this model.
- AutoComplete.AutoCompleteTrieSearch.InsertOrUpdateMany: the source's loop
  calls `Add` on each record; the model calls `InsertOrUpdate`, which is
  `Add` and nothing else. The contract states the null-list failure, the
  result and the set of stored keys. The per-record effects on values,
  weights and the callback are those of `InsertOrUpdate`, and are not
  restated for the batch.
- AutoComplete.AutoCompleteTrieSearch.Add: the new paths and cached lists
  are not restated in its contract. `InsertTrieSpec` and `InsertKeepsIndex`
  state them for the trie that `Add` builds.
- AutoComplete.AutoCompleteTrieSearch.GetSuggestions: no length bound is
  stated for a blank query. The root's list is returned as is, and after
  `UpdateOptions` lowers the maximum it can be longer than the new maximum.
- AutoComplete.AutoCompleteTrieSearch.Search: the cap on the result is
  stated only while query characters remain. At the end of the query the
  node's list is returned as is (see `GetSuggestions`).
- AutoComplete.AutoCompleteTrieSearch.Search: the contract states soundness
  only, meaning every identifier returned belongs to a matching record. It
  does not promise that a given matching record is returned, because the
  cached lists are capped and not exact top lists.
- AutoComplete.AutoCompleteTrieSearch.Search and `Valid`: the sortedness of
  the cached lists and of search results, the weights the lists show and the
  order of suggestions are properties of the value model, where ranks are
  not shared. Example, with maximum 10: insert "ab" with weight 1 (record
  B), then "a" with weight 1 (record O), then "a" again.
  - In the source the "a" node's list becomes [O:2, B:1, O:2]: one object
    twice, out of order (`AliasedReinforceUnsorted`). Lists above it and the
    suggestions built from them inherit the duplicate and the disorder.
  - In the model it is [O:2, B:1, O:1], which is sorted
    (`StaleCopySurvives`).
