# Triplets from an orthogroup gene tree

This project models `get_combinatorial_triplets` from `og_tree_to_table.py`
(eaton-lab 1n2n-scripts) and proves what it computes. Given a rooted gene tree
and the orthogroup id, the function walks up from every ingroup tip:

- It first finds the nearest level whose sister subtrees hold leaves starting with
  `C_prot`.
- From the level above that, it finds the nearest level whose sister subtrees
  hold leaves starting with `G_dry`.
- It emits one row (OG, ingroup, sister, outgroup) per sister/outgroup pair,
  deleting the first underscore of each name when `relabel` is set.
- With no rows it returns None.
- Otherwise it returns the rows with two group-id columns, sorted by
  (sister, outgroup, ingroup) and numbered from 0.

Modules, one per file:

- `wrappers.dfy`: `Wrappers`, the Option datatype.
- `seqs.dfy`: `Seqs`, sequences in which no element occurs twice.
- `names.dfy`: `Names`, covering prefix tests, `replace("_", "", 1)` and
  Python's string order.
- `tree.dfy`: `GeneTree`, the tree as a toytree-style node arena:
  - tips first;
  - every parent above its children;
  - no child listed twice;
  - the root last.

  It also defines `get_sisters`, `get_leaf_names` and the path to the root.
- `search.dfy`: `Search`, the two `while trace.up` ascents. They are specified
  by `Ascend` over a table of what each level collects. The lemmas say which
  level each ascent finds and where it leaves `trace`.
- `emit.dfy`: `Emit`, the nested sister and outgroup loops as `Cross`. It gives
  their layout and the effect of relabelling.
- `triplets.dfy`: `Triplets`, `Rows` (everything `data` holds after the tip loop)
  and the imperative core. The core consists of methods with loops, each proved
  against those functions; `GetCombinatorialTriplets` (the function itself) is
  among them.
- `table.dfy`: `TripletTable`, the DataFrame post-processing as functions on a
  sequence of rows:
  - sorting (an insertion sort);
  - the `ngroup` ids;
  - renumbering, which is implicit because a row's index is its position.
- `scenario.dfy`: `Scenario`, a worked tree `((C_frag1, C_prot1), G_dry1)` that
  gives exactly one row.

The model follows what the code does, including where that is easy to
misread:

- **Hard-coded prefixes.** The sister and outgroup tests use the literals
  `"C_prot"` (line 57) and `"G_dry"` (line 68). The arguments `sister_prefix` and
  `outg_prefix` are never read. `GetCombinatorialTriplets` takes them and its
  result does not depend on them. The search functions are stated for any
  prefixes `sp` and `op`; the method uses the two literals.
- **No outgroup-too-soon abort.** Outgroup leaves met during the sister ascent
  are ignored, and there is no "outgroup arrived too soon" abort.
- **Where the outgroup search starts.** `trace = trace.up` runs before the
  `break` (lines 59-61). So the outgroup search starts at the parent of the
  level where sisters were found, not at that level.
- **Sister search reaching the root.** `trace` is then the root, so the
  outgroup loop never runs and that tip gets no rows.
- **Unique triplets.** The module docstring promises all unique triplets, and
  nothing in the code removes duplicates. They are unique by construction when
  the tip names are pairwise different and `relabel` is off (`RowsDistinct`).
  One tip's sister subtrees are disjoint, and rows of different tips differ in
  their ingroup name. With repeated tip names, or with relabelling that maps two
  names to one, a row can occur twice.

## Model

| member | source | states |
|---|---|---|
| Names.RelabelFirstUnderscore | og_tree_to_table.py:79-80 | when the first underscore of a name is at position i, relabelling deletes exactly that character and keeps the rest in order |
| Names.RelabelNoUnderscore | og_tree_to_table.py:79-80 | a name without an underscore is left unchanged |
| Names.RelabelLength | og_tree_to_table.py:79-80 | relabelling shortens a name by one exactly when it contains an underscore |
| Names.LexLeReflexive | og_tree_to_table.py:95 | Python's string order is reflexive |
| Names.LexLeAntisymmetric | og_tree_to_table.py:95 | strings each `<=` the other are equal |
| Names.LexLeTransitive | og_tree_to_table.py:95 | the string order is transitive |
| Names.LexLeTotal | og_tree_to_table.py:95 | any two strings are comparable |
| GeneTree.WithoutMembership | og_tree_to_table.py:54 | removing a node from a children list keeps exactly the other elements |
| GeneTree.SistersOf | og_tree_to_table.py:54 | `get_sisters` returns arena nodes; the root has none |
| GeneTree.SistersOfMembership | og_tree_to_table.py:54 | the sisters of a node are exactly the other children of its parent; each lies in the arena and shares the node's parent |
| GeneTree.Path | og_tree_to_table.py:52-59 | the nodes `trace` visits start at the tip, stay in the arena and end at the root |
| GeneTree.PathFollowsParents | og_tree_to_table.py:59 | each node on the path is followed by its parent (`trace = trace.up`) |
| GeneTree.PathAscends | og_tree_to_table.py:53-70 | indices strictly increase along the path, so both ascents terminate at the root |
| GeneTree.PathSuffix | og_tree_to_table.py:63-70 | the path from a node on the path is the rest of that path, so the outgroup ascent continues the sister ascent's path |
| GeneTree.SistersDistinct | og_tree_to_table.py:54 | `get_sisters` lists no node twice |
| GeneTree.LeafNamesMembership | og_tree_to_table.py:56 | `get_leaf_names` of a node lists the names of exactly the tips whose path to the root passes through that node |
| GeneTree.SiblingsApart | og_tree_to_table.py:53-59 | two different nodes with the same parent never lie on one tip's path |
| GeneTree.SiblingLeavesDisjoint | og_tree_to_table.py:54-56 | with distinct tip names, two different sisters' subtrees share no leaf name |
| GeneTree.LeafNamesDistinct | og_tree_to_table.py:56 | with distinct tip names, `get_leaf_names` lists every leaf once |
| Search.MatchingMembership | og_tree_to_table.py:56-58 | a name is collected from a subtree's leaves exactly when it is a leaf there and starts with the prefix |
| Search.CandidateMatchesMembership | og_tree_to_table.py:55-58 | a name is collected from a list of subtrees exactly when it has the prefix and is a leaf of one of them |
| Search.LevelMatchesMembership | og_tree_to_table.py:54-58 | one level collects exactly the prefixed leaves of the node's sister subtrees |
| Search.Ascend | og_tree_to_table.py:53-61 | an ascent stops at or above its start; when it collects nothing it stops at the root |
| Search.AscendFindsNearestLevel | og_tree_to_table.py:52-61 | an ascent collects exactly the level of the lowest node on the path with a nonempty level, and nothing above it, and stops at that node's parent; it collects nothing and stops at the root exactly when no node below the root has a nonempty level |
| Search.AscendFromPosition | og_tree_to_table.py:63-72 | an ascent started part-way up the tip's path finds the lowest nonempty level at or above its start, or nothing when there is none below the root |
| Search.ChainedAscents | og_tree_to_table.py:51-72 | the outgroup ascent starts at the parent of the sister level k; it finds the lowest nonempty outgroup level m > k, or nothing exactly when there is none; if the sister ascent found nothing, the outgroup ascent finds nothing |
| Search.SearchFoundPrefixed | og_tree_to_table.py:57-68 | everything an ascent collects starts with its prefix |
| Search.MatchingDistinct | og_tree_to_table.py:56-58 | filtering a list of names without repetition by prefix keeps it without repetition |
| Search.CandidateMatchesDistinct | og_tree_to_table.py:55-58 | with distinct tip names, the prefixed leaves of different children of one parent are collected once each |
| Search.LevelMatchesDistinct | og_tree_to_table.py:54-58 | with distinct tip names, one level collects each name at most once |
| Search.SearchFoundDistinct | og_tree_to_table.py:51-72 | with distinct tip names, neither `sisters` nor `outgroups` holds a name twice |
| Emit.PairsLayout | og_tree_to_table.py:77-83 | the inner loop emits one row per outgroup, in the outgroups' order |
| Emit.CrossLength | og_tree_to_table.py:75-83 | the nested loops emit \|sisters\| x \|outgroups\| rows |
| Emit.CrossAt | og_tree_to_table.py:76-83 | the pair (a, b) is row `Times(a, \|outgroups\|) + b` (a x \|outgroups\| + b, by `TimesIsProduct`), built from sister a and outgroup b |
| Emit.CrossAtProduct | og_tree_to_table.py:76-83 | the pair (a, b) is row a * \|outgroups\| + b, built from sister a and outgroup b |
| Emit.PairsDistinct | og_tree_to_table.py:77-83 | without relabelling, different outgroups give different rows |
| Emit.CrossDistinct | og_tree_to_table.py:76-83 | without relabelling, sisters and outgroups listed once each give rows emitted once each |
| Emit.ConcatDistinct | og_tree_to_table.py:41-83 | blocks that repeat no row and share no row concatenate without repetition |
| Emit.PairsMembership | og_tree_to_table.py:77-83 | a row is emitted for a sister exactly when it is built from that sister and one of the outgroups |
| Emit.CrossMembership | og_tree_to_table.py:76-83 | a row is emitted exactly when it is built from one of the sisters and one of the outgroups |
| Emit.CrossRelabel | og_tree_to_table.py:79-83 | relabelled rows are the unrelabelled rows with each name relabelled |
| Emit.ConcatMembership | og_tree_to_table.py:41-83 | appending the tips' rows in turn keeps exactly the rows of some tip |
| Triplets.TipRowsLength | og_tree_to_table.py:44-83 | an ingroup tip whose two searches both succeed gets its sisters crossed with its outgroups, \|sisters\| x \|outgroups\| rows; any other tip gets none |
| Triplets.TipRowsAt | og_tree_to_table.py:75-83 | row a * \|outgroups\| + b of such a tip carries the OG id, the tip's name, sister a and outgroup b |
| Triplets.TipRowsMembership | og_tree_to_table.py:43-83 | a row belongs to a tip exactly when it is built from that ingroup tip, one of its sisters and one of its outgroups |
| Triplets.RowsMembership | og_tree_to_table.py:40-83 | a row is collected exactly when it is built from some ingroup tip, one sister and one outgroup that the two searches of that tip collected |
| Triplets.RowsPrefixed | og_tree_to_table.py:44-68 | without relabelling, every row carries the OG id; its ingroup, sister and outgroup names start with the three prefixes |
| Triplets.TipRowsIngroup | og_tree_to_table.py:82-83 | without relabelling, every row of a tip carries that tip's name as its ingroup |
| Triplets.RowsDistinct | og_tree_to_table.py:40-83 | with distinct tip names and relabel off, `data` holds no row twice |
| Triplets.NoIngroupNoRows | og_tree_to_table.py:41-45 | a tree with no tip starting with the ingroup prefix yields no rows |
| Triplets.RowsRelabel | og_tree_to_table.py:79-83 | with relabel, the rows are the rows without relabel with every name relabelled; the searches use the original names |
| Triplets.AppendMatching | og_tree_to_table.py:56-58 | the loop over a subtree's leaves appends exactly its prefixed leaves, in order |
| Triplets.ScanSisters | og_tree_to_table.py:54-58 | one pass over the sister subtrees appends exactly what that level collects |
| Triplets.Climb | og_tree_to_table.py:52-61 | the `while trace.up` loop returns what `Ascend` collects and the node `trace` is left at |
| Triplets.EmitPairs | og_tree_to_table.py:77-83 | the inner loop appends the rows of one sister with every outgroup |
| Triplets.EmitRows | og_tree_to_table.py:75-83 | the nested loops append the rows `Cross` lists |
| Triplets.CollectTriplets | og_tree_to_table.py:40-83 | `data` after the tip loop equals `Rows`: the tips' rows, tip by tip |
| Triplets.GetCombinatorialTriplets | og_tree_to_table.py:27-95 | the result is None exactly when no row was collected; otherwise it is the finished table of the collected rows; the sister and outgroup prefix arguments have no effect |
| TripletTable.RowLeTotal | og_tree_to_table.py:95 | any two rows are ordered by (sister, outgroup, ingroup) |
| TripletTable.RowLeTransitive | og_tree_to_table.py:95 | the row order is transitive |
| TripletTable.RowLeAntisymmetric | og_tree_to_table.py:95 | rows each `<=` the other agree on all three sort columns |
| TripletTable.Insert | og_tree_to_table.py:95 | inserting into sorted rows keeps them sorted and adds exactly that row |
| TripletTable.SortRows | og_tree_to_table.py:95 | `sort_values` gives a sorted permutation of the rows |
| TripletTable.SortedPermutationUnique | og_tree_to_table.py:95 | rows of one OG have only one sorted permutation, so the tie-breaking of the sort does not matter |
| TripletTable.GroupIdsMatchKeys | og_tree_to_table.py:93-94 | on sorted keys, two rows share a group id exactly when their keys are equal |
| TripletTable.GroupIdIsFirstAppearanceRank | og_tree_to_table.py:93-94 | on sorted keys, a row's group id is the number of distinct keys up to it, less one |
| TripletTable.SortedKeysContiguous | og_tree_to_table.py:93-95 | after sorting, equal sisters, and equal (sister, outgroup) pairs, stand next to each other |
| TripletTable.WithGroupIds | og_tree_to_table.py:93-94 | the two id columns: equal ids exactly for equal sister (resp. sister and outgroup), numbered in order of appearance |
| TripletTable.Finalize | og_tree_to_table.py:90-95 | the table is a sorted permutation of the rows; rows share `same_sister` exactly when their sisters are equal and `same_sister_and_og` exactly when sister and outgroup are equal; the ids are first-appearance ranks |
| TripletTable.GroupIdsAreNgroup | og_tree_to_table.py:93-95 | each id is the number of distinct keys in the input rows that sort below the row's key, the number `ngroup` gives before the sort |
| Scenario.SmallTreeRows | og_tree_to_table.py:40-83 | the tree `((C_frag1, C_prot1), G_dry1)` with ingroup prefix `C_frag` gives exactly the row (C_frag1, C_prot1, G_dry1) |
| Scenario.SmallTreeTable | og_tree_to_table.py:90-95 | that single row is returned with both group ids 0 |

## Left out

- `get_parser` (lines 98-105): command-line parsing.
- `parse_newicks_as_one_or_more_paths` (lines 108-114): a file-system check and glob expansion.
- `main` (lines 117-131), for three reasons:
  - it loads trees with `toytree.tree`, which is I/O;
  - `pd.concat` over possibly-None frames is a foreign library call;
  - writing the TSV is I/O.
- toytree: newick parsing and node numbering are not modelled. The tree is an
  arena satisfying `GeneTree.Valid`, which gives the structure toytree
  guarantees:
  - tips first;
  - parents above their children;
  - no child listed twice;
  - the root last.
- `get_leaf_names` is modelled as depth-first order over the children lists.
  Another leaf order would only change the order in which names and rows are
  collected. No lemma proves this. `RowsMembership` gives the set of rows for
  this order.
  `SortedPermutationUnique` shows that the sorted table does not depend on the
  order in which the rows came.
- pandas: a DataFrame is a sequence of rows, and the row index is the position.
  `reset_index(drop=True)` is therefore implicit.
- `TripletTable.Finalize` computes the group ids after sorting, while the source
  computes them before. `TripletTable.GroupIdsAreNgroup` proves that the two
  agree: both give the rank of the row's key among the distinct keys of the
  whole table.
- `sort_values` is modelled as an insertion sort. `SortedPermutationUnique`
  shows that its tie-breaking does not matter, so this is no loss.
- The ascents assume a well-formed tree (`GeneTree.Valid`). A cyclic parent
  chain, which toytree cannot produce, is not modelled.
