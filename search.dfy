/** The two searches of `get_combinatorial_triplets` (og_tree_to_table.py,
    lines 51-72): starting from a tip, move `trace` up the tree one node at
    a time, collecting at each node the prefixed leaves of its sister
    subtrees, and stop at the first node where something was collected. */
module Search {
  import opened Names
  import opened Wrappers
  import opened Seqs
  import opened GeneTree

  // ---------------------------------------------------------------------
  // What one step collects
  // ---------------------------------------------------------------------

  /** The names in `names` that start with `prefix`, in order. */
  function Matching(names: seq<string>, prefix: string): seq<string> {
    if names == [] then []
    else Matching(names[..|names| - 1], prefix) + (if StartsWith(names[|names| - 1], prefix) then [names[|names| - 1]] else [])
  }

  /** `Matching` keeps exactly the names with the prefix. */
  lemma {:induction false} MatchingMembership(names: seq<string>, prefix: string, x: string)
    ensures x in Matching(names, prefix) <==> x in names && StartsWith(x, prefix)
  {
    if names != [] {
      var front := names[..|names| - 1];
      MatchingMembership(front, prefix, x);
      assert names == front + [names[|names| - 1]];
    }
  }

  /** The prefixed leaf names of the subtrees rooted at `cands`, subtree by
      subtree. */
  function CandidateMatches(t: Tree, cands: seq<nat>, prefix: string): seq<string>
    requires Valid(t) && forall i :: 0 <= i < |cands| ==> cands[i] < |t.nodes|
  {
    if cands == [] then []
    else CandidateMatches(t, cands[..|cands| - 1], prefix) + Matching(LeafNames(t, cands[|cands| - 1]), prefix)
  }

  lemma {:induction false} CandidateMatchesMembership(t: Tree, cands: seq<nat>, prefix: string, x: string)
    requires Valid(t) && forall i :: 0 <= i < |cands| ==> cands[i] < |t.nodes|
    ensures x in CandidateMatches(t, cands, prefix) <==>
      StartsWith(x, prefix) && exists i :: 0 <= i < |cands| && x in LeafNames(t, cands[i])
  {
    if cands != [] {
      var front, last := cands[..|cands| - 1], cands[|cands| - 1];
      CandidateMatchesMembership(t, front, prefix, x);
      MatchingMembership(LeafNames(t, last), prefix, x);
      if x in CandidateMatches(t, front, prefix) {
        var i :| 0 <= i < |front| && x in LeafNames(t, front[i]);
        assert front[i] == cands[i];
      }
      if i :| 0 <= i < |cands| && x in LeafNames(t, cands[i]) {
        if i < |front| {
          assert front[i] == cands[i];
        }
      }
    }
  }

  /** What one step of either search collects at `n` (lines 54-58 and
      65-69): the prefixed leaves of every sister subtree of `n`. */
  function LevelMatches(t: Tree, n: nat, prefix: string): seq<string>
    requires Valid(t) && n < |t.nodes|
  {
    CandidateMatches(t, SistersOf(t, n), prefix)
  }

  /** A name is collected at a node exactly when it starts with the prefix
      and is a leaf of one of the sister subtrees of that node. */
  lemma LevelMatchesMembership(t: Tree, n: nat, prefix: string, x: string)
    requires Valid(t) && n < |t.nodes|
    ensures x in LevelMatches(t, n, prefix) <==>
      StartsWith(x, prefix) && exists c :: c in SistersOf(t, n) && c < |t.nodes| && x in LeafNames(t, c)
  {
    var cands := SistersOf(t, n);
    assert forall i :: 0 <= i < |cands| ==> cands[i] in cands;
    CandidateMatchesMembership(t, cands, prefix, x);
    if StartsWith(x, prefix) && exists c :: c in cands && c < |t.nodes| && x in LeafNames(t, c) {
      var c :| c in cands && c < |t.nodes| && x in LeafNames(t, c);
      var i :| 0 <= i < |cands| && cands[i] == c;
    }
  }

  /** The level table of a prefix: for every node, what a step of the
      search collects there. */
  function Levels(t: Tree, prefix: string): (levels: seq<seq<string>>)
    requires Valid(t)
    ensures |levels| == |t.nodes|
    ensures forall m :: 0 <= m < |t.nodes| ==> levels[m] == LevelMatches(t, m, prefix)
  {
    seq(|t.nodes|, m requires 0 <= m < |t.nodes| && Valid(t) => LevelMatches(t, m, prefix))
  }

  // ---------------------------------------------------------------------
  // The ascent
  // ---------------------------------------------------------------------

  /** Where a search ends: what it collected and the node `trace` holds
      afterwards. */
  datatype Ascent = Ascent(found: seq<string>, stop: nat)

  /** The `while trace.up` loops of lines 53-61 and 64-72 over a level
      table: collect the level of the current node, move `trace` to the
      parent, stop once something was collected or the root is reached. */
  function Ascend(t: Tree, levels: seq<seq<string>>, n: nat): (a: Ascent)
    requires Valid(t) && |levels| == |t.nodes| && n < |t.nodes|
    decreases |t.nodes| - n
    ensures n <= a.stop < |t.nodes|
    ensures a.found == [] ==> t.nodes[a.stop].up.None?
  {
    assert NodeOk(t, n);
    match t.nodes[n].up
    case None => Ascent([], n)
    case Some(p) => if levels[n] != [] then Ascent(levels[n], p) else Ascend(t, levels, p)
  }

  /** No node at positions `lo` .. `hi - 1` of the path from `n` has a
      nonempty level. */
  ghost predicate NoHit(t: Tree, levels: seq<seq<string>>, n: nat, lo: nat, hi: nat)
    requires Valid(t) && |levels| == |t.nodes| && n < |t.nodes| && hi <= |Path(t, n)|
  {
    forall j :: lo <= j < hi ==> levels[Path(t, n)[j]] == []
  }

  /** The path from the node at position `s` is the rest of the path from
      `n`, so positions on it are positions on the longer path shifted by
      `s`. */
  lemma NoHitShift(t: Tree, levels: seq<seq<string>>, n: nat, s: nat, lo: nat, hi: nat)
    requires Valid(t) && |levels| == |t.nodes| && n < |t.nodes| && s < |Path(t, n)| && hi + s <= |Path(t, n)|
    ensures |Path(t, Path(t, n)[s])| == |Path(t, n)| - s
    ensures NoHit(t, levels, Path(t, n)[s], lo, hi) <==> NoHit(t, levels, n, lo + s, hi + s)
  {
    var p := Path(t, n);
    PathSuffix(t, n, s);
    var p' := Path(t, p[s]);
    assert forall j :: 0 <= j < |p'| ==> p'[j] == p[j + s];
    if NoHit(t, levels, n, lo + s, hi + s) {
      forall j | lo <= j < hi ensures levels[p'[j]] == [] {
        assert levels[p[j + s]] == [];
      }
    }
    if NoHit(t, levels, p[s], lo, hi) {
      forall j | lo + s <= j < hi + s ensures levels[p[j]] == [] {
        assert levels[p'[j - s]] == [];
      }
    }
  }

  /** Node `k` of the path from `n` is the lowest with a nonempty level,
      and the ascent from `n` collects that level and stops at its
      parent. */
  ghost predicate NearestLevel(t: Tree, levels: seq<seq<string>>, n: nat, k: nat)
    requires Valid(t) && |levels| == |t.nodes| && n < |t.nodes| && k < |Path(t, n)| - 1
  {
    && NoHit(t, levels, n, 0, k)
    && Ascend(t, levels, n).found == levels[Path(t, n)[k]]
    && Ascend(t, levels, n).stop == Path(t, n)[k + 1]
  }

  /** Seen from a node with an empty level, no hit below the root is the
      same as no hit below the root from its parent, and both paths end at
      the same root. */
  lemma NoHitFromParent(t: Tree, levels: seq<seq<string>>, n: nat, q: nat)
    requires Valid(t) && |levels| == |t.nodes| && n < |t.nodes| && q < |t.nodes|
    requires t.nodes[n].up == Some(q) && levels[n] == []
    ensures |Path(t, n)| == |Path(t, q)| + 1
    ensures NoHit(t, levels, n, 0, |Path(t, n)| - 1) <==> NoHit(t, levels, q, 0, |Path(t, q)| - 1)
    ensures Path(t, n)[|Path(t, n)| - 1] == Path(t, q)[|Path(t, q)| - 1]
  {
    PathFromParent(t, n);
    var p := Path(t, n);
    NoHitShift(t, levels, n, 1, 0, |p| - 2);
    assert p[0] == n;
  }

  /** Seen from a node with an empty level, the nearest level of its
      parent at position `k` is its own nearest level, at position `k + 1`. */
  lemma NearestFromParent(t: Tree, levels: seq<seq<string>>, n: nat, q: nat, k: nat)
    requires Valid(t) && |levels| == |t.nodes| && n < |t.nodes| && q < |t.nodes|
    requires t.nodes[n].up == Some(q) && levels[n] == []
    requires k < |Path(t, q)| - 1 && NearestLevel(t, levels, q, k)
    ensures k + 1 < |Path(t, n)| - 1 && NearestLevel(t, levels, n, k + 1)
  {
    PathFromParent(t, n);
    var p := Path(t, n);
    NoHitShift(t, levels, n, 1, 0, k);
    assert p[0] == n;
    assert Path(t, q)[k] == p[k + 1] && Path(t, q)[k + 1] == p[k + 2];
    assert Ascend(t, levels, n) == Ascend(t, levels, q);
  }

  /** An ascent collects exactly the level of the lowest node on the path
      to the root whose level is nonempty, nothing from the nodes above it,
      and stops at that node's parent; it collects nothing, and stops at
      the root, exactly when no node below the root has a nonempty level. */
  lemma {:induction false} AscendFindsNearestLevel(t: Tree, levels: seq<seq<string>>, n: nat)
    requires Valid(t) && |levels| == |t.nodes| && n < |t.nodes|
    decreases |t.nodes| - n
    ensures Ascend(t, levels, n).found == [] <==> NoHit(t, levels, n, 0, |Path(t, n)| - 1)
    ensures Ascend(t, levels, n).found == [] ==> Ascend(t, levels, n).stop == Path(t, n)[|Path(t, n)| - 1]
    ensures Ascend(t, levels, n).found != [] ==>
      exists k :: 0 <= k < |Path(t, n)| - 1 && NearestLevel(t, levels, n, k)
  {
    assert NodeOk(t, n);
    match t.nodes[n].up
    case None =>
      assert Path(t, n) == [n];
    case Some(q) =>
      if levels[n] != [] {
        PathFromParent(t, n);
        assert Path(t, n)[0] == n && Path(t, n)[1] == q;
        assert NearestLevel(t, levels, n, 0);
      } else {
        AscendFindsNearestLevel(t, levels, q);
        assert Ascend(t, levels, n) == Ascend(t, levels, q);
        NoHitFromParent(t, levels, n, q);
        if Ascend(t, levels, q).found != [] {
          var k :| 0 <= k < |Path(t, q)| - 1 && NearestLevel(t, levels, q, k);
          NearestFromParent(t, levels, n, q, k);
        }
      }
  }

  /** The two searches chained as lines 51-72 chain them, the second
      starting where the first left `trace`. The first finds the lowest
      node `k` on the tip's path with a nonempty level in `first` and stops
      at its parent `path[k + 1]`; so the second never looks at nodes `k`
      and below, and finds the lowest node `m > k` with a nonempty level in
      `second`, or nothing when there is none. When the first reaches the
      root, the second collects nothing. */
  lemma {:induction false} ChainedAscents(t: Tree, first: seq<seq<string>>, second: seq<seq<string>>, tip: nat)
    requires Valid(t) && |first| == |t.nodes| && |second| == |t.nodes| && tip < |t.nodes|
    ensures Ascend(t, first, tip).found == [] ==> Ascend(t, second, Ascend(t, first, tip).stop).found == []
    ensures Ascend(t, first, tip).found != [] ==>
      exists k :: 0 <= k < |Path(t, tip)| - 1 && NearestLevel(t, first, tip, k) &&
        (Ascend(t, second, Ascend(t, first, tip).stop).found == [] <==>
           NoHit(t, second, tip, k + 1, |Path(t, tip)| - 1)) &&
        (Ascend(t, second, Ascend(t, first, tip).stop).found != [] ==>
           exists m :: k < m < |Path(t, tip)| - 1 && NoHit(t, second, tip, k + 1, m) &&
             Ascend(t, second, Ascend(t, first, tip).stop).found == second[Path(t, tip)[m]])
  {
    var s, p := Ascend(t, first, tip), Path(t, tip);
    AscendFindsNearestLevel(t, first, tip);
    if s.found == [] {
      assert t.nodes[s.stop].up.None?;
    } else {
      var k :| 0 <= k < |p| - 1 && NearestLevel(t, first, tip, k);
      AscendFromPosition(t, second, tip, k + 1);
    }
  }

  /** An ascent started at position `s` of the path from `tip` finds the
      lowest position `m >= s` with a nonempty level, or nothing when there
      is none below the root. */
  lemma AscendFromPosition(t: Tree, levels: seq<seq<string>>, tip: nat, s: nat)
    requires Valid(t) && |levels| == |t.nodes| && tip < |t.nodes| && s < |Path(t, tip)|
    ensures Ascend(t, levels, Path(t, tip)[s]).found == [] <==> NoHit(t, levels, tip, s, |Path(t, tip)| - 1)
    ensures Ascend(t, levels, Path(t, tip)[s]).found != [] ==>
      exists m :: s <= m < |Path(t, tip)| - 1 && NoHit(t, levels, tip, s, m) &&
        Ascend(t, levels, Path(t, tip)[s]).found == levels[Path(t, tip)[m]]
  {
    var n := Path(t, tip)[s];
    AscendFindsNearestLevel(t, levels, n);
    PathSuffix(t, tip, s);
    NoHitShift(t, levels, tip, s, 0, |Path(t, n)| - 1);
    if Ascend(t, levels, n).found != [] {
      var k :| 0 <= k < |Path(t, n)| - 1 && NearestLevel(t, levels, n, k);
      NearestShift(t, levels, tip, s, k);
    }
  }

  /** The nearest level at position `k` of the path from position `s` of
      the path from `tip` is at position `k + s` of the latter. */
  lemma NearestShift(t: Tree, levels: seq<seq<string>>, tip: nat, s: nat, k: nat)
    requires Valid(t) && |levels| == |t.nodes| && tip < |t.nodes| && s < |Path(t, tip)|
    requires k < |Path(t, Path(t, tip)[s])| - 1 && NearestLevel(t, levels, Path(t, tip)[s], k)
    ensures k + s < |Path(t, tip)| - 1 && NoHit(t, levels, tip, s, k + s)
    ensures Ascend(t, levels, Path(t, tip)[s]).found == levels[Path(t, tip)[k + s]]
  {
    var p := Path(t, tip);
    PathSuffix(t, tip, s);
    NoHitShift(t, levels, tip, s, 0, k);
    assert Path(t, p[s])[k] == p[k + s];
  }

  /** The sister search for tip `tip` (lines 51-61). */
  function SisterSearch(t: Tree, tip: nat, sp: string): Ascent
    requires Valid(t) && tip < |t.nodes|
  {
    Ascend(t, Levels(t, sp), tip)
  }

  /** The outgroup search for tip `tip` (lines 63-72): it starts where the
      sister search left `trace`. */
  function OutgroupSearch(t: Tree, tip: nat, sp: string, op: string): Ascent
    requires Valid(t) && tip < |t.nodes|
  {
    Ascend(t, Levels(t, op), SisterSearch(t, tip, sp).stop)
  }

  /** Everything a search collects starts with its prefix. */
  lemma SearchFoundPrefixed(t: Tree, prefix: string, n: nat, x: string)
    requires Valid(t) && n < |t.nodes|
    ensures x in Ascend(t, Levels(t, prefix), n).found ==> StartsWith(x, prefix)
  {
    var levels := Levels(t, prefix);
    AscendFindsNearestLevel(t, levels, n);
    if x in Ascend(t, levels, n).found {
      var k :| 0 <= k < |Path(t, n)| - 1 && NearestLevel(t, levels, n, k);
      LevelMatchesMembership(t, Path(t, n)[k], prefix, x);
    }
  }

  // ---------------------------------------------------------------------
  // No name is collected twice
  // ---------------------------------------------------------------------

  /** Filtering keeps a list of names free of repetition. */
  lemma {:induction false} MatchingDistinct(names: seq<string>, prefix: string)
    requires Distinct(names)
    ensures Distinct(Matching(names, prefix))
  {
    if names != [] {
      var front, last := names[..|names| - 1], names[|names| - 1];
      assert names == front + [last];
      DistinctAppend(front, [last]);
      MatchingDistinct(front, prefix);
      MatchingMembership(front, prefix, last);
      DistinctAppend(Matching(front, prefix), if StartsWith(last, prefix) then [last] else []);
    }
  }

  /** With distinct tip names, the subtrees of different children of one
      parent contribute different names, each once. */
  lemma {:induction false} CandidateMatchesDistinct(t: Tree, cands: seq<nat>, prefix: string, p: nat)
    requires Valid(t) && DistinctTipNames(t) && Distinct(cands)
    requires forall i :: 0 <= i < |cands| ==> cands[i] < |t.nodes| && t.nodes[cands[i]].up == Some(p)
    ensures Distinct(CandidateMatches(t, cands, prefix))
  {
    if cands != [] {
      var front, last := cands[..|cands| - 1], cands[|cands| - 1];
      assert cands == front + [last];
      DistinctAppend(front, [last]);
      assert forall i :: 0 <= i < |front| ==> front[i] == cands[i];
      CandidateMatchesDistinct(t, front, prefix, p);
      LeafNamesDistinct(t, last);
      MatchingDistinct(LeafNames(t, last), prefix);
      forall x | x in CandidateMatches(t, front, prefix) ensures x !in Matching(LeafNames(t, last), prefix) {
        CandidateMatchesMembership(t, front, prefix, x);
        MatchingMembership(LeafNames(t, last), prefix, x);
        var i :| 0 <= i < |front| && x in LeafNames(t, front[i]);
        SiblingLeavesDisjoint(t, front[i], last, x);
      }
      DistinctAppend(CandidateMatches(t, front, prefix), Matching(LeafNames(t, last), prefix));
    }
  }

  /** With distinct tip names, one step of a search collects each name at
      most once. */
  lemma LevelMatchesDistinct(t: Tree, n: nat, prefix: string)
    requires Valid(t) && DistinctTipNames(t) && n < |t.nodes|
    ensures Distinct(LevelMatches(t, n, prefix))
  {
    var sisters := SistersOf(t, n);
    SistersDistinct(t, n);
    if t.nodes[n].up.Some? {
      forall i | 0 <= i < |sisters| ensures t.nodes[sisters[i]].up == t.nodes[n].up {
        SistersOfMembership(t, n, sisters[i]);
      }
      CandidateMatchesDistinct(t, sisters, prefix, t.nodes[n].up.value);
    }
  }

  /** An ascent over levels without repetition collects no name twice. */
  lemma {:induction false} AscendDistinct(t: Tree, levels: seq<seq<string>>, n: nat)
    requires Valid(t) && |levels| == |t.nodes| && n < |t.nodes|
    requires forall m :: 0 <= m < |levels| ==> Distinct(levels[m])
    ensures Distinct(Ascend(t, levels, n).found)
    decreases |t.nodes| - n
  {
    assert NodeOk(t, n);
    if t.nodes[n].up.Some? && levels[n] == [] {
      AscendDistinct(t, levels, t.nodes[n].up.value);
    }
  }

  /** With distinct tip names, neither search lists a name twice. */
  lemma SearchFoundDistinct(t: Tree, prefix: string, n: nat)
    requires Valid(t) && DistinctTipNames(t) && n < |t.nodes|
    ensures Distinct(Ascend(t, Levels(t, prefix), n).found)
  {
    var levels := Levels(t, prefix);
    forall m | 0 <= m < |levels| ensures Distinct(levels[m]) {
      LevelMatchesDistinct(t, m, prefix);
    }
    AscendDistinct(t, levels, n);
  }
}
