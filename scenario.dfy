/** A worked three-tip tree, `((C_frag1, C_prot1), G_dry1)`, in toytree's
    node order: the tips 0-2, then their inner node 3 and the root 4. */
module Scenario {
  import opened Wrappers
  import opened Names
  import opened GeneTree
  import opened TripletTable
  import opened Search
  import opened Emit
  import opened Triplets

  function SmallTree(): Tree {
    Tree([Node("C_frag1", Some(3), []), Node("C_prot1", Some(3), []), Node("G_dry1", Some(4), []),
          Node("", Some(4), [0, 1]), Node("", None, [3, 2])], 3)
  }

  lemma SmallTreeValid()
    ensures Valid(SmallTree())
  {
    var t := SmallTree();
    assert NodeOk(t, 0) && NodeOk(t, 1) && NodeOk(t, 2) && NodeOk(t, 3) && NodeOk(t, 4);
    assert forall i :: 0 <= i < 5 ==> NodeOk(t, i) by {
      forall i | 0 <= i < 5 ensures NodeOk(t, i) {
        if i == 0 {} else if i == 1 {} else if i == 2 {} else if i == 3 {} else {}
      }
    }
  }

  /** The sisters of C_frag1 are C_prot1's tip; those of node 3 are
      G_dry1's tip. */
  lemma SmallTreeSisters()
    ensures Valid(SmallTree())
    ensures SistersOf(SmallTree(), 0) == [1] && SistersOf(SmallTree(), 3) == [2]
  {
    SmallTreeValid();
  }

  /** One candidate subtree contributes its prefixed leaves. */
  lemma CandidateMatchesSingle(t: Tree, c: nat, prefix: string)
    requires Valid(t) && c < |t.nodes|
    ensures CandidateMatches(t, [c], prefix) == Matching(LeafNames(t, c), prefix)
  {
    assert [c][..0] == [];
  }

  /** One name is kept exactly when it has the prefix. */
  lemma MatchingSingle(x: string, prefix: string)
    ensures Matching([x], prefix) == if StartsWith(x, prefix) then [x] else []
  {
    assert [x][..0] == [];
  }

  lemma SmallTreeLeaves()
    ensures Valid(SmallTree())
    ensures LeafNames(SmallTree(), 1) == ["C_prot1"] && LeafNames(SmallTree(), 2) == ["G_dry1"]
  {
    SmallTreeValid();
  }

  lemma SmallTreePrefixes()
    ensures StartsWith("C_prot1", SisterLiteral) && StartsWith("G_dry1", OutgroupLiteral)
    ensures StartsWith("C_frag1", "C_frag") && !StartsWith("C_prot1", "C_frag") && !StartsWith("G_dry1", "C_frag")
  {
  }

  /** The first level of the sister search collects C_prot1. */
  lemma SmallTreeSisterLevel()
    ensures Valid(SmallTree())
    ensures LevelMatches(SmallTree(), 0, SisterLiteral) == ["C_prot1"]
  {
    SmallTreeSisters();
    SmallTreeLeaves();
    SmallTreePrefixes();
    CandidateMatchesSingle(SmallTree(), 1, SisterLiteral);
    MatchingSingle("C_prot1", SisterLiteral);
  }

  /** The level above, at node 3, collects G_dry1 for the outgroup search. */
  lemma SmallTreeOutgroupLevel()
    ensures Valid(SmallTree())
    ensures LevelMatches(SmallTree(), 3, OutgroupLiteral) == ["G_dry1"]
  {
    SmallTreeSisters();
    SmallTreeLeaves();
    SmallTreePrefixes();
    CandidateMatchesSingle(SmallTree(), 2, OutgroupLiteral);
    MatchingSingle("G_dry1", OutgroupLiteral);
  }

  /** From C_frag1 the sister search finds C_prot1 at the first level and
      leaves `trace` at the inner node 3. */
  lemma SmallTreeSister()
    ensures Valid(SmallTree())
    ensures SisterSearch(SmallTree(), 0, SisterLiteral) == Ascent(["C_prot1"], 3)
  {
    SmallTreeSisterLevel();
    assert Levels(SmallTree(), SisterLiteral)[0] == ["C_prot1"];
  }

  /** From node 3 the outgroup search finds G_dry1 at the next level. */
  lemma SmallTreeOutgroup()
    ensures Valid(SmallTree())
    ensures OutgroupSearch(SmallTree(), 0, SisterLiteral, OutgroupLiteral).found == ["G_dry1"]
  {
    SmallTreeSister();
    SmallTreeOutgroupLevel();
    assert Levels(SmallTree(), OutgroupLiteral)[3] == ["G_dry1"];
  }

  /** One sister and one outgroup give one row. */
  lemma CrossSingle(og: string, ingroup: string, sister: string, outgroup: string, relabel: bool)
    ensures Cross(og, ingroup, [sister], [outgroup], relabel) == [MakeRow(og, ingroup, sister, outgroup, relabel)]
  {
    assert [sister][..0] == [] && [outgroup][..0] == [];
    assert Pairs(og, ingroup, sister, [outgroup], relabel) == [MakeRow(og, ingroup, sister, outgroup, relabel)];
  }

  /** C_frag1 contributes the one row (C_frag1, C_prot1, G_dry1); the other
      tips are not ingroup tips. */
  lemma SmallTreeTipRows(og: string)
    ensures Valid(SmallTree())
    ensures TipRows(og, SmallTree(), 0, "C_frag", SisterLiteral, OutgroupLiteral, false) == [Row(og, "C_frag1", "C_prot1", "G_dry1")]
    ensures TipRows(og, SmallTree(), 1, "C_frag", SisterLiteral, OutgroupLiteral, false) == []
    ensures TipRows(og, SmallTree(), 2, "C_frag", SisterLiteral, OutgroupLiteral, false) == []
  {
    SmallTreeSister();
    SmallTreeOutgroup();
    SmallTreePrefixes();
    CrossSingle(og, "C_frag1", "C_prot1", "G_dry1", false);
  }

  /** The whole tree gives exactly that row, so the table has one row. */
  lemma SmallTreeRows(og: string)
    ensures Valid(SmallTree())
    ensures Rows(og, SmallTree(), "C_frag", SisterLiteral, OutgroupLiteral, false) == [Row(og, "C_frag1", "C_prot1", "G_dry1")]
  {
    SmallTreeTipRows(og);
    var blocks := Blocks(og, SmallTree(), "C_frag", SisterLiteral, OutgroupLiteral, false);
    ConcatStep(blocks, 0);
    ConcatStep(blocks, 1);
    ConcatStep(blocks, 2);
    assert blocks[..0] == [];
    assert blocks[..3] == blocks;
  }

  /** The finished table of the small tree: its one row, with both group
      ids 0. */
  lemma SmallTreeTable(og: string)
    ensures Finalize([Row(og, "C_frag1", "C_prot1", "G_dry1")]) == [TableRow(og, "C_frag1", "C_prot1", "G_dry1", 0, 0)]
  {
    var r := Row(og, "C_frag1", "C_prot1", "G_dry1");
    assert SortRows([r]) == [r] by {
      assert [r][1..] == [];
    }
  }
}
