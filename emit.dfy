/** The rows one ingroup tip contributes (og_tree_to_table.py, lines
    75-83): one row per (sister, outgroup) pair, in the order of the two
    nested loops, each name relabelled when asked; and the concatenation of
    the tips' blocks in tip order. */
module Emit {
  import opened Names
  import opened Seqs
  import opened TripletTable

  /** One row, with each name relabelled when asked. */
  function MakeRow(og: string, ingroup: string, sister: string, outgroup: string, relabel: bool): Row {
    if relabel then Row(og, Relabel(ingroup), Relabel(sister), Relabel(outgroup))
    else Row(og, ingroup, sister, outgroup)
  }

  /** The rows that the inner loop emits for one sister. */
  function Pairs(og: string, ingroup: string, sister: string, outs: seq<string>, relabel: bool): seq<Row> {
    if outs == [] then []
    else Pairs(og, ingroup, sister, outs[..|outs| - 1], relabel) + [MakeRow(og, ingroup, sister, outs[|outs| - 1], relabel)]
  }

  /** The rows that both loops emit: sisters x outgroups, sister-major. */
  function Cross(og: string, ingroup: string, sisters: seq<string>, outs: seq<string>, relabel: bool): seq<Row> {
    if sisters == [] then []
    else Cross(og, ingroup, sisters[..|sisters| - 1], outs, relabel) + Pairs(og, ingroup, sisters[|sisters| - 1], outs, relabel)
  }

  /** The inner loop after one more outgroup. */
  lemma PairsStep(og: string, ingroup: string, sister: string, outs: seq<string>, relabel: bool, b: nat)
    requires b < |outs|
    ensures Pairs(og, ingroup, sister, outs[..b + 1], relabel) ==
      Pairs(og, ingroup, sister, outs[..b], relabel) + [MakeRow(og, ingroup, sister, outs[b], relabel)]
  {
    assert outs[..b + 1][..b] == outs[..b];
  }

  /** The outer loop after one more sister. */
  lemma CrossStep(og: string, ingroup: string, sisters: seq<string>, outs: seq<string>, relabel: bool, a: nat)
    requires a < |sisters|
    ensures Cross(og, ingroup, sisters[..a + 1], outs, relabel) ==
      Cross(og, ingroup, sisters[..a], outs, relabel) + Pairs(og, ingroup, sisters[a], outs, relabel)
  {
    assert sisters[..a + 1][..a] == sisters[..a];
  }

  /** `a * w`, by repeated addition; keeping the product out of the
      arithmetic the solver sees keeps the layout proofs linear. */
  function Times(a: nat, w: nat): nat {
    if a == 0 then 0 else Times(a - 1, w) + w
  }

  lemma {:induction false} TimesIsProduct(a: nat, w: nat)
    ensures Times(a, w) == a * w
  {
    if a > 0 {
      TimesIsProduct(a - 1, w);
    }
  }

  /** The inner loop emits one row per outgroup, in the outgroups' order. */
  lemma {:induction false} PairsLayout(og: string, ingroup: string, sister: string, outs: seq<string>, relabel: bool)
    ensures |Pairs(og, ingroup, sister, outs, relabel)| == |outs|
    ensures forall b :: 0 <= b < |outs| ==>
      Pairs(og, ingroup, sister, outs, relabel)[b] == MakeRow(og, ingroup, sister, outs[b], relabel)
  {
    if outs != [] {
      PairsLayout(og, ingroup, sister, outs[..|outs| - 1], relabel);
    }
  }

  /** One row per (sister, outgroup) pair. */
  lemma {:induction false} CrossLength(og: string, ingroup: string, sisters: seq<string>, outs: seq<string>, relabel: bool)
    ensures |Cross(og, ingroup, sisters, outs, relabel)| == Times(|sisters|, |outs|)
  {
    if sisters != [] {
      CrossLength(og, ingroup, sisters[..|sisters| - 1], outs, relabel);
      PairsLayout(og, ingroup, sisters[|sisters| - 1], outs, relabel);
    }
  }

  /** The rows come in the order of the nested loops: the pair (a, b) is
      row a * |outs| + b. */
  lemma {:induction false} CrossAt(og: string, ingroup: string, sisters: seq<string>, outs: seq<string>, relabel: bool, a: nat, b: nat)
    requires a < |sisters| && b < |outs|
    ensures Times(a, |outs|) + b < |Cross(og, ingroup, sisters, outs, relabel)|
    ensures Cross(og, ingroup, sisters, outs, relabel)[Times(a, |outs|) + b] == MakeRow(og, ingroup, sisters[a], outs[b], relabel)
  {
    var n, w := |sisters| - 1, |outs|;
    var front := sisters[..n];
    CrossLength(og, ingroup, front, outs, relabel);
    PairsLayout(og, ingroup, sisters[n], outs, relabel);
    var c, c' := Cross(og, ingroup, sisters, outs, relabel), Cross(og, ingroup, front, outs, relabel);
    var last := Pairs(og, ingroup, sisters[n], outs, relabel);
    if a < n {
      CrossAt(og, ingroup, front, outs, relabel, a, b);
      assert front[a] == sisters[a];
      assert c[Times(a, w) + b] == c'[Times(a, w) + b];
    } else {
      assert c[Times(a, w) + b] == last[b];
    }
  }

  /** The same layout with the position written as a product: the pair
      (a, b) is row k = a * |outs| + b. */
  lemma CrossAtProduct(og: string, ingroup: string, sisters: seq<string>, outs: seq<string>, relabel: bool, a: nat, b: nat, k: nat)
    requires a < |sisters| && b < |outs| && k == a * |outs| + b
    ensures k < |Cross(og, ingroup, sisters, outs, relabel)|
    ensures Cross(og, ingroup, sisters, outs, relabel)[k] == MakeRow(og, ingroup, sisters[a], outs[b], relabel)
  {
    TimesIsProduct(a, |outs|);
    CrossAt(og, ingroup, sisters, outs, relabel, a, b);
  }

  lemma {:induction false} PairsMembership(og: string, ingroup: string, sister: string, outs: seq<string>, relabel: bool, r: Row)
    ensures r in Pairs(og, ingroup, sister, outs, relabel) <==>
      exists o :: o in outs && r == MakeRow(og, ingroup, sister, o, relabel)
  {
    if outs != [] {
      PairsMembership(og, ingroup, sister, outs[..|outs| - 1], relabel, r);
      assert outs == outs[..|outs| - 1] + [outs[|outs| - 1]];
    }
  }

  /** A row is emitted exactly when it is built from one of the sisters and
      one of the outgroups. */
  lemma {:induction false} CrossMembership(og: string, ingroup: string, sisters: seq<string>, outs: seq<string>, relabel: bool, r: Row)
    ensures r in Cross(og, ingroup, sisters, outs, relabel) <==>
      exists s, o :: s in sisters && o in outs && r == MakeRow(og, ingroup, s, o, relabel)
  {
    if sisters != [] {
      var n := |sisters| - 1;
      CrossMembership(og, ingroup, sisters[..n], outs, relabel, r);
      PairsMembership(og, ingroup, sisters[n], outs, relabel, r);
      assert sisters == sisters[..n] + [sisters[n]];
    }
  }

  /** Different outgroups give different rows. */
  lemma {:induction false} PairsDistinct(og: string, ingroup: string, sister: string, outs: seq<string>)
    requires Distinct(outs)
    ensures Distinct(Pairs(og, ingroup, sister, outs, false))
  {
    if outs != [] {
      var front, last := outs[..|outs| - 1], outs[|outs| - 1];
      assert outs == front + [last];
      DistinctAppend(front, [last]);
      PairsDistinct(og, ingroup, sister, front);
      var row := MakeRow(og, ingroup, sister, last, false);
      PairsMembership(og, ingroup, sister, front, false, row);
      DistinctAppend(Pairs(og, ingroup, sister, front, false), [row]);
    }
  }

  /** Without relabelling, sisters and outgroups that are each listed once
      give rows that are each emitted once. */
  lemma {:induction false} CrossDistinct(og: string, ingroup: string, sisters: seq<string>, outs: seq<string>)
    requires Distinct(sisters) && Distinct(outs)
    ensures Distinct(Cross(og, ingroup, sisters, outs, false))
  {
    if sisters != [] {
      var front, last := sisters[..|sisters| - 1], sisters[|sisters| - 1];
      assert sisters == front + [last];
      DistinctAppend(front, [last]);
      CrossDistinct(og, ingroup, front, outs);
      PairsDistinct(og, ingroup, last, outs);
      forall r | r in Cross(og, ingroup, front, outs, false) ensures r !in Pairs(og, ingroup, last, outs, false) {
        CrossMembership(og, ingroup, front, outs, false, r);
        PairsMembership(og, ingroup, last, outs, false, r);
      }
      DistinctAppend(Cross(og, ingroup, front, outs, false), Pairs(og, ingroup, last, outs, false));
    }
  }

  // ---------------------------------------------------------------------
  // Relabelling
  // ---------------------------------------------------------------------

  function RelabelRow(r: Row): Row {
    Row(r.og, Relabel(r.ingroup), Relabel(r.sister), Relabel(r.outgroup))
  }

  function RelabelRows(rows: seq<Row>): (r: seq<Row>)
    ensures |r| == |rows| && forall i :: 0 <= i < |rows| ==> r[i] == RelabelRow(rows[i])
  {
    seq(|rows|, i requires 0 <= i < |rows| => RelabelRow(rows[i]))
  }

  lemma RelabelRowsAppend(a: seq<Row>, b: seq<Row>)
    ensures RelabelRows(a + b) == RelabelRows(a) + RelabelRows(b)
  {
  }

  lemma {:induction false} PairsRelabel(og: string, ingroup: string, sister: string, outs: seq<string>)
    ensures Pairs(og, ingroup, sister, outs, true) == RelabelRows(Pairs(og, ingroup, sister, outs, false))
  {
    if outs != [] {
      var front := outs[..|outs| - 1];
      PairsRelabel(og, ingroup, sister, front);
      RelabelRowsAppend(Pairs(og, ingroup, sister, front, false), [MakeRow(og, ingroup, sister, outs[|outs| - 1], false)]);
    }
  }

  /** Relabelling a block of rows is relabelling each row of the block
      built without it. */
  lemma {:induction false} CrossRelabel(og: string, ingroup: string, sisters: seq<string>, outs: seq<string>)
    ensures Cross(og, ingroup, sisters, outs, true) == RelabelRows(Cross(og, ingroup, sisters, outs, false))
  {
    if sisters != [] {
      var front := sisters[..|sisters| - 1];
      CrossRelabel(og, ingroup, front, outs);
      PairsRelabel(og, ingroup, sisters[|sisters| - 1], outs);
      RelabelRowsAppend(Cross(og, ingroup, front, outs, false), Pairs(og, ingroup, sisters[|sisters| - 1], outs, false));
    }
  }

  // ---------------------------------------------------------------------
  // Blocks of rows
  // ---------------------------------------------------------------------

  /** The blocks appended one after the other. */
  function Concat(blocks: seq<seq<Row>>): seq<Row> {
    if blocks == [] then []
    else Concat(blocks[..|blocks| - 1]) + blocks[|blocks| - 1]
  }

  /** Appending one more block. */
  lemma ConcatStep(blocks: seq<seq<Row>>, k: nat)
    requires k < |blocks|
    ensures Concat(blocks[..k + 1]) == Concat(blocks[..k]) + blocks[k]
  {
    assert blocks[..k + 1][..k] == blocks[..k];
  }

  /** A row is in the concatenation exactly when it is in some block. */
  lemma {:induction false} ConcatMembership(blocks: seq<seq<Row>>, r: Row)
    ensures r in Concat(blocks) <==> exists i :: 0 <= i < |blocks| && r in blocks[i]
  {
    if blocks != [] {
      var n := |blocks| - 1;
      var front := blocks[..n];
      ConcatMembership(front, r);
      if r in Concat(blocks) && r !in blocks[n] {
        var i :| 0 <= i < n && r in front[i];
        assert r in blocks[i];
      }
      if i :| 0 <= i < |blocks| && r in blocks[i] {
        if i < n {
          assert r in front[i];
        }
      }
    }
  }

  /** Empty blocks concatenate to nothing. */
  lemma {:induction false} ConcatAllEmpty(blocks: seq<seq<Row>>)
    requires forall i :: 0 <= i < |blocks| ==> blocks[i] == []
    ensures Concat(blocks) == []
  {
    if blocks != [] {
      var front := blocks[..|blocks| - 1];
      assert forall i :: 0 <= i < |front| ==> front[i] == blocks[i];
      ConcatAllEmpty(front);
    }
  }

  /** Relabelling blockwise is relabelling the concatenation. */
  lemma {:induction false} ConcatRelabel(a: seq<seq<Row>>, b: seq<seq<Row>>)
    requires |a| == |b| && forall i :: 0 <= i < |a| ==> a[i] == RelabelRows(b[i])
    ensures Concat(a) == RelabelRows(Concat(b))
  {
    if a != [] {
      var n := |a| - 1;
      var fa, fb := a[..n], b[..n];
      assert forall i :: 0 <= i < n ==> fa[i] == a[i] && fb[i] == b[i];
      ConcatRelabel(fa, fb);
      RelabelRowsAppend(Concat(fb), b[n]);
      assert Concat(a) == RelabelRows(Concat(fb)) + RelabelRows(b[n]);
    }
  }

  /** Blocks that repeat no row and share no row concatenate without
      repetition. */
  lemma {:induction false} ConcatDistinct(blocks: seq<seq<Row>>)
    requires forall i :: 0 <= i < |blocks| ==> Distinct(blocks[i])
    requires forall i, j, r :: 0 <= i < j < |blocks| && r in blocks[i] ==> r !in blocks[j]
    ensures Distinct(Concat(blocks))
  {
    if blocks != [] {
      var n := |blocks| - 1;
      var front := blocks[..n];
      assert forall i :: 0 <= i < n ==> front[i] == blocks[i];
      ConcatDistinct(front);
      forall r | r in Concat(front) ensures r !in blocks[n] {
        ConcatMembership(front, r);
        var i :| 0 <= i < n && r in front[i];
      }
      DistinctAppend(Concat(front), blocks[n]);
    }
  }
}
