/** `get_combinatorial_triplets` (og_tree_to_table.py): for every ingroup
    tip, the nearest sister-prefixed leaves and, above them, the nearest
    outgroup-prefixed leaves, and one row per (sister, outgroup) pair. */
module Triplets {
  import opened Wrappers
  import opened Seqs
  import opened Names
  import opened GeneTree
  import opened TripletTable
  import opened Search
  import opened Emit

  /** The literal the sister test compares with (line 57). */
  const SisterLiteral: string := "C_prot"
  /** The literal the outgroup test compares with (line 68). */
  const OutgroupLiteral: string := "G_dry"

  // ---------------------------------------------------------------------
  // The rows, as functions of the tree
  // ---------------------------------------------------------------------

  /** The rows emitted for tip `tip`, for ingroup prefix `ip`, sister prefix
      `sp` and outgroup prefix `op`. */
  function TipRows(og: string, t: Tree, tip: nat, ip: string, sp: string, op: string, relabel: bool): seq<Row>
    requires Valid(t) && tip < |t.nodes|
  {
    var s, o := SisterSearch(t, tip, sp), OutgroupSearch(t, tip, sp, op);
    if StartsWith(t.nodes[tip].name, ip) && s.found != [] && o.found != [] then
      Cross(og, t.nodes[tip].name, s.found, o.found, relabel)
    else []
  }

  /** The blocks of rows of the tips, in tip order. */
  function Blocks(og: string, t: Tree, ip: string, sp: string, op: string, relabel: bool): (b: seq<seq<Row>>)
    requires Valid(t)
    ensures |b| == t.ntips
    ensures forall i :: 0 <= i < t.ntips ==> b[i] == TipRows(og, t, i, ip, sp, op, relabel)
  {
    seq(t.ntips, i requires 0 <= i < t.ntips && Valid(t) => TipRows(og, t, i, ip, sp, op, relabel))
  }

  /** Everything `data` holds at line 85. */
  function Rows(og: string, t: Tree, ip: string, sp: string, op: string, relabel: bool): seq<Row>
    requires Valid(t)
  {
    Concat(Blocks(og, t, ip, sp, op, relabel))
  }

  // ---------------------------------------------------------------------
  // What the rows are
  // ---------------------------------------------------------------------

  /** Both searches of an ingroup tip succeed. */
  predicate Emits(t: Tree, tip: nat, ip: string, sp: string, op: string)
    requires Valid(t) && tip < |t.nodes|
  {
    StartsWith(t.nodes[tip].name, ip) && SisterSearch(t, tip, sp).found != [] && OutgroupSearch(t, tip, sp, op).found != []
  }

  /** For an ingroup tip whose searches both succeed, exactly
      |sisters| * |outgroups| rows; no rows for any other tip. */
  lemma TipRowsLength(og: string, t: Tree, tip: nat, ip: string, sp: string, op: string, relabel: bool)
    requires Valid(t) && tip < |t.nodes|
    ensures !Emits(t, tip, ip, sp, op) ==> TipRows(og, t, tip, ip, sp, op, relabel) == []
    ensures Emits(t, tip, ip, sp, op) ==>
      |TipRows(og, t, tip, ip, sp, op, relabel)| == |SisterSearch(t, tip, sp).found| * |OutgroupSearch(t, tip, sp, op).found|
    ensures Emits(t, tip, ip, sp, op) ==>
      TipRows(og, t, tip, ip, sp, op, relabel) == Cross(og, t.nodes[tip].name, SisterSearch(t, tip, sp).found, OutgroupSearch(t, tip, sp, op).found, relabel)
  {
    var s, o := SisterSearch(t, tip, sp).found, OutgroupSearch(t, tip, sp, op).found;
    CrossLength(og, t.nodes[tip].name, s, o, relabel);
    TimesIsProduct(|s|, |o|);
  }

  /** The pair (a, b) of sister a and outgroup b of an emitting tip is its
      row k = a * |outgroups| + b, and carries the OG id and the tip's name. */
  lemma TipRowsAt(og: string, t: Tree, tip: nat, ip: string, sp: string, op: string, relabel: bool, a: nat, b: nat, k: nat)
    requires Valid(t) && tip < |t.nodes| && Emits(t, tip, ip, sp, op)
    requires a < |SisterSearch(t, tip, sp).found| && b < |OutgroupSearch(t, tip, sp, op).found|
    requires k == a * |OutgroupSearch(t, tip, sp, op).found| + b
    ensures k < |TipRows(og, t, tip, ip, sp, op, relabel)|
    ensures TipRows(og, t, tip, ip, sp, op, relabel)[k] ==
      MakeRow(og, t.nodes[tip].name, SisterSearch(t, tip, sp).found[a], OutgroupSearch(t, tip, sp, op).found[b], relabel)
  {
    var name, s, o := t.nodes[tip].name, SisterSearch(t, tip, sp).found, OutgroupSearch(t, tip, sp, op).found;
    TipRowsLength(og, t, tip, ip, sp, op, relabel);
    CrossAtProduct(og, name, s, o, relabel, a, b, k);
  }

  /** Row `r` is built from ingroup tip `i`, one sister and one outgroup
      that the two searches of that tip collected. */
  ghost predicate TripletOf(og: string, t: Tree, i: nat, ip: string, sp: string, op: string, relabel: bool, r: Row)
    requires Valid(t) && i < |t.nodes|
  {
    && StartsWith(t.nodes[i].name, ip)
    && exists sister, outgroup :: sister in SisterSearch(t, i, sp).found && outgroup in OutgroupSearch(t, i, sp, op).found &&
         r == MakeRow(og, t.nodes[i].name, sister, outgroup, relabel)
  }

  /** The rows of one tip are exactly its triplets. */
  lemma TipRowsMembership(og: string, t: Tree, i: nat, ip: string, sp: string, op: string, relabel: bool, r: Row)
    requires Valid(t) && i < |t.nodes|
    ensures r in TipRows(og, t, i, ip, sp, op, relabel) <==> TripletOf(og, t, i, ip, sp, op, relabel, r)
  {
    CrossMembership(og, t.nodes[i].name, SisterSearch(t, i, sp).found, OutgroupSearch(t, i, sp, op).found, relabel, r);
  }

  /** Which rows the table holds: a row is present exactly when it is built
      from an ingroup tip, one sister and one outgroup that the two searches
      of that tip collected. */
  lemma RowsMembership(og: string, t: Tree, ip: string, sp: string, op: string, relabel: bool, r: Row)
    requires Valid(t)
    ensures r in Rows(og, t, ip, sp, op, relabel) <==>
      exists i :: 0 <= i < t.ntips && TripletOf(og, t, i, ip, sp, op, relabel, r)
  {
    var blocks := Blocks(og, t, ip, sp, op, relabel);
    ConcatMembership(blocks, r);
    forall i | 0 <= i < t.ntips
      ensures r in blocks[i] <==> TripletOf(og, t, i, ip, sp, op, relabel, r)
    {
      TipRowsMembership(og, t, i, ip, sp, op, relabel, r);
    }
  }

  /** Without relabelling, every row carries the OG id, its ingroup name
      starts with `ip`, its sister name with `sp` and its outgroup name with
      `op`. */
  lemma RowsPrefixed(og: string, t: Tree, ip: string, sp: string, op: string, r: Row)
    requires Valid(t)
    ensures r in Rows(og, t, ip, sp, op, false) ==>
      r.og == og && StartsWith(r.ingroup, ip) && StartsWith(r.sister, sp) && StartsWith(r.outgroup, op)
  {
    if r in Rows(og, t, ip, sp, op, false) {
      RowsMembership(og, t, ip, sp, op, false, r);
      var i :| 0 <= i < t.ntips && TripletOf(og, t, i, ip, sp, op, false, r);
      var sister, outgroup :| sister in SisterSearch(t, i, sp).found && outgroup in OutgroupSearch(t, i, sp, op).found &&
        r == MakeRow(og, t.nodes[i].name, sister, outgroup, false);
      SearchFoundPrefixed(t, sp, i, sister);
      SearchFoundPrefixed(t, op, SisterSearch(t, i, sp).stop, outgroup);
    }
  }

  /** Without relabelling, every row of a tip carries that tip's name. */
  lemma TipRowsIngroup(og: string, t: Tree, i: nat, ip: string, sp: string, op: string, r: Row)
    requires Valid(t) && i < |t.nodes|
    ensures r in TipRows(og, t, i, ip, sp, op, false) ==> r.ingroup == t.nodes[i].name
  {
    TipRowsMembership(og, t, i, ip, sp, op, false, r);
  }

  /** The data holds no row twice, when the tip names differ and relabel
      is off: one tip's searches list each leaf once, and rows of
      different tips differ in their ingroup name. */
  lemma RowsDistinct(og: string, t: Tree, ip: string, sp: string, op: string)
    requires Valid(t) && DistinctTipNames(t)
    ensures Distinct(Rows(og, t, ip, sp, op, false))
  {
    var blocks := Blocks(og, t, ip, sp, op, false);
    forall i | 0 <= i < |blocks| ensures Distinct(blocks[i]) {
      TipRowsLength(og, t, i, ip, sp, op, false);
      SearchFoundDistinct(t, sp, i);
      SearchFoundDistinct(t, op, SisterSearch(t, i, sp).stop);
      CrossDistinct(og, t.nodes[i].name, SisterSearch(t, i, sp).found, OutgroupSearch(t, i, sp, op).found);
    }
    forall i, j, r | 0 <= i < j < |blocks| && r in blocks[i] ensures r !in blocks[j] {
      TipRowsIngroup(og, t, i, ip, sp, op, r);
      TipRowsIngroup(og, t, j, ip, sp, op, r);
    }
    ConcatDistinct(blocks);
  }

  /** A tree with no tip starting with the ingroup prefix yields no rows. */
  lemma NoIngroupNoRows(og: string, t: Tree, ip: string, sp: string, op: string, relabel: bool)
    requires Valid(t)
    requires forall i :: 0 <= i < t.ntips ==> !StartsWith(t.nodes[i].name, ip)
    ensures Rows(og, t, ip, sp, op, relabel) == []
  {
    ConcatAllEmpty(Blocks(og, t, ip, sp, op, relabel));
  }

  /** Relabelling changes only the names in the rows: the rows with relabel
      on are those with relabel off, each name with its first underscore
      removed. The searches themselves use the original tip names. */
  lemma RowsRelabel(og: string, t: Tree, ip: string, sp: string, op: string)
    requires Valid(t)
    ensures Rows(og, t, ip, sp, op, true) == RelabelRows(Rows(og, t, ip, sp, op, false))
  {
    var a, b := Blocks(og, t, ip, sp, op, true), Blocks(og, t, ip, sp, op, false);
    forall i | 0 <= i < t.ntips ensures a[i] == RelabelRows(b[i]) {
      CrossRelabel(og, t.nodes[i].name, SisterSearch(t, i, sp).found, OutgroupSearch(t, i, sp, op).found);
    }
    ConcatRelabel(a, b);
  }

  // ---------------------------------------------------------------------
  // The imperative core
  // ---------------------------------------------------------------------

  /** Lines 56-58 (and 67-69): appends to `acc` the leaf names of one
      sister subtree that start with the prefix. */
  method AppendMatching(tips: seq<string>, prefix: string, acc: seq<string>) returns (out: seq<string>)
    ensures out == acc + Matching(tips, prefix)
  {
    out := acc;
    for k := 0 to |tips|
      invariant out == acc + Matching(tips[..k], prefix)
    {
      if StartsWith(tips[k], prefix) {
        out := out + [tips[k]];
      }
      assert tips[..k + 1][..k] == tips[..k];
    }
    assert tips[..|tips|] == tips;
  }

  /** Lines 54-58 (and 65-69): scans the leaves of every sister subtree of
      `trace` and appends those with the prefix to `acc`. */
  method ScanSisters(t: Tree, trace: nat, prefix: string, acc: seq<string>) returns (out: seq<string>)
    requires Valid(t) && trace < |t.nodes|
    ensures out == acc + LevelMatches(t, trace, prefix)
  {
    var candidates := SistersOf(t, trace);
    out := acc;
    for c := 0 to |candidates|
      invariant out == acc + CandidateMatches(t, candidates[..c], prefix)
    {
      out := AppendMatching(LeafNames(t, candidates[c]), prefix, out);
      assert candidates[..c + 1][..c] == candidates[..c];
    }
    assert candidates[..|candidates|] == candidates;
  }

  /** Lines 52-61 (and 63-72): climbs from `trace` towards the root,
      scanning the sisters of each node for leaves with the prefix, and
      stops one level above the first level that has any. */
  method Climb(t: Tree, prefix: string, start: nat) returns (found: seq<string>, trace: nat)
    requires Valid(t) && start < |t.nodes|
    ensures Ascent(found, trace) == Ascend(t, Levels(t, prefix), start)
  {
    ghost var levels := Levels(t, prefix);
    found := [];
    trace := start;
    while t.nodes[trace].up.Some?
      invariant trace < |t.nodes| && found == []
      invariant Ascend(t, levels, trace) == Ascend(t, levels, start)
      decreases |t.nodes| - trace
    {
      assert NodeOk(t, trace);
      ghost var here := trace;
      found := ScanSisters(t, trace, prefix, found);
      trace := t.nodes[trace].up.value;
      if found != [] {
        assert levels[here] == found;
        break;
      }
    }
  }

  /** Lines 77-83: appends one row per outgroup for one sister to `acc`,
      relabelling the names when asked. */
  method EmitPairs(ogid: string, name: string, sister: string, outgroups: seq<string>, relabel: bool,
                   acc: seq<Row>) returns (data: seq<Row>)
    ensures data == acc + Pairs(ogid, name, sister, outgroups, relabel)
  {
    data := acc;
    for b := 0 to |outgroups|
      invariant data == acc + Pairs(ogid, name, sister, outgroups[..b], relabel)
    {
      var names: seq<string>;
      if relabel {
        names := [Relabel(name), Relabel(sister), Relabel(outgroups[b])];
      } else {
        names := [name, sister, outgroups[b]];
      }
      var row := Row(ogid, names[0], names[1], names[2]);
      assert row == MakeRow(ogid, name, sister, outgroups[b], relabel);
      PairsStep(ogid, name, sister, outgroups, relabel, b);
      data := data + [row];
    }
    assert outgroups[..|outgroups|] == outgroups;
  }

  /** Lines 75-83: appends one row per (sister, outgroup) pair to `acc`,
      sister-major. */
  method EmitRows(ogid: string, name: string, sisters: seq<string>, outgroups: seq<string>, relabel: bool,
                  acc: seq<Row>) returns (data: seq<Row>)
    ensures data == acc + Cross(ogid, name, sisters, outgroups, relabel)
  {
    data := acc;
    for a := 0 to |sisters|
      invariant data == acc + Cross(ogid, name, sisters[..a], outgroups, relabel)
    {
      data := EmitPairs(ogid, name, sisters[a], outgroups, relabel, data);
      CrossStep(ogid, name, sisters, outgroups, relabel, a);
    }
    assert sisters[..|sisters|] == sisters;
  }

  /** Lines 40-83: `data` after the loop over the tips. */
  method CollectTriplets(ogid: string, t: Tree, ingroupPrefix: string, relabel: bool) returns (data: seq<Row>)
    requires Valid(t)
    ensures data == Rows(ogid, t, ingroupPrefix, SisterLiteral, OutgroupLiteral, relabel)
  {
    ghost var blocks := Blocks(ogid, t, ingroupPrefix, SisterLiteral, OutgroupLiteral, relabel);
    data := [];
    for node := 0 to t.ntips
      invariant data == Concat(blocks[..node])
    {
      ConcatStep(blocks, node);
      var name := t.nodes[node].name;
      // a tip outside the ingroup contributes nothing (line 44)
      if !StartsWith(name, ingroupPrefix) {
        continue;
      }
      // get a sister, then an outgroup above it
      var sisters, trace := Climb(t, SisterLiteral, node);
      var outgroups, _ := Climb(t, OutgroupLiteral, trace);
      // rows only when both searches found something (line 75)
      if sisters != [] && outgroups != [] {
        data := EmitRows(ogid, name, sisters, outgroups, relabel, data);
      }
    }
    assert blocks[..t.ntips] == blocks;
  }

  /** `get_combinatorial_triplets`. The sister and outgroup tests use the
      literals "C_prot" and "G_dry"; `sisterPrefix` and `outgPrefix` are
      accepted and never read, so they have no effect on the result. The
      result is None exactly when no row was collected; otherwise it is the
      collected rows with group ids, sorted. */
  method GetCombinatorialTriplets(ogid: string, t: Tree, ingroupPrefix: string, sisterPrefix: string,
                                  outgPrefix: string, relabel: bool) returns (result: Option<seq<TableRow>>)
    requires Valid(t)
    ensures result.None? <==> Rows(ogid, t, ingroupPrefix, SisterLiteral, OutgroupLiteral, relabel) == []
    ensures result.Some? ==> result.value == Finalize(Rows(ogid, t, ingroupPrefix, SisterLiteral, OutgroupLiteral, relabel))
  {
    var data := CollectTriplets(ogid, t, ingroupPrefix, relabel);
    // no row at all gives no table (lines 86-87)
    if data == [] {
      return None;
    }
    return Some(Finalize(data));
  }
}
