/** A rooted gene tree as an arena of nodes, indexed the way toytree indexes
    them: the tips come first (indices 0 .. ntips-1), every parent has a
    larger index than its children, and the root is the last node. */
module GeneTree {
  import opened Wrappers
  import opened Seqs

  /** One node: its name (the gene name on a tip), the index of its parent
      (`up`, None on the root) and the indices of its children. */
  datatype Node = Node(name: string, up: Option<nat>, children: seq<nat>)

  datatype Tree = Tree(nodes: seq<Node>, ntips: nat)

  /** The parent of node `i` lies above it in the arena. */
  predicate ParentAbove(t: Tree, i: nat)
    requires i < |t.nodes|
  {
    t.nodes[i].up.Some? ==> i < t.nodes[i].up.value < |t.nodes|
  }

  /** Every child of node `i` names `i` as its parent, and every node is
      among its parent's children. */
  predicate LinksAgree(t: Tree, i: nat)
    requires i < |t.nodes|
  {
    && (forall k :: 0 <= k < |t.nodes[i].children| ==>
          t.nodes[i].children[k] < |t.nodes| && t.nodes[t.nodes[i].children[k]].up == Some(i))
    && (t.nodes[i].up.Some? && t.nodes[i].up.value < |t.nodes| ==> i in t.nodes[t.nodes[i].up.value].children)
  }

  /** What a toytree ToyTree guarantees about node `i`: only the last node
      lacks a parent, the parent lies above, the links agree, no child is
      listed twice, and exactly the first `ntips` nodes are tips. */
  predicate NodeOk(t: Tree, i: nat)
    requires i < |t.nodes|
  {
    && (i < |t.nodes| - 1 ==> t.nodes[i].up.Some?)
    && ParentAbove(t, i)
    && LinksAgree(t, i)
    && Distinct(t.nodes[i].children)
    && (i < t.ntips <==> t.nodes[i].children == [])
  }

  /** What a toytree ToyTree guarantees about its node arena. */
  predicate Valid(t: Tree) {
    && 0 < |t.nodes|
    && t.ntips <= |t.nodes|
    && t.nodes[|t.nodes| - 1].up.None?
    && (forall i :: 0 <= i < |t.nodes| ==> NodeOk(t, i))
  }

  /** The children of a node sit below it in the arena. */
  lemma ChildBelow(t: Tree, n: nat, k: nat)
    requires Valid(t) && n < |t.nodes| && k < |t.nodes[n].children|
    ensures t.nodes[n].children[k] < n
  {
    var c := t.nodes[n].children[k];
    assert NodeOk(t, n);
    assert NodeOk(t, c);
  }

  /** `xs` without the elements equal to `x`, order kept. */
  function Without(xs: seq<nat>, x: nat): seq<nat> {
    if xs == [] then []
    else if xs[0] == x then Without(xs[1..], x)
    else [xs[0]] + Without(xs[1..], x)
  }

  /** `Without` keeps exactly the elements different from `x`. */
  lemma {:induction false} WithoutMembership(xs: seq<nat>, x: nat, y: nat)
    ensures y in Without(xs, x) <==> y in xs && y != x
  {
    if xs != [] {
      WithoutMembership(xs[1..], x, y);
      assert xs == [xs[0]] + xs[1..];
    }
  }

  /** Removing an element keeps a sequence free of repetition. */
  lemma {:induction false} WithoutDistinct(xs: seq<nat>, x: nat)
    requires Distinct(xs)
    ensures Distinct(Without(xs, x))
  {
    if xs != [] {
      var rest := xs[1..];
      assert xs == [xs[0]] + rest;
      DistinctAppend([xs[0]], rest);
      WithoutDistinct(rest, x);
      if xs[0] != x {
        WithoutMembership(rest, x, xs[0]);
        DistinctAppend([xs[0]], Without(rest, x));
      }
    }
  }

  /** `get_sisters`: the children of the node's parent other than the node
      itself; the root has none. */
  function SistersOf(t: Tree, n: nat): (s: seq<nat>)
    requires Valid(t) && n < |t.nodes|
    ensures forall i :: 0 <= i < |s| ==> s[i] < |t.nodes|
    ensures t.nodes[n].up.None? ==> s == []
  {
    match t.nodes[n].up
    case None => []
    case Some(p) =>
      assert NodeOk(t, n) && NodeOk(t, p);
      var s := Without(t.nodes[p].children, n);
      assert forall i :: 0 <= i < |s| ==> s[i] < |t.nodes| by {
        forall i | 0 <= i < |s| ensures s[i] < |t.nodes| {
          WithoutMembership(t.nodes[p].children, n, s[i]);
        }
      }
      s
  }

  /** `c` is a child of the parent of `n` other than `n` itself. */
  predicate OtherChild(t: Tree, n: nat, c: nat)
    requires Valid(t) && n < |t.nodes|
  {
    match t.nodes[n].up
    case None => false
    case Some(p) =>
      assert NodeOk(t, n);
      c in t.nodes[p].children && c != n
  }

  /** The sisters of `n` are the other children of its parent: each lies in
      the arena, differs from `n` and shares its parent. */
  lemma SistersOfMembership(t: Tree, n: nat, c: nat)
    requires Valid(t) && n < |t.nodes|
    ensures c in SistersOf(t, n) <==> OtherChild(t, n, c)
    ensures c in SistersOf(t, n) ==> c < |t.nodes|
    ensures c in SistersOf(t, n) && c < |t.nodes| ==> t.nodes[c].up == t.nodes[n].up
  {
    assert NodeOk(t, n);
    if t.nodes[n].up.Some? {
      var p := t.nodes[n].up.value;
      assert NodeOk(t, p);
      WithoutMembership(t.nodes[p].children, n, c);
    }
  }

  /** No sister is listed twice. */
  lemma SistersDistinct(t: Tree, n: nat)
    requires Valid(t) && n < |t.nodes|
    ensures Distinct(SistersOf(t, n))
  {
    assert NodeOk(t, n);
    if t.nodes[n].up.Some? {
      var p := t.nodes[n].up.value;
      assert NodeOk(t, p);
      WithoutDistinct(t.nodes[p].children, n);
    }
  }

  /** `get_leaf_names`: the names of the tips of the subtree rooted at `n`,
      in depth-first order of the children lists. */
  function LeafNames(t: Tree, n: nat): seq<string>
    requires Valid(t) && n < |t.nodes|
    decreases n, 1, 0
  {
    if t.nodes[n].children == [] then [t.nodes[n].name]
    else LeafNamesOfChildren(t, n, |t.nodes[n].children|)
  }

  /** The leaf names of the first `k` children of `n`, concatenated. */
  function LeafNamesOfChildren(t: Tree, n: nat, k: nat): seq<string>
    requires Valid(t) && n < |t.nodes| && k <= |t.nodes[n].children|
    decreases n, 0, k
  {
    if k == 0 then []
    else
      ChildBelow(t, n, k - 1);
      LeafNamesOfChildren(t, n, k - 1) + LeafNames(t, t.nodes[n].children[k - 1])
  }

  /** The ancestors of `n`, starting with `n` itself and ending with the root:
      the nodes that `trace = trace.up` visits. */
  function Path(t: Tree, n: nat): (p: seq<nat>)
    requires Valid(t) && n < |t.nodes|
    decreases |t.nodes| - n
    ensures 0 < |p| && p[0] == n
    ensures forall j :: 0 <= j < |p| ==> n <= p[j] < |t.nodes|
    ensures t.nodes[p[|p| - 1]].up.None?
  {
    assert NodeOk(t, n);
    match t.nodes[n].up
    case None => [n]
    case Some(q) => [n] + Path(t, q)
  }

  /** Each node on a path is followed by its parent. */
  lemma {:induction false} PathFollowsParents(t: Tree, n: nat, j: nat)
    requires Valid(t) && n < |t.nodes| && j + 1 < |Path(t, n)|
    ensures t.nodes[Path(t, n)[j]].up == Some(Path(t, n)[j + 1])
    decreases j
  {
    assert NodeOk(t, n);
    if j > 0 {
      PathFollowsParents(t, t.nodes[n].up.value, j - 1);
    }
  }

  /** The ascent only moves upward: each node on a path lies strictly above
      the one before it, so the ascent reaches the root. */
  lemma {:induction false} PathAscends(t: Tree, n: nat, i: nat, j: nat)
    requires Valid(t) && n < |t.nodes|
    requires i < j < |Path(t, n)|
    ensures Path(t, n)[i] < Path(t, n)[j]
    decreases |t.nodes| - n
  {
    assert NodeOk(t, n);
    match t.nodes[n].up
    case None =>
    case Some(q) =>
      var p := Path(t, n);
      if i == 0 {
        assert p[j] >= q > n;
      } else {
        PathAscends(t, q, i - 1, j - 1);
      }
  }

  /** The path from the parent of a node is the node's path without its
      first element. */
  lemma PathFromParent(t: Tree, n: nat)
    requires Valid(t) && n < |t.nodes| && t.nodes[n].up.Some?
    ensures t.nodes[n].up.value < |t.nodes|
    ensures Path(t, t.nodes[n].up.value) == Path(t, n)[1..]
  {
    assert NodeOk(t, n);
  }

  /** Any node on the path of `n` has as its path the rest of `n`'s path. */
  lemma {:induction false} PathSuffix(t: Tree, n: nat, k: nat)
    requires Valid(t) && n < |t.nodes| && k < |Path(t, n)|
    ensures Path(t, Path(t, n)[k]) == Path(t, n)[k..]
    decreases k
  {
    if k > 0 {
      PathFromParent(t, n);
      var q := t.nodes[n].up.value;
      PathSuffix(t, q, k - 1);
      assert Path(t, n)[k] == Path(t, q)[k - 1];
      assert Path(t, q)[k - 1..] == Path(t, n)[k..];
    }
  }

  /** A node on a path that has a parent is followed on the path by that
      parent. */
  lemma PathNext(t: Tree, i: nat, j: nat)
    requires Valid(t) && i < |t.nodes| && j < |Path(t, i)| && t.nodes[Path(t, i)[j]].up.Some?
    ensures j + 1 < |Path(t, i)| && Path(t, i)[j + 1] == t.nodes[Path(t, i)[j]].up.value
  {
    PathFollowsParents(t, i, j);
  }

  /** A path reaches any node other than its start through one of that
      node's children. */
  lemma PathFromBelow(t: Tree, i: nat, k: nat)
    requires Valid(t) && i < |t.nodes| && 0 < k < |Path(t, i)|
    ensures Path(t, i)[k - 1] in t.nodes[Path(t, i)[k]].children
  {
    PathFollowsParents(t, i, k - 1);
    assert NodeOk(t, Path(t, i)[k - 1]);
  }

  /** The path from `i` passes through a node other than `i` exactly when it
      passes through one of that node's children. */
  lemma ThroughChild(t: Tree, n: nat, i: nat)
    requires Valid(t) && n < |t.nodes| && i < |t.nodes| && i != n
    ensures n in Path(t, i) <==>
      exists j :: 0 <= j < |t.nodes[n].children| && t.nodes[n].children[j] in Path(t, i)
  {
    var p, ch := Path(t, i), t.nodes[n].children;
    if n in p {
      var k :| 0 <= k < |p| && p[k] == n;
      PathFromBelow(t, i, k);
      var j :| 0 <= j < |ch| && ch[j] == p[k - 1];
    }
    if j :| 0 <= j < |ch| && ch[j] in p {
      var k :| 0 <= k < |p| && p[k] == ch[j];
      assert NodeOk(t, n);
      PathNext(t, i, k);
    }
  }

  /** Of two nodes with the same parent, a path through the lower one
      leaves it through the parent, above the higher one, so it misses the
      higher one. */
  lemma SiblingsApartOrdered(t: Tree, i: nat, c1: nat, c2: nat)
    requires Valid(t) && i < |t.nodes| && c1 < c2 < |t.nodes|
    requires t.nodes[c1].up.Some? && t.nodes[c1].up == t.nodes[c2].up
    ensures c1 in Path(t, i) ==> c2 !in Path(t, i)
  {
    var p := Path(t, i);
    if c1 in p {
      var j :| 0 <= j < |p| && p[j] == c1;
      PathNext(t, i, j);
      assert NodeOk(t, c2);
      forall k | 0 <= k < |p| ensures p[k] != c2 {
        if k < j {
          PathAscends(t, i, k, j);
        } else if k > j + 1 {
          PathAscends(t, i, j + 1, k);
        }
      }
    }
  }

  /** Two different nodes with the same parent never lie on one path. */
  lemma SiblingsApart(t: Tree, i: nat, c1: nat, c2: nat)
    requires Valid(t) && i < |t.nodes| && c1 < |t.nodes| && c2 < |t.nodes| && c1 != c2
    requires t.nodes[c1].up.Some? && t.nodes[c1].up == t.nodes[c2].up
    ensures c1 in Path(t, i) ==> c2 !in Path(t, i)
  {
    if c1 < c2 {
      SiblingsApartOrdered(t, i, c1, c2);
    } else {
      SiblingsApartOrdered(t, i, c2, c1);
    }
  }

  /** The names of the tips are pairwise different. */
  predicate DistinctTipNames(t: Tree)
    requires Valid(t)
  {
    forall i, j :: 0 <= i < j < t.ntips ==> t.nodes[i].name != t.nodes[j].name
  }

  /** The leaf names of the first `k` children are the leaf names of those
      children. */
  lemma {:induction false} LeafNamesOfChildrenMembership(t: Tree, n: nat, k: nat, x: string)
    requires Valid(t) && n < |t.nodes| && k <= |t.nodes[n].children|
    ensures x in LeafNamesOfChildren(t, n, k) <==>
      exists j :: 0 <= j < k && t.nodes[n].children[j] < |t.nodes| && x in LeafNames(t, t.nodes[n].children[j])
  {
    if k > 0 {
      ChildBelow(t, n, k - 1);
      LeafNamesOfChildrenMembership(t, n, k - 1, x);
    }
  }

  /** `get_leaf_names` lists the names of exactly the tips whose path to
      the root passes through `n`. */
  lemma {:induction false} LeafNamesMembership(t: Tree, n: nat, x: string)
    requires Valid(t) && n < |t.nodes|
    ensures x in LeafNames(t, n) <==> exists i :: 0 <= i < t.ntips && n in Path(t, i) && t.nodes[i].name == x
    decreases n
  {
    assert NodeOk(t, n);
    var ch := t.nodes[n].children;
    if ch == [] {
      forall i | 0 <= i < t.ntips ensures n in Path(t, i) <==> i == n {
        if i != n {
          ThroughChild(t, n, i);
        }
      }
    } else {
      LeafNamesOfChildrenMembership(t, n, |ch|, x);
      forall j | 0 <= j < |ch|
        ensures ch[j] < n
        ensures x in LeafNames(t, ch[j]) <==> exists i :: 0 <= i < t.ntips && ch[j] in Path(t, i) && t.nodes[i].name == x
      {
        ChildBelow(t, n, j);
        LeafNamesMembership(t, ch[j], x);
      }
      forall i | 0 <= i < t.ntips
        ensures n in Path(t, i) <==> exists j :: 0 <= j < |ch| && ch[j] in Path(t, i)
      {
        ThroughChild(t, n, i);
      }
      if x in LeafNames(t, n) {
        var j :| 0 <= j < |ch| && ch[j] < |t.nodes| && x in LeafNames(t, ch[j]);
        var i :| 0 <= i < t.ntips && ch[j] in Path(t, i) && t.nodes[i].name == x;
        assert n in Path(t, i);
      }
      if i :| 0 <= i < t.ntips && n in Path(t, i) && t.nodes[i].name == x {
        var j :| 0 <= j < |ch| && ch[j] in Path(t, i);
        assert x in LeafNames(t, ch[j]);
      }
    }
  }

  /** With distinct tip names, two different nodes with the same parent
      share no leaf name. */
  lemma SiblingLeavesDisjoint(t: Tree, c1: nat, c2: nat, x: string)
    requires Valid(t) && DistinctTipNames(t) && c1 < |t.nodes| && c2 < |t.nodes| && c1 != c2
    requires t.nodes[c1].up.Some? && t.nodes[c1].up == t.nodes[c2].up
    ensures x in LeafNames(t, c1) ==> x !in LeafNames(t, c2)
  {
    LeafNamesMembership(t, c1, x);
    LeafNamesMembership(t, c2, x);
    if x in LeafNames(t, c1) {
      var i1 :| 0 <= i1 < t.ntips && c1 in Path(t, i1) && t.nodes[i1].name == x;
      SiblingsApart(t, i1, c1, c2);
      forall i2 | 0 <= i2 < t.ntips && t.nodes[i2].name == x ensures c2 !in Path(t, i2) {
        assert i2 == i1;
      }
    }
  }

  /** With distinct tip names, `get_leaf_names` lists every leaf once. */
  lemma {:induction false} LeafNamesDistinct(t: Tree, n: nat)
    requires Valid(t) && DistinctTipNames(t) && n < |t.nodes|
    ensures Distinct(LeafNames(t, n))
    decreases n, 1, 0
  {
    if t.nodes[n].children != [] {
      LeafNamesOfChildrenDistinct(t, n, |t.nodes[n].children|);
    }
  }

  lemma {:induction false} LeafNamesOfChildrenDistinct(t: Tree, n: nat, k: nat)
    requires Valid(t) && DistinctTipNames(t) && n < |t.nodes| && k <= |t.nodes[n].children|
    ensures Distinct(LeafNamesOfChildren(t, n, k))
    decreases n, 0, k
  {
    if k > 0 {
      var ch := t.nodes[n].children;
      var c := ch[k - 1];
      ChildBelow(t, n, k - 1);
      LeafNamesOfChildrenDistinct(t, n, k - 1);
      LeafNamesDistinct(t, c);
      assert NodeOk(t, n);
      forall x | x in LeafNamesOfChildren(t, n, k - 1) ensures x !in LeafNames(t, c) {
        LeafNamesOfChildrenMembership(t, n, k - 1, x);
        var j :| 0 <= j < k - 1 && ch[j] < |t.nodes| && x in LeafNames(t, ch[j]);
        SiblingLeavesDisjoint(t, ch[j], c, x);
      }
      DistinctAppend(LeafNamesOfChildren(t, n, k - 1), LeafNames(t, c));
    }
  }
}
