/** The triplet table: the rows collected from one tree and the whole-table
    transform that numbers the groups, sorts the rows and renumbers them.
    A table is a sequence, so a row's index is its position: that is the
    fresh 0 .. n-1 index that `reset_index(drop=True)` gives. */
module TripletTable {
  import opened Names

  /** One collected triplet: the columns OG, ingroup, sister, outgroup. */
  datatype Row = Row(og: string, ingroup: string, sister: string, outgroup: string)

  /** A row of the returned table, with the two group-id columns. */
  datatype TableRow = TableRow(og: string, ingroup: string, sister: string, outgroup: string,
                               sameSister: nat, sameSisterAndOg: nat)

  /** The sort order of `sort_values(by=["sister", "outgroup", "ingroup"])`. */
  predicate RowLe(a: Row, b: Row) {
    if a.sister != b.sister then LexLe(a.sister, b.sister)
    else if a.outgroup != b.outgroup then LexLe(a.outgroup, b.outgroup)
    else LexLe(a.ingroup, b.ingroup)
  }

  lemma RowLeTotal(a: Row, b: Row)
    ensures RowLe(a, b) || RowLe(b, a)
  {
    LexLeTotal(a.sister, b.sister);
    LexLeTotal(a.outgroup, b.outgroup);
    LexLeTotal(a.ingroup, b.ingroup);
  }

  lemma RowLeTransitive(a: Row, b: Row, c: Row)
    requires RowLe(a, b) && RowLe(b, c)
    ensures RowLe(a, c)
  {
    if a.sister != b.sister && b.sister != c.sister {
      LexLeTransitive(a.sister, b.sister, c.sister);
      if a.sister == c.sister { LexLeAntisymmetric(a.sister, b.sister); }
    } else if a.sister == b.sister && b.sister == c.sister {
      if a.outgroup != b.outgroup && b.outgroup != c.outgroup {
        LexLeTransitive(a.outgroup, b.outgroup, c.outgroup);
        if a.outgroup == c.outgroup { LexLeAntisymmetric(a.outgroup, b.outgroup); }
      } else if a.outgroup == b.outgroup && b.outgroup == c.outgroup {
        LexLeTransitive(a.ingroup, b.ingroup, c.ingroup);
      }
    }
  }

  /** Rows that are each `<=` the other agree on all three sort columns. */
  lemma RowLeAntisymmetric(a: Row, b: Row)
    requires RowLe(a, b) && RowLe(b, a)
    ensures a.sister == b.sister && a.outgroup == b.outgroup && a.ingroup == b.ingroup
  {
    if a.sister != b.sister {
      LexLeAntisymmetric(a.sister, b.sister);
    } else if a.outgroup != b.outgroup {
      LexLeAntisymmetric(a.outgroup, b.outgroup);
    } else {
      LexLeAntisymmetric(a.ingroup, b.ingroup);
    }
  }

  predicate Sorted(rows: seq<Row>) {
    forall i, j :: 0 <= i < j < |rows| ==> RowLe(rows[i], rows[j])
  }

  /** A row `<=` every row of a sorted table can go in front of it. */
  lemma ConsSorted(x: Row, rows: seq<Row>)
    requires Sorted(rows) && forall y :: y in rows ==> RowLe(x, y)
    ensures Sorted([x] + rows)
  {
    forall i, j | 0 <= i < j < |rows| + 1 ensures RowLe(([x] + rows)[i], ([x] + rows)[j]) {
      assert ([x] + rows)[j] == rows[j - 1];
      if i > 0 {
        assert ([x] + rows)[i] == rows[i - 1];
      }
    }
  }

  /** A row `<=` the first row of a sorted table is `<=` all of it. */
  lemma BelowHead(x: Row, rows: seq<Row>)
    requires Sorted(rows) && rows != [] && RowLe(x, rows[0])
    ensures forall y :: y in rows ==> RowLe(x, y)
  {
    forall y | y in rows ensures RowLe(x, y) {
      var k :| 0 <= k < |rows| && rows[k] == y;
      if k > 0 { RowLeTransitive(x, rows[0], y); }
    }
  }

  /** The first row of a sorted table is `<=` `r` and every other row, so
      it is `<=` every row of any arrangement of those. */
  lemma HeadBelowRest(rows: seq<Row>, r: Row, rest: seq<Row>)
    requires Sorted(rows) && rows != [] && RowLe(rows[0], r)
    requires multiset(rest) == multiset(rows[1..]) + multiset{r}
    ensures forall y :: y in rest ==> RowLe(rows[0], y)
  {
    forall y | y in rest ensures RowLe(rows[0], y) {
      assert y in multiset(rest);
      if y != r {
        assert y in multiset(rows[1..]);
        var k :| 0 <= k < |rows[1..]| && rows[1..][k] == y;
        assert rows[k + 1] == y;
      }
    }
  }

  /** Inserts `r` into the sorted `rows` before the first row above it. */
  function Insert(r: Row, rows: seq<Row>): (s: seq<Row>)
    requires Sorted(rows)
    ensures Sorted(s)
    ensures multiset(s) == multiset(rows) + multiset{r}
  {
    if rows == [] then [r]
    else if RowLe(r, rows[0]) then
      BelowHead(r, rows);
      ConsSorted(r, rows);
      [r] + rows
    else
      RowLeTotal(r, rows[0]);
      SortedTail(rows);
      var rest := Insert(r, rows[1..]);
      assert rows == [rows[0]] + rows[1..];
      HeadBelowRest(rows, r, rest);
      ConsSorted(rows[0], rest);
      [rows[0]] + rest
  }

  /** `sort_values(by=["sister", "outgroup", "ingroup"])`: a sorted
      permutation of the rows. */
  function SortRows(rows: seq<Row>): (s: seq<Row>)
    ensures Sorted(s)
    ensures multiset(s) == multiset(rows)
  {
    if rows == [] then []
    else
      assert rows == [rows[0]] + rows[1..];
      Insert(rows[0], SortRows(rows[1..]))
  }

  /** The first row of a sorted table is `<=` every row of it. */
  lemma SortedHeadLe(rows: seq<Row>, j: nat)
    requires Sorted(rows) && j < |rows|
    ensures RowLe(rows[0], rows[j])
  {
    if j == 0 { RowLeTotal(rows[0], rows[0]); }
  }

  lemma SortedTail(rows: seq<Row>)
    requires Sorted(rows) && rows != []
    ensures Sorted(rows[1..])
  {
    forall i, j | 0 <= i < j < |rows| - 1 ensures RowLe(rows[1..][i], rows[1..][j]) {
      assert rows[1..][i] == rows[i + 1] && rows[1..][j] == rows[j + 1];
    }
  }

  lemma MultisetTail(a: seq<Row>, b: seq<Row>)
    requires multiset(a) == multiset(b) && a != [] && b != [] && a[0] == b[0]
    ensures multiset(a[1..]) == multiset(b[1..])
  {
    assert a == [a[0]] + a[1..] && b == [b[0]] + b[1..];
    assert multiset(a[1..]) == multiset(a) - multiset{a[0]};
    assert multiset(b[1..]) == multiset(b) - multiset{b[0]};
  }

  /** Two sorted permutations of rows of one OG start with the same row. */
  lemma SortedHeadsEqual(a: seq<Row>, b: seq<Row>, og: string)
    requires Sorted(a) && Sorted(b) && multiset(a) == multiset(b) && a != []
    requires forall r :: r in a ==> r.og == og
    ensures b != [] && a[0] == b[0]
  {
    assert a[0] in multiset(b);
    assert b != [];
    assert b[0] in multiset(a);
    var i :| 0 <= i < |a| && a[i] == b[0];
    var j :| 0 <= j < |b| && b[j] == a[0];
    SortedHeadLe(a, i);
    SortedHeadLe(b, j);
    RowLeAntisymmetric(a[0], b[0]);
    assert a[0].og == og && a[i].og == og;
  }

  /** Within one tree every row has the same OG, so a sorted permutation
      is unique: however ties are broken, the sorted table is the same. */
  lemma {:induction false} SortedPermutationUnique(a: seq<Row>, b: seq<Row>, og: string)
    requires Sorted(a) && Sorted(b) && multiset(a) == multiset(b)
    requires forall r :: r in a ==> r.og == og
    ensures a == b
  {
    if a == [] {
      assert |multiset(b)| == 0;
    } else {
      SortedHeadsEqual(a, b, og);
      MultisetTail(a, b);
      SortedTail(a);
      SortedTail(b);
      assert forall r :: r in a[1..] ==> r in a;
      SortedPermutationUnique(a[1..], b[1..], og);
      assert a == [a[0]] + a[1..] && b == [b[0]] + b[1..];
    }
  }

  /** The number of positions in 1 .. i where the key differs from the key
      just before it. */
  function Breaks<K(==)>(keys: seq<K>, i: nat): nat
    requires i < |keys|
  {
    if i == 0 then 0 else Breaks(keys, i - 1) + (if SameAsPrevious(keys, i) then 0 else 1)
  }

  predicate SameAsPrevious<K(==)>(keys: seq<K>, k: nat)
    requires 0 < k < |keys|
  {
    keys[k] == keys[k - 1]
  }

  /** The distinct keys among positions 0 .. i. */
  function KeysUpTo<K>(keys: seq<K>, i: nat): set<K>
    requires i < |keys|
  {
    set j | 0 <= j <= i :: keys[j]
  }

  /** Equal keys stand next to each other: what sorting gives each group key. */
  predicate Contiguous<K(==)>(keys: seq<K>) {
    forall i, k, j :: 0 <= i <= k <= j < |keys| && keys[i] == keys[j] ==> keys[k] == keys[i]
  }

  lemma ContiguousAt<K>(keys: seq<K>, i: nat, k: nat, j: nat)
    requires Contiguous(keys) && i <= k <= j < |keys|
    ensures keys[i] == keys[j] ==> keys[k] == keys[i]
  {
  }

  lemma {:induction false} BreaksMonotone<K>(keys: seq<K>, i: nat, j: nat)
    requires i <= j < |keys|
    ensures Breaks(keys, i) <= Breaks(keys, j)
    ensures Breaks(keys, i) == Breaks(keys, j) <==> forall k :: i < k <= j ==> SameAsPrevious(keys, k)
    decreases j
  {
    if i < j {
      BreaksMonotone(keys, i, j - 1);
    }
  }

  /** If every key from `i` to `j` equals its predecessor, the ends agree. */
  lemma {:induction false} EqualRun<K>(keys: seq<K>, i: nat, j: nat)
    requires i <= j < |keys|
    requires forall k :: i < k <= j ==> SameAsPrevious(keys, k)
    ensures keys[i] == keys[j]
    decreases j
  {
    if i < j {
      assert SameAsPrevious(keys, j);
      EqualRun(keys, i, j - 1);
    }
  }

  /** On contiguous keys, two positions get the same group id exactly when
      their keys are equal. */
  lemma GroupIdsMatchKeys<K>(keys: seq<K>, i: nat, j: nat)
    requires Contiguous(keys) && i < |keys| && j < |keys|
    ensures Breaks(keys, i) == Breaks(keys, j) <==> keys[i] == keys[j]
  {
    if i > j {
      GroupIdsMatchKeys(keys, j, i);
    } else {
      BreaksMonotone(keys, i, j);
      if keys[i] == keys[j] {
        forall k | i < k <= j ensures SameAsPrevious(keys, k) {
          ContiguousAt(keys, i, k, j);
          ContiguousAt(keys, i, k - 1, j);
        }
      } else if Breaks(keys, i) == Breaks(keys, j) {
        EqualRun(keys, i, j);
      }
    }
  }

  /** The keys up to `i` are those up to `i - 1` and the key at `i`. */
  lemma KeysUpToStep<K>(keys: seq<K>, i: nat)
    requires 0 < i < |keys|
    ensures KeysUpTo(keys, i) == KeysUpTo(keys, i - 1) + {keys[i]}
  {
  }

  /** On contiguous keys, a key that differs from its predecessor has not
      been met before. */
  lemma NewKey<K>(keys: seq<K>, i: nat)
    requires Contiguous(keys) && 0 < i < |keys| && !SameAsPrevious(keys, i)
    ensures keys[i] !in KeysUpTo(keys, i - 1)
  {
    forall m | 0 <= m < i ensures keys[m] != keys[i] {
      ContiguousAt(keys, m, i - 1, i);
    }
  }

  /** On contiguous keys, the group id of position `i` is the number of
      distinct keys met up to `i`, less one: groups are numbered by first
      appearance in the sorted table. */
  lemma {:induction false} GroupIdIsFirstAppearanceRank<K>(keys: seq<K>, i: nat)
    requires Contiguous(keys) && i < |keys|
    ensures Breaks(keys, i) == |KeysUpTo(keys, i)| - 1
  {
    if i == 0 {
      assert KeysUpTo(keys, 0) == {keys[0]};
    } else {
      GroupIdIsFirstAppearanceRank(keys, i - 1);
      KeysUpToStep(keys, i);
      if SameAsPrevious(keys, i) {
        assert keys[i - 1] in KeysUpTo(keys, i - 1);
        assert KeysUpTo(keys, i) == KeysUpTo(keys, i - 1);
      } else {
        NewKey(keys, i);
        assert |KeysUpTo(keys, i)| == |KeysUpTo(keys, i - 1)| + 1;
      }
    }
  }

  /** The sister column of a table. */
  function SisterKeys(rows: seq<Row>): (keys: seq<string>)
    ensures |keys| == |rows| && forall i :: 0 <= i < |rows| ==> keys[i] == rows[i].sister
  {
    seq(|rows|, i requires 0 <= i < |rows| => rows[i].sister)
  }

  /** The (sister, outgroup) columns of a table. */
  function PairKeys(rows: seq<Row>): (keys: seq<(string, string)>)
    ensures |keys| == |rows| && forall i :: 0 <= i < |rows| ==> keys[i] == (rows[i].sister, rows[i].outgroup)
  {
    seq(|rows|, i requires 0 <= i < |rows| => (rows[i].sister, rows[i].outgroup))
  }

  /** In a sorted table both group keys are contiguous. */
  lemma SortedKeysContiguous(rows: seq<Row>)
    requires Sorted(rows)
    ensures Contiguous(SisterKeys(rows)) && Contiguous(PairKeys(rows))
  {
    var sk, pk := SisterKeys(rows), PairKeys(rows);
    forall i, k, j | 0 <= i <= k <= j < |rows| && sk[i] == sk[j] ensures sk[k] == sk[i] {
      SandwichedSister(rows, i, k, j);
    }
    forall i, k, j | 0 <= i <= k <= j < |rows| && pk[i] == pk[j] ensures pk[k] == pk[i] {
      SandwichedSister(rows, i, k, j);
      if i < k && rows[i].outgroup != rows[k].outgroup {
        assert LexLe(rows[i].outgroup, rows[k].outgroup);
        if k < j && rows[k].outgroup != rows[j].outgroup {
          assert LexLe(rows[k].outgroup, rows[j].outgroup);
          LexLeAntisymmetric(rows[i].outgroup, rows[k].outgroup);
        }
      }
    }
  }

  lemma SandwichedSister(rows: seq<Row>, i: nat, k: nat, j: nat)
    requires Sorted(rows) && i <= k <= j < |rows| && rows[i].sister == rows[j].sister
    ensures rows[k].sister == rows[i].sister
  {
    if i < k < j && rows[i].sister != rows[k].sister {
      assert RowLe(rows[i], rows[k]) && RowLe(rows[k], rows[j]);
      LexLeAntisymmetric(rows[i].sister, rows[k].sister);
    }
  }

  /** The table without its group-id columns. */
  function Strip(table: seq<TableRow>): (rows: seq<Row>)
    ensures |rows| == |table|
    ensures forall i :: 0 <= i < |table| ==>
      rows[i] == Row(table[i].og, table[i].ingroup, table[i].sister, table[i].outgroup)
  {
    seq(|table|, i requires 0 <= i < |table| =>
      Row(table[i].og, table[i].ingroup, table[i].sister, table[i].outgroup))
  }

  /** Adds the two group-id columns to sorted rows. The ids are computed
      on the sorted rows, where they coincide with the ranks `ngroup` gives. */
  function WithGroupIds(s: seq<Row>): (table: seq<TableRow>)
    requires Sorted(s)
    ensures Strip(table) == s
    ensures forall i, j :: 0 <= i < |table| && 0 <= j < |table| ==>
      (table[i].sameSister == table[j].sameSister <==> table[i].sister == table[j].sister)
    ensures forall i, j :: 0 <= i < |table| && 0 <= j < |table| ==>
      (table[i].sameSisterAndOg == table[j].sameSisterAndOg <==>
         table[i].sister == table[j].sister && table[i].outgroup == table[j].outgroup)
    ensures forall i :: 0 <= i < |table| ==>
      table[i].sameSister == |KeysUpTo(SisterKeys(s), i)| - 1 &&
      table[i].sameSisterAndOg == |KeysUpTo(PairKeys(s), i)| - 1
  {
    var sk, pk := SisterKeys(s), PairKeys(s);
    var table := seq(|s|, i requires 0 <= i < |s| =>
      TableRow(s[i].og, s[i].ingroup, s[i].sister, s[i].outgroup, Breaks(sk, i), Breaks(pk, i)));
    assert Strip(table) == s;
    SortedKeysContiguous(s);
    forall i, j | 0 <= i < |table| && 0 <= j < |table|
      ensures table[i].sameSister == table[j].sameSister <==> table[i].sister == table[j].sister
    {
      GroupIdsMatchKeys(sk, i, j);
    }
    forall i, j | 0 <= i < |table| && 0 <= j < |table|
      ensures table[i].sameSisterAndOg == table[j].sameSisterAndOg <==>
                table[i].sister == table[j].sister && table[i].outgroup == table[j].outgroup
    {
      GroupIdsMatchKeys(pk, i, j);
    }
    forall i | 0 <= i < |table|
      ensures table[i].sameSister == |KeysUpTo(sk, i)| - 1
      ensures table[i].sameSisterAndOg == |KeysUpTo(pk, i)| - 1
    {
      GroupIdIsFirstAppearanceRank(sk, i);
      GroupIdIsFirstAppearanceRank(pk, i);
    }
    table
  }

  /** Lines 90-95: the table with group ids by sister and by (sister,
      outgroup), sorted by (sister, outgroup, ingroup). */
  function Finalize(rows: seq<Row>): (table: seq<TableRow>)
    ensures Sorted(Strip(table)) && multiset(Strip(table)) == multiset(rows)
    ensures forall i, j :: 0 <= i < |table| && 0 <= j < |table| ==>
      (table[i].sameSister == table[j].sameSister <==> table[i].sister == table[j].sister)
    ensures forall i, j :: 0 <= i < |table| && 0 <= j < |table| ==>
      (table[i].sameSisterAndOg == table[j].sameSisterAndOg <==>
         table[i].sister == table[j].sister && table[i].outgroup == table[j].outgroup)
    ensures forall i :: 0 <= i < |table| ==>
      table[i].sameSister == |KeysUpTo(SisterKeys(Strip(table)), i)| - 1 &&
      table[i].sameSisterAndOg == |KeysUpTo(PairKeys(Strip(table)), i)| - 1
  {
    WithGroupIds(SortRows(rows))
  }

  // ---------------------------------------------------------------------
  // The ids are the ranks `ngroup` gives
  // ---------------------------------------------------------------------

  /** `a < b` on strings. */
  predicate StrLt(a: string, b: string) {
    a != b && LexLe(a, b)
  }

  /** `a < b` on (sister, outgroup) keys: by sister, then by outgroup. */
  predicate PairLt(a: (string, string), b: (string, string)) {
    StrLt(a.0, b.0) || (a.0 == b.0 && StrLt(a.1, b.1))
  }

  /** The distinct sisters of `rows` that sort before `x`. */
  function SistersBelow(rows: seq<Row>, x: string): set<string> {
    set r | r in rows && StrLt(r.sister, x) :: r.sister
  }

  /** The distinct (sister, outgroup) keys of `rows` that sort before `x`. */
  function PairsBelow(rows: seq<Row>, x: (string, string)): set<(string, string)> {
    set r | r in rows && PairLt((r.sister, r.outgroup), x) :: (r.sister, r.outgroup)
  }

  /** In a sorted table the sisters met up to row `i` are those sorting
      before row `i`'s sister, and that sister itself. */
  lemma SisterKeysUpTo(rows: seq<Row>, i: nat)
    requires Sorted(rows) && i < |rows|
    ensures KeysUpTo(SisterKeys(rows), i) == SistersBelow(rows, rows[i].sister) + {rows[i].sister}
    ensures rows[i].sister !in SistersBelow(rows, rows[i].sister)
  {
    var sk, x := SisterKeys(rows), rows[i].sister;
    forall y | y in KeysUpTo(sk, i) ensures y in SistersBelow(rows, x) + {x} {
      var j :| 0 <= j <= i && sk[j] == y;
      if j < i && y != x {
        assert RowLe(rows[j], rows[i]);
        assert rows[j] in rows;
      }
    }
    forall y | y in SistersBelow(rows, x) ensures y in KeysUpTo(sk, i) {
      var r :| r in rows && StrLt(r.sister, x) && r.sister == y;
      var j :| 0 <= j < |rows| && rows[j] == r;
      if j > i {
        assert RowLe(rows[i], rows[j]);
        LexLeAntisymmetric(x, y);
      }
      assert sk[j] == y;
    }
  }

  /** In a sorted table the (sister, outgroup) keys met up to row `i` are
      those sorting before row `i`'s key, and that key itself. */
  lemma PairKeysUpTo(rows: seq<Row>, i: nat)
    requires Sorted(rows) && i < |rows|
    ensures KeysUpTo(PairKeys(rows), i) ==
      PairsBelow(rows, (rows[i].sister, rows[i].outgroup)) + {(rows[i].sister, rows[i].outgroup)}
    ensures (rows[i].sister, rows[i].outgroup) !in PairsBelow(rows, (rows[i].sister, rows[i].outgroup))
  {
    var pk, x := PairKeys(rows), (rows[i].sister, rows[i].outgroup);
    forall y | y in KeysUpTo(pk, i) ensures y in PairsBelow(rows, x) + {x} {
      var j :| 0 <= j <= i && pk[j] == y;
      if j < i && y != x {
        assert RowLe(rows[j], rows[i]);
        assert rows[j] in rows;
      }
    }
    forall y | y in PairsBelow(rows, x) ensures y in KeysUpTo(pk, i) {
      var r :| r in rows && PairLt((r.sister, r.outgroup), x) && (r.sister, r.outgroup) == y;
      var j :| 0 <= j < |rows| && rows[j] == r;
      if j > i {
        assert RowLe(rows[i], rows[j]);
        if r.sister != x.0 {
          LexLeAntisymmetric(x.0, r.sister);
        } else {
          LexLeAntisymmetric(x.1, r.outgroup);
        }
      }
      assert pk[j] == y;
    }
  }

  /** Rows with the same elements have the same keys below any key. */
  lemma BelowSameElements(a: seq<Row>, b: seq<Row>, x: string, y: (string, string))
    requires multiset(a) == multiset(b)
    ensures SistersBelow(a, x) == SistersBelow(b, x)
    ensures PairsBelow(a, y) == PairsBelow(b, y)
  {
    assert forall r :: r in a <==> r in multiset(a);
    assert forall r :: r in b <==> r in multiset(b);
  }

  /** `groupby(...).ngroup()` numbers the groups 0, 1, ... in the sorted
      order of their keys, over the whole table. Each id of the finished
      table is exactly that number: the count of distinct sisters (and of
      distinct (sister, outgroup) keys) of the input rows that sort before
      the row's own. So numbering before the sort, as the source does, and
      after it, as the model does, agree. */
  lemma GroupIdsAreNgroup(rows: seq<Row>, i: nat)
    requires i < |Finalize(rows)|
    ensures Finalize(rows)[i].sameSister == |SistersBelow(rows, Finalize(rows)[i].sister)|
    ensures Finalize(rows)[i].sameSisterAndOg ==
      |PairsBelow(rows, (Finalize(rows)[i].sister, Finalize(rows)[i].outgroup))|
  {
    var table := Finalize(rows);
    var s := Strip(table);
    assert s[i].sister == table[i].sister && s[i].outgroup == table[i].outgroup;
    SisterKeysUpTo(s, i);
    PairKeysUpTo(s, i);
    BelowSameElements(s, rows, table[i].sister, (table[i].sister, table[i].outgroup));
  }
}
