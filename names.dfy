/** Operations on gene names (tip labels): prefix tests, the relabel transform
    and the lexicographic order that the final table is sorted by. */
module Names {

  /** `s.startswith(prefix)`. */
  predicate StartsWith(s: string, prefix: string) {
    |prefix| <= |s| && s[..|prefix|] == prefix
  }

  /** `s.replace("_", "", 1)`: the first underscore of `s` is deleted. */
  function Relabel(s: string): string {
    if s == [] then []
    else if s[0] == '_' then s[1..]
    else [s[0]] + Relabel(s[1..])
  }

  /** A name without an underscore is left as it is. */
  lemma {:induction false} RelabelNoUnderscore(s: string)
    requires '_' !in s
    ensures Relabel(s) == s
  {
    if s != [] {
      assert s[0] != '_';
      assert '_' !in s[1..] by {
        forall k | 0 <= k < |s[1..]| ensures s[1..][k] != '_' { assert s[1..][k] == s[k + 1]; }
      }
      RelabelNoUnderscore(s[1..]);
      assert [s[0]] + s[1..] == s;
    }
  }

  /** When the first underscore of `s` is at position `i`, exactly that
      character is removed and everything else is kept in order. */
  lemma {:induction false} RelabelFirstUnderscore(s: string, i: nat)
    requires i < |s| && s[i] == '_' && '_' !in s[..i]
    ensures Relabel(s) == s[..i] + s[i + 1..]
  {
    if i > 0 {
      assert s[0] == s[..i][0];
      var t := s[1..];
      assert t[i - 1] == '_';
      var u := t[..i - 1];
      assert u == s[1..i];
      assert '_' !in u by {
        forall k | 0 <= k < |u| ensures u[k] != '_' { assert u[k] == s[..i][k + 1]; }
      }
      RelabelFirstUnderscore(t, i - 1);
      assert [s[0]] + s[1..i] == s[..i];
      assert t[i..] == s[i + 1..];
    }
  }

  /** Relabelling removes one character exactly when the name has an underscore. */
  lemma {:induction false} RelabelLength(s: string)
    ensures |Relabel(s)| == if '_' in s then |s| - 1 else |s|
  {
    if s != [] && s[0] != '_' {
      RelabelLength(s[1..]);
      assert '_' in s <==> '_' in s[1..] by {
        assert s == [s[0]] + s[1..];
      }
    }
  }

  /** Python's `<=` on strings: lexicographic by code point, a proper prefix
      sorts first. */
  predicate LexLe(a: string, b: string) {
    a == [] || (b != [] && (a[0] < b[0] || (a[0] == b[0] && LexLe(a[1..], b[1..]))))
  }

  lemma {:induction false} LexLeReflexive(a: string)
    ensures LexLe(a, a)
  {
    if a != [] { LexLeReflexive(a[1..]); }
  }

  lemma {:induction false} LexLeAntisymmetric(a: string, b: string)
    requires LexLe(a, b) && LexLe(b, a)
    ensures a == b
  {
    if a != [] && b != [] {
      LexLeAntisymmetric(a[1..], b[1..]);
      assert a == [a[0]] + a[1..] && b == [b[0]] + b[1..];
    }
  }

  lemma {:induction false} LexLeTransitive(a: string, b: string, c: string)
    requires LexLe(a, b) && LexLe(b, c)
    ensures LexLe(a, c)
  {
    if a != [] && b != [] && c != [] && a[0] == b[0] && b[0] == c[0] {
      LexLeTransitive(a[1..], b[1..], c[1..]);
    }
  }

  lemma {:induction false} LexLeTotal(a: string, b: string)
    ensures LexLe(a, b) || LexLe(b, a)
  {
    if a != [] && b != [] && a[0] == b[0] {
      LexLeTotal(a[1..], b[1..]);
    }
  }
}
