/**
 * The Levenshtein edit distance as a recursive definition on prefixes, and
 * the properties that make it a distance: symmetry, the length bounds,
 * zero exactly on equal strings, and the triangle inequality.
 *
 * The definition follows the cell recurrence of the Wagner-Fischer table
 * that `levenshtein` in workshop/helpers.py fills row by row: the distance
 * between two non-empty strings is the cheapest of dropping the last
 * character of the first, dropping the last character of the second, or
 * matching the two last characters (free when they are equal).
 */
module EditDistances {

  /** Python's three-argument `min`. */
  function Min3(x: nat, y: nat, z: nat): nat {
    if x <= y && x <= z then x else if y <= z then y else z
  }

  /** Python's `c1 != c2` used as an integer: 1 when the characters differ, 0 when equal. */
  function SubstitutionCost(x: char, y: char): nat {
    if x != y then 1 else 0
  }

  function Max(x: nat, y: nat): nat {
    if x < y then y else x
  }

  /** The minimum number of single-character insertions, deletions and substitutions turning `a` into `b`. */
  ghost function EditDistance(a: string, b: string): nat
    decreases |a| + |b|
  {
    if |a| == 0 then |b|
    else if |b| == 0 then |a|
    else Min3(EditDistance(a[..|a| - 1], b) + 1,
              EditDistance(a, b[..|b| - 1]) + 1,
              EditDistance(a[..|a| - 1], b[..|b| - 1]) + SubstitutionCost(a[|a| - 1], b[|b| - 1]))
  }

  /** The distance does not depend on the order of its arguments. */
  lemma {:induction false} Symmetric(a: string, b: string)
    ensures EditDistance(a, b) == EditDistance(b, a)
    decreases |a| + |b|
  {
    if |a| > 0 && |b| > 0 {
      Symmetric(a[..|a| - 1], b);
      Symmetric(a, b[..|b| - 1]);
      Symmetric(a[..|a| - 1], b[..|b| - 1]);
    }
  }

  /** Substituting position by position, then inserting or deleting the rest, costs at most the longer length. */
  lemma {:induction false} UpperBound(a: string, b: string)
    ensures EditDistance(a, b) <= Max(|a|, |b|)
    decreases |a| + |b|
  {
    if |a| > 0 && |b| > 0 {
      UpperBound(a[..|a| - 1], b[..|b| - 1]);
    }
  }

  /** Each edit changes the length by at most one, so the length difference is a lower bound. */
  lemma {:induction false} LowerBound(a: string, b: string)
    ensures |a| - |b| <= EditDistance(a, b)
    ensures |b| - |a| <= EditDistance(a, b)
    decreases |a| + |b|
  {
    if |a| > 0 && |b| > 0 {
      LowerBound(a[..|a| - 1], b);
      LowerBound(a, b[..|b| - 1]);
      LowerBound(a[..|a| - 1], b[..|b| - 1]);
    }
  }

  /** A string is at distance 0 from exactly itself. */
  lemma {:induction false} ZeroIffEqual(a: string, b: string)
    ensures EditDistance(a, b) == 0 <==> a == b
    decreases |a| + |b|
  {
    if |a| > 0 && |b| > 0 {
      var a', b' := a[..|a| - 1], b[..|b| - 1];
      ZeroIffEqual(a', b');
      assert a == a' + [a[|a| - 1]];
      assert b == b' + [b[|b| - 1]];
      if a == b {
        assert a' == b';
      }
    }
  }

  /**
   * The recurrence of a non-empty pair read as inequalities: each of the three
   * edits bounds the distance from above, and one of them attains it.
   */
  lemma Unfold(a: string, b: string)
    requires |a| > 0 && |b| > 0
    ensures EditDistance(a, b) <= EditDistance(a[..|a| - 1], b) + 1
    ensures EditDistance(a, b) <= EditDistance(a, b[..|b| - 1]) + 1
    ensures EditDistance(a, b) <= EditDistance(a[..|a| - 1], b[..|b| - 1]) + SubstitutionCost(a[|a| - 1], b[|b| - 1])
    ensures || EditDistance(a, b) == EditDistance(a[..|a| - 1], b) + 1
            || EditDistance(a, b) == EditDistance(a, b[..|b| - 1]) + 1
            || EditDistance(a, b) == EditDistance(a[..|a| - 1], b[..|b| - 1]) + SubstitutionCost(a[|a| - 1], b[|b| - 1])
  {
  }

  /** Going through an intermediate string never shortens the way: the triangle inequality. */
  lemma {:induction false} Triangle(a: string, b: string, c: string)
    ensures EditDistance(a, c) <= EditDistance(a, b) + EditDistance(b, c)
    decreases |a| + |b| + |c|
  {
    if |a| == 0 {
      LowerBound(b, c);
    } else if |c| == 0 {
      LowerBound(a, b);
    } else if |b| == 0 {
      UpperBound(a, c);
    } else {
      var a', b', c' := a[..|a| - 1], b[..|b| - 1], c[..|c| - 1];
      Unfold(a, b);
      Unfold(b, c);
      Unfold(a, c);
      // Each case follows the edit that attains d(a, b) or d(b, c).
      if EditDistance(a, b) == EditDistance(a', b) + 1 {
        Triangle(a', b, c);
      } else if EditDistance(b, c) == EditDistance(b, c') + 1 {
        Triangle(a, b, c');
      } else if EditDistance(a, b) == EditDistance(a, b') + 1 {
        if EditDistance(b, c) == EditDistance(b', c) + 1 {
          Triangle(a, b', c);
        } else {
          Triangle(a, b', c');
        }
      } else if EditDistance(b, c) == EditDistance(b', c) + 1 {
        Triangle(a', b', c);
      } else {
        Triangle(a', b', c');
      }
    }
  }

  /**
   * One cell of the table over the prefixes of `s1` and `s2`: the cell
   * (i+1, j+1) is the cheapest of the cell above (i, j+1) plus one, the cell
   * to its left (i+1, j) plus one, and the diagonal (i, j) plus the cost of
   * substituting `s2[j]` for `s1[i]`.
   */
  lemma Cell(s1: string, s2: string, i: nat, j: nat, above: nat, left: nat, diagonal: nat)
    requires i < |s1| && j < |s2|
    requires above == EditDistance(s1[..i], s2[..j + 1])
    requires left == EditDistance(s1[..i + 1], s2[..j])
    requires diagonal == EditDistance(s1[..i], s2[..j])
    ensures EditDistance(s1[..i + 1], s2[..j + 1]) == Min3(above + 1, left + 1, diagonal + SubstitutionCost(s1[i], s2[j]))
  {
    assert s1[..i + 1][..i] == s1[..i];
    assert s2[..j + 1][..j] == s2[..j];
  }

  /** Row `i` of the table over `s1` and `s2`: entry `j` is the distance between `s1[..i]` and `s2[..j]`. */
  ghost function Row(s1: string, s2: string, i: nat): (r: seq<nat>)
    requires i <= |s1|
    ensures |r| == |s2| + 1
  {
    seq(|s2| + 1, j requires 0 <= j <= |s2| => EditDistance(s1[..i], s2[..j]))
  }

  /** Row 0 counts the insertions from the empty prefix: `range(len(s2) + 1)`. */
  lemma FirstRow(s1: string, s2: string)
    ensures Row(s1, s2, 0) == seq(|s2| + 1, j => j)
  {
  }

  /** Row i+1 starts with i+1 deletions. */
  lemma RowStart(s1: string, s2: string, i: nat)
    requires i < |s1|
    ensures Row(s1, s2, i + 1)[..1] == [i + 1]
  {
  }

  /** Appending the cell computed from the previous row extends the current row by one correct entry. */
  lemma RowStep(s1: string, s2: string, i: nat, j: nat, previousRow: seq<nat>, currentRow: seq<nat>)
    requires i < |s1| && j < |s2|
    requires previousRow == Row(s1, s2, i)
    requires currentRow == Row(s1, s2, i + 1)[..j + 1]
    ensures currentRow + [Min3(previousRow[j + 1] + 1, currentRow[j] + 1, previousRow[j] + SubstitutionCost(s1[i], s2[j]))]
         == Row(s1, s2, i + 1)[..j + 2]
  {
    Cell(s1, s2, i, j, previousRow[j + 1], currentRow[j], previousRow[j]);
  }

  /** The last entry of the last row is the distance between the whole strings. */
  lemma LastRow(s1: string, s2: string)
    ensures Row(s1, s2, |s1|)[|s2|] == EditDistance(s1, s2)
  {
    assert s1[..|s1|] == s1 && s2[..|s2|] == s2;
  }

  /** Appending a character to each side costs at most their substitution. */
  lemma AppendBoth(a: string, b: string, x: char, y: char)
    ensures EditDistance(a + [x], b + [y]) <= EditDistance(a, b) + SubstitutionCost(x, y)
  {
    assert (a + [x])[..|a|] == a;
    assert (b + [y])[..|b|] == b;
  }

  /** Appending a character to the first side costs at most one deletion. */
  lemma AppendLeft(a: string, b: string, x: char)
    ensures EditDistance(a + [x], b) <= EditDistance(a, b) + 1
  {
    assert (a + [x])[..|a|] == a;
  }

  /** Appending a character to the second side costs at most one insertion. */
  lemma AppendRight(a: string, b: string, y: char)
    ensures EditDistance(a, b + [y]) <= EditDistance(a, b) + 1
  {
    assert (b + [y])[..|b|] == b;
  }
}
