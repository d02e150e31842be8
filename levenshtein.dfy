/** The edit distance XmlFindId ranks titles by: the recursive definition
    and the matrix fill of LevenshteinDistance proved equal to it. */
module Levenshtein {

  function Min(a: int, b: int): int {
    if a <= b then a else b
  }

  /** One cell of the edit-distance recurrence: delete, insert or substitute
      (free when the two last characters are the same). */
  function Step(delete: int, insert: int, substitute: int, same: bool): int {
    Min(Min(delete + 1, insert + 1), substitute + (if same then 0 else 1))
  }

  /** Unit-cost edit distance, by recursion on the last characters; it lies
      between the difference of the lengths and the longer length. */
  function Distance(a: string, b: string): (d: nat)
    ensures d <= if |a| <= |b| then |b| else |a|
    ensures d >= |a| - |b| && d >= |b| - |a|
    decreases |a| + |b|
  {
    if |a| == 0 then |b|
    else if |b| == 0 then |a|
    else Step(Distance(a[..|a| - 1], b), Distance(a, b[..|b| - 1]),
              Distance(a[..|a| - 1], b[..|b| - 1]), a[|a| - 1] == b[|b| - 1])
  }

  /** The same recurrence indexed on two fixed strings: the distance between
      a[..i] and b[..j], as matrix cell (i, j) holds it. */
  function Dist(a: string, b: string, i: nat, j: nat): int
    requires i <= |a| && j <= |b|
    decreases i + j
  {
    if i == 0 then j
    else if j == 0 then i
    else Step(Dist(a, b, i - 1, j), Dist(a, b, i, j - 1), Dist(a, b, i - 1, j - 1), a[i - 1] == b[j - 1])
  }

  lemma DistanceOfPrefixes(a: string, b: string, i: nat, j: nat, x: int, y: int, z: int)
    requires 0 < i <= |a| && 0 < j <= |b|
    requires Distance(a[..i - 1], b[..j]) == x && Distance(a[..i], b[..j - 1]) == y
    requires Distance(a[..i - 1], b[..j - 1]) == z
    ensures Distance(a[..i], b[..j]) == Step(x, y, z, a[i - 1] == b[j - 1])
  {
    PrefixOfPrefix(a, i);
    PrefixOfPrefix(b, j);
    DistanceUnfold(a[..i], b[..j]);
  }

  lemma PrefixOfPrefix(a: string, i: nat)
    requires 0 < i <= |a|
    ensures |a[..i]| == i && a[..i][..i - 1] == a[..i - 1] && a[..i][i - 1] == a[i - 1]
  {
  }

  lemma DistanceUnfold(s: string, t: string)
    requires |s| > 0 && |t| > 0
    ensures Distance(s, t) == Step(Distance(s[..|s| - 1], t), Distance(s, t[..|t| - 1]),
                                   Distance(s[..|s| - 1], t[..|t| - 1]), s[|s| - 1] == t[|t| - 1])
  {
  }

  /** The indexed recurrence computes Distance on the prefixes. */
  lemma {:induction false} DistPrefix(a: string, b: string, i: nat, j: nat)
    requires i <= |a| && j <= |b|
    ensures Dist(a, b, i, j) == Distance(a[..i], b[..j])
    decreases i + j
  {
    if i > 0 && j > 0 {
      DistPrefix(a, b, i - 1, j);
      DistPrefix(a, b, i, j - 1);
      DistPrefix(a, b, i - 1, j - 1);
      DistanceOfPrefixes(a, b, i, j, Dist(a, b, i - 1, j), Dist(a, b, i, j - 1), Dist(a, b, i - 1, j - 1));
    }
  }

  /** Cell (a, b) of the matrix is already filled once row i is complete up
      to column j (column 0 and row 0 are filled first). */
  predicate Filled(a: int, b: int, i: int, j: int) {
    b == 0 || a == 0 || a < i || (a == i && b < j)
  }

  /** Every filled cell (a, b) of the matrix holds the recurrence's value. */
  ghost predicate MatrixFilled(matrix: array2<int>, str1: string, str2: string, i: int, j: int)
    requires matrix.Length0 == |str1| + 1 && matrix.Length1 == |str2| + 1
    reads matrix
  {
    forall a, b :: 0 <= a <= |str1| && 0 <= b <= |str2| && Filled(a, b, i, j) ==>
      matrix[a, b] == Dist(str1, str2, a, b)
  }

  /** The inner loop of LevenshteinDistance: row i, left to right. */
  method FillRow(matrix: array2<int>, str1: string, str2: string, i: int)
    requires matrix.Length0 == |str1| + 1 && matrix.Length1 == |str2| + 1 && 1 <= i <= |str1|
    requires MatrixFilled(matrix, str1, str2, i, 1)
    modifies matrix
    ensures MatrixFilled(matrix, str1, str2, i + 1, 1)
  {
    var j := 1;
    while j <= |str2|
      invariant 1 <= j <= |str2| + 1
      invariant MatrixFilled(matrix, str1, str2, i, j)
    {
      var cost := if str2[j - 1] == str1[i - 1] then 0 else 1;
      assert Filled(i - 1, j, i, j) && Filled(i, j - 1, i, j) && Filled(i - 1, j - 1, i, j);
      var v := Min(Min(matrix[i - 1, j] + 1, matrix[i, j - 1] + 1), matrix[i - 1, j - 1] + cost);
      assert v == Dist(str1, str2, i, j);
      matrix[i, j] := v;
      j := j + 1;
    }
  }

  /** LevenshteinDistance: the matrix of prefix distances, its first column
      and row filled first, then row by row. */
  method LevenshteinDistance(str1: string, str2: string) returns (d: int)
    ensures d == Distance(str1, str2)
  {
    var n, m := |str1|, |str2|;
    if n == 0 {
      return m;
    }
    if m == 0 {
      return n;
    }
    var matrix := new int[n + 1, m + 1];
    var i := 0;
    while i <= n
      invariant 0 <= i <= n + 1
      invariant forall a :: 0 <= a < i ==> matrix[a, 0] == a
    {
      matrix[i, 0] := i;
      i := i + 1;
    }
    var j := 0;
    while j <= m
      invariant 0 <= j <= m + 1
      invariant forall a :: 0 <= a <= n ==> matrix[a, 0] == a
      invariant forall b :: 0 <= b < j ==> matrix[0, b] == b
    {
      matrix[0, j] := j;
      j := j + 1;
    }
    i := 1;
    while i <= n
      invariant 1 <= i <= n + 1
      invariant MatrixFilled(matrix, str1, str2, i, 1)
    {
      FillRow(matrix, str1, str2, i);
      i := i + 1;
    }
    assert Filled(n, m, n + 1, 1);
    DistPrefix(str1, str2, n, m);
    assert str1[..n] == str1 && str2[..m] == str2;
    d := matrix[n, m];
  }

  /** A string is at distance 0 from itself. */
  lemma {:induction false} DistanceToSelf(x: string)
    ensures Distance(x, x) == 0
    decreases |x|
  {
    if |x| > 0 {
      DistanceToSelf(x[..|x| - 1]);
    }
  }

  /** Distance 0 only between equal strings. */
  lemma {:induction false} DistanceZero(a: string, b: string)
    requires Distance(a, b) == 0
    ensures a == b
    decreases |a| + |b|
  {
    if |a| > 0 && |b| > 0 {
      DistanceZero(a[..|a| - 1], b[..|b| - 1]);
      assert a == a[..|a| - 1] + [a[|a| - 1]];
      assert b == b[..|b| - 1] + [b[|b| - 1]];
    }
  }

  /** The distance is symmetric. */
  lemma {:induction false} DistanceSymmetric(a: string, b: string)
    ensures Distance(a, b) == Distance(b, a)
    decreases |a| + |b|
  {
    if |a| > 0 && |b| > 0 {
      DistanceSymmetric(a[..|a| - 1], b);
      DistanceSymmetric(a, b[..|b| - 1]);
      DistanceSymmetric(a[..|a| - 1], b[..|b| - 1]);
    }
  }

  /** Against the empty string the distance is the other string's length. */
  lemma DistanceFromEmpty(s: string)
    ensures Distance("", s) == |s| && Distance(s, "") == |s|
  {
  }

  /** The textbook instance: "kitten" to "sitting" takes three edits. */
  lemma KittenSitting()
    ensures Distance("kitten", "sitting") == 3
  {
    var a, b := "kitten", "sitting";
    assert Dist(a, b, 1, 1) == 1 && Dist(a, b, 1, 2) == 2 && Dist(a, b, 1, 3) == 3 && Dist(a, b, 1, 4) == 4;
    assert Dist(a, b, 1, 5) == 5 && Dist(a, b, 1, 6) == 6 && Dist(a, b, 1, 7) == 7;
    assert Dist(a, b, 2, 1) == 2 && Dist(a, b, 2, 2) == 1 && Dist(a, b, 2, 3) == 2 && Dist(a, b, 2, 4) == 3;
    assert Dist(a, b, 2, 5) == 4 && Dist(a, b, 2, 6) == 5 && Dist(a, b, 2, 7) == 6;
    assert Dist(a, b, 3, 1) == 3 && Dist(a, b, 3, 2) == 2 && Dist(a, b, 3, 3) == 1 && Dist(a, b, 3, 4) == 2;
    assert Dist(a, b, 3, 5) == 3 && Dist(a, b, 3, 6) == 4 && Dist(a, b, 3, 7) == 5;
    assert Dist(a, b, 4, 1) == 4 && Dist(a, b, 4, 2) == 3 && Dist(a, b, 4, 3) == 2 && Dist(a, b, 4, 4) == 1;
    assert Dist(a, b, 4, 5) == 2 && Dist(a, b, 4, 6) == 3 && Dist(a, b, 4, 7) == 4;
    assert Dist(a, b, 5, 1) == 5 && Dist(a, b, 5, 2) == 4 && Dist(a, b, 5, 3) == 3 && Dist(a, b, 5, 4) == 2;
    assert Dist(a, b, 5, 5) == 2 && Dist(a, b, 5, 6) == 3 && Dist(a, b, 5, 7) == 4;
    assert Dist(a, b, 6, 1) == 6 && Dist(a, b, 6, 2) == 5 && Dist(a, b, 6, 3) == 4 && Dist(a, b, 6, 4) == 3;
    assert Dist(a, b, 6, 5) == 3 && Dist(a, b, 6, 6) == 2 && Dist(a, b, 6, 7) == 3;
    DistPrefix(a, b, 6, 7);
    assert a[..6] == a && b[..7] == b;
  }
}
