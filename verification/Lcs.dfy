/** The recurrence of plcs, its sequential table filling, and what it computes:
    the length of a longest common subsequence. */
module Lcs {

  function Max(x: int, y: int): int { if x > y then x else y }

  function Max3(x: int, y: int, z: int): int { Max(Max(x, y), z) }

  function Same(x: char, y: char): int { if x == y then 1 else 0 }

  /** The value of cell (i, j); outside the table it is 0. */
  ghost function Cell(a: string, b: string, i: int, j: int): (v: int)
    requires i < |a| && j < |b|
    ensures v >= 0
    decreases if i < 0 || j < 0 then 0 else i + j + 1
  {
    if i < 0 || j < 0 then 0
    else Max3(Cell(a, b, i - 1, j), Cell(a, b, i, j - 1), Cell(a, b, i - 1, j - 1) + Same(a[i], b[j]))
  }

  ghost predicate Increasing(p: seq<int>) {
    forall k, l :: 0 <= k < l < |p| ==> p[k] < p[l]
  }

  /** p and q pick the same characters, in order, from a[..i + 1] and b[..j + 1]. */
  ghost predicate Common(a: string, b: string, p: seq<int>, q: seq<int>, i: int, j: int) {
    && |p| == |q|
    && i < |a| && j < |b|
    && Increasing(p) && Increasing(q)
    && (forall k :: 0 <= k < |p| ==> 0 <= p[k] <= i)
    && (forall k :: 0 <= k < |q| ==> 0 <= q[k] <= j)
    && (forall k :: 0 <= k < |p| ==> a[p[k]] == b[q[k]])
  }

  /** No common subsequence is longer than the cell says. */
  lemma {:induction false} CommonAtMostCell(a: string, b: string, p: seq<int>, q: seq<int>, i: int, j: int)
    requires Common(a, b, p, q, i, j)
    ensures |p| <= Cell(a, b, i, j)
    decreases if i < 0 || j < 0 then 0 else i + j + 1
  {
    if |p| > 0 {
      var last := |p| - 1;
      if p[last] < i {
        CommonAtMostCell(a, b, p, q, i - 1, j);
      } else if q[last] < j {
        CommonAtMostCell(a, b, p, q, i, j - 1);
      } else {
        CommonAtMostCell(a, b, p[..last], q[..last], i - 1, j - 1);
      }
    }
  }

  /** Some common subsequence is as long as the cell says. */
  lemma {:induction false} CellReached(a: string, b: string, i: int, j: int) returns (p: seq<int>, q: seq<int>)
    requires i < |a| && j < |b|
    ensures Common(a, b, p, q, i, j) && |p| == Cell(a, b, i, j)
    decreases if i < 0 || j < 0 then 0 else i + j + 1
  {
    if i < 0 || j < 0 {
      p, q := [], [];
    } else if Cell(a, b, i, j) == Cell(a, b, i - 1, j) {
      p, q := CellReached(a, b, i - 1, j);
    } else if Cell(a, b, i, j) == Cell(a, b, i, j - 1) {
      p, q := CellReached(a, b, i, j - 1);
    } else {
      p, q := CellReached(a, b, i - 1, j - 1);
      if a[i] == b[j] {
        p, q := p + [i], q + [j];
      }
    }
  }

  ghost predicate CommonSubsequence(a: string, b: string, p: seq<int>, q: seq<int>) {
    Common(a, b, p, q, |a| - 1, |b| - 1)
  }

  /** n is the length of a longest common subsequence. */
  ghost predicate LongestCommon(a: string, b: string, n: int) {
    && (exists p, q :: CommonSubsequence(a, b, p, q) && |p| == n)
    && (forall p, q :: CommonSubsequence(a, b, p, q) ==> |p| <= n)
  }

  lemma NoneLonger(a: string, b: string, p: seq<int>, q: seq<int>, n: int)
    requires CommonSubsequence(a, b, p, q) && n == Cell(a, b, |a| - 1, |b| - 1)
    ensures |p| <= n
  {
    CommonAtMostCell(a, b, p, q, |a| - 1, |b| - 1);
  }

  lemma LastCellIsLongest(a: string, b: string)
    ensures LongestCommon(a, b, Cell(a, b, |a| - 1, |b| - 1))
  {
    var p, q := CellReached(a, b, |a| - 1, |b| - 1);
    LongestFrom(a, b, p, q, Cell(a, b, |a| - 1, |b| - 1));
  }

  lemma LongestFrom(a: string, b: string, p: seq<int>, q: seq<int>, n: int)
    requires CommonSubsequence(a, b, p, q) && |p| == n
    requires n == Cell(a, b, |a| - 1, |b| - 1)
    ensures LongestCommon(a, b, n)
  {
    forall p', q' | CommonSubsequence(a, b, p', q') ensures |p'| <= n {
      NoneLonger(a, b, p', q', n);
    }
  }

  lemma LongestIsUnique(a: string, b: string, m: int, n: int)
    requires LongestCommon(a, b, m) && LongestCommon(a, b, n)
    ensures m == n
  {
  }

  /** The DP_REF macro. */
  function At(dp: array2<int>, x: int, y: int): int
    requires x < dp.Length0 && y < dp.Length1
    reads dp
  {
    if x >= 0 && y >= 0 then dp[x, y] else 0
  }

  /** The sequential filling of the table, row by row. */
  method RefDp(a: string, b: string, dp: array2<int>)
    requires dp.Length0 == |a| && dp.Length1 == |b|
    modifies dp
    ensures forall i, j :: 0 <= i < |a| && 0 <= j < |b| ==> dp[i, j] == Cell(a, b, i, j)
    ensures |a| > 0 && |b| > 0 ==> LongestCommon(a, b, dp[|a| - 1, |b| - 1])
  {
    var i := 0;
    while i < |a|
      invariant 0 <= i <= |a|
      invariant forall x, y :: 0 <= x < i && 0 <= y < |b| ==> dp[x, y] == Cell(a, b, x, y)
    {
      var j := 0;
      while j < |b|
        invariant 0 <= j <= |b|
        invariant forall x, y :: 0 <= x < i && 0 <= y < |b| ==> dp[x, y] == Cell(a, b, x, y)
        invariant forall y :: 0 <= y < j ==> dp[i, y] == Cell(a, b, i, y)
      {
        var skipA := At(dp, i - 1, j);
        var skipB := At(dp, i, j - 1);
        var takeBoth := At(dp, i - 1, j - 1) + Same(a[i], b[j]);
        dp[i, j] := Max3(skipA, skipB, takeBoth);
        j := j + 1;
      }
      i := i + 1;
    }
    LastCellIsLongest(a, b);
  }
}
