/**
 * The edit-distance routine of the autocorrect tool: the dynamic-programming
 * table of Levenshtein distances between all prefixes of the two words,
 * filled row by row, with the bottom-right cell as the answer.
 */
module Autocorrect {

  import opened Levenshtein

  /**
   * Fills `levDist[i, j]` with the distance of the first `i` characters of
   * `a` and the first `j` characters of `b`, and returns the cell for the
   * whole words.
   */
  method CalculateEditDistance(a: String, b: String) returns (d: int)
    ensures d == Lev(a, b)
  {
    // Every cell starts at 0, as a fresh Java int array does.
    var levDist := new int[|a| + 1, |b| + 1]((_, _) => 0);

    // Column 0: turning a prefix of `a` into the empty word.
    var i := 1;
    while i <= |a|
      invariant 1 <= i <= |a| + 1
      invariant forall r :: 0 <= r < i ==> levDist[r, 0] == r
      invariant forall c :: 0 <= c <= |b| ==> levDist[0, c] == 0
    {
      levDist[i, 0] := i;
      i := i + 1;
    }
    // Row 0: turning the empty word into a prefix of `b`.
    var j := 1;
    while j <= |b|
      invariant 1 <= j <= |b| + 1
      invariant forall r :: 0 <= r <= |a| ==> levDist[r, 0] == r
      invariant forall c :: 0 <= c < j ==> levDist[0, c] == c
    {
      levDist[0, j] := j;
      j := j + 1;
    }

    i := 1;
    while i <= |a|
      invariant 1 <= i <= |a| + 1
      invariant forall r, c :: 0 <= r < i && 0 <= c <= |b| ==> levDist[r, c] == Lev(a[..r], b[..c])
      invariant forall r :: i <= r <= |a| ==> levDist[r, 0] == r
    {
      FillRow(levDist, a, b, i);
      i := i + 1;
    }

    assert a[..|a|] == a && b[..|b|] == b;
    d := levDist[|a|, |b|];
  }

  /**
   * One pass of the inner loop: fills row `i` from the row above it and the
   * cell to its left, leaving every other row as it was.
   */
  method FillRow(levDist: array2<int>, a: String, b: String, i: nat)
    requires levDist.Length0 == |a| + 1 && levDist.Length1 == |b| + 1
    requires 1 <= i <= |a|
    requires forall c :: 0 <= c <= |b| ==> levDist[i - 1, c] == Lev(a[..i - 1], b[..c])
    requires levDist[i, 0] == i
    modifies levDist
    ensures forall c :: 0 <= c <= |b| ==> levDist[i, c] == Lev(a[..i], b[..c])
    ensures forall r, c :: 0 <= r < levDist.Length0 && r != i && 0 <= c < levDist.Length1 ==>
      levDist[r, c] == old(levDist[r, c])
  {
    var j := 1;
    while j <= |b|
      invariant 1 <= j <= |b| + 1
      invariant forall c :: 0 <= c < j ==> levDist[i, c] == Lev(a[..i], b[..c])
      invariant forall r, c :: 0 <= r < levDist.Length0 && r != i && 0 <= c < levDist.Length1 ==>
        levDist[r, c] == old(levDist[r, c])
    {
      LevPrefixStep(a, b, i, j);
      var cell;
      if a[i - 1] == b[j - 1] {
        cell := levDist[i - 1, j - 1];
      } else {
        var delete := levDist[i - 1, j];
        var insert := levDist[i, j - 1];
        var substitute := levDist[i - 1, j - 1];
        cell := 1 + Min(Min(delete, insert), substitute);
      }
      assert cell == Lev(a[..i], b[..j]);
      levDist[i, j] := cell;
      j := j + 1;
    }
  }
}
