/**
 * The Levenshtein distance between two strings, stated as the classic
 * recurrence on prefixes: the distance of `a` and `b` is the cheapest of
 * deleting the last character of `a`, inserting the last character of `b`,
 * or substituting one last character for the other (free when they match).
 * This is the specification the dynamic-programming table of
 * `Autocorrect.CalculateEditDistance` is proved against.
 */
module Levenshtein {

  type String = seq<char>

  function Min(x: int, y: int): (m: int)
    ensures m <= x && m <= y && (m == x || m == y)
  {
    if x <= y then x else y
  }

  function Max(x: int, y: int): (m: int)
    ensures m >= x && m >= y && (m == x || m == y)
  {
    if x <= y then y else x
  }

  /** The absolute difference of two lengths. */
  function Gap(x: nat, y: nat): nat
  {
    if x <= y then y - x else x - y
  }

  /** The price of aligning character `x` with character `y`. */
  function SubstitutionCost(x: char, y: char): nat
  {
    if x == y then 0 else 1
  }

  function Init(s: String): String
    requires |s| > 0
  {
    s[..|s| - 1]
  }

  function Last(s: String): char
    requires |s| > 0
  {
    s[|s| - 1]
  }

  /** The edit distance of `a` and `b`. */
  function Lev(a: String, b: String): nat
    decreases |a| + |b|
  {
    if |a| == 0 then |b|
    else if |b| == 0 then |a|
    else
      Min(Min(Lev(Init(a), b) + 1, Lev(a, Init(b)) + 1),
          Lev(Init(a), Init(b)) + SubstitutionCost(Last(a), Last(b)))
  }

  /**
   * The distance never falls below the difference of the lengths and never
   * exceeds the longer length.
   */
  lemma {:induction false} LevBounds(a: String, b: String)
    ensures Gap(|a|, |b|) <= Lev(a, b) <= Max(|a|, |b|)
    decreases |a| + |b|
  {
    if |a| > 0 && |b| > 0 {
      LevBounds(Init(a), b);
      LevBounds(a, Init(b));
      LevBounds(Init(a), Init(b));
    }
  }

  /** Distance from and to the empty string is the other string's length. */
  lemma LevEmpty(s: String)
    ensures Lev([], s) == |s|
    ensures Lev(s, []) == |s|
  {
  }

  /** The distance is symmetric. */
  lemma {:induction false} LevSymmetric(a: String, b: String)
    ensures Lev(a, b) == Lev(b, a)
    decreases |a| + |b|
  {
    if |a| > 0 && |b| > 0 {
      LevSymmetric(Init(a), b);
      LevSymmetric(a, Init(b));
      LevSymmetric(Init(a), Init(b));
    }
  }

  /** A string is at distance zero from exactly itself. */
  lemma {:induction false} LevZeroIff(a: String, b: String)
    ensures Lev(a, b) == 0 <==> a == b
    decreases |a| + |b|
  {
    if |a| > 0 && |b| > 0 {
      LevZeroIff(Init(a), Init(b));
      if a == b {
        assert Init(a) == Init(b);
      }
      if Lev(a, b) == 0 {
        assert a == Init(a) + [Last(a)];
        assert b == Init(b) + [Last(b)];
      }
    }
  }

  /** Removing the last character of `b` changes the distance by at most one. */
  lemma {:induction false} LevInitRight(a: String, b: String)
    requires |b| > 0
    ensures Lev(a, Init(b)) <= Lev(a, b) + 1
    decreases |a|
  {
    if |a| > 0 {
      LevInitRight(Init(a), b);
      LevInitLeftStep(a, Init(b));
    }
  }

  /** Deleting the last character of `a` first costs at most one more edit. */
  lemma LevInitLeftStep(a: String, b: String)
    requires |a| > 0
    ensures Lev(a, b) <= Lev(Init(a), b) + 1
  {
  }

  /** Removing the last character of `a` changes the distance by at most one. */
  lemma LevInitLeft(a: String, b: String)
    requires |a| > 0
    ensures Lev(Init(a), b) <= Lev(a, b) + 1
  {
    LevSymmetric(a, b);
    LevSymmetric(Init(a), b);
    LevInitRight(b, a);
  }

  /**
   * When the last characters agree, the distance is that of the two shorter
   * prefixes: neither a deletion nor an insertion can do better.
   */
  lemma LevMatchDiagonal(a: String, b: String)
    requires |a| > 0 && |b| > 0 && Last(a) == Last(b)
    ensures Lev(a, b) == Lev(Init(a), Init(b))
  {
    LevInitRight(Init(a), b);
    LevInitLeft(a, Init(b));
  }

  /**
   * The recurrence on the table of prefix distances, in the form the
   * table-filling loop uses: a match copies the diagonal, a mismatch adds one
   * to the cheapest neighbour.
   */
  lemma LevPrefixStep(a: String, b: String, i: nat, j: nat)
    requires 1 <= i <= |a| && 1 <= j <= |b|
    ensures Lev(a[..i], b[..j]) ==
      if a[i - 1] == b[j - 1] then Lev(a[..i - 1], b[..j - 1])
      else 1 + Min(Min(Lev(a[..i - 1], b[..j]), Lev(a[..i], b[..j - 1])), Lev(a[..i - 1], b[..j - 1]))
  {
    assert Init(a[..i]) == a[..i - 1] && Init(b[..j]) == b[..j - 1];
    if a[i - 1] == b[j - 1] {
      LevMatchDiagonal(a[..i], b[..j]);
    }
  }

  /** The number of positions at which two words of equal length differ. */
  function Mismatches(a: String, b: String): nat
    requires |a| == |b|
  {
    if |a| == 0 then 0 else Mismatches(Init(a), Init(b)) + SubstitutionCost(Last(a), Last(b))
  }

  /** Substituting every differing position is one way to edit `a` into `b`. */
  lemma {:induction false} LevAtMostMismatches(a: String, b: String)
    requires |a| == |b|
    ensures Lev(a, b) <= Mismatches(a, b)
    decreases |a|
  {
    if |a| > 0 {
      LevAtMostMismatches(Init(a), Init(b));
    }
  }

  /**
   * Between words of equal length, a single edit can only be a substitution:
   * a distance of at most one is exactly the number of differing positions.
   */
  lemma {:induction false} LevAtMostOneIsMismatches(a: String, b: String)
    requires |a| == |b| && Lev(a, b) <= 1
    ensures Mismatches(a, b) == Lev(a, b)
    decreases |a|
  {
    if |a| > 0 {
      LevBounds(Init(a), b);
      LevBounds(a, Init(b));
      LevBounds(Init(a), Init(b));
      LevAtMostOneIsMismatches(Init(a), Init(b));
    }
  }

  /** Deleting one character anywhere costs at most one edit. */
  lemma {:induction false} LevDeleteOne(u: String, x: char, v: String)
    ensures Lev(u + [x] + v, u + v) <= 1
    decreases |v|
  {
    if |v| == 0 {
      assert u + [x] + v == u + [x] && u + v == u;
      assert Init(u + [x]) == u;
      LevZeroIff(u, u);
      LevInitLeftStep(u + [x], u);
    } else {
      var a, b := u + [x] + v, u + v;
      assert Init(a) == u + [x] + Init(v) && Init(b) == u + Init(v);
      LevDeleteOne(u, x, Init(v));
      LevMatchDiagonal(a, b);
    }
  }
}
