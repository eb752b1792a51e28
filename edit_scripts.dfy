/**
 * Edit scripts: sequences of single-character edits read left to right along
 * both strings. `Transforms(s, a, b)` says that script `s` turns `a` into `b`.
 * The lemmas here show that `Lev` is exactly the least number of insertions,
 * deletions and substitutions needed, and that it obeys the triangle
 * inequality.
 */
module EditScripts {

  import opened Levenshtein

  datatype Edit =
    | Keep                  // copy the next character of the source
    | Substitute(c: char)   // replace the next character of the source by c
    | Insert(c: char)       // emit c without consuming the source
    | Delete                // drop the next character of the source

  function EditCost(e: Edit): nat
  {
    if e.Keep? then 0 else 1
  }

  function ScriptCost(s: seq<Edit>): nat
  {
    if |s| == 0 then 0 else ScriptCost(s[..|s| - 1]) + EditCost(s[|s| - 1])
  }

  /** Script `s` turns `a` into `b`; it is unfolded from its last edit. */
  predicate Transforms(s: seq<Edit>, a: String, b: String)
    decreases |s|
  {
    if |s| == 0 then a == [] && b == []
    else
      var rest := s[..|s| - 1];
      match s[|s| - 1]
      case Keep =>
        |a| > 0 && |b| > 0 && Last(a) == Last(b) && Transforms(rest, Init(a), Init(b))
      case Substitute(c) =>
        |a| > 0 && |b| > 0 && Last(b) == c && Transforms(rest, Init(a), Init(b))
      case Insert(c) =>
        |b| > 0 && Last(b) == c && Transforms(rest, a, Init(b))
      case Delete =>
        |a| > 0 && Transforms(rest, Init(a), b)
  }

  /** No script that turns `a` into `b` is cheaper than `Lev(a, b)`. */
  lemma {:induction false} LevIsLowerBound(s: seq<Edit>, a: String, b: String)
    requires Transforms(s, a, b)
    ensures Lev(a, b) <= ScriptCost(s)
    decreases |s|
  {
    if |s| > 0 {
      var rest := s[..|s| - 1];
      match s[|s| - 1]
      case Keep =>
        LevIsLowerBound(rest, Init(a), Init(b));
      case Substitute(c) =>
        LevIsLowerBound(rest, Init(a), Init(b));
      case Insert(c) =>
        LevIsLowerBound(rest, a, Init(b));
      case Delete =>
        LevIsLowerBound(rest, Init(a), b);
    }
  }

  /** A script that turns `a` into `b` at exactly the cost `Lev(a, b)`. */
  function OptimalScript(a: String, b: String): (s: seq<Edit>)
    ensures Transforms(s, a, b) && ScriptCost(s) == Lev(a, b)
    decreases |a| + |b|
  {
    if |a| == 0 && |b| == 0 then []
    else if |a| == 0 then
      var s := OptimalScript(a, Init(b)) + [Insert(Last(b))];
      assert s[..|s| - 1] == OptimalScript(a, Init(b));
      s
    else if |b| == 0 then
      var s := OptimalScript(Init(a), b) + [Delete];
      assert s[..|s| - 1] == OptimalScript(Init(a), b);
      s
    else if Lev(a, b) == Lev(Init(a), Init(b)) + SubstitutionCost(Last(a), Last(b)) then
      var e := if Last(a) == Last(b) then Keep else Substitute(Last(b));
      var s := OptimalScript(Init(a), Init(b)) + [e];
      assert s[..|s| - 1] == OptimalScript(Init(a), Init(b));
      s
    else if Lev(a, b) == Lev(Init(a), b) + 1 then
      var s := OptimalScript(Init(a), b) + [Delete];
      assert s[..|s| - 1] == OptimalScript(Init(a), b);
      s
    else
      var s := OptimalScript(a, Init(b)) + [Insert(Last(b))];
      assert s[..|s| - 1] == OptimalScript(a, Init(b));
      s
  }

  /** `Lev(a, b)` is the least cost of any script that turns `a` into `b`. */
  lemma LevIsMinimumScriptCost(a: String, b: String)
    ensures exists s :: Transforms(s, a, b) && ScriptCost(s) == Lev(a, b)
    ensures forall s :: Transforms(s, a, b) ==> Lev(a, b) <= ScriptCost(s)
  {
    var w := OptimalScript(a, b);
    assert Transforms(w, a, b) && ScriptCost(w) == Lev(a, b);
    forall s | Transforms(s, a, b)
      ensures Lev(a, b) <= ScriptCost(s)
    {
      LevIsLowerBound(s, a, b);
    }
  }

  /**
   * Runs `first` and then `second` as one script. Where `second` consumes the
   * character that `first` produced, the two edits are fused into one (or
   * cancel out), so the result never costs more than the two together.
   */
  function Compose(first: seq<Edit>, second: seq<Edit>): (s: seq<Edit>)
    ensures ScriptCost(s) <= ScriptCost(first) + ScriptCost(second)
    decreases |first| + |second|
  {
    if |second| > 0 && second[|second| - 1].Insert? then
      Compose(first, second[..|second| - 1]) + [second[|second| - 1]]
    else if |first| > 0 && first[|first| - 1].Delete? then
      Compose(first[..|first| - 1], second) + [Delete]
    else if |first| == 0 then
      second
    else if |second| == 0 then
      first
    else
      var rest := Compose(first[..|first| - 1], second[..|second| - 1]);
      var x, y := first[|first| - 1], second[|second| - 1];
      if y.Delete? then
        if x.Insert? then rest else rest + [Delete]
      else if y.Keep? then
        rest + [x]
      else if x.Insert? then
        rest + [Insert(y.c)]
      else
        rest + [y]
  }

  /** The composed script turns `a` into `b` through the intermediate `c`. */
  lemma {:induction false} ComposeTransforms(first: seq<Edit>, second: seq<Edit>, a: String, c: String, b: String)
    requires Transforms(first, a, c) && Transforms(second, c, b)
    ensures Transforms(Compose(first, second), a, b)
    decreases |first| + |second|
  {
    var s := Compose(first, second);
    if |second| > 0 && second[|second| - 1].Insert? {
      ComposeTransforms(first, second[..|second| - 1], a, c, Init(b));
      assert s[..|s| - 1] == Compose(first, second[..|second| - 1]);
    } else if |first| > 0 && first[|first| - 1].Delete? {
      ComposeTransforms(first[..|first| - 1], second, Init(a), c, b);
      assert s[..|s| - 1] == Compose(first[..|first| - 1], second);
    } else if |first| == 0 {
      assert a == c == [];
      assert s == second;
    } else if |second| == 0 {
      assert false;
    } else {
      var rest := Compose(first[..|first| - 1], second[..|second| - 1]);
      var x, y := first[|first| - 1], second[|second| - 1];
      if x.Insert? {
        ComposeTransforms(first[..|first| - 1], second[..|second| - 1], a, Init(c), if y.Delete? then b else Init(b));
      } else {
        ComposeTransforms(first[..|first| - 1], second[..|second| - 1], Init(a), Init(c), if y.Delete? then b else Init(b));
      }
      if !(x.Insert? && y.Delete?) {
        assert s[..|s| - 1] == rest;
      }
    }
  }

  /** The triangle inequality for the edit distance. */
  lemma LevTriangle(a: String, b: String, c: String)
    ensures Lev(a, b) <= Lev(a, c) + Lev(c, b)
  {
    var first, second := OptimalScript(a, c), OptimalScript(c, b);
    ComposeTransforms(first, second, a, c, b);
    LevIsLowerBound(Compose(first, second), a, b);
  }

  /** Deleting two characters anywhere costs at most two edits. */
  lemma LevDeleteTwo(u: String, x: char, v: String, y: char, w: String)
    ensures Lev(u + [x] + v + [y] + w, u + v + w) <= 2
  {
    var a, m, b := u + [x] + v + [y] + w, u + v + [y] + w, u + v + w;
    assert a == u + [x] + (v + [y] + w) && m == u + (v + [y] + w);
    LevDeleteOne(u, x, v + [y] + w);
    assert m == (u + v) + [y] + w && b == (u + v) + w;
    LevDeleteOne(u + v, y, w);
    LevTriangle(a, b, m);
  }
}
