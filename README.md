# Autocorrect edit distance in Dafny

This project models the algorithmic core of the Autocorrect command-line tool:
`Autocorrect.calculateEditDistance`. It computes the Levenshtein distance of two
words. That is the least number of single-character insertions, deletions and
substitutions that turn one word into the other.

The routine fills a `(|a|+1) × (|b|+1)` table. Column 0 and row 0 get their
indices. Every other cell is filled row by row. If the two characters match,
the cell copies its diagonal neighbour. Otherwise it takes one plus the minimum
of the delete, insert and substitute neighbours. The answer is the
bottom-right cell.

Modules:

- `Levenshtein` (`levenshtein.dfy`): the specification `Lev(a, b)`. It is the
  textbook recurrence on prefixes, where every non-empty cell takes the
  minimum of all three neighbours. The lemmas cover bounds, symmetry,
  identity, and the step the table uses: on a match, the diagonal alone is
  already the minimum.
- `EditScripts` (`edit_scripts.dfy`): edit scripts made of `Keep`, `Substitute`,
  `Insert` and `Delete`. `Lev` is proved to be the least cost of any script
  that turns `a` into `b`. The triangle inequality is proved by composing
  scripts.
- `Autocorrect` (`autocorrect.dfy`): the imperative routine over an
  `array2<int>`, proved to return `Lev(a, b)`. The inner loop over `j` is the
  method `FillRow`. Its invariant says every cell it has filled equals `Lev`
  of the matching prefixes.
- `AutocorrectMain` (`main_values.dfy`): the three pairs the entry point
  prints, with their distances proved.

`toward`/`twrd`: a distance of 3 is sometimes quoted for this pair. The
routine as written computes 2, which is the Levenshtein distance: deleting
`o` and `a` turns `toward` into `twrd`, and the lengths differ by 2. The model
follows the code and proves 2 (`AutocorrectMain.TowardTwrdDistance`).

## Model

| member | source | states |
|---|---|---|
| Autocorrect.CalculateEditDistance | src/Autocorrect.java:42-66 | The value returned (the bottom-right cell of the table) is exactly the Levenshtein distance `Lev(a, b)` of the two words |
| Autocorrect.FillRow | src/Autocorrect.java:53-62 | After one pass of the inner loop, every cell `levDist[i, j]` of row `i` equals `Lev(a[..i], b[..j])`, and every other row is unchanged |
| Levenshtein.Min | src/Autocorrect.java:60 | `Math.min`: the result is at most both arguments and equals one of them |
| Levenshtein.LevPrefixStep | src/Autocorrect.java:54-60 | The prefix distances obey the table's own rule: a match copies the diagonal, a mismatch is one plus the least of delete, insert and substitute |
| Levenshtein.LevMatchDiagonal | src/Autocorrect.java:54-55 | When the last characters match, the distance equals the diagonal distance, so the shortcut that copies the diagonal loses nothing |
| Levenshtein.LevInitRight | src/Autocorrect.java:58 | Dropping the last character of `b` moves the distance by at most one (the insert neighbour is at most one more) |
| Levenshtein.LevInitLeft | src/Autocorrect.java:57 | Dropping the last character of `a` moves the distance by at most one (the delete neighbour is at most one more) |
| Levenshtein.LevEmpty | src/Autocorrect.java:45-50 | Row 0 and column 0: the distance between the empty word and `s`, in either order, is the length of `s` |
| Levenshtein.LevBounds | src/Autocorrect.java:43-65 | The distance is at least the length difference and at most the longer length |
| Levenshtein.LevSymmetric | src/Autocorrect.java:57-60 | The distance is symmetric: `Lev(a, b) == Lev(b, a)` |
| Levenshtein.LevZeroIff | src/Autocorrect.java:54-55 | The distance is 0 if and only if the two words are equal |
| Levenshtein.LevAtMostMismatches | src/Autocorrect.java:59-60 | For words of equal length, the distance is at most the number of differing positions (substitutions only) |
| Levenshtein.LevAtMostOneIsMismatches | src/Autocorrect.java:57-60 | For words of equal length at distance at most 1, the distance equals the number of differing positions: one edit between equal lengths is a substitution |
| Levenshtein.LevDeleteOne | src/Autocorrect.java:57 | Deleting one character anywhere in a word costs at most one edit |
| EditScripts.LevIsLowerBound | src/Autocorrect.java:52-63 | No script of insertions, deletions and substitutions that turns `a` into `b` costs less than `Lev(a, b)` |
| EditScripts.OptimalScript | src/Autocorrect.java:52-63 | Builds a script that turns `a` into `b` at a cost of exactly `Lev(a, b)` |
| EditScripts.LevIsMinimumScriptCost | src/Autocorrect.java:52-63 | `Lev(a, b)` is the minimum script cost: some script reaches it, and every script costs at least that much |
| EditScripts.Compose | src/Autocorrect.java:57-60 | Running two scripts one after the other, with fused edits, never costs more than the two costs added |
| EditScripts.ComposeTransforms | src/Autocorrect.java:57-60 | The composed script turns `a` into `b` whenever the first turns `a` into `c` and the second turns `c` into `b` |
| EditScripts.LevTriangle | src/Autocorrect.java:52-63 | Triangle inequality: `Lev(a, b) <= Lev(a, c) + Lev(c, b)` |
| EditScripts.LevDeleteTwo | src/Autocorrect.java:57 | Deleting two characters anywhere in a word costs at most two edits |
| AutocorrectMain.ActCatDistance | src/Autocorrect.java:26 | `Lev("act", "cat") == 2` |
| AutocorrectMain.RoomRooomDistance | src/Autocorrect.java:27 | `Lev("room", "rooom") == 1` |
| AutocorrectMain.TowardTwrdDistance | src/Autocorrect.java:28 | `Lev("toward", "twrd") == 2` |
| AutocorrectMain.SampleDistances | src/Autocorrect.java:24-29 | The three values the entry point computes with the routine are 2, 1 and 2 |

## Left out

- `loadDictionary` (src/Autocorrect.java:73-92): file input, `Integer.parseInt` of the word count and `IOException` wrapping. This is I/O plumbing with no logic to prove.
- `main` (src/Autocorrect.java:24-29): the console printing is left out. The three values it prints are kept as `AutocorrectMain.SampleDistances` and its lemmas.
- `runTest` (src/Autocorrect.java:37-40): a stub that returns an empty array. Its comment describes threshold filtering and sorting, but no code implements them.
- The commented-out constructor (src/Autocorrect.java:20-22): it has no behaviour.
- Suggestion lookup (rolling-hash fingerprints, a candidate index, threshold filtering and ordering of suggestions): none of it is in this source, so there is nothing to model it against.
- `Autocorrect` has no fields, so `calculateEditDistance` is a module-level method rather than a method of a class.
- The inner `j` loop (src/Autocorrect.java:53-62) is the separate method `Autocorrect.FillRow`, called once per row. This keeps each proof small. The cells it writes and the order it writes them in are the same as in the source.
- Java's 32-bit `int` is not modelled. Every cell is at most `max(|a|, |b|)` (`Levenshtein.LevBounds`), so no cell can overflow. Running out of memory when the table is allocated is not modelled either.
- Java `char`/UTF-16 details: words are `seq<char>`, compared with exact equality as in src/Autocorrect.java:54. A `null` argument (a Java `NullPointerException`) has no counterpart.
