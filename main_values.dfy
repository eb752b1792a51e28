/**
 * The three distances the command-line entry point prints, proved from the
 * general facts about `Lev`: a lower bound from the lengths or from the
 * equal-length lemma, and an upper bound from the edits that get there.
 */
module AutocorrectMain {

  import opened Levenshtein
  import opened EditScripts
  import Autocorrect

  /** Swapping the first two letters costs two substitutions, and no fewer. */
  lemma ActCatDistance()
    ensures Lev("act", "cat") == 2
  {
    assert Init("act") == "ac" && Init("ac") == "a" && Init("a") == [];
    assert Init("cat") == "ca" && Init("ca") == "c" && Init("c") == [];
    assert Mismatches("act", "cat") == 2;
    LevAtMostMismatches("act", "cat");
    LevZeroIff("act", "cat");
    if Lev("act", "cat") <= 1 {
      LevAtMostOneIsMismatches("act", "cat");
    }
  }

  /** One inserted `o`, and the lengths differ by one. */
  lemma RoomRooomDistance()
    ensures Lev("room", "rooom") == 1
  {
    assert "rooom" == "roo" + ['o'] + "m" && "room" == "roo" + "m";
    LevDeleteOne("roo", 'o', "m");
    LevSymmetric("room", "rooom");
    LevBounds("room", "rooom");
  }

  /** Deleting `o` and then `a` suffices, and the lengths differ by two. */
  lemma TowardTwrdDistance()
    ensures Lev("toward", "twrd") == 2
  {
    assert "toward" == "t" + ['o'] + "w" + ['a'] + "rd" && "twrd" == "t" + "w" + "rd";
    LevDeleteTwo("t", 'o', "w", 'a', "rd");
    LevBounds("toward", "twrd");
  }

  /** The values the entry point computes for its three sample pairs. */
  method SampleDistances() returns (actCat: int, roomRooom: int, towardTwrd: int)
    ensures actCat == 2 && roomRooom == 1 && towardTwrd == 2
  {
    actCat := Autocorrect.CalculateEditDistance("act", "cat");
    roomRooom := Autocorrect.CalculateEditDistance("room", "rooom");
    towardTwrd := Autocorrect.CalculateEditDistance("toward", "twrd");
    ActCatDistance();
    RoomRooomDistance();
    TowardTwrdDistance();
  }
}
