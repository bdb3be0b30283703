/**
 * The checks `Main` makes on the command-line moves before any round is
 * played (Program.cs): first the count, then case-insensitive uniqueness.
 */
module Validation {
  import opened Wrappers
  import opened Text

  datatype ValidationError =
    | MoveCountError   // "Please enter an odd number of moves, three or more"
    | DuplicateMoves   // "duplicate moves. All moves must be unique."

  predicate NoDuplicates(s: seq<string>)
  {
    forall i, j :: 0 <= i < j < |s| ==> s[i] != s[j]
  }

  /** No two moves are equal once lower-cased. */
  predicate DistinctIgnoringCase(moves: seq<string>)
  {
    forall i, j :: 0 <= i < j < |moves| ==> Lower(moves[i]) != Lower(moves[j])
  }

  /** `args.Select(s => s.ToLowerInvariant())` */
  function Lowered(args: seq<string>): seq<string>
  {
    seq(|args|, i requires 0 <= i < |args| => Lower(args[i]))
  }

  /** LINQ's `Distinct`: the elements of `s`, each once, in the order of
      their first occurrence. */
  function Distinct(s: seq<string>): (d: seq<string>)
    ensures |d| <= |s|
    ensures forall x :: x in d <==> x in s
    ensures NoDuplicates(d)
  {
    if |s| == 0 then []
    else
      var rest := Distinct(s[..|s| - 1]);
      if s[|s| - 1] in rest then rest else rest + [s[|s| - 1]]
  }

  /** `Distinct().Count()` equals the length exactly when nothing repeats. */
  lemma {:induction false} DistinctCountExact(s: seq<string>)
    ensures |Distinct(s)| == |s| <==> NoDuplicates(s)
  {
    if |s| > 0 {
      var init, x := s[..|s| - 1], s[|s| - 1];
      DistinctCountExact(init);
      if NoDuplicates(s) {
        assert forall i, j :: 0 <= i < j < |init| ==> init[i] == s[i] && init[j] == s[j];
        assert x !in init by {
          assert forall k :: 0 <= k < |init| ==> init[k] == s[k] != s[|s| - 1];
        }
      } else if x !in init {
        var i, j :| 0 <= i < j < |s| && s[i] == s[j];
        assert init[i] == init[j];
      }
    }
  }

  /** The validation in `Main`: the count check runs first, so a bad count
      is reported even when moves also repeat; on success the moves go to
      the game unchanged and in order. */
  function Validate(args: seq<string>): (r: Result<seq<string>, ValidationError>)
    ensures r == Failure(MoveCountError) <==> |args| <= 1 || |args| % 2 == 0
    ensures r == Failure(DuplicateMoves) <==>
      |args| > 1 && |args| % 2 == 1 && !DistinctIgnoringCase(args)
    ensures r.Success? ==>
      r.value == args && |args| >= 3 && |args| % 2 == 1 && DistinctIgnoringCase(args)
  {
    if |args| <= 1 || |args| % 2 == 0 then Failure(MoveCountError)
    else
      var lowered := Lowered(args);
      DistinctCountExact(lowered);
      assert forall i :: 0 <= i < |args| ==> lowered[i] == Lower(args[i]);
      assert NoDuplicates(lowered) <==> DistinctIgnoringCase(args);
      if |Distinct(lowered)| != |args| then Failure(DuplicateMoves)
      else Success(args)
  }

  /** Command lines the program accepts. */
  lemma AcceptedExamples()
    ensures Validate(["rock", "paper", "scissors"]) == Success(["rock", "paper", "scissors"])
    ensures Validate(["a", "b", "c", "d", "e"]).Success?
  {
    var rps := ["rock", "paper", "scissors"];
    assert Lower(rps[0]) == "rock" && Lower(rps[1]) == "paper" && Lower(rps[2]) == "scissors";
    assert DistinctIgnoringCase(rps);
    var five := ["a", "b", "c", "d", "e"];
    assert forall i :: 0 <= i < 5 ==> Lower(five[i]) == five[i];
    assert DistinctIgnoringCase(five);
  }

  /** Command lines the program refuses, and why: the count is checked
      before repeats, so two equal moves fail on their count. */
  lemma RefusedExamples()
    ensures Validate(["rock", "paper"]) == Failure(MoveCountError)
    ensures Validate(["rock", "rock"]) == Failure(MoveCountError)
    ensures Validate(["rock", "ROCK", "paper"]) == Failure(DuplicateMoves)
  {
    var dup := ["rock", "ROCK", "paper"];
    assert Lower(dup[0]) == Lower(dup[1]) == "rock";
    assert !DistinctIgnoringCase(dup);
  }
}
