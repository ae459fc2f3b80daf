/** Consecutive-event counters, seen as a count over the history that feeds them. */
module Counting {

  /** One entry of a history: it breaks the run, adds to it, or leaves it alone. */
  datatype Mark = Break | Count | Neutral

  /** What a counter that is cleared by `Break` and bumped by `Count` shows at the end. */
  function Trailing(marks: seq<Mark>): nat {
    if marks == [] then 0
    else
      var before := marks[..|marks| - 1];
      match marks[|marks| - 1]
      case Break => 0
      case Count => Trailing(before) + 1
      case Neutral => Trailing(before)
  }

  function Counts(marks: seq<Mark>): nat {
    if marks == [] then 0
    else Counts(marks[..|marks| - 1]) + if marks[|marks| - 1] == Count then 1 else 0
  }

  /** From `j` to the end nothing breaks the run and `k` or more entries count. */
  ghost predicate UnbrokenRun(marks: seq<Mark>, j: nat, k: nat) {
    j <= |marks| && Break !in marks[j..] && Counts(marks[j..]) >= k
  }

  /** The counter shows at least `k` exactly when the history ends in an unbroken run with `k` counts. */
  lemma {:induction false} TrailingIsUnbrokenRun(marks: seq<Mark>, k: nat)
    ensures Trailing(marks) >= k <==> exists j: nat :: UnbrokenRun(marks, j, k)
  {
    if k == 0 {
      assert UnbrokenRun(marks, |marks|, 0);
    } else if marks == [] {
      forall j: nat
        ensures !UnbrokenRun(marks, j, k)
      {
        if j <= |marks| { assert marks[j..] == []; }
      }
    } else {
      var before, last := marks[..|marks| - 1], marks[|marks| - 1];
      var k' := if last == Count then k - 1 else k;
      TrailingIsUnbrokenRun(before, k');
      forall j: nat | j < |marks|
        ensures UnbrokenRun(marks, j, k) <==> last != Break && UnbrokenRun(before, j, k')
      {
        assert marks[j..] == before[j..] + [last];
        assert marks[j..][..|marks[j..]| - 1] == before[j..];
      }
      assert !UnbrokenRun(marks, |marks|, k) by { assert marks[|marks|..] == []; }
      if Trailing(marks) >= k {
        var j: nat :| UnbrokenRun(before, j, k');
        assert UnbrokenRun(marks, j, k);
      }
    }
  }

  lemma TrailingAppend(marks: seq<Mark>, m: Mark)
    ensures Trailing(marks + [m]) ==
            match m case Break => 0 case Count => Trailing(marks) + 1 case Neutral => Trailing(marks)
  {
    assert (marks + [m])[..|marks|] == marks;
  }
}
