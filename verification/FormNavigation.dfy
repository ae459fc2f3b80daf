/** Cyclic navigation over the enabled fields of a form (tux-tui/src/model.rs). */
module FormNavigation {
  import opened Prelude

  /** `x` reduced into `0..n`, for `x` below `2 * n`. */
  function Wrap(x: nat, n: nat): nat {
    if x < n then x else if x - n < n then x - n else 0
  }

  /** The field `d` steps after, or before, field `i` on the circle. */
  function Ahead(flags: seq<bool>, i: nat, d: nat): nat { Wrap(i + d, |flags|) }

  function Behind(flags: seq<bool>, i: nat, d: nat): nat
    requires d <= i + |flags|
  {
    Wrap(i + |flags| - d, |flags|)
  }

  /** Steps to the first enabled field, at least `d`; one more than the circle if there is none. */
  function StepsAhead(flags: seq<bool>, i: nat, d: nat): (r: nat)
    ensures d <= |flags| + 1 ==> d <= r <= |flags| + 1
    ensures d <= |flags| + 1 ==> forall k :: d <= k < r && Ahead(flags, i, k) < |flags| ==> !flags[Ahead(flags, i, k)]
    ensures r <= |flags| && Ahead(flags, i, r) < |flags| ==> flags[Ahead(flags, i, r)]
    decreases |flags| + 1 - d
  {
    if d > |flags| then |flags| + 1
    else if Ahead(flags, i, d) < |flags| && !flags[Ahead(flags, i, d)] then StepsAhead(flags, i, d + 1)
    else d
  }

  function StepsBehind(flags: seq<bool>, i: nat, d: nat): (r: nat)
    requires i < |flags|
    ensures d <= |flags| + 1 ==> d <= r <= |flags| + 1
    ensures d <= |flags| + 1 ==> forall k :: d <= k < r && Behind(flags, i, k) < |flags| ==> !flags[Behind(flags, i, k)]
    ensures r <= |flags| && Behind(flags, i, r) < |flags| ==> flags[Behind(flags, i, r)]
    decreases |flags| + 1 - d
  {
    if d > |flags| then |flags| + 1
    else if Behind(flags, i, d) < |flags| && !flags[Behind(flags, i, d)] then StepsBehind(flags, i, d + 1)
    else d
  }

  function Next(flags: seq<bool>, i: nat): nat
    requires i < |flags|
  {
    if StepsAhead(flags, i, 1) <= |flags| then Ahead(flags, i, StepsAhead(flags, i, 1)) else i
  }

  function Prev(flags: seq<bool>, i: nat): nat
    requires i < |flags|
  {
    if StepsBehind(flags, i, 1) <= |flags| then Behind(flags, i, StepsBehind(flags, i, 1)) else i
  }

  /** The search loop of `select_next`, with the source's arithmetic. */
  method FindNext(flags: seq<bool>, i: nat) returns (j: nat)
    requires i < |flags|
    ensures j == Next(flags, i)
  {
    var n := |flags|;
    for d := 1 to n + 1
      invariant StepsAhead(flags, i, 1) == StepsAhead(flags, i, d)
    {
      ModBelowTwice(i + d, n);
      var idx := (i + d) % n;
      if flags[idx] { return idx; }
    }
    return i;
  }

  /** The search loop of `select_prev`. */
  method FindPrev(flags: seq<bool>, i: nat) returns (j: nat)
    requires i < |flags|
    ensures j == Prev(flags, i)
  {
    var n := |flags|;
    for d := 1 to n + 1
      invariant StepsBehind(flags, i, 1) == StepsBehind(flags, i, d)
    {
      ModBelowTwice(i + n - d, n);
      var idx := (i + n - d) % n;
      if flags[idx] { return idx; }
    }
    return i;
  }

  // ---- Ranks ---------------------------------------------------------------

  /** How many of the first `k` fields are enabled. */
  function Rank(flags: seq<bool>, k: nat): nat
    requires k <= |flags|
  {
    if k == 0 then 0 else Rank(flags, k - 1) + if flags[k - 1] then 1 else 0
  }

  lemma {:induction false} RankOverGap(flags: seq<bool>, a: nat, b: nat)
    requires a <= b <= |flags| && forall k :: a <= k < b ==> !flags[k]
    ensures Rank(flags, a) == Rank(flags, b)
  {
    if a < b {
      RankOverGap(flags, a, b - 1);
    }
  }

  lemma {:induction false} RankMonotone(flags: seq<bool>, a: nat, b: nat)
    requires a <= b <= |flags|
    ensures Rank(flags, a) <= Rank(flags, b)
    ensures a < b && flags[a] ==> Rank(flags, a) < Rank(flags, b)
  {
    if a + 1 < b {
      RankMonotone(flags, a, b - 1);
    }
  }

  /** An enabled field is known by its rank. */
  lemma RankIdentifies(flags: seq<bool>, a: nat, b: nat)
    requires a < |flags| && b < |flags| && flags[a] && flags[b] && Rank(flags, a) == Rank(flags, b)
    ensures a == b
  {
    RankMonotone(flags, Min(a, b), Max(a, b));
  }

  lemma AnyEnabledIsReached(flags: seq<bool>, i: nat, j: nat)
    requires i < |flags| && j < |flags| && flags[j]
    ensures StepsAhead(flags, i, 1) <= |flags| && StepsBehind(flags, i, 1) <= |flags|
  {
    var n := |flags|;
    var d := if j > i then j - i else j + n - i;
    var e := if i > j then i - j else i + n - j;
    assert Ahead(flags, i, d) == j && Behind(flags, i, e) == j;
  }

  /** If any field is enabled, both moves land on an enabled one; if none is, they stay. */
  lemma MovesLandOnEnabled(flags: seq<bool>, i: nat)
    requires i < |flags|
    ensures true in flags ==> Next(flags, i) < |flags| && flags[Next(flags, i)]
                              && Prev(flags, i) < |flags| && flags[Prev(flags, i)]
    ensures true !in flags ==> Next(flags, i) == i && Prev(flags, i) == i
  {
    if true in flags {
      var j :| 0 <= j < |flags| && flags[j];
      AnyEnabledIsReached(flags, i, j);
    } else {
      forall k | 0 <= k < |flags|
        ensures !flags[k]
      {
        assert flags[k] in flags;
      }
    }
  }

  /** `Next` goes up by one rank, from the last back to the first. */
  lemma NextRank(flags: seq<bool>, i: nat)
    requires i < |flags| && flags[i]
    ensures var j, n := Next(flags, i), Rank(flags, |flags|);
            j < |flags| && flags[j] && Rank(flags, j) == if Rank(flags, i) + 1 == n then 0 else Rank(flags, i) + 1
  {
    var n, d := |flags|, StepsAhead(flags, i, 1);
    AnyEnabledIsReached(flags, i, i);
    var j := Next(flags, i);
    if i + d < n {
      forall k | i + 1 <= k < j
        ensures !flags[k]
      {
        assert k == Ahead(flags, i, k - i);
      }
      RankOverGap(flags, i + 1, j);
      RankMonotone(flags, j, n);
    } else {
      forall k | i + 1 <= k < n
        ensures !flags[k]
      {
        assert k == Ahead(flags, i, k - i);
      }
      forall k | 0 <= k < j
        ensures !flags[k]
      {
        assert k == Ahead(flags, i, k + n - i);
      }
      RankOverGap(flags, i + 1, n);
      RankOverGap(flags, 0, j);
    }
  }

  /** `Prev` goes down by one rank, from the first to the last. */
  lemma PrevRank(flags: seq<bool>, i: nat)
    requires i < |flags| && flags[i]
    ensures var j, n := Prev(flags, i), Rank(flags, |flags|);
            j < |flags| && flags[j] && Rank(flags, j) == if Rank(flags, i) == 0 then n - 1 else Rank(flags, i) - 1
  {
    var n, d := |flags|, StepsBehind(flags, i, 1);
    AnyEnabledIsReached(flags, i, i);
    var j := Prev(flags, i);
    if d <= i {
      forall k | j + 1 <= k < i
        ensures !flags[k]
      {
        assert k == Behind(flags, i, i - k);
      }
      RankOverGap(flags, j + 1, i);
    } else {
      forall k | 0 <= k < i
        ensures !flags[k]
      {
        assert k == Behind(flags, i, i - k);
      }
      forall k | j + 1 <= k < n
        ensures !flags[k]
      {
        assert k == Behind(flags, i, i + n - k);
      }
      RankOverGap(flags, 0, i);
      RankOverGap(flags, j + 1, n);
    }
  }

  /** From an enabled field each move undoes the other. */
  lemma MovesUndoEachOther(flags: seq<bool>, i: nat)
    requires i < |flags| && flags[i]
    ensures Next(flags, i) < |flags| && Prev(flags, Next(flags, i)) == i
    ensures Prev(flags, i) < |flags| && Next(flags, Prev(flags, i)) == i
  {
    var n := Rank(flags, |flags|);
    RankMonotone(flags, i, |flags|);
    NextRank(flags, i);
    PrevRank(flags, Next(flags, i));
    PrevRank(flags, i);
    NextRank(flags, Prev(flags, i));
    RankIdentifies(flags, Prev(flags, Next(flags, i)), i);
    RankIdentifies(flags, Next(flags, Prev(flags, i)), i);
  }

  // ---- Going round ------------------------------------------------------------

  /** The selection after `k` presses of next. */
  function Presses(flags: seq<bool>, i: nat, k: nat): nat
    requires i < |flags|
  {
    if k == 0 then i else
      var before := Presses(flags, i, k - 1);
      if before < |flags| then Next(flags, before) else before
  }

  lemma {:induction false} PressesRank(flags: seq<bool>, i: nat, k: nat)
    requires i < |flags| && flags[i] && k <= Rank(flags, |flags|)
    ensures Presses(flags, i, k) < |flags| && flags[Presses(flags, i, k)]
    ensures Rank(flags, Presses(flags, i, k)) == Wrap(Rank(flags, i) + k, Rank(flags, |flags|))
  {
    RankMonotone(flags, i, |flags|);
    if k > 0 {
      PressesRank(flags, i, k - 1);
      NextRank(flags, Presses(flags, i, k - 1));
    }
  }

  /** With `n` enabled fields, `n` presses of next from an enabled one end where they began. */
  lemma OneRoundReturns(flags: seq<bool>, i: nat)
    requires i < |flags| && flags[i]
    ensures Presses(flags, i, Rank(flags, |flags|)) == i
  {
    RankMonotone(flags, i, |flags|);
    PressesRank(flags, i, Rank(flags, |flags|));
    RankIdentifies(flags, Presses(flags, i, Rank(flags, |flags|)), i);
  }

  /** On the way, every enabled field is reached ... */
  lemma OneRoundReaches(flags: seq<bool>, i: nat, j: nat) returns (k: nat)
    requires i < |flags| && flags[i] && j < |flags| && flags[j]
    ensures 1 <= k <= Rank(flags, |flags|) && Presses(flags, i, k) == j
  {
    var n, r, s := Rank(flags, |flags|), Rank(flags, i), Rank(flags, j);
    RankMonotone(flags, i, |flags|);
    RankMonotone(flags, j, |flags|);
    k := if s > r then s - r else s + n - r;
    PressesRank(flags, i, k);
    RankIdentifies(flags, Presses(flags, i, k), j);
  }

  /** ... by exactly one of the presses. */
  lemma OneRoundNeverRepeats(flags: seq<bool>, i: nat, k: nat, k': nat)
    requires i < |flags| && flags[i] && 1 <= k < k' <= Rank(flags, |flags|)
    ensures Presses(flags, i, k) != Presses(flags, i, k')
  {
    PressesRank(flags, i, k);
    PressesRank(flags, i, k');
    RankMonotone(flags, i, |flags|);
  }

  /** `Next` goes to the nearest enabled field further on, or, if there is none, to the first from the start. */
  lemma NextIsNearest(flags: seq<bool>, i: nat)
    requires i < |flags| && true in flags
    ensures var j := Next(flags, i);
            && j < |flags| && flags[j]
            && (if j > i then forall k :: i < k < j ==> !flags[k]
                else (forall k :: i < k < |flags| ==> !flags[k]) && forall k :: 0 <= k < j ==> !flags[k])
  {
    MovesLandOnEnabled(flags, i);
    var n, j := |flags|, Next(flags, i);
    forall k | 0 <= k < n && (if j > i then i < k < j else (i < k || k < j)) ensures !flags[k] {
      assert Ahead(flags, i, if k > i then k - i else k + n - i) == k;
    }
  }

  /** `Prev` goes to the nearest enabled field further back, or, if there is none, to the last from the end. */
  lemma PrevIsNearest(flags: seq<bool>, i: nat)
    requires i < |flags| && true in flags
    ensures var j := Prev(flags, i);
            && j < |flags| && flags[j]
            && (if j < i then forall k :: j < k < i ==> !flags[k]
                else (forall k :: 0 <= k < i ==> !flags[k]) && forall k :: j < k < |flags| ==> !flags[k])
  {
    MovesLandOnEnabled(flags, i);
    var n, j := |flags|, Prev(flags, i);
    forall k | 0 <= k < n && (if j < i then j < k < i else (k < i || j < k)) ensures !flags[k] {
      assert Behind(flags, i, if k < i then i - k else i + n - k) == k;
    }
  }
}
