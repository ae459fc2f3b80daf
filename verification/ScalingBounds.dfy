/** CPU frequency bounds across many CPUs: the best-effort write loop of the governor
    (tux-daemon/src/cpu/governor.rs) and the order in which a profile's bounds are applied
    (tux-daemon/src/profile_apply.rs). */
module ScalingBounds {
  import opened Prelude

  datatype Attr = MinFreq | MaxFreq

  /** The bounds of one CPU. */
  datatype Bounds = Bounds(lo: int, hi: int)

  function Put(b: Bounds, attr: Attr, value: int): Bounds {
    match attr case MinFreq => b.(lo := value) case MaxFreq => b.(hi := value)
  }

  /** A CPU with its bounds right after a successful write. */
  datatype Seen = Seen(cpu: nat, bounds: Bounds)

  predicate Succeeds(oks: seq<bool>, i: nat) {
    i < |oks| && oks[i]
  }

  function Positive(value: Option<int>): Option<int> {
    if value.Some? && value.value > 0 then value else None
  }

  function Final(b: Bounds, minFreq: int, maxFreq: int, minOk: bool, maxOk: bool): Bounds {
    Bounds(if minOk then minFreq else b.lo, if maxOk then maxFreq else b.hi)
  }

  function MinFirst(current: seq<Bounds>, maxFreq: int, readable: bool): bool {
    readable && current != [] && maxFreq < current[0].lo
  }

  /** Neither of the two writes to one CPU leaves its minimum above its maximum. */
  predicate NeverInverted(minFirst: bool, b: Bounds, minFreq: int, maxFreq: int, minOk: bool, maxOk: bool) {
    if minFirst then
      (minOk ==> minFreq <= b.hi) && (maxOk ==> (if minOk then minFreq else b.lo) <= maxFreq)
    else
      (maxOk ==> b.lo <= maxFreq) && (minOk ==> minFreq <= (if maxOk then maxFreq else b.hi))
  }

  /** No bound pair recorded from `start` on has its minimum above its maximum. */
  ghost predicate NoneInverted(seen: seq<Seen>, start: nat) {
    forall k :: start <= k < |seen| ==> seen[k].bounds.lo <= seen[k].bounds.hi
  }

  /** Two passes of writes, read off their records. */
  lemma AllSeenOrderly(seen: seq<Seen>, start: nat, middle: nat, half: seq<Bounds>, end: seq<Bounds>,
                       first: seq<bool>, second: seq<bool>)
    requires start <= middle <= |seen| && |half| == |end|
    requires forall k :: start <= k < middle ==>
               seen[k].cpu < |half| && Succeeds(first, seen[k].cpu) && seen[k].bounds == half[seen[k].cpu]
    requires forall i :: 0 <= i < |half| && Succeeds(first, i) ==> Seen(i, half[i]) in seen[..middle][start..]
    requires forall k :: middle <= k < |seen| ==>
               seen[k].cpu < |end| && Succeeds(second, seen[k].cpu) && seen[k].bounds == end[seen[k].cpu]
    requires forall i :: 0 <= i < |end| && Succeeds(second, i) ==> Seen(i, end[i]) in seen[middle..]
    ensures NoneInverted(seen, start) <==>
            (forall i :: 0 <= i < |half| ==>
                    (Succeeds(first, i) ==> half[i].lo <= half[i].hi) && (Succeeds(second, i) ==> end[i].lo <= end[i].hi))
  {
    if NoneInverted(seen, start) {
      forall i | 0 <= i < |half| && Succeeds(first, i)
        ensures half[i].lo <= half[i].hi
      {
        var k :| 0 <= k < middle - start && seen[..middle][start..][k] == Seen(i, half[i]);
        assert seen[start + k] == Seen(i, half[i]);
      }
      forall i | 0 <= i < |half| && Succeeds(second, i)
        ensures end[i].lo <= end[i].hi
      {
        var k :| 0 <= k < |seen| - middle && seen[middle..][k] == Seen(i, end[i]);
        assert seen[middle + k] == Seen(i, end[i]);
      }
    }
  }

  /** Every CPU has the same bounds, the minimum not above the maximum. */
  ghost predicate SharedInOrder(current: seq<Bounds>) {
    forall i :: 0 <= i < |current| ==> current[i] == current[0] && current[i].lo <= current[i].hi
  }

  /** From shared, readable bounds in order, with every write succeeding, no write inverts any CPU's
      bounds and every CPU ends at exactly the requested pair. */
  lemma SharedBoundsApplyCleanly(current: seq<Bounds>, minFreq: int, maxFreq: int)
    requires SharedInOrder(current) && minFreq <= maxFreq
    ensures forall i :: 0 <= i < |current| ==>
              && NeverInverted(MinFirst(current, maxFreq, true), current[i], minFreq, maxFreq, true, true)
              && Final(current[i], minFreq, maxFreq, true, true) == Bounds(minFreq, maxFreq)
  {
  }

  class CpuGovernor {
    const bounds: array<Bounds>
    ghost var seen: seq<Seen>

    constructor (initial: seq<Bounds>)
      ensures bounds[..] == initial && fresh(bounds) && seen == []
    {
      bounds := new Bounds[|initial|](i requires 0 <= i < |initial| => initial[i]);
      seen := [];
    }

    /** Tries every CPU; fails only if no CPU could be written. */
    method WriteAll(attr: Attr, value: int, oks: seq<bool>) returns (ok: bool)
      modifies this, bounds
      ensures ok <==> exists i :: 0 <= i < bounds.Length && Succeeds(oks, i)
      ensures forall i :: 0 <= i < bounds.Length ==>
                && bounds[i].lo == (if Succeeds(oks, i) && attr == MinFreq then value else old(bounds[i]).lo)
                && bounds[i].hi == (if Succeeds(oks, i) && attr == MaxFreq then value else old(bounds[i]).hi)
      ensures old(seen) <= seen
      ensures forall k :: |old(seen)| <= k < |seen| ==>
                seen[k].cpu < bounds.Length && Succeeds(oks, seen[k].cpu) && seen[k].bounds == bounds[seen[k].cpu]
      ensures forall i :: 0 <= i < bounds.Length && Succeeds(oks, i) ==> Seen(i, bounds[i]) in seen[|old(seen)|..]
    {
      var successes := 0;
      for i := 0 to bounds.Length
        invariant successes > 0 <==> exists k :: 0 <= k < i && Succeeds(oks, k)
        invariant successes >= 0
        invariant forall k :: 0 <= k < bounds.Length ==>
                    bounds[k] == if k < i && Succeeds(oks, k) then Put(old(bounds[k]), attr, value) else old(bounds[k])
        invariant old(seen) <= seen
        invariant forall k :: |old(seen)| <= k < |seen| ==>
                    seen[k].cpu < i && Succeeds(oks, seen[k].cpu) && seen[k].bounds == bounds[seen[k].cpu]
        invariant forall k :: 0 <= k < i && Succeeds(oks, k) ==> Seen(k, bounds[k]) in seen[|old(seen)|..]
      {
        if Succeeds(oks, i) {
          bounds[i] := Put(bounds[i], attr, value);
          ghost var before := seen;
          seen := seen + [Seen(i, bounds[i])];
          assert seen[|old(seen)|..] == before[|old(seen)|..] + [Seen(i, bounds[i])];
          successes := successes + 1;
        }
      }
      ok := successes > 0;
    }

    /** Lowers the minimum first when the new maximum would fall below the current minimum of the
        first CPU; otherwise, and when nothing can be read, sets the maximum first. */
    method ApplyScalingBounds(minFreq: int, maxFreq: int, readable: bool, minOks: seq<bool>, maxOks: seq<bool>)
      modifies this, bounds
      ensures forall i :: 0 <= i < bounds.Length ==>
                && bounds[i].lo == (if Succeeds(minOks, i) then minFreq else old(bounds[i]).lo)
                && bounds[i].hi == (if Succeeds(maxOks, i) then maxFreq else old(bounds[i]).hi)
      ensures old(seen) <= seen
      ensures var minFirst := MinFirst(old(bounds[..]), maxFreq, readable);
              NoneInverted(seen, |old(seen)|)
              <==> (forall i :: 0 <= i < bounds.Length ==>
                      NeverInverted(minFirst, old(bounds[i]), minFreq, maxFreq, Succeeds(minOks, i), Succeeds(maxOks, i)))
      ensures readable && SharedInOrder(old(bounds[..])) && minFreq <= maxFreq
              && (forall i :: 0 <= i < bounds.Length ==> Succeeds(minOks, i) && Succeeds(maxOks, i)) ==>
                && NoneInverted(seen, |old(seen)|)
                && (forall i :: 0 <= i < bounds.Length ==> bounds[i] == Bounds(minFreq, maxFreq))
    {
      var minFirst := readable && bounds.Length > 0 && maxFreq < bounds[0].lo;
      ghost var start := |seen|;
      var _ := WriteAll(if minFirst then MinFreq else MaxFreq, if minFirst then minFreq else maxFreq,
                        if minFirst then minOks else maxOks);
      ghost var middle := |seen|;
      ghost var half := bounds[..];
      ghost var seenHalf := seen;
      var _ := WriteAll(if minFirst then MaxFreq else MinFreq, if minFirst then maxFreq else minFreq,
                        if minFirst then maxOks else minOks);
      assert seen[..middle] == seenHalf;
      AllSeenOrderly(seen, start, middle, half, bounds[..], if minFirst then minOks else maxOks, if minFirst then maxOks else minOks);
      if readable && SharedInOrder(old(bounds[..])) && minFreq <= maxFreq {
        SharedBoundsApplyCleanly(old(bounds[..]), minFreq, maxFreq);
      }
    }

    /** The decision in `apply`: bounds that are not positive are ignored, contradictory ones skipped. */
    method ApplyFrequencies(profileMin: Option<int>, profileMax: Option<int>, readable: bool,
                            minOks: seq<bool>, maxOks: seq<bool>)
      modifies this, bounds
      ensures var lo := if profileMin.Some? && profileMin.value > 0 then profileMin else None;
              var hi := if profileMax.Some? && profileMax.value > 0 then profileMax else None;
              forall i :: 0 <= i < bounds.Length ==>
                bounds[i] == if lo.Some? && hi.Some? && lo.value > hi.value then old(bounds[i])
                             else Bounds(if lo.Some? && Succeeds(minOks, i) then lo.value else old(bounds[i]).lo,
                                         if hi.Some? && Succeeds(maxOks, i) then hi.value else old(bounds[i]).hi)
    {
      var lo, hi := Positive(profileMin), Positive(profileMax);
      if lo.Some? && hi.Some? {
        if lo.value <= hi.value {
          ApplyScalingBounds(lo.value, hi.value, readable, minOks, maxOks);
        }
      } else if lo.Some? {
        var _ := WriteAll(MinFreq, lo.value, minOks);
      } else if hi.Some? {
        var _ := WriteAll(MaxFreq, hi.value, maxOks);
      }
    }
  }

  /** With failing writes the same start inverts a CPU exactly when the write that had to clear the way
      failed on it and the other one succeeded. */
  lemma SharedBoundsInvertedExactly(current: seq<Bounds>, minFreq: int, maxFreq: int, i: nat, minOk: bool, maxOk: bool)
    requires SharedInOrder(current) && i < |current| && minFreq <= maxFreq
    ensures !NeverInverted(MinFirst(current, maxFreq, true), current[i], minFreq, maxFreq, minOk, maxOk) <==>
            (maxFreq < current[i].lo && maxOk && !minOk) || (current[i].hi < minFreq && minOk && !maxOk)
  {
  }

  /** Where the first CPU cannot be read, a request below the current minimum is applied in the wrong
      order; where CPUs differ, the first CPU decides for all. */
  lemma WrongOrderExactly(current: seq<Bounds>, minFreq: int, maxFreq: int, readable: bool, i: nat)
    requires i < |current| && current[i].lo <= current[i].hi && minFreq <= maxFreq
    ensures !NeverInverted(MinFirst(current, maxFreq, readable), current[i], minFreq, maxFreq, true, true) <==>
            if MinFirst(current, maxFreq, readable) then current[i].hi < minFreq else maxFreq < current[i].lo
  {
  }

  /** A CPU at 2000 to 3000 asked for 1000 to 1500: if only the lowering of its minimum fails, its
      maximum ends below its minimum; with nothing readable, it is below it between the two writes. */
  lemma InvertedExample()
    ensures var b := Bounds(2000, 3000);
            && MinFirst([b], 1500, true) && Final(b, 1000, 1500, false, true) == Bounds(2000, 1500)
            && !NeverInverted(true, b, 1000, 1500, false, true)
            && !MinFirst([b], 1500, false) && !NeverInverted(false, b, 1000, 1500, true, true)
  {
  }
}
