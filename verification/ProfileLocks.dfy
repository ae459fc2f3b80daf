/** The locks that profile and fan calls take (tux-daemon/src/dbus/profile.rs,
    tux-daemon/src/dbus/fan.rs, tux-daemon/src/dbus/tcc_compat.rs, tux-daemon/src/main.rs): the
    profile store, the daemon config, and the lock inside the assignments channel, which a `borrow()`
    holds shared and a send exclusively. */
module ProfileLocks {

  datatype Lock = Store | Config | Assigns

  datatype Action = Take(lock: Lock, exclusive: bool) | Drop(lock: Lock)

  datatype Call =
    | SetActive       // `set_active_profile_inner`
    | UpdateQuiet     // `update_profile` of a profile that is not the active one
    | UpdateNudging   // `update_profile` of the active profile
    | EditStore       // `create_profile`, `copy_profile`, `delete_profile`
    | ReadStore       // `list_profiles`, `get_profile`
    | ReadAssigns     // `get_profile_assignments`
    | LookUpActive    // the auto-switch loop's apply, `active_profile_inner`
    | Reload          // SIGHUP
    | TempProfile     // `set_temp_profile`
    | TempProfileById // `set_temp_profile_by_id`
    | SaveCharging    // the charging interface's save
    | FanCall         // `set_fan_mode`, `set_fan_curve`

  /** What a call takes and drops, in order. */
  function Program(call: Call): seq<Action> {
    match call
    case SetActive =>
      [Take(Store, false), Take(Assigns, true), Drop(Assigns), Take(Config, true), Take(Assigns, false),
       Drop(Assigns), Drop(Config), Drop(Store)]
    case UpdateQuiet => [Take(Store, true), Take(Assigns, false), Drop(Assigns), Drop(Store)]
    case UpdateNudging =>
      [Take(Store, true), Take(Assigns, false), Drop(Assigns), Take(Assigns, true), Drop(Assigns), Drop(Store)]
    case EditStore => [Take(Store, true), Drop(Store)]
    case ReadStore => [Take(Store, false), Drop(Store)]
    case ReadAssigns => [Take(Assigns, false), Drop(Assigns)]
    case LookUpActive => [Take(Assigns, false), Drop(Assigns), Take(Store, false), Drop(Store)]
    case Reload => [Take(Store, true), Drop(Store), Take(Assigns, true), Drop(Assigns)]
    case TempProfile => [Take(Store, false), Drop(Store), Take(Assigns, true), Drop(Assigns)]
    case TempProfileById => [Take(Store, false), Take(Assigns, true), Drop(Assigns), Drop(Store)]
    case SaveCharging => [Take(Config, true), Drop(Config)]
    case FanCall => [Take(Assigns, false), Take(Store, true), Drop(Store), Drop(Assigns)]
  }

  datatype Hold = Free | Shared | Exclusive

  /** How a call holds a lock after the first `pc` actions of its program. */
  function HoldAfter(actions: seq<Action>, pc: nat, lock: Lock): Hold
    requires pc <= |actions|
  {
    if pc == 0 then Free
    else match actions[pc - 1]
      case Take(l, exclusive) => if l == lock then (if exclusive then Exclusive else Shared) else HoldAfter(actions, pc - 1, lock)
      case Drop(l) => if l == lock then Free else HoldAfter(actions, pc - 1, lock)
  }

  /** A set of concurrent calls, and how far each of them is. */
  datatype State = State(calls: seq<Call>, pcs: seq<nat>) {
    ghost predicate Valid() {
      |pcs| == |calls| && forall i :: 0 <= i < |calls| ==> pcs[i] <= |Program(calls[i])|
    }
    ghost predicate Unfinished(i: nat)
      requires Valid()
    {
      i < |calls| && pcs[i] < |Program(calls[i])|
    }
    ghost function Upcoming(i: nat): Action
      requires Valid() && Unfinished(i)
    {
      Program(calls[i])[pcs[i]]
    }
    ghost function HoldOf(i: nat, lock: Lock): Hold
      requires Valid() && i < |calls|
    {
      HoldAfter(Program(calls[i]), pcs[i], lock)
    }
  }

  /** A holder that keeps someone else from taking a lock. */
  predicate Conflicts(hold: Hold, exclusive: bool) {
    hold == Exclusive || (exclusive && hold == Shared)
  }

  ghost predicate Waits(s: State, i: nat, lock: Lock, exclusive: bool)
    requires s.Valid()
  {
    s.Unfinished(i) && s.Upcoming(i) == Take(lock, exclusive)
  }

  /** Whether a call can do its next action. With `fair`, a reader also stands back behind any call
      that is about to write, which the lock implementations may or may not do. */
  ghost predicate CanStep(s: State, i: nat, fair: bool)
    requires s.Valid()
  {
    && s.Unfinished(i)
    && (s.Upcoming(i).Take? ==>
          var lock, exclusive := s.Upcoming(i).lock, s.Upcoming(i).exclusive;
          && (forall j :: 0 <= j < |s.calls| && j != i ==> !Conflicts(s.HoldOf(j, lock), exclusive))
          && (fair && !exclusive ==> forall j :: 0 <= j < |s.calls| && j != i ==> !Waits(s, j, lock, true)))
  }

  ghost function Step(s: State, i: nat): (s': State)
    requires s.Valid() && s.Unfinished(i)
    ensures s'.Valid()
  {
    s.(pcs := s.pcs[i := s.pcs[i] + 1])
  }

  ghost predicate Runs(s: State, schedule: seq<nat>, fair: bool)
    requires s.Valid()
    decreases |schedule|
  {
    schedule != [] ==> CanStep(s, schedule[0], fair) && Runs(Step(s, schedule[0]), schedule[1..], fair)
  }

  ghost function Final(s: State, schedule: seq<nat>, fair: bool): (s': State)
    requires s.Valid() && Runs(s, schedule, fair)
    ensures s'.Valid() && s'.calls == s.calls
    decreases |schedule|
  {
    if schedule == [] then s else Final(Step(s, schedule[0]), schedule[1..], fair)
  }

  /** Some run leads from one state to the other. */
  ghost predicate Reaches(s: State, t: State, fair: bool)
    requires s.Valid()
  {
    exists schedule :: Runs(s, schedule, fair) && Final(s, schedule, fair) == t
  }

  lemma ReachesItself(s: State, fair: bool)
    requires s.Valid()
    ensures Reaches(s, s, fair)
  {
    assert Runs(s, [], fair);
  }

  lemma ReachesAfterStep(s: State, i: nat, t: State, fair: bool)
    requires s.Valid() && CanStep(s, i, fair) && Reaches(Step(s, i), t, fair)
    ensures Reaches(s, t, fair)
  {
    var rest :| Runs(Step(s, i), rest, fair) && Final(Step(s, i), rest, fair) == t;
    assert ([i] + rest)[1..] == rest;
    assert Runs(s, [i] + rest, fair);
  }

  function Start(calls: seq<Call>): (s: State)
    ensures s.calls == calls && |s.pcs| == |calls| && forall i :: 0 <= i < |calls| ==> s.pcs[i] == 0
  {
    State(calls, seq(|calls|, i => 0))
  }

  ghost predicate AllFinished(s: State)
    requires s.Valid()
  {
    forall i :: 0 <= i < |s.calls| ==> s.pcs[i] == |Program(s.calls[i])|
  }

  // ---- Taking locks in order --------------------------------------------------------------

  /** Ranks for the two ways of taking each lock. */
  type Rank = (Lock, bool) -> nat

  /** A call only waits for what ranks above everything its holds keep others from, and drops all in the end. */
  ghost predicate Ordered(actions: seq<Action>, rank: Rank) {
    && (forall lock :: HoldAfter(actions, |actions|, lock) == Free)
    && (forall pc, lock, exclusive ::
          0 <= pc < |actions| && actions[pc].Take? && Conflicts(HoldAfter(actions, pc, lock), exclusive)
          ==> rank(lock, exclusive) < rank(actions[pc].lock, actions[pc].exclusive))
  }

  /** A reader standing back for a writer waits for nothing of lower rank. */
  ghost predicate FairlyRanked(calls: seq<Call>, rank: Rank) {
    forall lock :: rank(lock, false) <= rank(lock, true) || forall c :: c in calls ==> Take(lock, true) !in Program(c)
  }

  ghost predicate AllWait(s: State)
    requires s.Valid()
  {
    forall i :: 0 <= i < |s.calls| && s.Unfinished(i) ==> s.Upcoming(i).Take?
  }

  /** The rank of what a call waits for, if it is not finished. */
  ghost function RankOf(s: State, i: nat, rank: Rank): int
    requires s.Valid() && AllWait(s) && i < |s.calls|
  {
    if s.Unfinished(i) then rank(s.Upcoming(i).lock, s.Upcoming(i).exclusive) else -1
  }

  ghost function Ranks(s: State, rank: Rank): (ranks: seq<int>)
    requires s.Valid() && AllWait(s)
    ensures |ranks| == |s.calls| && forall i :: 0 <= i < |ranks| ==> ranks[i] == RankOf(s, i, rank)
  {
    seq(|s.calls|, i requires 0 <= i < |s.calls| => RankOf(s, i, rank))
  }

  /** Where a sequence is largest. */
  lemma LargestAt(ranks: seq<int>) returns (m: nat)
    requires ranks != []
    ensures m < |ranks| && forall i :: 0 <= i < |ranks| ==> ranks[i] <= ranks[m]
  {
    m := 0;
    for n := 0 to |ranks|
      invariant m < |ranks| && forall i :: 0 <= i < n ==> ranks[i] <= ranks[m]
    {
      if ranks[m] < ranks[n] {
        m := n;
      }
    }
  }

  ghost predicate Highest(s: State, rank: Rank, m: nat)
    requires s.Valid() && AllWait(s)
  {
    s.Unfinished(m) && forall i :: 0 <= i < |s.calls| ==> RankOf(s, i, rank) <= RankOf(s, m, rank)
  }

  /** Of the waiting calls, one waits for the highest rank. */
  lemma HighestWaiter(s: State, rank: Rank, k: nat) returns (m: nat)
    requires s.Valid() && AllWait(s) && s.Unfinished(k)
    ensures Highest(s, rank, m)
  {
    var ranks := Ranks(s, rank);
    m := LargestAt(ranks);
    assert 0 <= RankOf(s, k, rank) == ranks[k] <= ranks[m] == RankOf(s, m, rank);
    forall i | 0 <= i < |s.calls| ensures RankOf(s, i, rank) <= RankOf(s, m, rank) {
      assert ranks[i] <= ranks[m];
    }
  }

  lemma AsHigh(s: State, rank: Rank, m: nat, w: nat)
    requires s.Valid() && AllWait(s) && Highest(s, rank, m) && s.Unfinished(w)
    requires RankOf(s, m, rank) <= RankOf(s, w, rank)
    ensures Highest(s, rank, w)
  {
  }

  ghost predicate AllOrdered(calls: seq<Call>, rank: Rank) {
    forall c :: c in calls ==> Ordered(Program(c), rank)
  }

  /** Nobody holds what the highest waiter waits for: the holder would wait for something higher. */
  lemma HighestIsNotHeld(s: State, rank: Rank, m: nat, j: nat)
    requires s.Valid() && AllWait(s) && AllOrdered(s.calls, rank)
    requires Highest(s, rank, m)
    requires j < |s.calls|
    ensures !Conflicts(s.HoldOf(j, s.Upcoming(m).lock), s.Upcoming(m).exclusive)
  {
    assert Ordered(Program(s.calls[j]), rank);
    if s.Unfinished(j) {
      assert RankOf(s, j, rank) <= RankOf(s, m, rank);
    }
  }

  /** Ordered calls never block one another for good: as long as one is unfinished, one can move. */
  lemma SomeCallCanStep(s: State, rank: Rank, fair: bool) returns (i: nat)
    requires s.Valid() && AllOrdered(s.calls, rank)
    requires fair ==> FairlyRanked(s.calls, rank)
    requires !AllFinished(s)
    ensures CanStep(s, i, fair)
  {
    var k :| 0 <= k < |s.calls| && s.pcs[k] != |Program(s.calls[k])|;
    assert s.Unfinished(k);
    if AllWait(s) {
      i := HighestWaiter(s, rank, k);
      forall j | 0 <= j < |s.calls|
        ensures !Conflicts(s.HoldOf(j, s.Upcoming(i).lock), s.Upcoming(i).exclusive)
      {
        HighestIsNotHeld(s, rank, i, j);
      }
      if !CanStep(s, i, fair) {
        var lock := s.Upcoming(i).lock;
        var w :| 0 <= w < |s.calls| && w != i && Waits(s, w, lock, true);
        assert s.calls[w] in s.calls && Take(lock, true) in Program(s.calls[w]);
        assert rank(lock, false) <= rank(lock, true);
        AsHigh(s, rank, i, w);
        forall j | 0 <= j < |s.calls| ensures !Conflicts(s.HoldOf(j, lock), true) {
          HighestIsNotHeld(s, rank, w, j);
        }
        i := w;
      }
    } else {
      i :| 0 <= i < |s.calls| && s.Unfinished(i) && !s.Upcoming(i).Take?;
    }
  }

  /** How many actions the first `n` calls have left. */
  ghost function Remaining(s: State, n: nat): nat
    requires s.Valid() && n <= |s.calls|
  {
    if n == 0 then 0 else Remaining(s, n - 1) + (|Program(s.calls[n - 1])| - s.pcs[n - 1])
  }

  lemma {:induction false} RemainingAfterStep(s: State, i: nat, n: nat)
    requires s.Valid() && s.Unfinished(i) && n <= |s.calls|
    ensures Remaining(Step(s, i), n) == Remaining(s, n) - if i < n then 1 else 0
  {
    if n > 0 {
      RemainingAfterStep(s, i, n - 1);
    }
  }

  /** From every state, ordered calls can all finish. */
  lemma {:induction false} OrderedCallsCanFinish(s: State, rank: Rank, fair: bool) returns (end: State)
    requires s.Valid() && AllOrdered(s.calls, rank) && (fair ==> FairlyRanked(s.calls, rank))
    ensures end.Valid() && end.calls == s.calls && Reaches(s, end, fair) && AllFinished(end)
    decreases Remaining(s, |s.calls|)
  {
    if AllFinished(s) {
      end := s;
      ReachesItself(s, fair);
    } else {
      var i := SomeCallCanStep(s, rank, fair);
      RemainingAfterStep(s, i, |s.calls|);
      end := OrderedCallsCanFinish(Step(s, i), rank, fair);
      ReachesAfterStep(s, i, end, fair);
    }
  }

  // ---- Which calls can block one another for good --------------------------------------------

  /** Sends on the assignments channel with the store locked. */
  predicate SendsUnderStore(call: Call) {
    call.SetActive? || call.UpdateNudging? || call.TempProfileById?
  }

  /** A fan call reads the assignments and then waits for the store. What it must not meet is a call
      that has the store and waits to send, or, where a waiting sender keeps readers out, one that
      has the store and waits to read behind some other sender. */
  predicate MayDeadlock(calls: seq<Call>, fair: bool) {
    && FanCall in calls
    && ((exists c :: c in calls && SendsUnderStore(c))
        || (fair && UpdateQuiet in calls && (Reload in calls || TempProfile in calls)))
  }

  /** The store first, the assignments last. */
  function StoreFirst(lock: Lock, exclusive: bool): nat {
    match lock case Store => 0 case Config => 1 case Assigns => 2
  }

  /** The assignments first. */
  function AssignsFirst(lock: Lock, exclusive: bool): nat {
    match lock case Assigns => 0 case Store => 1 case Config => 2
  }

  /** Sending first, reading the assignments last. */
  function SendFirst(lock: Lock, exclusive: bool): nat {
    match lock case Assigns => (if exclusive then 0 else 2) case Store => 1 case Config => 3
  }

  lemma StoreFirstOrders(call: Call)
    requires call != FanCall
    ensures Ordered(Program(call), StoreFirst)
  {
    HoldsOf(call);
  }

  lemma AssignsFirstOrders(call: Call)
    requires !SendsUnderStore(call) && call != UpdateQuiet
    ensures Ordered(Program(call), AssignsFirst)
  {
    HoldsOf(call);
  }

  lemma SendFirstOrders(call: Call)
    requires !SendsUnderStore(call)
    ensures Ordered(Program(call), SendFirst)
  {
    HoldsOf(call);
  }

  /** `HoldAfter` written out for each call. */
  function HoldsAt(call: Call, pc: nat, lock: Lock): Hold {
    match call
    case SetActive =>
      (match lock
       case Store => if 1 <= pc < 8 then Shared else Free
       case Config => if 4 <= pc < 7 then Exclusive else Free
       case Assigns => if pc == 2 then Exclusive else if pc == 5 then Shared else Free)
    case UpdateQuiet => if lock == Store && 1 <= pc < 4 then Exclusive else if lock == Assigns && pc == 2 then Shared else Free
    case UpdateNudging =>
      (match lock
       case Store => if 1 <= pc < 6 then Exclusive else Free
       case Config => Free
       case Assigns => if pc == 2 then Shared else if pc == 4 then Exclusive else Free)
    case EditStore => if lock == Store && pc == 1 then Exclusive else Free
    case ReadStore => if lock == Store && pc == 1 then Shared else Free
    case ReadAssigns => if lock == Assigns && pc == 1 then Shared else Free
    case LookUpActive => if (lock == Assigns && pc == 1) || (lock == Store && pc == 3) then Shared else Free
    case Reload => if (lock == Store && pc == 1) || (lock == Assigns && pc == 3) then Exclusive else Free
    case TempProfile => if lock == Store && pc == 1 then Shared else if lock == Assigns && pc == 3 then Exclusive else Free
    case TempProfileById => if lock == Store && 1 <= pc < 4 then Shared else if lock == Assigns && pc == 2 then Exclusive else Free
    case SaveCharging => if lock == Config && pc == 1 then Exclusive else Free
    case FanCall => if lock == Assigns && 1 <= pc < 4 then Shared else if lock == Store && pc == 2 then Exclusive else Free
  }

  lemma {:induction false} HoldsOf(call: Call)
    ensures forall pc, lock :: 0 <= pc <= |Program(call)| ==> HoldAfter(Program(call), pc, lock) == HoldsAt(call, pc, lock)
  {
    forall pc, lock | 0 <= pc <= |Program(call)| ensures HoldAfter(Program(call), pc, lock) == HoldsAt(call, pc, lock) {
      HoldIs(call, pc, lock);
    }
  }

  lemma {:induction false} HoldIs(call: Call, pc: nat, lock: Lock)
    requires pc <= |Program(call)|
    ensures HoldAfter(Program(call), pc, lock) == HoldsAt(call, pc, lock)
  {
    if pc > 0 {
      HoldIs(call, pc - 1, lock);
    }
  }

  /** Somewhere on its way the call takes one lock while it holds another. */
  ghost predicate TakesHolding(call: Call, held: Lock, taken: Lock, exclusive: bool) {
    exists pc :: 0 <= pc < |Program(call)| && Program(call)[pc] == Take(taken, exclusive) && HoldAfter(Program(call), pc, held) != Free
  }

  /** Which locks are taken inside which: reassignments, updates and temporary profiles by id take the
      assignments, and a reassignment also the config, inside the store; a reassignment reads the assignments
      inside the config; a fan call takes the store inside the assignments; and no other call nests locks. */
  lemma NestingExactly(call: Call, held: Lock, taken: Lock, exclusive: bool)
    ensures TakesHolding(call, held, taken, exclusive) <==>
              match call
              case SetActive => (held == Store && (taken == Assigns || (taken == Config && exclusive))) || (held == Config && taken == Assigns && !exclusive)
              case UpdateQuiet => held == Store && taken == Assigns && !exclusive
              case UpdateNudging => held == Store && taken == Assigns
              case TempProfileById => held == Store && taken == Assigns && exclusive
              case FanCall => held == Assigns && taken == Store && exclusive
              case _ => false
  {
    HoldsOf(call);
    if call == SetActive {
      assert Program(call)[1] == Take(Assigns, true) && Program(call)[3] == Take(Config, true) && Program(call)[4] == Take(Assigns, false);
    } else if call == UpdateNudging {
      assert Program(call)[1] == Take(Assigns, false) && Program(call)[3] == Take(Assigns, true);
    } else if call.UpdateQuiet? || call.TempProfileById? || call.FanCall? {
      assert Program(call)[1] == Take(if call.FanCall? then Store else Assigns, !call.UpdateQuiet?);
    }
  }

  /** Which calls take a lock at all, and how. */
  lemma TakesExactly(call: Call)
    ensures Take(Store, true) in Program(call) <==>
            call.UpdateQuiet? || call.UpdateNudging? || call.EditStore? || call.Reload? || call.FanCall?
    ensures Take(Store, false) in Program(call) <==>
            call.SetActive? || call.ReadStore? || call.LookUpActive? || call.TempProfile? || call.TempProfileById?
    ensures Take(Assigns, true) in Program(call) <==>
            call.SetActive? || call.UpdateNudging? || call.Reload? || call.TempProfile? || call.TempProfileById?
    ensures Take(Assigns, false) in Program(call) <==>
            call.SetActive? || call.UpdateQuiet? || call.UpdateNudging? || call.ReadAssigns? || call.LookUpActive? || call.FanCall?
    ensures Take(Config, true) in Program(call) <==> call.SetActive? || call.SaveCharging?
    ensures Take(Config, false) !in Program(call)
  {
  }

  /** Without the calls that may meet so, every call can always finish, whatever the others have done. */
  lemma CallsCanFinish(s: State, fair: bool) returns (end: State)
    requires s.Valid() && !MayDeadlock(s.calls, fair)
    ensures end.Valid() && end.calls == s.calls && Reaches(s, end, fair) && AllFinished(end)
  {
    if FanCall !in s.calls {
      forall c | c in s.calls ensures Ordered(Program(c), StoreFirst) { StoreFirstOrders(c); }
      end := OrderedCallsCanFinish(s, StoreFirst, fair);
    } else if UpdateQuiet !in s.calls {
      forall c | c in s.calls ensures Ordered(Program(c), AssignsFirst) { AssignsFirstOrders(c); }
      end := OrderedCallsCanFinish(s, AssignsFirst, fair);
    } else {
      forall c | c in s.calls ensures Ordered(Program(c), SendFirst) { SendFirstOrders(c); }
      end := OrderedCallsCanFinish(s, SendFirst, fair);
    }
  }

  /** No run from here moves the call any more. */
  ghost predicate StuckForGood(s: State, i: nat, fair: bool)
    requires s.Valid()
  {
    s.Unfinished(i) && forall t: State :: t.Valid() && Reaches(s, t, fair) ==> t.calls == s.calls && t.pcs[i] == s.pcs[i]
  }

  /** The calls can get to where one of them is stuck for good. On the way there a reader stands back
      for nobody, since a writer that has not asked yet keeps nobody out. */
  ghost predicate CanDeadlock(calls: seq<Call>, fair: bool) {
    exists s: State, i :: s.Valid() && s.calls == calls && Reaches(Start(calls), s, false) && StuckForGood(s, i, fair)
  }

  /** Calls none of which can move as long as none of them has moved, wherever the others are. */
  ghost predicate Entangled(s: State, knot: set<nat>, fair: bool)
    requires s.Valid() && forall k :: k in knot ==> k < |s.calls|
  {
    forall s': State, i | SameAt(s, s', knot) && i in knot :: s.Unfinished(i) && !CanStep(s', i, fair)
  }

  ghost predicate SameAt(s: State, s': State, knot: set<nat>)
    requires s.Valid() && forall k :: k in knot ==> k < |s.calls|
  {
    s'.Valid() && s'.calls == s.calls && forall k :: k in knot ==> s'.pcs[k] == s.pcs[k]
  }

  lemma {:induction false} KnotStays(s: State, s': State, knot: set<nat>, fair: bool, schedule: seq<nat>)
    requires s.Valid() && (forall k :: k in knot ==> k < |s.calls|) && Entangled(s, knot, fair)
    requires SameAt(s, s', knot) && Runs(s', schedule, fair)
    ensures SameAt(s, Final(s', schedule, fair), knot)
    decreases |schedule|
  {
    if schedule != [] {
      KnotStays(s, Step(s', schedule[0]), knot, fair, schedule[1..]);
    }
  }

  lemma EntangledIsStuck(s: State, knot: set<nat>, i: nat, fair: bool)
    requires s.Valid() && (forall k :: k in knot ==> k < |s.calls|) && Entangled(s, knot, fair) && i in knot
    ensures StuckForGood(s, i, fair)
  {
    assert SameAt(s, s, knot);
    forall t: State | t.Valid() && Reaches(s, t, fair) ensures SameAt(s, t, knot) {
      var schedule :| Runs(s, schedule, fair) && Final(s, schedule, fair) == t;
      KnotStays(s, s, knot, fair, schedule);
    }
  }

  /** How far a call gets that has the store and waits to send. */
  function BeforeSend(call: Call): nat
    requires SendsUnderStore(call)
  {
    if call.UpdateNudging? then 3 else 1
  }

  /** The fan call has read the assignments and waits for the store, which the other call has. */
  ghost predicate Crossed(s: State, f: nat, g: nat) {
    && s.Valid() && f < |s.calls| && s.calls[f] == FanCall && s.pcs[f] == 1
    && g < |s.calls| && SendsUnderStore(s.calls[g]) && s.pcs[g] == BeforeSend(s.calls[g])
  }

  lemma CrossedWait(s: State, f: nat, g: nat, fair: bool)
    requires Crossed(s, f, g)
    ensures s.Unfinished(f) && !CanStep(s, f, fair) && s.Unfinished(g) && !CanStep(s, g, fair)
  {
    HoldIs(s.calls[f], s.pcs[f], Assigns);
    HoldIs(s.calls[g], s.pcs[g], Store);
    assert Conflicts(s.HoldOf(f, Assigns), true) && Conflicts(s.HoldOf(g, Store), true);
  }

  lemma CrossedEntangle(s: State, f: nat, g: nat, fair: bool)
    requires Crossed(s, f, g)
    ensures Entangled(s, {f, g}, fair)
  {
    forall s': State, i | SameAt(s, s', {f, g}) && i in {f, g}
      ensures s.Unfinished(i) && !CanStep(s', i, fair)
    {
      assert f in {f, g} && g in {f, g};
      CrossedWait(s', f, g, fair);
    }
  }

  /** Where readers stand back: the fan call has read the assignments, a sender waits for it, and a
      quiet update has the store and waits to read behind the sender. */
  ghost predicate CrossedByThree(s: State, f: nat, w: nat, u: nat) {
    && s.Valid() && f < |s.calls| && s.calls[f] == FanCall && s.pcs[f] == 1
    && w < |s.calls| && (s.calls[w] == Reload || s.calls[w] == TempProfile) && s.pcs[w] == 2
    && u < |s.calls| && s.calls[u] == UpdateQuiet && s.pcs[u] == 1
  }

  lemma CrossedByThreeWait(s: State, f: nat, w: nat, u: nat)
    requires CrossedByThree(s, f, w, u)
    ensures forall i :: i in {f, w, u} ==> s.Unfinished(i) && !CanStep(s, i, true)
  {
    HoldIs(FanCall, 1, Assigns);
    HoldIs(UpdateQuiet, 1, Store);
    assert Conflicts(s.HoldOf(f, Assigns), true) && Conflicts(s.HoldOf(u, Store), true) && Waits(s, w, Assigns, true);
  }

  lemma CrossedByThreeEntangle(s: State, f: nat, w: nat, u: nat)
    requires CrossedByThree(s, f, w, u)
    ensures Entangled(s, {f, w, u}, true)
  {
    forall s': State, i | SameAt(s, s', {f, w, u}) && i in {f, w, u}
      ensures s.Unfinished(i) && !CanStep(s', i, true)
    {
      assert f in {f, w, u} && w in {f, w, u} && u in {f, w, u};
      CrossedByThreeWait(s', f, w, u);
    }
  }

  /** A call moves if neither of the two others that have moved keeps it from what it asks for. */
  lemma Moves(s: State, i: nat, j: nat, k: nat)
    requires s.Valid() && s.Unfinished(i) && j < |s.calls| && k < |s.calls|
    requires forall l :: 0 <= l < |s.calls| && l != i && l != j && l != k ==> s.pcs[l] == 0
    requires s.Upcoming(i).Take? ==>
               var lock, exclusive := s.Upcoming(i).lock, s.Upcoming(i).exclusive;
               && (j == i || !Conflicts(HoldsAt(s.calls[j], s.pcs[j], lock), exclusive))
               && (k == i || !Conflicts(HoldsAt(s.calls[k], s.pcs[k], lock), exclusive))
    ensures CanStep(s, i, false)
  {
    if s.Upcoming(i).Take? {
      HoldIs(s.calls[j], s.pcs[j], s.Upcoming(i).lock);
      HoldIs(s.calls[k], s.pcs[k], s.Upcoming(i).lock);
    }
  }

  /** From where only a fan call has moved, another call goes up to its send. */
  lemma GoesUpToSend(s: State, f: nat, g: nat) returns (t: State)
    requires s.Valid() && f < |s.calls| && s.calls[f] == FanCall && g < |s.calls| && SendsUnderStore(s.calls[g])
    requires s.pcs == Start(s.calls).pcs[f := 1]
    ensures Reaches(s, t, false) && t.calls == s.calls && Crossed(t, f, g)
  {
    Moves(s, g, f, f);
    var s1 := Step(s, g);
    t := s1;
    if s.calls[g].UpdateNudging? {
      Moves(s1, g, f, f);
      var s2 := Step(s1, g);
      Moves(s2, g, f, f);
      t := Step(s2, g);
      ReachesItself(t, false);
      ReachesAfterStep(s2, g, t, false);
      ReachesAfterStep(s1, g, t, false);
    } else {
      ReachesItself(t, false);
    }
    ReachesAfterStep(s, g, t, false);
  }

  lemma PairDeadlocks(calls: seq<Call>, f: nat, g: nat, fair: bool)
    requires f < |calls| && calls[f] == FanCall && g < |calls| && SendsUnderStore(calls[g])
    ensures CanDeadlock(calls, fair)
  {
    Moves(Start(calls), f, f, f);
    var t := GoesUpToSend(Step(Start(calls), f), f, g);
    ReachesAfterStep(Start(calls), f, t, false);
    CrossedEntangle(t, f, g, fair);
    EntangledIsStuck(t, {f, g}, f, fair);
  }

  /** From where only a sender has moved, past its look at the store, a fan call reads the assignments
      and an update gets the store. */
  lemma GoBehindSender(s: State, f: nat, w: nat, u: nat) returns (t: State)
    requires s.Valid() && f < |s.calls| && s.calls[f] == FanCall && u < |s.calls| && s.calls[u] == UpdateQuiet
    requires w < |s.calls| && (s.calls[w] == Reload || s.calls[w] == TempProfile)
    requires s.pcs == Start(s.calls).pcs[w := 2]
    ensures Reaches(s, t, false) && t.calls == s.calls && CrossedByThree(t, f, w, u)
  {
    Moves(s, f, w, w);
    var s1 := Step(s, f);
    Moves(s1, u, f, w);
    t := Step(s1, u);
    ReachesItself(t, false);
    ReachesAfterStep(s1, u, t, false);
    ReachesAfterStep(s, f, t, false);
  }

  /** A sender is past its look at the store, and nothing else has happened. */
  lemma SenderGoesFirst(calls: seq<Call>, w: nat) returns (t: State)
    requires w < |calls| && (calls[w] == Reload || calls[w] == TempProfile)
    ensures t.Valid() && t.calls == calls && t.pcs == Start(calls).pcs[w := 2]
    ensures forall end: State :: Reaches(t, end, false) ==> Reaches(Start(calls), end, false)
  {
    var s := Start(calls);
    Moves(s, w, w, w);
    var s1 := Step(s, w);
    Moves(s1, w, w, w);
    t := Step(s1, w);
    forall end: State | Reaches(t, end, false) ensures Reaches(s, end, false) {
      ReachesAfterStep(s1, w, end, false);
      ReachesAfterStep(s, w, end, false);
    }
  }

  lemma ThreeDeadlock(calls: seq<Call>, f: nat, w: nat, u: nat)
    requires f < |calls| && calls[f] == FanCall && u < |calls| && calls[u] == UpdateQuiet
    requires w < |calls| && (calls[w] == Reload || calls[w] == TempProfile)
    ensures CanDeadlock(calls, true)
  {
    var s := SenderGoesFirst(calls, w);
    var t := GoBehindSender(s, f, w, u);
    CrossedByThreeEntangle(t, f, w, u);
    EntangledIsStuck(t, {f, w, u}, f, true);
  }

  lemma DeadlockReached(calls: seq<Call>, fair: bool)
    requires MayDeadlock(calls, fair)
    ensures CanDeadlock(calls, fair)
  {
    var f :| 0 <= f < |calls| && calls[f] == FanCall;
    if g :| 0 <= g < |calls| && SendsUnderStore(calls[g]) {
      PairDeadlocks(calls, f, g, fair);
    } else {
      var u :| 0 <= u < |calls| && calls[u] == UpdateQuiet;
      var w :| 0 <= w < |calls| && (calls[w] == Reload || calls[w] == TempProfile);
      ThreeDeadlock(calls, f, w, u);
    }
  }

  /** Concurrent calls can end up with one of them blocked for good exactly if a fan call is among
      them together with a call that sends with the store locked, or, where a waiting sender keeps
      readers out, with a quiet update and some other sender. */
  lemma DeadlockExactly(calls: seq<Call>, fair: bool)
    ensures CanDeadlock(calls, fair) <==> MayDeadlock(calls, fair)
  {
    if MayDeadlock(calls, fair) {
      DeadlockReached(calls, fair);
    } else {
      forall s: State, i: nat | s.Valid() && s.calls == calls ensures !StuckForGood(s, i, fair) {
        var end := CallsCanFinish(s, fair);
      }
    }
  }

  // ---- What becomes of the auto-switch loop --------------------------------------------------

  /** Who holds a lock exclusively holds it alone. */
  ghost predicate Exclusion(s: State)
    requires s.Valid()
  {
    forall i, j, lock ::
      0 <= i < |s.calls| && 0 <= j < |s.calls| && i != j && s.HoldOf(i, lock) == Exclusive ==> s.HoldOf(j, lock) == Free
  }

  /** What a step does to the holds of its call. */
  lemma HoldAfterStep(s: State, i: nat, lock: Lock)
    requires s.Valid() && s.Unfinished(i)
    ensures var before, after := s.HoldOf(i, lock), Step(s, i).HoldOf(i, lock);
            match s.Upcoming(i)
            case Take(l, exclusive) => after == if l == lock then (if exclusive then Exclusive else Shared) else before
            case Drop(l) => after == if l == lock then Free else before
  {
  }

  lemma StepKeepsExclusion(s: State, i: nat, fair: bool)
    requires s.Valid() && Exclusion(s) && CanStep(s, i, fair)
    ensures Exclusion(Step(s, i))
  {
    var s' := Step(s, i);
    forall j, k, lock | 0 <= j < |s.calls| && 0 <= k < |s.calls| && j != k && s'.HoldOf(j, lock) == Exclusive
      ensures s'.HoldOf(k, lock) == Free
    {
      HoldAfterStep(s, i, lock);
      assert j != i ==> s'.HoldOf(j, lock) == s.HoldOf(j, lock);
      assert k != i ==> s'.HoldOf(k, lock) == s.HoldOf(k, lock);
    }
  }

  lemma {:induction false} RunKeepsExclusion(s: State, schedule: seq<nat>, fair: bool)
    requires s.Valid() && Exclusion(s) && Runs(s, schedule, fair)
    ensures Exclusion(Final(s, schedule, fair))
    decreases |schedule|
  {
    if schedule != [] {
      StepKeepsExclusion(s, schedule[0], fair);
      RunKeepsExclusion(Step(s, schedule[0]), schedule[1..], fair);
    }
  }

  lemma ReachableExclusion(calls: seq<Call>, s: State)
    requires s.Valid() && Reaches(Start(calls), s, false)
    ensures Exclusion(s)
  {
    var schedule :| Runs(Start(calls), schedule, false) && Final(Start(calls), schedule, false) == s;
    RunKeepsExclusion(Start(calls), schedule, false);
  }

  /** A fan call and a sender wait for each other. If the sender has the store for itself, or readers stand
      back for the fan call, no run ever lets the auto-switch loop look up a profile in the store again ... */
  lemma {:induction false} LoopNeverAppliesAgain(s: State, f: nat, g: nat, l: nat, fair: bool, schedule: seq<nat>)
    requires Crossed(s, f, g) && (fair || s.calls[g] == UpdateNudging)
    requires l < |s.calls| && s.calls[l] == LookUpActive && s.pcs[l] <= 2
    requires Runs(s, schedule, fair)
    ensures Final(s, schedule, fair).calls == s.calls && Final(s, schedule, fair).pcs[l] <= 2
    decreases |schedule|
  {
    if schedule != [] {
      CrossedWait(s, f, g, fair);
      HoldIs(UpdateNudging, 3, Store);
      assert s.calls[g] == UpdateNudging ==> s.HoldOf(g, Store) == Exclusive;
      assert Waits(s, f, Store, true);
      LoopNeverAppliesAgain(Step(s, schedule[0]), f, g, l, fair, schedule[1..]);
    }
  }

  /** ... and otherwise the loop still can: the sender shares the store with readers. */
  lemma {:induction false} LoopGetsOn(s: State, f: nat, g: nat, l: nat) returns (t: State)
    requires Crossed(s, f, g) && s.calls[g] != UpdateNudging && Exclusion(s)
    requires l < |s.calls| && s.calls[l] == LookUpActive && s.pcs[l] <= 2
    ensures t.Valid() && t.calls == s.calls && Reaches(s, t, false) && t.pcs[l] == 3
    decreases 3 - s.pcs[l]
  {
    HoldIs(FanCall, 1, Assigns);
    HoldIs(s.calls[g], 1, Store);
    assert s.HoldOf(f, Assigns) == Shared && s.HoldOf(g, Store) == Shared;
    assert CanStep(s, l, false);
    StepKeepsExclusion(s, l, false);
    if s.pcs[l] == 2 {
      t := Step(s, l);
      ReachesItself(t, false);
    } else {
      t := LoopGetsOn(Step(s, l), f, g, l);
    }
    ReachesAfterStep(s, l, t, false);
  }

  /** So from any reachable state with a fan call and a sender in each other's way, the loop can look up a
      profile again exactly if readers do not stand back and the sender is not a nudging update. */
  lemma LoopAppliesAgainExactly(s: State, f: nat, g: nat, l: nat, fair: bool)
    requires Crossed(s, f, g) && Reaches(Start(s.calls), s, false)
    requires l < |s.calls| && s.calls[l] == LookUpActive && s.pcs[l] <= 2
    ensures (exists t: State :: t.Valid() && t.calls == s.calls && Reaches(s, t, fair) && t.pcs[l] > 2)
            <==> !fair && s.calls[g] != UpdateNudging
  {
    if !fair && s.calls[g] != UpdateNudging {
      ReachableExclusion(s.calls, s);
      var _ := LoopGetsOn(s, f, g, l);
    } else {
      forall t: State | t.Valid() && t.calls == s.calls && Reaches(s, t, fair) ensures t.pcs[l] <= 2 {
        var schedule :| Runs(s, schedule, fair) && Final(s, schedule, fair) == t;
        LoopNeverAppliesAgain(s, f, g, l, fair, schedule);
      }
    }
  }
}
