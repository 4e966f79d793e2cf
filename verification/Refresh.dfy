/** The refresh loop of a vendor (`vendor_update_loop`) and its readers, as a state machine over atomic steps with
    a clock: a replaced market list is kept for one more period before it is freed. */
module Refresh {
  import opened Options

  /** `market_timeout`, in ticks of one second. */
  const MARKET_TIMEOUT: nat := 180

  /** A market list, named by the order of its allocation. */
  type ListId = nat

  /** Where the updater is in its loop. */
  datatype Pc =
    | Freeing                               // about to free to_be_deleted, if it is not NULL
    | Taking                                // about to take current_market into to_be_deleted
    | Fetching                              // inside markets_get()
    | Publishing(fetched: Option<ListId>)   // about to assign its result to current_market
    | Sleeping(slept: nat, wakeAt: nat)     // inside sleep(1), after `slept` completed sleeps

  /** A reader holds the value of current_market that it read at time `since`. */
  datatype Lease = Lease(list: Option<ListId>, since: nat)

  datatype State = State(
    now: nat,
    pc: Pc,
    current: Option<ListId>,
    toBeDeleted: Option<ListId>,
    issued: nat,
    replacedAt: map<ListId, nat>,
    freed: seq<ListId>,
    freedAt: map<ListId, nat>,
    leases: map<nat, Lease>)

  datatype Step =
    | Tick
    | Free
    | Take
    | Fetch(found: bool)
    | Publish
    | Wake
    | Snapshot(reader: nat)
    | Release(reader: nat)

  const START := State(0, Freeing, None, None, 0, map[], [], map[], map[])

  // ---------- the steps ----------

  function FreeOld(s: State): State
    requires s.pc.Freeing?
  {
    match s.toBeDeleted
    case None => s.(pc := Taking)
    case Some(id) => s.(pc := Taking, freed := s.freed + [id], freedAt := s.freedAt[id := s.now])
  }

  function PublishNew(s: State): State
    requires s.pc.Publishing?
  {
    s.(pc := Sleeping(0, s.now + 1),
       current := s.pc.fetched,
       replacedAt := match s.current
                     case None => s.replacedAt
                     case Some(id) => s.replacedAt[id := s.now])
  }

  function WakeUp(s: State): State
    requires s.pc.Sleeping?
  {
    var slept := s.pc.slept + 1;
    s.(pc := if slept < MARKET_TIMEOUT then Sleeping(slept, s.now + 1) else Freeing)
  }

  /** The effect of a step, or None where it is not enabled. The clock and the readers can move at any time. */
  function Apply(s: State, step: Step): Option<State> {
    match step
    case Tick => Some(s.(now := s.now + 1))
    case Free => if s.pc.Freeing? then Some(FreeOld(s)) else None
    case Take => if s.pc.Taking? then Some(s.(pc := Fetching, toBeDeleted := s.current)) else None
    case Fetch(found) =>
      if !s.pc.Fetching? then None
      else if found then Some(s.(pc := Publishing(Some(s.issued)), issued := s.issued + 1))
      else Some(s.(pc := Publishing(None)))
    case Publish => if s.pc.Publishing? then Some(PublishNew(s)) else None
    case Wake => if s.pc.Sleeping? && s.pc.wakeAt <= s.now then Some(WakeUp(s)) else None
    case Snapshot(r) => Some(s.(leases := s.leases[r := Lease(s.current, s.now)]))
    case Release(r) => Some(s.(leases := s.leases - {r}))
  }

  /** The state after a sequence of steps, if every one of them is enabled. */
  function Run(s: State, steps: seq<Step>): Option<State> {
    if steps == [] then Some(s)
    else
      match Run(s, steps[..|steps| - 1])
      case None => None
      case Some(t) => Apply(t, steps[|steps| - 1])
  }

  ghost predicate Reachable(s: State) {
    exists steps :: Run(START, steps) == Some(s)
  }

  // ---------- the invariant ----------

  /** The list waiting to be freed: replaced, not current, not freed, and idle for at least `least` ticks. */
  ghost predicate Waiting(s: State, id: ListId, least: nat) {
    id in s.replacedAt && s.current != Some(id) && id !in s.freed && s.now >= s.replacedAt[id] + least
  }

  ghost predicate UpdaterOk(s: State) {
    match s.pc
    case Freeing => s.toBeDeleted.Some? ==> Waiting(s, s.toBeDeleted.value, MARKET_TIMEOUT)
    case Taking => true
    case Fetching => s.toBeDeleted == s.current
    case Publishing(fetched) =>
      s.toBeDeleted == s.current
      && (fetched.Some? ==> fetched.value < s.issued && fetched.value !in s.replacedAt && fetched != s.current)
    case Sleeping(slept, wakeAt) =>
      slept < MARKET_TIMEOUT
      && (s.toBeDeleted.Some? ==> Waiting(s, s.toBeDeleted.value, slept) && wakeAt >= s.replacedAt[s.toBeDeleted.value] + slept + 1)
  }

  ghost predicate ListsOk(s: State) {
    && (s.current.Some? ==> s.current.value < s.issued && s.current.value !in s.replacedAt)
    && (forall id | id in s.replacedAt :: id < s.issued && s.replacedAt[id] <= s.now)
    && (forall id | id in s.freed :: id in s.freedAt && id in s.replacedAt && s.freedAt[id] >= s.replacedAt[id] + MARKET_TIMEOUT
                                     && s.freedAt[id] <= s.now)
    && (forall i, j | 0 <= i < j < |s.freed| :: s.freed[i] != s.freed[j])
  }

  /** A reader's list is still current or was replaced after the reader took it. */
  ghost predicate LeaseOk(s: State, l: Lease) {
    l.since <= s.now
    && (l.list.Some? && l.list != s.current ==> l.list.value in s.replacedAt && s.replacedAt[l.list.value] >= l.since)
  }

  /** How many lists the program can still free: the current one, the one set aside, the one just fetched. */
  function Held(s: State): nat {
    var current := if s.current.Some? then 1 else 0;
    match s.pc
    case Freeing => current + (if s.toBeDeleted.Some? then 1 else 0)
    case Taking => current
    case Fetching => current
    case Publishing(fetched) => current + (if fetched.Some? then 1 else 0)
    case Sleeping(_, _) => current + (if s.toBeDeleted.Some? then 1 else 0)
  }

  /** Every list ever fetched is freed or can still be freed. */
  ghost predicate Balanced(s: State) { s.issued == |s.freed| + Held(s) }

  ghost predicate Inv(s: State) {
    ListsOk(s) && UpdaterOk(s) && Balanced(s) && forall r | r in s.leases :: LeaseOk(s, s.leases[r])
  }

  lemma StepKeepsLists(s: State, step: Step)
    requires ListsOk(s) && UpdaterOk(s) && Apply(s, step).Some?
    ensures ListsOk(Apply(s, step).value)
  {
    hide UpdaterOk, FreeOld, PublishNew;
    match step
    case Free => FreeKeepsLists(s);
    case Publish => PublishKeepsLists(s);
    case _ =>
  }

  lemma FreeKeepsLists(s: State)
    requires ListsOk(s) && UpdaterOk(s) && s.pc.Freeing?
    ensures ListsOk(FreeOld(s))
  {}

  lemma PublishKeepsLists(s: State)
    requires ListsOk(s) && UpdaterOk(s) && s.pc.Publishing?
    ensures ListsOk(PublishNew(s))
  {}

  lemma StepKeepsUpdater(s: State, step: Step)
    requires ListsOk(s) && UpdaterOk(s) && Apply(s, step).Some?
    ensures UpdaterOk(Apply(s, step).value)
  {}

  lemma StepKeepsLease(s: State, step: Step, l: Lease)
    requires ListsOk(s) && UpdaterOk(s) && LeaseOk(s, l) && Apply(s, step).Some?
    ensures LeaseOk(Apply(s, step).value, l)
  {}

  lemma StepKeepsBalance(s: State, step: Step)
    requires Balanced(s) && UpdaterOk(s) && Apply(s, step).Some?
    ensures Balanced(Apply(s, step).value)
  {}

  lemma {:induction false} StepKeeps(s: State, step: Step)
    requires Inv(s) && Apply(s, step).Some?
    ensures Inv(Apply(s, step).value)
  {
    hide ListsOk, UpdaterOk, Balanced;
    StepKeepsBalance(s, step);
    StepKeepsLists(s, step);
    StepKeepsUpdater(s, step);
    var t := Apply(s, step).value;
    forall r | r in t.leases
      ensures LeaseOk(t, t.leases[r])
    {
      if r in s.leases && t.leases[r] == s.leases[r] { StepKeepsLease(s, step, s.leases[r]); }
    }
  }

  lemma {:induction false} RunKeeps(s: State, steps: seq<Step>)
    requires Inv(s) && Run(s, steps).Some?
    ensures Inv(Run(s, steps).value)
  {
    if steps != [] {
      RunKeeps(s, steps[..|steps| - 1]);
      StepKeeps(Run(s, steps[..|steps| - 1]).value, steps[|steps| - 1]);
    }
  }

  lemma ReachableInv(s: State)
    requires Reachable(s)
    ensures Inv(s)
  {
    var steps :| Run(START, steps) == Some(s);
    RunKeeps(START, steps);
  }

  // ---------- safety ----------

  /** In every run: the current list is never a freed one, no list is freed twice, a list is freed only after it
      was replaced and at least 180 ticks later. */
  lemma NeverFreedTooEarly(s: State)
    requires Reachable(s)
    ensures s.current.Some? ==> s.current.value !in s.freed
    ensures forall i, j | 0 <= i < j < |s.freed| :: s.freed[i] != s.freed[j]
    ensures forall id | id in s.freed :: id in s.freedAt && id in s.replacedAt && s.freedAt[id] >= s.replacedAt[id] + 180
  {
    ReachableInv(s);
  }

  /** A reader that has held its list for less than 180 ticks still holds a list that is not freed. */
  lemma ReadersAreSafe(s: State, r: nat)
    requires Reachable(s) && r in s.leases && s.now < s.leases[r].since + 180
    ensures s.leases[r].list.Some? ==> s.leases[r].list.value !in s.freed
  {
    ReachableInv(s);
    assert LeaseOk(s, s.leases[r]);
  }

  /** In every run nothing leaks: of all lists ever fetched, at most two are not freed yet. */
  lemma NothingLeaks(s: State)
    requires Reachable(s)
    ensures |s.freed| <= s.issued <= |s.freed| + 2
    ensures forall id | id in s.freed :: id < s.issued
  {
    ReachableInv(s);
  }

  // ---------- the period is exact ----------

  lemma {:induction false} RunAppend(s: State, a: seq<Step>, b: seq<Step>)
    requires Run(s, a).Some?
    ensures Run(s, a + b) == Run(Run(s, a).value, b)
    decreases |b|
  {
    if b == [] {
      assert a + b == a;
    } else {
      RunAppend(s, a, b[..|b| - 1]);
      assert (a + b)[..|a + b| - 1] == a + b[..|b| - 1];
    }
  }

  lemma RunOne(s: State, step: Step)
    ensures Run(s, [step]) == Apply(s, step)
  {
    assert [step][..0] == [];
  }

  lemma RunTwo(s: State, a: Step, b: Step)
    requires Apply(s, a).Some?
    ensures Run(s, [a, b]) == Apply(Apply(s, a).value, b)
  {
    RunOne(s, a);
    assert [a, b][..1] == [a];
  }

  /** Sleeping through the rest of the period, waking at every tick. */
  lemma {:induction false} SleepThrough(s: State) returns (steps: seq<Step>)
    requires s.pc.Sleeping? && s.pc.slept < MARKET_TIMEOUT && s.pc.wakeAt == s.now + 1
    ensures Run(s, steps) == Some(s.(pc := Freeing, now := s.now + (MARKET_TIMEOUT - s.pc.slept)))
    decreases MARKET_TIMEOUT - s.pc.slept
  {
    hide Run;
    RunTwo(s, Tick, Wake);
    var t := WakeUp(s.(now := s.now + 1));
    steps := [Tick, Wake];
    assert Run(s, steps) == Some(t);
    if t.pc.Sleeping? {
      var more := SleepThrough(t);
      RunAppend(s, steps, more);
      steps := steps + more;
    }
  }

  /** One round of the loop body up to the first sleep, with a reader taking its snapshot before the new list is published. */
  lemma OneRound(s: State, r: nat) returns (steps: seq<Step>)
    requires s.pc.Freeing?
    ensures var f := FreeOld(s);
            Run(s, steps) == Some(PublishNew(f.(pc := Publishing(Some(s.issued)), issued := s.issued + 1,
                                                toBeDeleted := s.current, leases := s.leases[r := Lease(s.current, s.now)])))
  {
    RunTwo(s, Free, Take);
    var s1 := Run(s, [Free, Take]).value;
    RunTwo(s1, Snapshot(r), Fetch(true));
    var s2 := Run(s1, [Snapshot(r), Fetch(true)]).value;
    RunOne(s2, Publish);
    RunAppend(s, [Free, Take], [Snapshot(r), Fetch(true)]);
    RunAppend(s, [Free, Take] + [Snapshot(r), Fetch(true)], [Publish]);
    steps := [Free, Take] + [Snapshot(r), Fetch(true)] + [Publish];
  }

  /** The bound cannot be relaxed: in some run a reader that has held its list for exactly 180 ticks holds a freed list. */
  lemma GraceIsExact(r: nat) returns (s: State)
    ensures Reachable(s) && r in s.leases && s.now == s.leases[r].since + 180
    ensures s.leases[r].list.Some? && s.leases[r].list.value in s.freed
  {
    var a := OneRound(START, r);
    var s1 := Run(START, a).value;
    var b := SleepThrough(s1);
    RunAppend(START, a, b);
    var s2 := Run(s1, b).value;
    var c := OneRound(s2, r);
    RunAppend(START, a + b, c);
    var s3 := Run(s2, c).value;
    var d := SleepThrough(s3);
    RunAppend(START, a + b + c, d);
    var s4 := Run(s3, d).value;
    RunOne(s4, Free);
    RunAppend(START, a + b + c + d, [Free]);
    s := Run(s4, [Free]).value;
    assert Run(START, a + b + c + d + [Free]) == Some(s);
  }
}
