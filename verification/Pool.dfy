/** `Pool`: executors handed out to requests under one lock, waiters queued under another, in every interleaving. */
module Pool {
  import opened Wrappers

  /** Executors are told apart by number, requests by their position in the list of all that were made, and the clones
      of the pool that callers hold by number. */
  type Executor = nat

  /** How far a request has come: from `create_request`, which borrows its caller's pool, to `execute`, which has its
      own clone. */
  datatype Request =
    | Trying(pool: nat)
    | Failed(pool: nat)
    | Waiting(pool: nat)
    | Ready(executor: Executor)
    | Running(executor: Executor)
    | Notifying
    | Finished
    | Dropped(lost: Option<Executor>)
  {
    predicate Borrows(p: nat) { (Trying? || Failed? || Waiting?) && pool == p }

    predicate OwnsClone() { Ready? || Running? || Notifying? }

    predicate Holds() { Ready? || Running? }
  }

  // ----- the pool -----

  class Pool {
    var executors: seq<Executor>
    var waiters: seq<nat>

    constructor (initial: seq<Executor>)
      ensures executors == initial && waiters == []
    {
      executors, waiters := initial, [];
    }

    method GetExecutor() returns (r: Option<Executor>)
      modifies this`executors
      ensures old(executors) == [] ==> r == None && executors == []
      ensures old(executors) != [] ==> r == Some(old(executors)[0]) && executors == old(executors)[1..]
    {
      if executors == [] {
        return None;
      }
      r := Some(executors[0]);
      executors := executors[1..];
    }

    method BackExecutor(executor: Executor)
      modifies this`executors
      ensures executors == old(executors) + [executor]
    {
      executors := executors + [executor];
    }

    /** `wait_free`, up to where it waits to be notified. */
    method WaitFree(request: nat)
      modifies this`waiters
      ensures waiters == old(waiters) + [request]
    {
      waiters := waiters + [request];
    }

    method NotifyFree() returns (r: Option<nat>)
      modifies this`waiters
      ensures old(waiters) == [] ==> r == None && waiters == []
      ensures old(waiters) != [] ==> r == Some(old(waiters)[0]) && waiters == old(waiters)[1..]
    {
      if waiters == [] {
        return None;
      }
      r := Some(waiters[0]);
      waiters := waiters[1..];
    }

    /** `into_inner`: only the last clone gets the executors out. */
    method IntoInner(last: bool) returns (r: Result<seq<Executor>>)
      ensures r == if last then Ok(executors) else Err(Other)
    {
      if !last {
        return Err(Other);
      }
      r := Ok(executors);
    }
  }

  // ----- interleaved steps -----

  datatype State = State(executors: seq<Executor>, waiters: seq<nat>, pools: set<nat>, requests: seq<Request>)

  datatype Step =
    | ClonePool(p: nat, q: nat)
    | DropPool(p: nat)
    | Create(p: nat)
    | Get(i: nat)
    | Wait(i: nat)
    | Execute(i: nat)
    | Back(i: nat)
    | Notify(i: nat)
    | Drop(i: nat)

  predicate Borrowed(s: State, p: nat) {
    exists i :: 0 <= i < |s.requests| && s.requests[i].Borrows(p)
  }

  /** Whether the step is one that can be taken. */
  predicate Enabled(s: State, step: Step) {
    match step
    case ClonePool(p, q) => p in s.pools && q !in s.pools
    case DropPool(p) => p in s.pools && !Borrowed(s, p)
    case Create(p) => p in s.pools
    case Get(i) => i < |s.requests| && s.requests[i].Trying?
    case Wait(i) => i < |s.requests| && s.requests[i].Failed?
    case Execute(i) => i < |s.requests| && s.requests[i].Ready?
    case Back(i) => i < |s.requests| && s.requests[i].Running?
    case Notify(i) => i < |s.requests| && s.requests[i].Notifying?
    case Drop(i) => i < |s.requests| && !s.requests[i].Finished? && !s.requests[i].Dropped?
  }

  /** The waiter that was notified tries again, unless it has been dropped meanwhile. */
  function Woken(requests: seq<Request>, w: Option<nat>): seq<Request> {
    if w.Some? && w.value < |requests| && requests[w.value].Waiting?
    then requests[w.value := Trying(requests[w.value].pool)] else requests
  }

  function DroppedOf(r: Request): Request {
    Dropped(if r.Holds() then Some(r.executor) else None)
  }

  function Next(s: State, step: Step): State {
    if !Enabled(s, step) then s
    else match step
         case ClonePool(p, q) => s.(pools := s.pools + {q})
         case DropPool(p) => s.(pools := s.pools - {p})
         case Create(p) => s.(requests := s.requests + [Trying(p)])
         case Get(i) =>
           if s.executors == [] then s.(requests := s.requests[i := Failed(s.requests[i].pool)])
           else s.(executors := s.executors[1..], requests := s.requests[i := Ready(s.executors[0])])
         case Wait(i) => s.(waiters := s.waiters + [i], requests := s.requests[i := Waiting(s.requests[i].pool)])
         case Execute(i) => s.(requests := s.requests[i := Running(s.requests[i].executor)])
         case Back(i) => s.(executors := s.executors + [s.requests[i].executor], requests := s.requests[i := Notifying])
         case Notify(i) =>
           s.(waiters := if s.waiters == [] then [] else s.waiters[1..],
              requests := Woken(s.requests[i := Finished], if s.waiters == [] then None else Some(s.waiters[0])))
         case Drop(i) => s.(requests := s.requests[i := DroppedOf(s.requests[i])])
  }

  function Run(s: State, steps: seq<Step>): State {
    if steps == [] then s else Next(Run(s, steps[..|steps| - 1]), steps[|steps| - 1])
  }

  /** A new pool with its first handle. */
  function Start(initial: seq<Executor>): State {
    State(initial, [], {0}, [])
  }

  /** Requests interleaved step by step on one pool. */
  method Interleave(pool: Pool, steps: seq<Step>) returns (pools: set<nat>, requests: seq<Request>)
    modifies pool
    ensures State(pool.executors, pool.waiters, pools, requests)
            == Run(State(old(pool.executors), old(pool.waiters), {0}, []), steps)
  {
    hide Run, Next, Enabled;
    pools, requests := {0}, [];
    ghost var s0 := State(pool.executors, pool.waiters, pools, requests);
    RunNone(s0, steps);
    for k := 0 to |steps|
      invariant State(pool.executors, pool.waiters, pools, requests) == Run(s0, steps[..k])
    {
      RunOne(s0, steps, k);
      pools, requests := Take(pool, pools, requests, steps[k]);
    }
    assert steps[..|steps|] == steps;
  }

  lemma RunNone(s: State, steps: seq<Step>)
    ensures Run(s, steps[..0]) == s
  {
  }

  lemma RunOne(s: State, steps: seq<Step>, k: nat)
    requires k < |steps|
    ensures Run(s, steps[..k + 1]) == Next(Run(s, steps[..k]), steps[k])
  {
    assert steps[..k + 1][..k] == steps[..k];
  }

  method Take(pool: Pool, pools: set<nat>, requests: seq<Request>, step: Step) returns (pools1: set<nat>,
      requests1: seq<Request>)
    modifies pool
    ensures State(pool.executors, pool.waiters, pools1, requests1)
            == Next(State(old(pool.executors), old(pool.waiters), pools, requests), step)
  {
    pools1, requests1 := pools, requests;
    if !Enabled(State(pool.executors, pool.waiters, pools, requests), step) {
      return;
    }
    match step {
      case ClonePool(_, q) => pools1 := pools + {q};
      case DropPool(p) => pools1 := pools - {p};
      case Create(p) => requests1 := requests + [Trying(p)];
      case Get(i) =>
        var executor := pool.GetExecutor();
        if executor.Some? {
          requests1 := requests[i := Ready(executor.value)];
        } else {
          requests1 := requests[i := Failed(requests[i].pool)];
        }
      case Wait(i) =>
        pool.WaitFree(i);
        requests1 := requests[i := Waiting(requests[i].pool)];
      case Execute(i) => requests1 := requests[i := Running(requests[i].executor)];
      case Back(i) =>
        pool.BackExecutor(requests[i].executor);
        requests1 := requests[i := Notifying];
      case Notify(i) =>
        var waiter := pool.NotifyFree();
        requests1 := Woken(requests[i := Finished], waiter);
      case Drop(i) => requests1 := requests[i := DroppedOf(requests[i])];
    }
  }

  // ----- conservation -----

  function HeldBy(r: Request): multiset<Executor> {
    if r.Holds() then multiset{r.executor} else multiset{}
  }

  function LostBy(r: Request): multiset<Executor> {
    if r.Dropped? && r.lost.Some? then multiset{r.lost.value} else multiset{}
  }

  /** The executors that requests hold, or that went with a dropped request. */
  function Held(requests: seq<Request>): multiset<Executor> {
    if requests == [] then multiset{} else Held(requests[..|requests| - 1]) + HeldBy(requests[|requests| - 1])
  }

  function Lost(requests: seq<Request>): multiset<Executor> {
    if requests == [] then multiset{} else Lost(requests[..|requests| - 1]) + LostBy(requests[|requests| - 1])
  }

  /** A request that moves on hands over what it held or lost. */
  lemma {:induction false} Updated(requests: seq<Request>, i: nat, r: Request)
    requires i < |requests|
    ensures forall e :: Held(requests[i := r])[e] + HeldBy(requests[i])[e] == Held(requests)[e] + HeldBy(r)[e]
    ensures forall e :: Lost(requests[i := r])[e] + LostBy(requests[i])[e] == Lost(requests)[e] + LostBy(r)[e]
  {
    hide HeldBy, LostBy;
    var n := |requests| - 1;
    if i == n {
      assert requests[i := r][..n] == requests[..n];
    } else {
      assert requests[i := r][..n] == requests[..n][i := r];
      Updated(requests[..n], i, r);
    }
  }

  lemma AddedRequest(requests: seq<Request>, r: Request)
    ensures Held(requests + [r]) == Held(requests) + HeldBy(r) && Lost(requests + [r]) == Lost(requests) + LostBy(r)
  {
    assert (requests + [r])[..|requests|] == requests;
  }

  /** Free, held and lost executors are the initial ones, and requests borrow live pools only. */
  ghost predicate Conserved(s: State, initial: seq<Executor>) {
    && multiset(s.executors) + Held(s.requests) + Lost(s.requests) == multiset(initial)
    && forall i, p :: 0 <= i < |s.requests| && s.requests[i].Borrows(p) ==> p in s.pools
  }

  /** Moving request `i` on conserves, if what it held or lost before is free, held or lost after. */
  lemma MoveConserves(s: State, i: nat, r: Request, t: State, initial: seq<Executor>)
    requires Conserved(s, initial) && i < |s.requests| && t.pools == s.pools && t.requests == s.requests[i := r]
    requires forall p :: r.Borrows(p) ==> s.requests[i].Borrows(p)
    requires forall e :: multiset(t.executors)[e] + HeldBy(r)[e] + LostBy(r)[e]
                         == multiset(s.executors)[e] + HeldBy(s.requests[i])[e] + LostBy(s.requests[i])[e]
    ensures Conserved(t, initial)
  {
    hide Held, Lost, HeldBy, LostBy;
    Updated(s.requests, i, r);
    assert multiset(t.executors) + Held(t.requests) + Lost(t.requests)
             == multiset(s.executors) + Held(s.requests) + Lost(s.requests);
  }

  lemma StepConserves(s: State, step: Step, initial: seq<Executor>)
    requires Conserved(s, initial)
    ensures Conserved(Next(s, step), initial)
  {
    hide Conserved, Next;
    if Enabled(s, step) {
      match step {
        case ClonePool(_, _) => PoolsConserve(s, step, initial);
        case DropPool(_) => PoolsConserve(s, step, initial);
        case Create(p) => CreateConserves(s, p, initial);
        case Get(i) => GetConserves(s, i, initial);
        case Notify(i) => NotifyConserves(s, i, initial);
        case Back(i) => BackConserves(s, i, initial);
        case Wait(i) => WaitConserves(s, i, initial);
        case Execute(i) => ExecuteConserves(s, i, initial);
        case Drop(i) => DropConserves(s, i, initial);
      }
    } else {
      NotEnabled(s, step);
    }
  }

  lemma NotEnabled(s: State, step: Step)
    requires !Enabled(s, step)
    ensures Next(s, step) == s
  {
  }

  lemma WaitConserves(s: State, i: nat, initial: seq<Executor>)
    requires Conserved(s, initial) && Enabled(s, Wait(i))
    ensures Conserved(Next(s, Wait(i)), initial)
  {
    hide Conserved, Held, Lost;
    var t := Next(s, Wait(i));
    MoveConserves(s, i, t.requests[i], t, initial);
  }

  lemma ExecuteConserves(s: State, i: nat, initial: seq<Executor>)
    requires Conserved(s, initial) && Enabled(s, Execute(i))
    ensures Conserved(Next(s, Execute(i)), initial)
  {
    hide Conserved, Held, Lost;
    var t := Next(s, Execute(i));
    MoveConserves(s, i, t.requests[i], t, initial);
  }

  lemma DropConserves(s: State, i: nat, initial: seq<Executor>)
    requires Conserved(s, initial) && Enabled(s, Drop(i))
    ensures Conserved(Next(s, Drop(i)), initial)
  {
    hide Conserved, Held, Lost;
    var t := Next(s, Drop(i));
    MoveConserves(s, i, t.requests[i], t, initial);
  }

  lemma BackConserves(s: State, i: nat, initial: seq<Executor>)
    requires Conserved(s, initial) && Enabled(s, Back(i))
    ensures Conserved(Next(s, Back(i)), initial)
  {
    hide Conserved, Held, Lost;
    var t := Next(s, Back(i));
    MoveConserves(s, i, t.requests[i], t, initial);
  }

  lemma PoolsConserve(s: State, step: Step, initial: seq<Executor>)
    requires Conserved(s, initial) && (step.ClonePool? || step.DropPool?)
    ensures Conserved(Next(s, step), initial)
  {
    hide Held, Lost;
  }

  lemma CreateConserves(s: State, p: nat, initial: seq<Executor>)
    requires Conserved(s, initial) && p in s.pools
    ensures Conserved(Next(s, Create(p)), initial)
  {
    hide Held, Lost;
    AddedRequest(s.requests, Trying(p));
  }

  lemma GetConserves(s: State, i: nat, initial: seq<Executor>)
    requires Conserved(s, initial) && Enabled(s, Get(i))
    ensures Conserved(Next(s, Get(i)), initial)
  {
    hide Conserved;
    var t := Next(s, Get(i));
    if s.executors != [] { assert s.executors == [s.executors[0]] + s.executors[1..]; }
    MoveConserves(s, i, t.requests[i], t, initial);
  }

  lemma NotifyConserves(s: State, i: nat, initial: seq<Executor>)
    requires Conserved(s, initial) && Enabled(s, Notify(i))
    ensures Conserved(Next(s, Notify(i)), initial)
  {
    hide Conserved, Woken, Held, Lost, Borrowed;
    var waiters := if s.waiters == [] then [] else s.waiters[1..];
    var done := s.(waiters := waiters, requests := s.requests[i := Finished]);
    MoveConserves(s, i, Finished, done, initial);
    WakeConserves(done, if s.waiters == [] then None else Some(s.waiters[0]), initial);
  }

  lemma WakeConserves(s: State, w: Option<nat>, initial: seq<Executor>)
    requires Conserved(s, initial)
    ensures Conserved(s.(requests := Woken(s.requests, w)), initial)
  {
    hide Conserved;
    var t := s.(requests := Woken(s.requests, w));
    if t != s { MoveConserves(s, w.value, t.requests[w.value], t, initial); }
  }

  /** In every interleaving, the free, the held and the lost executors are exactly the initial ones. */
  lemma {:induction false} AlwaysConserved(initial: seq<Executor>, steps: seq<Step>)
    ensures Conserved(Run(Start(initial), steps), initial)
  {
    hide Conserved, Next;
    if steps == [] {
      NewConserved(initial);
    } else {
      AlwaysConserved(initial, steps[..|steps| - 1]);
      StepConserves(Run(Start(initial), steps[..|steps| - 1]), steps[|steps| - 1], initial);
    }
  }

  lemma NewConserved(initial: seq<Executor>)
    ensures Conserved(Start(initial), initial)
  {
  }

  // ----- what conservation gives -----

  lemma {:induction false} HeldIsCounted(requests: seq<Request>, i: nat)
    requires i < |requests| && requests[i].Holds()
    ensures Held(requests)[requests[i].executor] > 0
  {
    if i < |requests| - 1 { HeldIsCounted(requests[..|requests| - 1], i); }
  }

  lemma HeldSplit(requests: seq<Request>)
    requires requests != []
    ensures forall e :: Held(requests)[e] == Held(requests[..|requests| - 1])[e] + HeldBy(requests[|requests| - 1])[e]
  {
    hide HeldBy;
  }

  lemma {:induction false} HeldTwiceIsCounted(requests: seq<Request>, i: nat, j: nat)
    requires i < j < |requests| && requests[i].Holds() && requests[j].Holds()
    ensures requests[i].executor == requests[j].executor ==> Held(requests)[requests[i].executor] > 1
  {
    hide Held;
    var n := |requests| - 1;
    HeldSplit(requests);
    if j < n { HeldTwiceIsCounted(requests[..n], i, j); } else { HeldIsCounted(requests[..n], i); }
  }

  /** The number of requests whose command is running. */
  function RunningCount(requests: seq<Request>): nat {
    if requests == [] then 0
    else RunningCount(requests[..|requests| - 1]) + if requests[|requests| - 1].Running? then 1 else 0
  }

  lemma {:induction false} RunningAreHeld(requests: seq<Request>)
    ensures RunningCount(requests) <= |Held(requests)|
  {
    if requests != [] { RunningAreHeld(requests[..|requests| - 1]); }
  }

  ghost predicate Distinct(initial: seq<Executor>) {
    forall i, j :: 0 <= i < j < |initial| ==> initial[i] != initial[j]
  }

  lemma {:induction false} DistinctOnce(initial: seq<Executor>)
    requires Distinct(initial)
    ensures forall e :: multiset(initial)[e] <= 1
  {
    if initial != [] {
      var n := |initial| - 1;
      DistinctOnce(initial[..n]);
      assert initial == initial[..n] + [initial[n]];
      assert initial[n] !in initial[..n];
    }
  }

  lemma CountsAddUp(s: State, initial: seq<Executor>, e: Executor)
    requires Conserved(s, initial)
    ensures multiset(initial)[e] == multiset(s.executors)[e] + Held(s.requests)[e] + Lost(s.requests)[e]
  {
    hide Held, Lost;
  }

  /** In every interleaving: no executor is held by two requests or free and held at once, and no more commands run at
      once than there are executors. */
  lemma NeverHeldTwice(initial: seq<Executor>, steps: seq<Step>)
    requires Distinct(initial)
    ensures var s := Run(Start(initial), steps);
            && (forall i, j :: 0 <= i < j < |s.requests| && s.requests[i].Holds() && s.requests[j].Holds() ==>
                  s.requests[i].executor != s.requests[j].executor)
            && (forall i :: 0 <= i < |s.requests| && s.requests[i].Holds() ==>
                  s.requests[i].executor in initial && s.requests[i].executor !in s.executors)
            && RunningCount(s.requests) <= |initial|
  {
    hide Run, Held, Lost, RunningCount;
    var s := Run(Start(initial), steps);
    AlwaysConserved(initial, steps);
    DistinctOnce(initial);
    RunningAreHeld(s.requests);
    assert |multiset(initial)| == |initial|;
    forall i, j | 0 <= i < j < |s.requests| && s.requests[i].Holds() && s.requests[j].Holds()
      ensures s.requests[i].executor != s.requests[j].executor
    {
      HeldTwiceIsCounted(s.requests, i, j);
      CountsAddUp(s, initial, s.requests[i].executor);
    }
    forall i | 0 <= i < |s.requests| && s.requests[i].Holds()
      ensures s.requests[i].executor in initial && s.requests[i].executor !in s.executors
    {
      var e := s.requests[i].executor;
      HeldIsCounted(s.requests, i);
      CountsAddUp(s, initial, e);
    }
  }

  // ----- taking the executors out -----

  /** Handle `p` is the last clone, and nothing borrows it: `Arc::try_unwrap` succeeds. */
  predicate LastClone(s: State, p: nat) {
    s.pools == {p} && !Borrowed(s, p) && forall i :: 0 <= i < |s.requests| ==> !s.requests[i].OwnsClone()
  }

  lemma {:induction false} NothingHeld(requests: seq<Request>)
    requires forall i :: 0 <= i < |requests| ==> !requests[i].Holds()
    ensures Held(requests) == multiset{}
  {
    if requests != [] { NothingHeld(requests[..|requests| - 1]); }
  }

  lemma {:induction false} NothingLost(requests: seq<Request>)
    requires forall i :: 0 <= i < |requests| && requests[i].Dropped? ==> requests[i].lost.None?
    ensures Lost(requests) == multiset{}
  {
    if requests != [] { NothingLost(requests[..|requests| - 1]); }
  }

  lemma LastCloneCounts(s: State, p: nat, initial: seq<Executor>)
    requires Conserved(s, initial) && LastClone(s, p)
    ensures multiset(s.executors) + Lost(s.requests) == multiset(initial)
  {
    hide Held, Lost, Borrowed;
    NothingHeld(s.requests);
    assert multiset(s.executors) + multiset{} + Lost(s.requests) == multiset(s.executors) + Lost(s.requests);
  }

  lemma BorrowsLive(s: State, initial: seq<Executor>, i: nat)
    requires Conserved(s, initial) && i < |s.requests|
               && (s.requests[i].Trying? || s.requests[i].Failed? || s.requests[i].Waiting?)
    ensures s.requests[i].pool in s.pools && Borrowed(s, s.requests[i].pool)
  {
    hide Held, Lost;
    assert s.requests[i].Borrows(s.requests[i].pool);
  }

  /** A request that is still going on has a clone, or borrows one. */
  lemma LastCloneAlone(s: State, p: nat, initial: seq<Executor>, i: nat)
    requires Conserved(s, initial) && LastClone(s, p) && i < |s.requests|
    ensures s.requests[i].Finished? || s.requests[i].Dropped?
  {
    hide Conserved, Borrowed;
    if s.requests[i].Trying? || s.requests[i].Failed? || s.requests[i].Waiting? { BorrowsLive(s, initial, i); }
  }

  /** Whoever has the last clone, in any interleaving, gets all executors out but those of requests that were dropped
      while they held one, and finds every request finished or dropped. */
  lemma IntoInnerReturnsAll(initial: seq<Executor>, steps: seq<Step>, p: nat)
    requires LastClone(Run(Start(initial), steps), p)
    ensures var s := Run(Start(initial), steps);
            && multiset(s.executors) + Lost(s.requests) == multiset(initial)
            && (forall i :: 0 <= i < |s.requests| ==> s.requests[i].Finished? || s.requests[i].Dropped?)
            && ((forall i :: 0 <= i < |s.requests| && s.requests[i].Dropped? ==> s.requests[i].lost.None?)
                ==> multiset(s.executors) == multiset(initial))
  {
    hide Run, Held, Lost, Conserved, LastClone;
    var s := Run(Start(initial), steps);
    AlwaysConserved(initial, steps);
    LastCloneCounts(s, p, initial);
    forall i | 0 <= i < |s.requests|
      ensures s.requests[i].Finished? || s.requests[i].Dropped?
    {
      LastCloneAlone(s, p, initial, i);
    }
    if forall i :: 0 <= i < |s.requests| && s.requests[i].Dropped? ==> s.requests[i].lost.None? {
      NothingLost(s.requests);
      assert multiset(s.executors) + multiset{} == multiset(s.executors);
    }
  }

  /** A pool used in any way and then taken apart through handle `p`: this works exactly with the last clone, and then
      no executor is missing unless its request was dropped. */
  method UseThenUnwrap(initial: seq<Executor>, steps: seq<Step>, p: nat) returns (r: Result<seq<Executor>>,
      requests: seq<Request>)
    ensures requests == Run(Start(initial), steps).requests
    ensures r.Ok? <==> LastClone(Run(Start(initial), steps), p)
    ensures r.Ok? ==> multiset(r.value) + Lost(requests) == multiset(initial)
    ensures r.Ok? && (forall i :: 0 <= i < |requests| && requests[i].Dropped? ==> requests[i].lost.None?) ==>
              multiset(r.value) == multiset(initial)
  {
    hide Run, LastClone, Lost;
    var pool := new Pool(initial);
    var pools;
    pools, requests := Interleave(pool, steps);
    var last := LastClone(State(pool.executors, pool.waiters, pools, requests), p);
    if last { IntoInnerReturnsAll(initial, steps, p); }
    r := pool.IntoInner(last);
  }

  // ----- waiting -----

  /** Request `i` can take its next step by itself. */
  predicate CanGoOn(r: Request) {
    r.Trying? || r.Failed? || r.Ready? || r.Running? || r.Notifying?
  }

  lemma {:induction false} RunSplits(s: State, a: seq<Step>, b: seq<Step>)
    ensures Run(s, a + b) == Run(Run(s, a), b)
  {
    if b == [] {
      assert a + b == a;
    } else {
      assert (a + b)[..|a + b| - 1] == a + b[..|b| - 1];
      RunSplits(s, a, b[..|b| - 1]);
    }
  }

  lemma RunMore(s: State, a: seq<Step>, step: Step)
    ensures Run(s, a + [step]) == Next(Run(s, a), step)
  {
    hide Next;
    assert (a + [step])[..|a|] == a;
  }

  // ----- how many requests may be under way -----

  /** The request needs an executor, has one, or took one with it. */
  predicate Demands(r: Request) {
    r.Trying? || r.Failed? || r.Waiting? || r.Holds() || (r.Dropped? && r.lost.Some?)
  }

  /** The requests under way that are not done with their executor, and the executors that are lost. */
  function Demand(requests: seq<Request>): nat {
    if requests == [] then 0
    else Demand(requests[..|requests| - 1]) + if Demands(requests[|requests| - 1]) then 1 else 0
  }

  /** Never more than `bound` of them, all along the run: what the callers of a pool can see to. */
  ghost predicate AtMost(initial: seq<Executor>, steps: seq<Step>, bound: nat) {
    forall k :: 0 <= k <= |steps| ==> Demand(Run(Start(initial), steps[..k]).requests) <= bound
  }

  /** Every request found an executor when it looked for one. */
  predicate NobodyWaits(s: State) {
    forall i :: 0 <= i < |s.requests| ==> !s.requests[i].Failed? && !s.requests[i].Waiting?
  }

  lemma CountsAppend(requests: seq<Request>)
    requires requests != []
    ensures var front, last := requests[..|requests| - 1], requests[|requests| - 1];
            && |Held(requests)| == |Held(front)| + |HeldBy(last)| && |Lost(requests)| == |Lost(front)| + |LostBy(last)|
            && Demand(requests) == Demand(front) + if Demands(last) then 1 else 0
  {
    hide HeldBy, LostBy, Demands;
  }

  lemma CountsOne(r: Request)
    ensures |HeldBy(r)| + |LostBy(r)| <= if Demands(r) then 1 else 0
    ensures r.Trying? ==> Demands(r) && |HeldBy(r)| + |LostBy(r)| == 0
  {
  }

  predicate SomeTrying(requests: seq<Request>) {
    exists i :: 0 <= i < |requests| && requests[i].Trying?
  }

  lemma TryingFront(requests: seq<Request>)
    requires requests != [] && SomeTrying(requests)
    ensures requests[|requests| - 1].Trying? || SomeTrying(requests[..|requests| - 1])
  {
    var i :| 0 <= i < |requests| && requests[i].Trying?;
    var front := requests[..|requests| - 1];
    assert i < |front| ==> front[i].Trying?;
  }

  lemma {:induction false} DemandCounts(requests: seq<Request>)
    ensures Demand(requests) >= |Held(requests)| + |Lost(requests)|
    ensures SomeTrying(requests) ==> Demand(requests) > |Held(requests)| + |Lost(requests)|
  {
    if requests != [] {
      hide Demand, Held, Lost, HeldBy, LostBy, Demands, SomeTrying;
      DemandCounts(requests[..|requests| - 1]);
      CountsAppend(requests);
      CountsOne(requests[|requests| - 1]);
      if SomeTrying(requests) { TryingFront(requests); }
    }
  }

  /** A request that looks for an executor finds one, if there are executors for all under way. */
  lemma FindsOne(s: State, i: nat, initial: seq<Executor>)
    requires Conserved(s, initial) && Demand(s.requests) <= |initial| && i < |s.requests| && s.requests[i].Trying?
    ensures s.executors != []
  {
    hide Demand, Held, Lost;
    DemandCounts(s.requests);
    assert |multiset(s.executors) + Held(s.requests) + Lost(s.requests)| == |multiset(initial)| == |initial|;
  }

  lemma StaysUnwaited(s: State, step: Step, initial: seq<Executor>)
    requires Conserved(s, initial) && Demand(s.requests) <= |initial| && NobodyWaits(s)
    ensures NobodyWaits(Next(s, step))
  {
    hide Demand, Conserved, Borrowed;
    if step.Get? && Enabled(s, step) { FindsOne(s, step.i, initial); }
  }

  lemma FrontAtMost(initial: seq<Executor>, steps: seq<Step>, bound: nat)
    requires AtMost(initial, steps, bound) && steps != []
    ensures AtMost(initial, steps[..|steps| - 1], bound)
    ensures Demand(Run(Start(initial), steps[..|steps| - 1]).requests) <= bound
  {
    hide Run, Demand;
    var front := steps[..|steps| - 1];
    forall k | 0 <= k <= |front|
      ensures Demand(Run(Start(initial), front[..k]).requests) <= bound
    {
      assert front[..k] == steps[..k];
    }
  }

  /** While no more requests are under way than there are executors, counting those lost, none ever waits. */
  lemma {:induction false} EnoughForAll(initial: seq<Executor>, steps: seq<Step>)
    requires AtMost(initial, steps, |initial|)
    ensures NobodyWaits(Run(Start(initial), steps))
  {
    hide Conserved, Next, AtMost, NobodyWaits, Demand;
    if steps == [] {
      NobodyYet(initial);
    } else {
      var front := steps[..|steps| - 1];
      FrontAtMost(initial, steps, |initial|);
      EnoughForAll(initial, front);
      AlwaysConserved(initial, front);
      StaysUnwaited(Run(Start(initial), front), steps[|steps| - 1], initial);
    }
  }

  lemma NobodyYet(initial: seq<Executor>)
    ensures NobodyWaits(Start(initial))
  {
  }

  // ----- one request more -----

  function Creates(n: nat): seq<Step> {
    if n == 0 then [] else Creates(n - 1) + [Create(0)]
  }

  function Takes(n: nat): seq<Step> {
    if n == 0 then [] else Takes(n - 1) + [Get(n - 1)] + [Execute(n - 1)]
  }

  function Returns(n: nat): seq<Step> {
    if n == 0 then [] else Returns(n - 1) + [Back(n - 1)] + [Notify(n - 1)]
  }

  /** Requests `0 .. k` run, and the last of `n + 1` looks for an executor. */
  function Taken(initial: seq<Executor>, k: nat): State
    requires k <= |initial|
  {
    State(initial[k..], [], {0}, seq(|initial| + 1, j requires 0 <= j <= |initial| =>
      if j < k then Running(initial[j]) else Trying(0)))
  }

  /** Requests `0 .. k` are finished, the others run, and the last has found no executor. */
  function Returned(initial: seq<Executor>, k: nat): State
    requires k <= |initial|
  {
    State(initial[..k], [], {0}, seq(|initial| + 1, j requires 0 <= j <= |initial| =>
      if j < k then Finished else if j < |initial| then Running(initial[j]) else Failed(0)))
  }

  lemma {:induction false} AllCreated(initial: seq<Executor>, n: nat)
    ensures Run(Start(initial), Creates(n)) == Start(initial).(requests := seq(n, _ => Trying(0)))
  {
    if n == 0 {
      assert Start(initial) == Start(initial).(requests := seq(0, _ => Trying(0)));
    } else {
      AllCreated(initial, n - 1);
      RunMore(Start(initial), Creates(n - 1), Create(0));
      assert seq(n - 1, _ => Trying(0)) + [Trying(0)] == seq(n, _ => Trying(0));
    }
  }

  lemma TakesOne(initial: seq<Executor>, k: nat)
    requires k < |initial|
    ensures Next(Next(Taken(initial, k), Get(k)), Execute(k)) == Taken(initial, k + 1)
  {
    var s := Taken(initial, k);
    var t := Next(s, Get(k));
    assert t == s.(executors := initial[k..][1..], requests := s.requests[k := Ready(initial[k])]);
    assert initial[k..][1..] == initial[k + 1..];
    assert Next(t, Execute(k)).requests == Taken(initial, k + 1).requests;
  }

  lemma {:induction false} AllTaken(initial: seq<Executor>, k: nat)
    requires k <= |initial|
    ensures Run(Taken(initial, 0), Takes(k)) == Taken(initial, k)
  {
    hide Next, Taken;
    if k > 0 {
      AllTaken(initial, k - 1);
      RunMore(Taken(initial, 0), Takes(k - 1), Get(k - 1));
      RunMore(Taken(initial, 0), Takes(k - 1) + [Get(k - 1)], Execute(k - 1));
      TakesOne(initial, k - 1);
    }
  }

  lemma ReturnsOne(initial: seq<Executor>, k: nat)
    requires k < |initial|
    ensures Next(Next(Returned(initial, k), Back(k)), Notify(k)) == Returned(initial, k + 1)
  {
    var s := Returned(initial, k);
    var t := Next(s, Back(k));
    assert t == s.(executors := initial[..k] + [initial[k]], requests := s.requests[k := Notifying]);
    assert initial[..k] + [initial[k]] == initial[..k + 1];
    assert Next(t, Notify(k)).requests == Returned(initial, k + 1).requests;
  }

  lemma {:induction false} AllReturned(initial: seq<Executor>, k: nat)
    requires k <= |initial|
    ensures Run(Returned(initial, 0), Returns(k)) == Returned(initial, k)
  {
    hide Next, Returned;
    if k > 0 {
      AllReturned(initial, k - 1);
      RunMore(Returned(initial, 0), Returns(k - 1), Back(k - 1));
      RunMore(Returned(initial, 0), Returns(k - 1) + [Back(k - 1)], Notify(k - 1));
      ReturnsOne(initial, k - 1);
    }
  }

  /** One request more than there are executors: all others take one, the last finds none, all others give theirs back
      and notify nobody, and only then the last registers as a waiter. */
  function OneTooMany(n: nat): seq<Step> {
    Creates(n + 1) + Takes(n) + [Get(n)] + Returns(n) + [Wait(n)]
  }

  /** Looking for an executor and registering as a waiter are separate steps, so the last of these requests misses every
      notification and waits although all executors are free and no other request is left. */
  lemma WaiterLeftBehind(initial: seq<Executor>)
    ensures var n := |initial|;
            var s := Run(Start(initial), OneTooMany(n));
            && s.executors == initial && s.waiters == [n] && |s.requests| == n + 1 && s.requests[n] == Waiting(0)
            && forall i :: 0 <= i < n ==> s.requests[i] == Finished
  {
    hide Run, Creates, Takes, Returns;
    var n, s0 := |initial|, Start(initial);
    AllCreated(initial, n + 1);
    RunSplits(s0, Creates(n + 1), Takes(n));
    assert s0.(requests := seq(n + 1, _ => Trying(0))) == Taken(initial, 0);
    AllTaken(initial, n);
    RunMore(s0, Creates(n + 1) + Takes(n), Get(n));
    LastMisses(initial);
    RunSplits(s0, Creates(n + 1) + Takes(n) + [Get(n)], Returns(n));
    AllReturned(initial, n);
    RunMore(s0, Creates(n + 1) + Takes(n) + [Get(n)] + Returns(n), Wait(n));
    assert initial[..n] == initial;
  }

  lemma LastMisses(initial: seq<Executor>)
    ensures Next(Taken(initial, |initial|), Get(|initial|)) == Returned(initial, 0)
  {
    var n := |initial|;
    assert initial[n..] == [] == initial[..0];
    assert Taken(initial, n).requests[n := Failed(0)] == Returned(initial, 0).requests;
  }

  lemma {:induction false} DemandIsCount(requests: seq<Request>)
    ensures Demand(requests) <= |requests|
  {
    if requests != [] { DemandIsCount(requests[..|requests| - 1]); }
  }

  lemma {:induction false} RequestsGrow(s: State, steps: seq<Step>, k: nat)
    requires k <= |steps|
    ensures |Run(s, steps[..k]).requests| <= |Run(s, steps).requests|
    decreases |steps|
  {
    if k == |steps| {
      assert steps[..k] == steps;
    } else {
      var front := steps[..|steps| - 1];
      assert front[..k] == steps[..k];
      RequestsGrow(s, front, k);
    }
  }

  /** Exactly as many requests may be under way at a time as there are executors: under any larger bound some run leaves
      a request waiting, with all executors free and no request to wake it. */
  lemma SafeExactlyUpTo(initial: seq<Executor>, bound: nat)
    ensures (forall steps :: AtMost(initial, steps, bound) ==> NobodyWaits(Run(Start(initial), steps)))
            <==> bound <= |initial|
  {
    hide Run, Demand, NobodyWaits, OneTooMany;
    if bound <= |initial| {
      forall steps | AtMost(initial, steps, bound)
        ensures NobodyWaits(Run(Start(initial), steps))
      {
        EnoughForAll(initial, steps);
      }
    } else {
      var steps := OneTooMany(|initial|);
      WaiterLeftBehind(initial);
      forall k | 0 <= k <= |steps|
        ensures Demand(Run(Start(initial), steps[..k]).requests) <= bound
      {
        DemandIsCount(Run(Start(initial), steps[..k]).requests);
        RequestsGrow(Start(initial), steps, k);
      }
      assert AtMost(initial, steps, bound);
      SomebodyWaits(Run(Start(initial), steps), |initial|);
    }
  }

  lemma SomebodyWaits(s: State, i: nat)
    requires i < |s.requests| && s.requests[i].Waiting?
    ensures !NobodyWaits(s)
  {
  }

  // ----- without the gap -----

  predicate Turns(r: Request) {
    r.Trying? || r.Notifying?
  }

  /** The number of requests about to look for an executor or to notify a waiter. */
  function Turning(requests: seq<Request>): nat {
    if requests == [] then 0 else Turning(requests[..|requests| - 1]) + if Turns(requests[|requests| - 1]) then 1 else 0
  }

  lemma {:induction false} TurningUpdated(requests: seq<Request>, i: nat, r: Request)
    requires i < |requests|
    ensures Turning(requests[i := r]) + (if Turns(requests[i]) then 1 else 0)
              == Turning(requests) + (if Turns(r) then 1 else 0)
  {
    var n := |requests| - 1;
    if i == n {
      assert requests[i := r][..n] == requests[..n];
    } else {
      assert requests[i := r][..n] == requests[..n][i := r];
      TurningUpdated(requests[..n], i, r);
    }
  }

  lemma {:induction false} NoneTurning(requests: seq<Request>)
    requires forall i :: 0 <= i < |requests| ==> !Turns(requests[i])
    ensures Turning(requests) == 0
  {
    if requests != [] { NoneTurning(requests[..|requests| - 1]); }
  }

  predicate NoneFailed(s: State) {
    forall i :: 0 <= i < |s.requests| ==> !s.requests[i].Failed?
  }

  /** No request is dropped, and no executor comes back while a request is between finding none and registering. */
  predicate Gapless(s: State, steps: seq<Step>) {
    steps != [] ==>
      var front, last := steps[..|steps| - 1], steps[|steps| - 1];
      Gapless(s, front) && !last.Drop? && (last.Back? ==> NoneFailed(Run(s, front)))
  }

  /** The waiters are those that wait, each once. */
  ghost predicate Queued(s: State) {
    && (forall k :: 0 <= k < |s.waiters| ==> s.waiters[k] < |s.requests| && s.requests[s.waiters[k]].Waiting?)
    && (forall k, l :: 0 <= k < l < |s.waiters| ==> s.waiters[k] != s.waiters[l])
    && (forall i :: 0 <= i < |s.requests| && s.requests[i].Waiting? ==> i in s.waiters)
  }

  /** While any request waits, each free executor has a request that is about to take it or to notify a waiter. */
  ghost predicate Served(s: State) {
    && (!NoneFailed(s) ==> s.executors == [])
    && (s.waiters != [] ==> |s.executors| <= Turning(s.requests))
    && (forall i :: 0 <= i < |s.requests| ==> !s.requests[i].Dropped?)
  }

  lemma StepQueues(s: State, step: Step)
    requires Queued(s) && !step.Drop?
    ensures Queued(Next(s, step))
  {
    hide Woken, Borrowed;
    match step {
      case Wait(i) => if Enabled(s, step) { WaitQueues(s, i); }
      case Notify(i) => if Enabled(s, step) { NotifyQueues(s, i); }
      case _ =>
    }
  }

  lemma WaitQueues(s: State, i: nat)
    requires Queued(s) && i < |s.requests| && s.requests[i].Failed?
    ensures Queued(Next(s, Wait(i)))
  {
    var t := Next(s, Wait(i));
    forall j | 0 <= j < |t.requests| && t.requests[j].Waiting?
      ensures j in t.waiters
    {
      if j == i { assert t.waiters[|s.waiters|] == i; } else { assert j in s.waiters; }
    }
  }

  lemma NotifyQueues(s: State, i: nat)
    requires Queued(s) && i < |s.requests| && s.requests[i].Notifying?
    ensures Queued(Next(s, Notify(i)))
  {
    var t := Next(s, Notify(i));
    if s.waiters != [] {
      forall j | 0 <= j < |t.requests| && t.requests[j].Waiting?
        ensures j in t.waiters
      {
        assert j in s.waiters && j != s.waiters[0];
        assert s.waiters == [s.waiters[0]] + s.waiters[1..];
      }
    }
  }

  lemma StepServes(s: State, step: Step)
    requires Queued(s) && Served(s) && !step.Drop? && (step.Back? ==> NoneFailed(s))
    ensures Served(Next(s, step))
  {
    hide Queued, Turning;
    var t := Next(s, step);
    if Enabled(s, step) {
      match step {
        case Create(p) => TurningAdded(s.requests, Trying(p));
        case Get(i) => TurningUpdated(s.requests, i, t.requests[i]);
        case Wait(i) => WaitServes(s, i);
        case Execute(i) => TurningUpdated(s.requests, i, t.requests[i]);
        case Back(i) => TurningUpdated(s.requests, i, t.requests[i]);
        case Notify(i) => NotifyServes(s, i);
        case _ =>
      }
    }
  }

  lemma TurningAdded(requests: seq<Request>, r: Request)
    ensures Turning(requests + [r]) >= Turning(requests)
  {
    assert (requests + [r])[..|requests|] == requests;
  }

  lemma WaitServes(s: State, i: nat)
    requires Served(s) && i < |s.requests| && s.requests[i].Failed?
    ensures Served(Next(s, Wait(i)))
  {
    hide Turning;
    assert !NoneFailed(s);
  }

  lemma NotifyServes(s: State, i: nat)
    requires Queued(s) && Served(s) && i < |s.requests| && s.requests[i].Notifying?
    ensures Served(Next(s, Notify(i)))
  {
    hide Turning;
    var t := Next(s, Notify(i));
    var done := s.requests[i := Finished];
    TurningUpdated(s.requests, i, Finished);
    if s.waiters != [] {
      TurningUpdated(done, s.waiters[0], t.requests[s.waiters[0]]);
    }
  }

  lemma {:induction false} GaplessServes(initial: seq<Executor>, steps: seq<Step>)
    requires Gapless(Start(initial), steps)
    ensures Queued(Run(Start(initial), steps)) && Served(Run(Start(initial), steps))
  {
    hide Next, Queued, Served;
    if steps == [] {
      NewServed(initial);
    } else {
      var front := steps[..|steps| - 1];
      GaplessServes(initial, front);
      StepQueues(Run(Start(initial), front), steps[|steps| - 1]);
      StepServes(Run(Start(initial), front), steps[|steps| - 1]);
    }
  }

  lemma NewServed(initial: seq<Executor>)
    ensures Queued(Start(initial)) && Served(Start(initial))
  {
  }

  lemma AllStopped(s: State, initial: seq<Executor>)
    requires initial != [] && Conserved(s, initial) && Queued(s) && Served(s)
    requires forall j :: 0 <= j < |s.requests| ==> !CanGoOn(s.requests[j])
    ensures forall i :: 0 <= i < |s.requests| ==> s.requests[i].Finished?
  {
    hide Held, Lost, Turning;
    NothingHeld(s.requests);
    NothingLost(s.requests);
    NoneTurning(s.requests);
    assert multiset(s.executors) + multiset{} + multiset{} == multiset(s.executors);
    assert |multiset(s.executors)| == |s.executors| && |multiset(initial)| == |initial|;
  }

  /** Without that gap and without drops, a pool with executors never comes to a stop: while any request is unfinished,
      some request can take a step of its own. */
  lemma GaplessNeverStuck(initial: seq<Executor>, steps: seq<Step>, i: nat)
    requires initial != [] && Gapless(Start(initial), steps)
    requires i < |Run(Start(initial), steps).requests| && !Run(Start(initial), steps).requests[i].Finished?
    ensures exists j :: 0 <= j < |Run(Start(initial), steps).requests|
              && CanGoOn(Run(Start(initial), steps).requests[j])
  {
    hide Run, Conserved, Queued, Served, Gapless;
    var s := Run(Start(initial), steps);
    GaplessServes(initial, steps);
    AlwaysConserved(initial, steps);
    if forall j :: 0 <= j < |s.requests| ==> !CanGoOn(s.requests[j]) { AllStopped(s, initial); }
  }
}
