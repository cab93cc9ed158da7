/**
 What whole runs of the worker pool do: what is counted in a state is what happened on the way to it,
 tasks are put where they were asked to go, and every run can be brought to an end with nothing
 left over (`LuaThread.cpp`, `LuaThreadMgr.cpp`).
 */
module WorkerPoolRuns {
  import opened WorkerPool

  // ----- what happened -----

  /** At step i Update deals with the coroutine of x, which it resumes if it is yielded. */
  predicate Visits(s: State, a: Action, x: Task)
  {
    a.Resume? && Todo(s.upd) != [] && Todo(s.upd)[0] == x
  }

  /** At step i Update drops the reference of x and deletes it. */
  predicate Releases(s: State, a: Action, x: Task)
  {
    a == Release && Todo(s.upd) != [] && Todo(s.upd)[0] == x
  }

  /** At step i a worker deletes x, which it has run and for which nobody waits. */
  predicate Drops(s: State, a: Action, x: Task)
  {
    a.Complete? && a.t < |s.pools| && s.pools[a.t].pc == Running(x) && !x.co
  }

  /** How many of the first k steps are of a kind. */
  ghost function Steps(trace: seq<State>, acts: seq<Action>, k: nat, kind: (State, Action) -> bool): (n: nat)
    requires k <= |acts| < |trace|
  {
    if k == 0 then 0 else Steps(trace, acts, k - 1, kind) + if kind(trace[k - 1], acts[k - 1]) then 1 else 0
  }

  /** One step changes the counts by what it is. */
  lemma {:induction false} StepCounted(s: State, a: Action, x: Task)
    requires Enabled(s, a)
    ensures var s' := Next(s, a);
            && s'.resumed[x] == s.resumed[x] + (if Visits(s, a, x) && a.yielded then 1 else 0)
            && s'.released[x] == s.released[x] + (if Releases(s, a, x) then 1 else 0)
            && s'.deleted[x] == s.deleted[x] + (if Releases(s, a, x) || Drops(s, a, x) then 1 else 0)
  {
  }

  /**
   A coroutine has been resumed as often as Update came to it while it was yielded; references were
   dropped and tasks deleted as often as the steps that do so came to them.
   */
  lemma {:induction false} CountsAreSteps(trace: seq<State>, acts: seq<Action>, k: nat, x: Task)
    requires IsRun(trace, acts) && k < |trace|
    ensures trace[k].resumed[x] == Steps(trace, acts, k, (s, a) => Visits(s, a, x) && a.yielded)
    ensures trace[k].released[x] == Steps(trace, acts, k, (s, a) => Releases(s, a, x))
    ensures trace[k].deleted[x] == Steps(trace, acts, k, (s, a) => Releases(s, a, x) || Drops(s, a, x))
  {
    if k == 0 {
      assert Init(trace[0]);
    } else {
      CountsAreSteps(trace, acts, k - 1, x);
      hide Next, Enabled, Visits, Releases, Drops;
      StepCounted(trace[k - 1], acts[k - 1], x);
    }
  }

  /** Between its visit and its release a task is first on Update's list. */
  predicate InHand(s: State, x: Task)
  {
    s.upd.Resumed? && s.upd.todo != [] && s.upd.todo[0] == x
  }

  lemma {:induction false} StepVisits(s: State, a: Action, x: Task)
    requires Enabled(s, a) && x.co
    ensures var s' := Next(s, a);
            s'.deleted[x] + (if InHand(s', x) then 1 else 0)
            == s.deleted[x] + (if InHand(s, x) then 1 else 0) + (if Visits(s, a, x) then 1 else 0)
  {
  }

  /**
   Update comes to each coroutine task exactly once before it deletes it: as many visits as deletions,
   and one more while it has the task in hand. A task is deleted at most once, so that is one visit for
   every task that is deleted.
   */
  lemma {:induction false} VisitedOnce(trace: seq<State>, acts: seq<Action>, k: nat, x: Task)
    requires IsRun(trace, acts) && k < |trace| && x.co
    ensures Steps(trace, acts, k, (s, a) => Visits(s, a, x))
            == trace[k].deleted[x] + if InHand(trace[k], x) then 1 else 0
    ensures x in trace[k].deleted ==> Steps(trace, acts, k, (s, a) => Visits(s, a, x)) == 1
  {
    VisitsCounted(trace, acts, k, x);
    ExactlyOnePlace(trace, acts, k, x);
    if InHand(trace[k], x) { assert x in multiset(Todo(trace[k].upd)); }
  }

  lemma {:induction false} VisitsCounted(trace: seq<State>, acts: seq<Action>, k: nat, x: Task)
    requires IsRun(trace, acts) && k < |trace| && x.co
    ensures Steps(trace, acts, k, (s, a) => Visits(s, a, x))
            == trace[k].deleted[x] + if InHand(trace[k], x) then 1 else 0
  {
    if k == 0 {
      assert Init(trace[0]);
    } else {
      VisitsCounted(trace, acts, k - 1, x);
      hide Next, Enabled, Visits, InHand;
      StepVisits(trace[k - 1], acts[k - 1], x);
    }
  }

  // ----- tasks go where they were asked to go -----

  /** The id a poster asked for last. */
  function LastAsked(acts: seq<Action>, p: nat): (id: nat)
  {
    if acts == [] then 0
    else
      var a := acts[|acts| - 1];
      if a.GetThread? && a.p == p then a.id else LastAsked(acts[..|acts| - 1], p)
  }

  /** Posters on their way have the thread they asked for. */
  ghost predicate OnTheirWay(s: State, acts: seq<Action>)
  {
    forall p :: 0 <= p < |s.posters| && s.posters[p] != Idle ==>
      s.posters[p].t < |s.pools| && s.pools[s.posters[p].t].id == LastAsked(acts, p)
  }

  /** Threads stay, with their ids. */
  ghost predicate SameIds(s: State, s': State)
  {
    |s.pools| <= |s'.pools| && forall t :: 0 <= t < |s.pools| ==> s'.pools[t].id == s.pools[t].id
  }

  lemma {:induction false} StepIds(s: State, a: Action)
    requires Enabled(s, a)
    ensures SameIds(s, Next(s, a))
  {
  }

  lemma {:induction false} StepWay(s: State, a: Action, acts: seq<Action>)
    requires Enabled(s, a) && OnTheirWay(s, acts)
    ensures OnTheirWay(Next(s, a), acts + [a])
  {
    var s' := Next(s, a);
    StepIds(s, a);
    assert (acts + [a])[..|acts|] == acts;
    forall p | 0 <= p < |s'.posters| && s'.posters[p] != Idle
      ensures s'.posters[p].t < |s'.pools| && s'.pools[s'.posters[p].t].id == LastAsked(acts + [a], p)
    {
      PosterWay(s, a, acts, p);
    }
  }

  lemma {:induction false} PosterWay(s: State, a: Action, acts: seq<Action>, p: nat)
    requires Enabled(s, a) && OnTheirWay(s, acts) && p < |s.posters| && Next(s, a).posters[p] != Idle
    requires SameIds(s, Next(s, a))
    requires LastAsked(acts + [a], p) == if a.GetThread? && a.p == p then a.id else LastAsked(acts, p)
    ensures var s' := Next(s, a);
            s'.posters[p].t < |s'.pools| && s'.pools[s'.posters[p].t].id == LastAsked(acts + [a], p)
  {
    hide LastAsked;
    if s.posters[p] != Idle {
      assert s.posters[p].t < |s.pools| && s.pools[s.posters[p].t].id == LastAsked(acts, p);
    }
  }

  lemma {:induction false} RunWay(trace: seq<State>, acts: seq<Action>, k: nat)
    requires IsRun(trace, acts) && k < |trace|
    ensures OnTheirWay(trace[k], acts[..k])
  {
    if k == 0 {
      assert Init(trace[0]);
    } else {
      RunWay(trace, acts, k - 1);
      hide Next, Enabled, OnTheirWay;
      StepWay(trace[k - 1], acts[k - 1], acts[..k - 1]);
      assert acts[..k - 1] + [acts[k - 1]] == acts[..k];
    }
  }

  lemma {:induction false} RunIds(trace: seq<State>, acts: seq<Action>, k: nat, m: nat)
    requires IsRun(trace, acts) && k <= m < |trace|
    ensures SameIds(trace[k], trace[m])
    decreases m - k
  {
    hide Next, Enabled, Init, SameIds;
    if k == m {
      SameIdsRefl(trace[k]);
    } else {
      RunIds(trace, acts, k, m - 1);
      StepIds(trace[m - 1], acts[m - 1]);
      SameIdsTrans(trace[k], trace[m - 1], trace[m]);
    }
  }

  lemma {:induction false} SameIdsRefl(s: State)
    ensures SameIds(s, s)
  {
  }

  lemma {:induction false} SameIdsTrans(a: State, b: State, c: State)
    requires SameIds(a, b) && SameIds(b, c)
    ensures SameIds(a, c)
  {
    forall t | 0 <= t < |a.pools| ensures c.pools[t].id == a.pools[t].id {
      assert b.pools[t].id == a.pools[t].id;
    }
  }

  /**
   A push adds one task to the queue of a thread, at its end, and that thread has and keeps the id the
   poster asked for last.
   */
  lemma {:induction false} PushedWhereAsked(trace: seq<State>, acts: seq<Action>, k: nat, m: nat, p: nat, co: bool)
    requires IsRun(trace, acts) && k < |acts| && acts[k] == Push(p, co) && k < m < |trace|
    ensures var s, s' := trace[k], trace[k + 1];
            && |s'.accepted| == |s.accepted| + 1
            && var x := s'.accepted[|s.accepted|];
               && x.co == co && x.owner < |s.pools|
               && s'.pools[x.owner].tasks == s.pools[x.owner].tasks + [x]
               && x.owner < |trace[m].pools| && trace[m].pools[x.owner].id == LastAsked(acts[..k], p)
  {
    hide LastAsked;
    RunWay(trace, acts, k);
    RunIds(trace, acts, k, m);
    var s := trace[k];
    assert s.pools[s.posters[p].t].id == LastAsked(acts[..k], p);
  }

  // ----- semaphores -----

  predicate Posts(s: State, a: Action, t: nat)
  {
    a.PostSem? && a.p < |s.posters| && s.posters[a.p] == Posting(t)
  }

  /** A semaphore is there once the worker has started, and counts nothing before. */
  predicate SemaphoreOk(th: Thread)
  {
    && (th.pc == Unstarted || th.pc == Starting <==> !th.hasSem)
    && (!th.hasSem ==> th.count == 0)
  }

  /** No semaphore is posted to before it is there. */
  ghost predicate SemaphoresOk(s: State)
  {
    && (forall p :: 0 <= p < |s.posters| && s.posters[p].Posting? ==>
          s.posters[p].t < |s.pools| && s.pools[s.posters[p].t].hasSem)
    && (forall t :: 0 <= t < |s.pools| ==> SemaphoreOk(s.pools[t]))
  }

  lemma {:induction false} StepSemaphores(s: State, a: Action)
    requires Enabled(s, a) && SemaphoresOk(s) && PostersOk(s)
    ensures SemaphoresOk(Next(s, a))
  {
    var s' := Next(s, a);
    hide Next, Enabled;
    forall t | 0 <= t < |s'.pools| ensures SemaphoreOk(s'.pools[t]) { ThreadSemaphore(s, a, t); }
    forall p | 0 <= p < |s'.posters| && s'.posters[p].Posting?
      ensures s'.posters[p].t < |s'.pools| && s'.pools[s'.posters[p].t].hasSem
    {
      PosterSemaphore(s, a, p);
    }
  }

  lemma {:induction false} ThreadSemaphore(s: State, a: Action, t: nat)
    requires Enabled(s, a) && SemaphoresOk(s) && PostersOk(s) && t < |Next(s, a).pools|
    ensures SemaphoreOk(Next(s, a).pools[t])
    ensures t < |s.pools| && s.pools[t].hasSem ==> Next(s, a).pools[t].hasSem
  {
    if t < |s.pools| { assert SemaphoreOk(s.pools[t]); }
  }

  lemma {:induction false} PosterSemaphore(s: State, a: Action, p: nat)
    requires Enabled(s, a) && SemaphoresOk(s) && PostersOk(s)
    requires p < |Next(s, a).posters| && Next(s, a).posters[p].Posting?
    ensures var s' := Next(s, a); s'.posters[p].t < |s'.pools| && s'.pools[s'.posters[p].t].hasSem
  {
    var t := Next(s, a).posters[p].t;
    if s.posters[p] == Posting(t) {
      assert t < |s.pools| && s.pools[t].hasSem;
      ThreadSemaphore(s, a, t);
    }
  }

  lemma {:induction false} RunSemaphores(trace: seq<State>, acts: seq<Action>, k: nat)
    requires IsRun(trace, acts) && k < |trace|
    ensures SemaphoresOk(trace[k])
  {
    if k == 0 {
      assert Init(trace[0]);
    } else {
      RunSemaphores(trace, acts, k - 1);
      RunKeeps(trace, acts, k - 1);
      hide Next, Enabled, SemaphoresOk, PostersOk;
      StepSemaphores(trace[k - 1], acts[k - 1]);
    }
  }

  lemma {:induction false} StepSemaphore(s: State, a: Action, t: nat)
    requires Enabled(s, a) && SemaphoresOk(s)
    ensures CountAt(Next(s, a), t) + (if a == Wake(t) then 1 else 0)
            == CountAt(s, t) + if Posts(s, a, t) then 1 else 0
  {
    if t < |s.pools| { assert SemaphoreOk(s.pools[t]); }
  }

  function CountAt(s: State, t: nat): (n: nat)
  {
    if t < |s.pools| then s.pools[t].count else 0
  }

  /** A semaphore's count is the posts to it less the waits that have returned. */
  lemma {:induction false} SemaphoreExactly(trace: seq<State>, acts: seq<Action>, k: nat, t: nat)
    requires IsRun(trace, acts) && k < |trace|
    ensures CountAt(trace[k], t) + Steps(trace, acts, k, (s, a) => a == Wake(t))
            == Steps(trace, acts, k, (s, a) => Posts(s, a, t))
  {
    if k == 0 {
      assert Init(trace[0]);
    } else {
      SemaphoreExactly(trace, acts, k - 1, t);
      RunSemaphores(trace, acts, k - 1);
      hide Next, Enabled, Posts, SemaphoresOk, CountAt;
      StepSemaphore(trace[k - 1], acts[k - 1], t);
    }
  }

  // ----- every run can be brought to an end -----

  /** A thread that is not started has a poster that will start it. */
  ghost predicate WillStart(s: State)
  {
    forall t :: 0 <= t < |s.pools| && s.pools[t].pc == Unstarted ==>
      exists p :: 0 <= p < |s.posters| && s.posters[p] == Creating(t)
  }

  lemma {:induction false} StepStarts(s: State, a: Action)
    requires Enabled(s, a) && WillStart(s) && PostersOk(s)
    ensures WillStart(Next(s, a))
  {
    var s' := Next(s, a);
    forall t | 0 <= t < |s'.pools| && s'.pools[t].pc == Unstarted
      ensures exists p :: 0 <= p < |s'.posters| && s'.posters[p] == Creating(t)
    {
      ThreadStarts(s, a, t);
    }
  }

  lemma {:induction false} ThreadStarts(s: State, a: Action, t: nat)
    requires Enabled(s, a) && WillStart(s) && PostersOk(s)
    requires t < |Next(s, a).pools| && Next(s, a).pools[t].pc == Unstarted
    ensures var s' := Next(s, a); exists p :: 0 <= p < |s'.posters| && s'.posters[p] == Creating(t)
  {
    if t < |s.pools| {
      WasUnstarted(s, a, t);
      var p :| 0 <= p < |s.posters| && s.posters[p] == Creating(t);
      StillCreating(s, a, t, p);
    } else {
      NewlyCreated(s, a, t);
    }
  }

  lemma {:induction false} WasUnstarted(s: State, a: Action, t: nat)
    requires Enabled(s, a) && t < |s.pools| && Next(s, a).pools[t].pc == Unstarted
    ensures s.pools[t].pc == Unstarted
  {
  }

  lemma {:induction false} StillCreating(s: State, a: Action, t: nat, p: nat)
    requires Enabled(s, a) && p < |s.posters| && s.posters[p] == Creating(t)
    requires t < |s.pools| && Next(s, a).pools[t].pc == Unstarted
    ensures p < |Next(s, a).posters| && Next(s, a).posters[p] == Creating(t)
  {
  }

  lemma {:induction false} NewlyCreated(s: State, a: Action, t: nat)
    requires Enabled(s, a) && |s.pools| <= t < |Next(s, a).pools|
    ensures a.GetThread? && a.p < |Next(s, a).posters| && Next(s, a).posters[a.p] == Creating(t)
  {
  }

  lemma {:induction false} RunStarts(trace: seq<State>, acts: seq<Action>, k: nat)
    requires IsRun(trace, acts) && k < |trace|
    ensures WillStart(trace[k])
  {
    if k == 0 {
      assert Init(trace[0]);
    } else {
      RunStarts(trace, acts, k - 1);
      RunKeeps(trace, acts, k - 1);
      hide Next, Enabled, WillStart, PostersOk;
      StepStarts(trace[k - 1], acts[k - 1]);
    }
  }

  /** How many steps posters still have to make, at most. */
  function PosterRank(pc: PosterPc): (n: nat)
  {
    match pc
    case Idle => 0
    case Posting(_) => 1
    case Pushed(_) => 2
    case Checked(_) => 3
    case Has(_) => 4
    case Creating(_) => 5
  }

  function PosterWork(ps: seq<PosterPc>): (n: nat)
  {
    if ps == [] then 0 else PosterWork(ps[..|ps| - 1]) + PosterRank(ps[|ps| - 1])
  }

  lemma {:induction false} PosterWorkUpdate(ps: seq<PosterPc>, p: nat, pc: PosterPc)
    requires p < |ps|
    ensures PosterWork(ps[p := pc]) + PosterRank(ps[p]) == PosterWork(ps) + PosterRank(pc)
  {
    hide PosterRank;
    var n := |ps| - 1;
    if p < n {
      PosterWorkUpdate(ps[..n], p, pc);
      assert ps[p := pc][..n] == ps[..n][p := pc];
    } else {
      assert ps[p := pc][..n] == ps[..n];
    }
  }

  /** A measure of what a worker has before it. */
  function ThreadWork(th: Thread): (n: nat)
  {
    4 * |th.tasks| + match th.pc
                     case Unstarted => 0
                     case Looking => 1
                     case Waiting => 2
                     case Starting => 3
                     case Running(_) => 3
  }

  function PoolWork(pools: seq<Thread>): (n: nat)
  {
    if pools == [] then 0 else PoolWork(pools[..|pools| - 1]) + ThreadWork(pools[|pools| - 1])
  }

  lemma {:induction false} PoolWorkUpdate(pools: seq<Thread>, t: nat, th: Thread)
    requires t < |pools|
    ensures PoolWork(pools[t := th]) + ThreadWork(pools[t]) == PoolWork(pools) + ThreadWork(th)
  {
    hide ThreadWork;
    var n := |pools| - 1;
    if t < n {
      PoolWorkUpdate(pools[..n], t, th);
      assert pools[t := th][..n] == pools[..n][t := th];
    } else {
      assert pools[t := th][..n] == pools[..n];
    }
  }

  function UpdateWork(s: State): (n: nat)
  {
    5 * |s.ret| + match s.upd
                  case Away => 0
                  case Draining(todo) => 3 * |todo| + 1
                  case Resumed(todo) => 3 * |todo|
  }

  predicate Busy(th: Thread)
  {
    th.tasks != [] || th.pc.Running?
  }

  /** Nothing is left to do: no poster is on its way, no task is queued, run or waited for. */
  predicate Finished(s: State)
  {
    && (forall p :: 0 <= p < |s.posters| ==> s.posters[p] == Idle)
    && (forall t :: 0 <= t < |s.pools| ==> !Busy(s.pools[t]))
    && s.ret == [] && s.upd == Away
  }

  /** The next step of a poster, whatever it finds. */
  lemma {:induction false} PosterStep(s: State, p: nat) returns (a: Action)
    requires Inv(s) && p < |s.posters| && s.posters[p] != Idle
    ensures Enabled(s, a) && !a.Resume?
    ensures PosterWork(Next(s, a).posters) < PosterWork(s.posters)
  {
    hide PosterWork, WakeupOk, BoundOk, Conserved, OrderOk, CountsOk, UniqueIds;
    match s.posters[p] {
      case Creating(_) => a := StartThread(p);
      case Has(_) => a := CheckSize(p);
      case Checked(_) => a := Push(p, false);
      case Pushed(_) => a := TestSem(p);
      case Posting(_) => a := PostSem(p);
    }
    var s' := Next(s, a);
    PosterWorkUpdate(s.posters, p, s'.posters[p]);
    assert s'.posters == s.posters[p := s'.posters[p]];
  }

  lemma {:induction false} AllIdle(ps: seq<PosterPc>, t: nat)
    requires forall p :: 0 <= p < |ps| ==> ps[p] == Idle
    ensures Pending(ps, t) == 0
  {
    PendingNone(ps, t);
  }

  /** The next step of a worker that has something to do, when no poster is on its way. */
  lemma {:induction false} WorkerStep(s: State, t: nat) returns (a: Action)
    requires Inv(s) && WillStart(s) && (forall p :: 0 <= p < |s.posters| ==> s.posters[p] == Idle)
    requires t < |s.pools| && Busy(s.pools[t])
    ensures Enabled(s, a) && !a.Resume?
    ensures Next(s, a).posters == s.posters && PoolWork(Next(s, a).pools) < PoolWork(s.pools)
  {
    hide PoolWork, BoundOk, Conserved, OrderOk, CountsOk, UniqueIds;
    var th := s.pools[t];
    assert Wakes(th, Pending(s.posters, t));
    AllIdle(s.posters, t);
    match th.pc {
      case Unstarted => assert false;
      case Starting => a := Initialize(t);
      case Looking => a := Look(t);
      case Waiting => a := Wake(t);
      case Running(_) => a := Complete(t);
    }
    var s' := Next(s, a);
    PoolWorkUpdate(s.pools, t, s'.pools[t]);
    assert s'.pools == s.pools[t := s'.pools[t]];
  }

  /** The next step of Update, when the workers have nothing to do. */
  lemma {:induction false} UpdateStep(s: State) returns (a: Action)
    requires s.ret != [] || s.upd != Away
    requires s.upd.Resumed? ==> s.upd.todo != []
    ensures Enabled(s, a) && (a.Resume? ==> a.yielded)
    ensures Next(s, a).posters == s.posters && Next(s, a).pools == s.pools && UpdateWork(Next(s, a)) < UpdateWork(s)
  {
    match s.upd {
      case Away => a := Swap;
      case Draining(todo) => a := if todo == [] then Leave else Resume(true);
      case Resumed(_) => a := Release;
    }
  }

  /** With a task dealt with and not yet deleted the list is not empty. */
  lemma {:induction false} RunHands(trace: seq<State>, acts: seq<Action>, k: nat)
    requires IsRun(trace, acts) && k < |trace|
    ensures trace[k].upd.Resumed? ==> trace[k].upd.todo != []
  {
    if k == 0 {
      assert Init(trace[0]);
    } else {
      RunHands(trace, acts, k - 1);
      HandStep(trace[k - 1], acts[k - 1]);
    }
  }

  lemma {:induction false} HandStep(s: State, a: Action)
    requires Enabled(s, a) && (s.upd.Resumed? ==> s.upd.todo != [])
    ensures Next(s, a).upd.Resumed? ==> Next(s, a).upd.todo != []
  {
  }

  /** What can be done next. */
  lemma {:induction false} NextStep(trace: seq<State>, acts: seq<Action>) returns (a: Action)
    requires IsRun(trace, acts) && !Finished(trace[|acts|])
    ensures Enabled(trace[|acts|], a) && (a.Resume? ==> a.yielded)
    ensures var s, s' := trace[|acts|], Next(trace[|acts|], a);
            || PosterWork(s'.posters) < PosterWork(s.posters)
            || (s'.posters == s.posters && PoolWork(s'.pools) < PoolWork(s.pools))
            || (s'.posters == s.posters && s'.pools == s.pools && UpdateWork(s') < UpdateWork(s))
  {
    hide Next, Enabled, Inv, WillStart, PosterWork, PoolWork, UpdateWork;
    var s := trace[|acts|];
    RunKeeps(trace, acts, |acts|);
    RunStarts(trace, acts, |acts|);
    RunHands(trace, acts, |acts|);
    if p :| 0 <= p < |s.posters| && s.posters[p] != Idle {
      a := PosterStep(s, p);
    } else if t :| 0 <= t < |s.pools| && Busy(s.pools[t]) {
      a := WorkerStep(s, t);
    } else {
      a := UpdateStep(s);
    }
  }

  lemma {:induction false} Extended(trace: seq<State>, acts: seq<Action>, a: Action)
    requires IsRun(trace, acts) && Enabled(trace[|acts|], a)
    ensures IsRun(trace + [Next(trace[|acts|], a)], acts + [a])
  {
    hide Next, Enabled, Init;
  }

  lemma {:induction false} Drained(trace: seq<State>, acts: seq<Action>)
    returns (trace': seq<State>, acts': seq<Action>)
    requires IsRun(trace, acts)
    ensures IsRun(trace', acts') && trace <= trace' && acts <= acts' && Finished(trace'[|acts'|])
    ensures forall i :: |acts| <= i < |acts'| && acts'[i].Resume? ==> acts'[i].yielded
    decreases PosterWork(trace[|acts|].posters), PoolWork(trace[|acts|].pools), UpdateWork(trace[|acts|])
  {
    hide Next, Enabled, IsRun, Finished, PosterWork, PoolWork, UpdateWork;
    RunLength(trace, acts);
    if Finished(trace[|acts|]) {
      trace', acts' := trace, acts;
    } else {
      var a := NextStep(trace, acts);
      Extended(trace, acts, a);
      var trace1, acts1 := trace + [Next(trace[|acts|], a)], acts + [a];
      trace', acts' := Drained(trace1, acts1);
      assert acts'[|acts|] == acts1[|acts|] == a;
    }
  }

  lemma {:induction false} RunLength(trace: seq<State>, acts: seq<Action>)
    requires IsRun(trace, acts)
    ensures |trace| == |acts| + 1
  {
  }

  lemma {:induction false} HeldNone(pools: seq<Thread>)
    requires forall t :: 0 <= t < |pools| ==> !Busy(pools[t])
    ensures Held(pools) == multiset{}
  {
    if pools != [] {
      HeldNone(pools[..|pools| - 1]);
      var th := pools[|pools| - 1];
      assert !Busy(th);
      assert InThread(th) == multiset{};
    }
  }

  /**
   Whatever has happened, posters, workers and Update can go on to a state in which every accepted
   task is deleted, once; Update has then come to each coroutine task exactly once, and resumed all it
   had not come to before.
   */
  lemma {:induction false} CanFinish(trace: seq<State>, acts: seq<Action>)
    returns (trace': seq<State>, acts': seq<Action>)
    requires IsRun(trace, acts)
    ensures IsRun(trace', acts') && trace <= trace' && acts <= acts' && Finished(trace'[|acts'|])
    ensures trace'[|acts'|].deleted == multiset(trace'[|acts'|].accepted)
    ensures forall x :: x in trace'[|acts'|].accepted && x.co ==>
              && Steps(trace', acts', |acts'|, (s, a) => Visits(s, a, x)) == 1
              && trace'[|acts'|].released[x] == 1
    ensures forall i :: |acts| <= i < |acts'| && acts'[i].Resume? ==> acts'[i].yielded
  {
    hide Inv, IsRun, Visits;
    trace', acts' := Drained(trace, acts);
    RunLength(trace', acts');
    var n := |acts'|;
    var s := trace'[n];
    AllDeleted(trace', acts', n);
    forall x | x in s.accepted && x.co
      ensures Steps(trace', acts', n, (s, a) => Visits(s, a, x)) == 1 && s.released[x] == 1
    {
      assert x in multiset(s.accepted);
      VisitedOnce(trace', acts', n, x);
      ExactlyOnePlace(trace', acts', n, x);
    }
  }

  lemma {:induction false} AllDeleted(trace: seq<State>, acts: seq<Action>, k: nat)
    requires IsRun(trace, acts) && k < |trace| && Finished(trace[k])
    ensures trace[k].deleted == multiset(trace[k].accepted)
  {
    RunKeeps(trace, acts, k);
    HeldNone(trace[k].pools);
  }
}
