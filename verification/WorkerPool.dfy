/**
 The Lua worker pool: posters (`CLuaThread::PostTask`), workers (`CLuaThread::WorkProc`), and
 the main loop's `CLuaThreadMgr::Update`, over locked lists and one semaphore per worker.

 Every critical section, semaphore operation and hand-over is one step of a state machine;
 the statements below hold in every state of every run, for any interleaving of the steps.
 */
module WorkerPool {

  /** A posted task. `uid` numbers the accepted tasks; `co` says that a coroutine waits for it. */
  datatype Task = Task(uid: nat, owner: nat, co: bool)

  /** Where a worker is in `WorkProc`; `Waiting` has found the queue empty and is in `Wait`. */
  datatype WorkerPc = Unstarted | Starting | Looking | Waiting | Running(task: Task)

  /**
   A `CLuaThread`. `pushed` and `taken` are history: all tasks ever pushed, and how many of
   them the worker has popped; no step looks at them.
   */
  datatype Thread = Thread(id: nat, tasks: seq<Task>, hasSem: bool, count: nat, pc: WorkerPc,
                           pushed: seq<Task>, taken: nat)

  /** Where a poster is: looking up the thread, between the size check and the push, or before the wake-up. */
  datatype PosterPc = Idle | Creating(t: nat) | Has(t: nat) | Checked(t: nat) | Pushed(t: nat) | Posting(t: nat)

  /** Where `Update` is; `Resumed` has dealt with the coroutine of the first task but not deleted it. */
  datatype UpdatePc = Away | Draining(todo: seq<Task>) | Resumed(todo: seq<Task>)

  /**
   The whole system. `accepted`, `returned`, `swapped`, `done` are history; `resumed`,
   `released` and `deleted` count what happened to each task.
   */
  datatype State = State(pools: seq<Thread>, posters: seq<PosterPc>, max: nat, ret: seq<Task>, upd: UpdatePc,
                         accepted: seq<Task>, returned: seq<Task>, swapped: nat, done: nat,
                         resumed: multiset<Task>, released: multiset<Task>, deleted: multiset<Task>)

  datatype Action =
    | GetThread(p: nat, id: nat)       // find or create under the manager's lock
    | StartThread(p: nat)              // pthread_create, after the lock
    | CheckSize(p: nat)                // GetTaskCount and the comparison
    | Push(p: nat, co: bool)           // the locked push_back
    | TestSem(p: nat)                  // SetEvent: is there a semaphore yet?
    | PostSem(p: nat)                  // SetEvent: sem_post
    | Initialize(t: nat)               // the worker creates its semaphore
    | Look(t: nat)                     // the locked pop_front, or the decision to wait
    | Wake(t: nat)                     // sem_wait returns
    | Complete(t: nat)                 // PostTaskReturn for a coroutine, delete otherwise
    | Swap                             // Update takes the whole return list
    | Resume(yielded: bool)            // Update resumes the first coroutine if it is yielded
    | Release                          // Update drops the reference and deletes its first task
    | Leave                            // Update's list is empty

  /** The index of the thread with this id, or the number of threads. */
  function Find(pools: seq<Thread>, id: nat): (i: nat)
    ensures i <= |pools|
    ensures i < |pools| ==> pools[i].id == id
    ensures forall j :: 0 <= j < i ==> pools[j].id != id
  {
    if |pools| == 0 then 0
    else
      var i := Find(pools[..|pools| - 1], id);
      if i < |pools| - 1 then i
      else if pools[|pools| - 1].id == id then |pools| - 1 else |pools|
  }

  function Todo(u: UpdatePc): (ts: seq<Task>)
  {
    if u.Away? then [] else u.todo
  }

  predicate Enabled(s: State, a: Action)
  {
    match a
    case GetThread(p, id) => p < |s.posters| && s.posters[p] == Idle
    case StartThread(p) => p < |s.posters| && s.posters[p].Creating? && s.posters[p].t < |s.pools|
    case CheckSize(p) => p < |s.posters| && s.posters[p].Has? && s.posters[p].t < |s.pools|
    case Push(p, co) => p < |s.posters| && s.posters[p].Checked? && s.posters[p].t < |s.pools|
    case TestSem(p) => p < |s.posters| && s.posters[p].Pushed? && s.posters[p].t < |s.pools|
    case PostSem(p) => p < |s.posters| && s.posters[p].Posting? && s.posters[p].t < |s.pools|
    case Initialize(t) => t < |s.pools| && s.pools[t].pc == Starting
    case Look(t) => t < |s.pools| && s.pools[t].pc == Looking
    case Wake(t) => t < |s.pools| && s.pools[t].pc == Waiting && s.pools[t].count > 0
    case Complete(t) => t < |s.pools| && s.pools[t].pc.Running?
    case Swap => s.upd == Away
    case Resume(yielded) => s.upd.Draining? && |s.upd.todo| > 0
    case Release => s.upd.Resumed? && |s.upd.todo| > 0
    case Leave => s.upd == Draining([])
  }

  function SetThread(s: State, t: nat, th: Thread): (s': State)
    requires t < |s.pools|
  {
    s.(pools := s.pools[t := th])
  }

  function SetPoster(s: State, p: nat, pc: PosterPc): (s': State)
    requires p < |s.posters|
  {
    s.(posters := s.posters[p := pc])
  }

  function NewThread(id: nat): (th: Thread)
  {
    Thread(id, [], false, 0, Unstarted, [], 0)
  }

  function Next(s: State, a: Action): (s': State)
    requires Enabled(s, a)
  {
    match a
    case GetThread(p, id) =>
      var i := Find(s.pools, id);
      if i < |s.pools| then SetPoster(s, p, Has(i))
      else SetPoster(s.(pools := s.pools + [NewThread(id)]), p, Creating(i))
    case StartThread(p) =>
      var t := s.posters[p].t;
      SetPoster(SetThread(s, t, s.pools[t].(pc := Starting)), p, Has(t))
    case CheckSize(p) =>
      var t := s.posters[p].t;
      SetPoster(s, p, if |s.pools[t].tasks| >= s.max then Idle else Checked(t))
    case Push(p, co) =>
      var t := s.posters[p].t;
      var th, task := s.pools[t], Task(|s.accepted|, t, co);
      SetPoster(SetThread(s, t, th.(tasks := th.tasks + [task], pushed := th.pushed + [task])), p, Pushed(t))
        .(accepted := s.accepted + [task])
    case TestSem(p) =>
      var t := s.posters[p].t;
      SetPoster(s, p, if s.pools[t].hasSem then Posting(t) else Idle)
    case PostSem(p) =>
      var t := s.posters[p].t;
      SetPoster(SetThread(s, t, s.pools[t].(count := s.pools[t].count + 1)), p, Idle)
    case Initialize(t) =>
      SetThread(s, t, s.pools[t].(hasSem := true, count := 0, pc := Looking))
    case Look(t) =>
      var th := s.pools[t];
      if |th.tasks| == 0 then SetThread(s, t, th.(pc := Waiting))
      else SetThread(s, t, th.(tasks := th.tasks[1..], pc := Running(th.tasks[0]), taken := th.taken + 1))
    case Wake(t) =>
      SetThread(s, t, s.pools[t].(count := s.pools[t].count - 1, pc := Looking))
    case Complete(t) =>
      var task := s.pools[t].pc.task;
      var s1 := SetThread(s, t, s.pools[t].(pc := Looking));
      if task.co then s1.(ret := s.ret + [task], returned := s.returned + [task])
      else s1.(deleted := s.deleted + multiset{task})
    case Swap =>
      s.(ret := [], upd := Draining(s.ret), swapped := |s.returned|)
    case Resume(yielded) =>
      var task := s.upd.todo[0];
      s.(upd := Resumed(s.upd.todo), resumed := if yielded then s.resumed + multiset{task} else s.resumed)
    case Release =>
      var task := s.upd.todo[0];
      s.(upd := Draining(s.upd.todo[1..]), done := s.done + 1,
         released := s.released + multiset{task}, deleted := s.deleted + multiset{task})
    case Leave =>
      s.(upd := Away)
  }

  predicate Init(s: State)
  {
    && s.pools == [] && (forall p :: 0 <= p < |s.posters| ==> s.posters[p] == Idle)
    && s.ret == [] && s.upd == Away && s.accepted == [] && s.returned == [] && s.swapped == 0 && s.done == 0
    && s.resumed == multiset{} && s.released == multiset{} && s.deleted == multiset{}
  }

  /** A run: states and the enabled actions between them, from an initial state. */
  ghost predicate IsRun(trace: seq<State>, acts: seq<Action>)
  {
    && |trace| == |acts| + 1 && Init(trace[0])
    && forall k :: 0 <= k < |acts| ==> Enabled(trace[k], acts[k]) && trace[k + 1] == Next(trace[k], acts[k])
  }

  // ----- what every step keeps -----

  /** How many posters are between their push and the end of their wake-up of thread t. */
  function Pending(ps: seq<PosterPc>, t: nat): (n: nat)
  {
    if |ps| == 0 then 0
    else Pending(ps[..|ps| - 1], t) + if ps[|ps| - 1] == Pushed(t) || ps[|ps| - 1] == Posting(t) then 1 else 0
  }

  /** How many posters have passed the size check of thread t but not pushed. */
  function Passed(ps: seq<PosterPc>, t: nat): (n: nat)
    ensures n <= |ps|
  {
    if |ps| == 0 then 0
    else Passed(ps[..|ps| - 1], t) + if ps[|ps| - 1] == Checked(t) then 1 else 0
  }

  /** Every task held by a thread: in its queue or in its worker's hand. */
  function Held(pools: seq<Thread>): (m: multiset<Task>)
  {
    if |pools| == 0 then multiset{}
    else Held(pools[..|pools| - 1]) + InThread(pools[|pools| - 1])
  }

  function InThread(th: Thread): (m: multiset<Task>)
  {
    multiset(th.tasks) + if th.pc.Running? then multiset{th.pc.task} else multiset{}
  }

  /** All tasks, wherever they are. */
  function Everywhere(s: State): (m: multiset<Task>)
  {
    Held(s.pools) + multiset(s.ret) + multiset(Todo(s.upd)) + s.deleted
  }

  /** Conservation: tasks in all places together are the accepted tasks, each once. */
  ghost predicate Conserved(s: State)
  {
    && Everywhere(s) == multiset(s.accepted)
    && forall u :: 0 <= u < |s.accepted| ==> s.accepted[u].uid == u
  }

  /** What one thread and the posters on their way to it owe each other. */
  ghost predicate Wakes(th: Thread, pending: nat)
  {
    && (th.hasSem <==> th.pc != Unstarted && th.pc != Starting)
    && (th.pc == Waiting ==> |th.tasks| <= th.count + pending)
  }

  /** Waking: a waiting worker with tasks has a wake-up stored or under way. */
  ghost predicate WakeupOk(s: State)
  {
    forall t :: 0 <= t < |s.pools| ==> Wakes(s.pools[t], Pending(s.posters, t))
  }

  /** Nothing at all for a limit of zero, and otherwise less than the limit and the posters together. */
  ghost predicate Bounded(n: nat, max: nat, posters: nat)
  {
    n == 0 || (max >= 1 && n < max + posters)
  }

  /** The queue bound: tasks and posters about to push, together. */
  ghost predicate BoundOk(s: State)
  {
    forall t :: 0 <= t < |s.pools| ==> Bounded(|s.pools[t].tasks| + Passed(s.posters, t), s.max, |s.posters|)
  }

  ghost predicate UniqueIds(s: State)
  {
    forall i, j :: 0 <= i < j < |s.pools| ==> s.pools[i].id != s.pools[j].id
  }

  /** Posters refer to existing threads, and one poster alone starts each new thread. */
  ghost predicate PostersOk(s: State)
  {
    && (forall p :: 0 <= p < |s.posters| && s.posters[p] != Idle ==> s.posters[p].t < |s.pools|)
    && (forall p :: 0 <= p < |s.posters| && s.posters[p].Creating? ==>
          s.pools[s.posters[p].t].pc == Unstarted)
    && (forall p, q :: 0 <= p < q < |s.posters| && s.posters[p].Creating? ==> s.posters[p] != s.posters[q])
  }

  /** The queue is the rest of the pushed tasks, in order; the worker holds the last one it took. */
  ghost predicate ThreadOrder(s: State, t: nat)
    requires t < |s.pools|
  {
    var th := s.pools[t];
    && th.taken <= |th.pushed| && th.tasks == th.pushed[th.taken..]
    && (forall a, b :: 0 <= a < b < |th.pushed| ==> th.pushed[a].uid < th.pushed[b].uid)
    && (forall a :: 0 <= a < |th.pushed| ==> th.pushed[a].owner == t && th.pushed[a].uid < |s.accepted|)
    && (th.pc.Running? ==> th.taken > 0 && th.pc.task == th.pushed[th.taken - 1])
  }

  /** A returned task left its thread before everything the thread still has. */
  ghost predicate Before(r: Task, th: Thread)
  {
    && (th.pc.Running? ==> r.uid < th.pc.task.uid)
    && (forall j :: 0 <= j < |th.tasks| ==> r.uid < th.tasks[j].uid)
  }

  ghost predicate ReturnOrder(s: State)
  {
    && s.done <= s.swapped <= |s.returned|
    && s.ret == s.returned[s.swapped..] && Todo(s.upd) == s.returned[s.done..s.swapped]
    && (forall k :: 0 <= k < |s.returned| ==>
          s.returned[k].co && s.returned[k].owner < |s.pools| && s.returned[k].uid < |s.accepted|
          && Before(s.returned[k], s.pools[s.returned[k].owner]))
    && (forall k, l :: 0 <= k < l < |s.returned| && s.returned[k].owner == s.returned[l].owner ==>
          s.returned[k].uid < s.returned[l].uid)
    && (forall x :: x in s.deleted && x.co ==> x in s.returned[..s.done])
  }

  ghost predicate OrderOk(s: State)
  {
    (forall t :: 0 <= t < |s.pools| ==> ThreadOrder(s, t)) && ReturnOrder(s)
  }

  /** References are dropped with their task; a resumption is counted against its own deletion. */
  ghost predicate Counted(s: State, x: Task)
  {
    && s.released[x] == (if x.co then s.deleted[x] else 0)
    && s.resumed[x] <= s.deleted[x]
         + (if s.upd.Resumed? && |s.upd.todo| > 0 && s.upd.todo[0] == x then 1 else 0)
  }

  ghost predicate CountsOk(s: State)
  {
    forall x :: Counted(s, x)
  }

  ghost predicate Inv(s: State)
  {
    PostersOk(s) && UniqueIds(s) && WakeupOk(s) && BoundOk(s) && Conserved(s) && OrderOk(s) && CountsOk(s)
  }

  // ----- counting lemmas -----

  lemma {:induction false} PendingUpdate(ps: seq<PosterPc>, p: nat, pc: PosterPc, t: nat)
    requires p < |ps|
    ensures Pending(ps[p := pc], t) + Pending([ps[p]], t) == Pending(ps, t) + Pending([pc], t)
  {
    var n := |ps| - 1;
    if p < n {
      PendingUpdate(ps[..n], p, pc, t);
      assert ps[p := pc][..n] == ps[..n][p := pc];
    } else {
      assert ps[p := pc][..n] == ps[..n];
      assert [ps[p]][..0] == [] && [pc][..0] == [];
    }
  }

  lemma {:induction false} PassedUpdate(ps: seq<PosterPc>, p: nat, pc: PosterPc, t: nat)
    requires p < |ps|
    ensures Passed(ps[p := pc], t) + Passed([ps[p]], t) == Passed(ps, t) + Passed([pc], t)
  {
    var n := |ps| - 1;
    if p < n {
      PassedUpdate(ps[..n], p, pc, t);
      assert ps[p := pc][..n] == ps[..n][p := pc];
    } else {
      assert ps[p := pc][..n] == ps[..n];
      assert [ps[p]][..0] == [] && [pc][..0] == [];
    }
  }

  /** One poster's share of the two counts. */
  lemma {:induction false} OnePoster(pc: PosterPc, t: nat)
    ensures Pending([pc], t) == if pc == Pushed(t) || pc == Posting(t) then 1 else 0
    ensures Passed([pc], t) == if pc == Checked(t) then 1 else 0
  {
    assert [pc][..0] == [];
  }

  lemma {:induction false} PassedNone(ps: seq<PosterPc>, t: nat)
    requires forall p :: 0 <= p < |ps| ==> ps[p] != Checked(t)
    ensures Passed(ps, t) == 0
  {
    if |ps| > 0 { PassedNone(ps[..|ps| - 1], t); }
  }

  lemma {:induction false} Shuffle(a: multiset<Task>, x: multiset<Task>, b: multiset<Task>, y: multiset<Task>,
                                   c: multiset<Task>)
    requires a + x == b + y
    ensures (a + c) + x == (b + c) + y
  {
    forall t ensures ((a + c) + x)[t] == ((b + c) + y)[t] {
      assert (a + x)[t] == (b + y)[t];
    }
  }

  lemma {:induction false} HeldUpdate(pools: seq<Thread>, t: nat, th: Thread)
    requires t < |pools|
    ensures Held(pools[t := th]) + InThread(pools[t]) == Held(pools) + InThread(th)
  {
    hide InThread;
    var n := |pools| - 1;
    var last, old', new' := InThread(pools[n]), InThread(pools[t]), InThread(th);
    if t < n {
      HeldUpdate(pools[..n], t, th);
      assert pools[t := th][..n] == pools[..n][t := th];
      var a, b := Held(pools[..n][t := th]), Held(pools[..n]);
      Shuffle(a, old', b, new', last);
    } else {
      assert pools[t := th][..n] == pools[..n];
    }
  }

  lemma {:induction false} HeldSnoc(pools: seq<Thread>, th: Thread)
    ensures Held(pools + [th]) == Held(pools) + InThread(th)
  {
    assert (pools + [th])[..|pools|] == pools;
  }

  // ----- every step keeps the invariant -----

  /** Steps of a poster, of a worker, and of `Update`. */
  predicate OfPoster(a: Action)
  {
    a.GetThread? || a.StartThread? || a.CheckSize? || a.Push? || a.TestSem? || a.PostSem?
  }

  predicate OfWorker(a: Action)
  {
    a.Initialize? || a.Look? || a.Wake? || a.Complete?
  }

  predicate OfUpdate(a: Action)
  {
    a.Swap? || a.Resume? || a.Release? || a.Leave?
  }

  /** The one thread a step touches, if any. */
  function Target(s: State, a: Action): (t: nat)
    requires Enabled(s, a) && !OfUpdate(a)
  {
    if a.GetThread? then |s.pools| else if OfPoster(a) then s.posters[a.p].t else a.t
  }

  /** What a step leaves alone. */
  lemma {:induction false} Frame(s: State, a: Action)
    requires Enabled(s, a)
    ensures var s' := Next(s, a);
            && |s.pools| <= |s'.pools| && s'.max == s.max && |s'.posters| == |s.posters|
            && (OfUpdate(a) ==> s'.pools == s.pools)
            && (!OfUpdate(a) ==> forall t :: 0 <= t < |s.pools| && t != Target(s, a) ==> s'.pools[t] == s.pools[t])
            && (!OfPoster(a) ==> s'.posters == s.posters)
            && (OfPoster(a) ==> s'.posters == s.posters[a.p := s'.posters[a.p]])
            && (!a.GetThread? ==> |s'.pools| == |s.pools|)
            && (a.GetThread? ==> s'.pools == s.pools || s'.pools == s.pools + [NewThread(a.id)])
            && (!OfUpdate(a) ==> s'.upd == s.upd && s'.swapped == s.swapped && s'.done == s.done)
            && (!OfUpdate(a) && !a.Complete? ==>
                  s'.ret == s.ret && s'.returned == s.returned && s'.deleted == s.deleted)
            && (!a.Push? ==> s'.accepted == s.accepted)
  {
  }

  lemma {:induction false} StepUnique(s: State, a: Action)
    requires Enabled(s, a) && UniqueIds(s)
    ensures UniqueIds(Next(s, a))
  {
    var s' := Next(s, a);
    assert forall t :: 0 <= t < |s.pools| ==> s'.pools[t].id == s.pools[t].id;
    assert |s'.pools| > |s.pools| ==> a.GetThread? && Find(s.pools, a.id) == |s.pools|;
  }

  lemma {:induction false} StepPosters(s: State, a: Action)
    requires Enabled(s, a) && PostersOk(s)
    ensures PostersOk(Next(s, a))
  {
    var s' := Next(s, a);
    Frame(s, a);
    if OfWorker(a) {
      assert s.pools[a.t].pc != Unstarted;
    } else if OfPoster(a) {
      PosterStepPosters(s, a);
    }
  }

  lemma {:induction false} PosterStepPosters(s: State, a: Action)
    requires Enabled(s, a) && PostersOk(s) && OfPoster(a)
    ensures PostersOk(Next(s, a))
  {
    var s', p := Next(s, a), a.p;
    Frame(s, a);
    forall q | 0 <= q < |s'.posters| && q != p
      ensures s'.posters[q] == s.posters[q]
      ensures s.posters[q].Creating? && !a.GetThread? ==> s.posters[q] != s.posters[p]
    {
    }
  }

  lemma {:induction false} StepWakeup(s: State, a: Action)
    requires Enabled(s, a) && PostersOk(s) && WakeupOk(s)
    ensures WakeupOk(Next(s, a))
  {
    hide Next, Enabled, Pending, Wakes;
    var s' := Next(s, a);
    forall t | 0 <= t < |s'.pools|
      ensures Wakes(s'.pools[t], Pending(s'.posters, t))
    {
      if t < |s.pools| { assert Wakes(s.pools[t], Pending(s.posters, t)); }
      if OfPoster(a) {
        PosterWakes(s, a, t);
      } else {
        OtherWakes(s, a, t);
      }
    }
    assert forall t :: 0 <= t < |s'.pools| ==> Wakes(s'.pools[t], Pending(s'.posters, t));
  }

  lemma {:induction false} PosterWakes(s: State, a: Action, t: nat)
    requires Enabled(s, a) && PostersOk(s) && OfPoster(a) && t < |Next(s, a).pools|
    requires t < |s.pools| ==> Wakes(s.pools[t], Pending(s.posters, t))
    ensures Wakes(Next(s, a).pools[t], Pending(Next(s, a).posters, t))
  {
    hide Pending;
    var s' := Next(s, a);
    Frame(s, a);
    PendingUpdate(s.posters, a.p, s'.posters[a.p], t);
    OnePoster(s.posters[a.p], t);
    OnePoster(s'.posters[a.p], t);
  }

  lemma {:induction false} OtherWakes(s: State, a: Action, t: nat)
    requires Enabled(s, a) && !OfPoster(a) && t < |Next(s, a).pools|
    requires t < |s.pools| ==> Wakes(s.pools[t], Pending(s.posters, t))
    ensures Wakes(Next(s, a).pools[t], Pending(Next(s, a).posters, t))
  {
    hide Pending;
    assert Next(s, a).posters == s.posters;
  }

  lemma {:induction false} PosterBound(s: State, a: Action, t: nat)
    requires Enabled(s, a) && PostersOk(s) && OfPoster(a) && t < |s.pools|
    requires Bounded(|s.pools[t].tasks| + Passed(s.posters, t), s.max, |s.posters|)
    ensures var s' := Next(s, a); Bounded(|s'.pools[t].tasks| + Passed(s'.posters, t), s'.max, |s'.posters|)
  {
    var s', p := Next(s, a), a.p;
    Frame(s, a);
    PassedUpdate(s.posters, p, s'.posters[p], t);
    OnePoster(s.posters[p], t);
    OnePoster(s'.posters[p], t);
    assert |s'.pools[t].tasks| == |s.pools[t].tasks| + if a.Push? && s.posters[p] == Checked(t) then 1 else 0;
  }

  lemma {:induction false} StepBound(s: State, a: Action)
    requires Enabled(s, a) && PostersOk(s) && BoundOk(s)
    ensures BoundOk(Next(s, a))
  {
    hide Enabled, Passed, Next;
    var s' := Next(s, a);
    Frame(s, a);
    StepPosters(s, a);
    forall t | 0 <= t < |s'.pools|
      ensures Bounded(|s'.pools[t].tasks| + Passed(s'.posters, t), s'.max, |s'.posters|)
    {
      if t < |s.pools| {
        assert Bounded(|s.pools[t].tasks| + Passed(s.posters, t), s.max, |s.posters|);
      }
      if t >= |s.pools| {
        NewBound(s, a, t);
      } else if OfPoster(a) {
        PosterBound(s, a, t);
      } else {
        OtherBound(s, a, t);
      }
    }
  }

  /** A new thread's queue is empty, and no poster has passed its size check. */
  lemma {:induction false} NewBound(s: State, a: Action, t: nat)
    requires Enabled(s, a) && PostersOk(s) && |s.pools| <= t < |Next(s, a).pools|
    ensures var s' := Next(s, a); |s'.pools[t].tasks| + Passed(s'.posters, t) == 0
  {
    hide Passed;
    PassedNone(Next(s, a).posters, t);
  }

  lemma {:induction false} OtherBound(s: State, a: Action, t: nat)
    requires Enabled(s, a) && !OfPoster(a) && t < |s.pools|
    requires Bounded(|s.pools[t].tasks| + Passed(s.posters, t), s.max, |s.posters|)
    ensures var s' := Next(s, a);
            && t < |s'.pools|
            && Bounded(|s'.pools[t].tasks| + Passed(s'.posters, t), s'.max, |s'.posters|)
  {
    hide Passed;
    var s' := Next(s, a);
    assert s'.posters == s.posters && s'.max == s.max;
    assert |s'.pools[t].tasks| <= |s.pools[t].tasks|;
  }

  /** A step that changes one thread, and what it moves from the thread to the outside. */
  lemma {:induction false} MovedOut(h: multiset<Task>, x: multiset<Task>, h': multiset<Task>, y: multiset<Task>,
                                    out: multiset<Task>, out': multiset<Task>, all: multiset<Task>,
                                    all': multiset<Task>)
    requires h' + x == h + y && h + out == all
    requires y + out' + all == x + out + all'
    ensures h' + out' == all'
  {
    forall t ensures (h' + out')[t] == all'[t] {
      assert (h' + x)[t] == (h + y)[t];
      assert (h + out)[t] == all[t];
      assert (y + out' + all)[t] == (x + out + all')[t];
    }
  }

  /** Tasks that no thread holds. */
  function Outside(s: State): (m: multiset<Task>)
  {
    multiset(s.ret) + multiset(Todo(s.upd)) + s.deleted
  }

  /** Taking the first task in hand leaves the thread with the same tasks. */
  lemma {:induction false} LookShare(s: State, t: nat)
    requires Enabled(s, Look(t))
    ensures InThread(Next(s, Look(t)).pools[t]) == InThread(s.pools[t])
  {
    var tasks := s.pools[t].tasks;
    if |tasks| > 0 {
      assert tasks == [tasks[0]] + tasks[1..];
    }
  }

  /** Completing moves what is in hand out of the thread, to the return list or to the deleted ones. */
  lemma {:induction false} CompleteShare(s: State, t: nat)
    requires Enabled(s, Complete(t))
    ensures var s', m := Next(s, Complete(t)), multiset{s.pools[t].pc.task};
            InThread(s'.pools[t]) + m == InThread(s.pools[t]) && Outside(s') == Outside(s) + m
  {
  }

  /** What a step brings into the system. */
  function Brought(s: State, a: Action): (ts: seq<Task>)
    requires Enabled(s, a)
  {
    if a.Push? then [Task(|s.accepted|, s.posters[a.p].t, a.co)] else []
  }

  lemma {:induction false} ThreadFrame(s: State, a: Action)
    requires Enabled(s, a) && !OfUpdate(a) && !a.GetThread?
    ensures var s', t := Next(s, a), Target(s, a);
            s'.pools == s.pools[t := s'.pools[t]] && s'.accepted == s.accepted + Brought(s, a)
  {
  }

  /** A step of a poster or a worker, seen from the thread it touches. */
  lemma {:induction false} ThreadShare(s: State, a: Action)
    requires Enabled(s, a) && PostersOk(s) && !OfUpdate(a) && !a.GetThread?
    ensures var s', t := Next(s, a), Target(s, a);
            InThread(s'.pools[t]) + Outside(s') == InThread(s.pools[t]) + Outside(s) + multiset(Brought(s, a))
  {
    if a.Look? {
      LookShare(s, a.t);
      assert Outside(Next(s, a)) == Outside(s);
    } else if a.Complete? {
      CompleteShare(s, a.t);
    } else if a.Push? {
      PushShare(s, a);
    } else {
      var s', t := Next(s, a), Target(s, a);
      assert InThread(s'.pools[t]) == InThread(s.pools[t]) && Outside(s') == Outside(s);
    }
  }

  lemma {:induction false} PushShare(s: State, a: Action)
    requires Enabled(s, a) && a.Push?
    ensures var s', t := Next(s, a), Target(s, a);
            InThread(s'.pools[t]) == InThread(s.pools[t]) + multiset(Brought(s, a)) && Outside(s') == Outside(s)
  {
  }

  lemma {:induction false} MoveConserves(s: State, s': State, t: nat, brought: seq<Task>)
    requires Conserved(s) && t < |s.pools| == |s'.pools| && s'.pools == s.pools[t := s'.pools[t]]
    requires s'.accepted == s.accepted + brought
    requires forall i :: 0 <= i < |brought| ==> brought[i].uid == |s.accepted| + i
    requires InThread(s'.pools[t]) + Outside(s') == InThread(s.pools[t]) + Outside(s) + multiset(brought)
    ensures Conserved(s')
  {
    SplitEverywhere(s);
    SplitEverywhere(s');
    HeldUpdate(s.pools, t, s'.pools[t]);
    hide Held, InThread, Outside, Everywhere;
    MovedOut(Held(s.pools), InThread(s.pools[t]), Held(s'.pools), InThread(s'.pools[t]),
             Outside(s), Outside(s'), multiset(s.accepted), multiset(s'.accepted));
  }

  lemma {:induction false} QuietConserves(s: State, s': State)
    requires Conserved(s) && s'.accepted == s.accepted
    requires Held(s'.pools) == Held(s.pools) && Outside(s') == Outside(s)
    ensures Conserved(s')
  {
    SplitEverywhere(s);
    SplitEverywhere(s');
    hide Held, Outside, Everywhere;
  }

  lemma {:induction false} SplitEverywhere(s: State)
    ensures Everywhere(s) == Held(s.pools) + Outside(s)
  {
  }

  /** `Update` only moves tasks among the places outside the threads. */
  lemma {:induction false} UpdateKeepsOutside(s: State, a: Action)
    requires Enabled(s, a) && OfUpdate(a)
    ensures Outside(Next(s, a)) == Outside(s)
  {
    if a.Release? {
      assert s.upd.todo == [s.upd.todo[0]] + s.upd.todo[1..];
    }
  }

  lemma {:induction false} StepConserves(s: State, a: Action)
    requires Enabled(s, a) && PostersOk(s) && Conserved(s)
    ensures Conserved(Next(s, a))
  {
    hide Held, Everywhere, Conserved, InThread, Outside;
    if a.GetThread? {
      GetThreadConserves(s, a.p, a.id);
    } else if OfUpdate(a) {
      Frame(s, a);
      UpdateKeepsOutside(s, a);
      QuietConserves(s, Next(s, a));
    } else {
      ThreadFrame(s, a);
      ThreadShare(s, a);
      MoveConserves(s, Next(s, a), Target(s, a), Brought(s, a));
    }
  }

  lemma {:induction false} GetThreadConserves(s: State, p: nat, id: nat)
    requires Enabled(s, GetThread(p, id)) && Conserved(s)
    ensures Conserved(Next(s, GetThread(p, id)))
  {
    hide Held, Conserved;
    var s' := Next(s, GetThread(p, id));
    HeldSnoc(s.pools, NewThread(id));
    assert InThread(NewThread(id)) == multiset{};
    assert Outside(s') == Outside(s);
    QuietConserves(s, s');
  }

  // ----- order -----

  lemma {:induction false} StepThreadOrder(s: State, a: Action)
    requires Enabled(s, a) && PostersOk(s) && forall t :: 0 <= t < |s.pools| ==> ThreadOrder(s, t)
    ensures var s' := Next(s, a); forall t :: 0 <= t < |s'.pools| ==> ThreadOrder(s', t)
  {
    var s' := Next(s, a);
    Frame(s, a);
    forall t | 0 <= t < |s'.pools|
      ensures ThreadOrder(s', t)
    {
      if t < |s.pools| {
        assert ThreadOrder(s, t);
        if !OfUpdate(a) && t == Target(s, a) {
          TargetOrder(s, a);
        }
      }
    }
  }

  lemma {:induction false} TargetOrder(s: State, a: Action)
    requires Enabled(s, a) && PostersOk(s) && !OfUpdate(a) && !a.GetThread?
    requires ThreadOrder(s, Target(s, a))
    ensures ThreadOrder(Next(s, a), Target(s, a))
  {
    if a.Look? {
      LookOrder(s, a.t);
    } else if a.Push? {
      PushOrder(s, a);
    } else {
      var th, th' := s.pools[Target(s, a)], Next(s, a).pools[Target(s, a)];
      assert th'.tasks == th.tasks && th'.pushed == th.pushed && th'.taken == th.taken;
      assert th'.pc.Running? ==> th'.pc == th.pc;
    }
  }

  lemma {:induction false} LookOrder(s: State, t: nat)
    requires Enabled(s, Look(t)) && ThreadOrder(s, t)
    ensures ThreadOrder(Next(s, Look(t)), t)
  {
    var th := s.pools[t];
    if |th.tasks| > 0 {
      assert th.tasks[0] == th.pushed[th.taken];
      assert th.tasks[1..] == th.pushed[th.taken + 1..];
    }
  }

  lemma {:induction false} PushOrder(s: State, a: Action)
    requires Enabled(s, a) && a.Push? && ThreadOrder(s, Target(s, a))
    ensures ThreadOrder(Next(s, a), Target(s, a))
  {
    var th := s.pools[Target(s, a)];
    var task := Task(|s.accepted|, Target(s, a), a.co);
    assert (th.pushed + [task])[th.taken..] == th.tasks + [task];
  }

  /** Every returned task is still before what its thread has left. */
  lemma {:induction false} StepBefore(s: State, a: Action, r: Task)
    requires Enabled(s, a) && PostersOk(s) && r.owner < |s.pools| && r.uid < |s.accepted|
    requires ThreadOrder(s, r.owner) && Before(r, s.pools[r.owner])
    ensures Before(r, Next(s, a).pools[r.owner])
  {
    Frame(s, a);
    var th, th' := s.pools[r.owner], Next(s, a).pools[r.owner];
    if !OfUpdate(a) && r.owner == Target(s, a) && !a.GetThread? {
      assert th'.tasks == th.tasks || (a.Push? && th'.tasks == th.tasks + [Task(|s.accepted|, r.owner, a.co)])
             || (a.Look? && th'.tasks == th.tasks[1..]);
    }
  }

  /** A coroutine task that is handed back goes to the end of the return list. */
  lemma {:induction false} CompleteReturns(s: State, t: nat)
    requires Enabled(s, Complete(t)) && ThreadOrder(s, t) && ReturnOrder(s) && s.pools[t].pc.task.co
    ensures ReturnOrder(Next(s, Complete(t)))
  {
    var s', task := Next(s, Complete(t)), s.pools[t].pc.task;
    var th := s.pools[t];
    assert task == th.pushed[th.taken - 1];
    forall j | 0 <= j < |th.tasks| ensures task.uid < th.tasks[j].uid {
      assert th.tasks[j] == th.pushed[th.taken + j];
    }
    assert s'.ret == s'.returned[s'.swapped..];
    assert s'.returned[s.done..s.swapped] == s.returned[s.done..s.swapped];
    assert s'.returned[..s.done] == s.returned[..s.done];
    forall k | 0 <= k < |s'.returned|
      ensures Before(s'.returned[k], s'.pools[s'.returned[k].owner])
    {
      if k < |s.returned| {
        assert Before(s.returned[k], s.pools[s.returned[k].owner]);
      }
    }
  }

  lemma {:induction false} UpdateReturns(s: State, a: Action)
    requires Enabled(s, a) && OfUpdate(a) && ReturnOrder(s)
    ensures ReturnOrder(Next(s, a))
  {
    var s' := Next(s, a);
    if a.Swap? {
      assert s.done == s.swapped;
      assert s.returned[s.done..|s.returned|] == s.returned[s.swapped..];
    } else if a.Release? {
      assert s.upd.todo[0] == s.returned[s.done];
      assert s.upd.todo[1..] == s.returned[s.done + 1..s.swapped];
      assert s.returned[..s.done + 1] == s.returned[..s.done] + [s.returned[s.done]];
    }
  }

  lemma {:induction false} StepReturnOrder(s: State, a: Action)
    requires Enabled(s, a) && PostersOk(s) && OrderOk(s)
    ensures ReturnOrder(Next(s, a))
  {
    var s' := Next(s, a);
    Frame(s, a);
    if OfUpdate(a) {
      UpdateReturns(s, a);
    } else if a.Complete? && s.pools[a.t].pc.task.co {
      CompleteReturns(s, a.t);
    } else {
      QuietReturns(s, a);
    }
  }

  lemma {:induction false} QuietReturns(s: State, a: Action)
    requires Enabled(s, a) && PostersOk(s) && OrderOk(s) && !OfUpdate(a)
    requires a.Complete? ==> !s.pools[a.t].pc.task.co
    ensures ReturnOrder(Next(s, a))
  {
    var s' := Next(s, a);
    Frame(s, a);
    assert s'.ret == s.ret && s'.returned == s.returned && |s.accepted| <= |s'.accepted|;
    assert forall x :: x in s'.deleted && x.co ==> x in s.deleted;
    forall k | 0 <= k < |s.returned|
      ensures Before(s.returned[k], s'.pools[s.returned[k].owner])
    {
      StepBefore(s, a, s.returned[k]);
    }
  }

  lemma {:induction false} ReleaseCounts(s: State, x: Task)
    requires Enabled(s, Release) && Counted(s, x) && s.upd.todo[0].co
    ensures Counted(Next(s, Release), x)
  {
    var task := s.upd.todo[0];
    assert (s.deleted + multiset{task})[x] == s.deleted[x] + if x == task then 1 else 0;
    assert (s.released + multiset{task})[x] == s.released[x] + if x == task then 1 else 0;
  }

  lemma {:induction false} ResumeCounts(s: State, y: bool, x: Task)
    requires Enabled(s, Resume(y)) && Counted(s, x)
    ensures Counted(Next(s, Resume(y)), x)
  {
    var task := s.upd.todo[0];
    assert (s.resumed + multiset{task})[x] == s.resumed[x] + if x == task then 1 else 0;
  }

  lemma {:induction false} OtherCounts(s: State, a: Action, x: Task)
    requires Enabled(s, a) && Counted(s, x) && !a.Release? && !a.Resume?
    ensures Counted(Next(s, a), x)
  {
    var s' := Next(s, a);
    assert s'.released == s.released && s'.resumed == s.resumed;
    assert s'.upd.Resumed? <==> s.upd.Resumed?;
    assert s.upd.Resumed? ==> s'.upd == s.upd;
    if a.Complete? && !s.pools[a.t].pc.task.co {
      var task := s.pools[a.t].pc.task;
      assert s'.deleted[x] == s.deleted[x] + if x == task then 1 else 0;
    } else {
      assert s'.deleted == s.deleted;
    }
  }

  lemma {:induction false} StepCounts(s: State, a: Action)
    requires Enabled(s, a) && CountsOk(s) && ReturnOrder(s)
    ensures CountsOk(Next(s, a))
  {
    hide Counted, Next;
    if a.Release? {
      assert s.upd.todo[0] == s.returned[s.done];
    }
    forall x ensures Counted(Next(s, a), x) {
      assert Counted(s, x);
      if a.Release? {
        ReleaseCounts(s, x);
      } else if a.Resume? {
        ResumeCounts(s, a.yielded, x);
      } else {
        OtherCounts(s, a, x);
      }
    }
  }

  // ----- every run -----

  lemma {:induction false} StepKeeps(s: State, a: Action)
    requires Enabled(s, a) && Inv(s)
    ensures Inv(Next(s, a))
  {
    hide Next, Enabled, PostersOk, UniqueIds, WakeupOk, BoundOk, Conserved, ThreadOrder, ReturnOrder, CountsOk;
    StepUnique(s, a);
    StepPosters(s, a);
    StepWakeup(s, a);
    StepBound(s, a);
    StepConserves(s, a);
    StepThreadOrder(s, a);
    StepReturnOrder(s, a);
    StepCounts(s, a);
  }

  /** The invariant holds in every state of every run. */
  lemma {:induction false} RunKeeps(trace: seq<State>, acts: seq<Action>, k: nat)
    requires IsRun(trace, acts) && k < |trace|
    ensures Inv(trace[k])
  {
    if k == 0 {
      assert Init(trace[0]);
    } else {
      RunKeeps(trace, acts, k - 1);
      hide Inv;
      StepKeeps(trace[k - 1], acts[k - 1]);
    }
  }

  lemma {:induction false} PendingNone(ps: seq<PosterPc>, t: nat)
    requires forall p :: 0 <= p < |ps| ==> ps[p] != Pushed(t) && ps[p] != Posting(t)
    ensures Pending(ps, t) == 0
  {
    if |ps| > 0 { PendingNone(ps[..|ps| - 1], t); }
  }

  /**
   No wake-up is lost: a worker that is blocked on a zero semaphore, with no poster between
   its push and the end of its `SetEvent`, has an empty queue.
   */
  lemma {:induction false} NoLostWakeup(trace: seq<State>, acts: seq<Action>, k: nat, t: nat)
    requires IsRun(trace, acts) && k < |trace| && t < |trace[k].pools|
    requires trace[k].pools[t].pc == Waiting && trace[k].pools[t].count == 0
    requires forall p :: 0 <= p < |trace[k].posters| ==>
               trace[k].posters[p] != Pushed(t) && trace[k].posters[p] != Posting(t)
    ensures trace[k].pools[t].tasks == []
  {
    RunKeeps(trace, acts, k);
    PendingNone(trace[k].posters, t);
    assert Wakes(trace[k].pools[t], Pending(trace[k].posters, t));
  }

  /**
   The size check and the push are separate, yet P posters overshoot by at most P - 1, and a limit of
   zero not at all.
   */
  lemma {:induction false} QueueBound(trace: seq<State>, acts: seq<Action>, k: nat, t: nat)
    requires IsRun(trace, acts) && k < |trace| && t < |trace[k].pools|
    ensures var s := trace[k];
            s.pools[t].tasks == [] || (s.max >= 1 && |s.pools[t].tasks| <= s.max + |s.posters| - 1)
  {
    RunKeeps(trace, acts, k);
    var s := trace[k];
    assert Bounded(|s.pools[t].tasks| + Passed(s.posters, t), s.max, |s.posters|);
  }

  lemma {:induction false} OneThreadPerId(trace: seq<State>, acts: seq<Action>, k: nat, i: nat, j: nat)
    requires IsRun(trace, acts) && k < |trace| && i < |trace[k].pools| && j < |trace[k].pools|
    requires trace[k].pools[i].id == trace[k].pools[j].id
    ensures i == j
  {
    RunKeeps(trace, acts, k);
    assert UniqueIds(trace[k]);
  }

  lemma {:induction false} AcceptedOnce(ts: seq<Task>, x: Task)
    requires forall u :: 0 <= u < |ts| ==> ts[u].uid == u
    ensures multiset(ts)[x] == if x in ts then 1 else 0
  {
    if |ts| > 0 {
      var n := |ts| - 1;
      assert ts == ts[..n] + [ts[n]];
      AcceptedOnce(ts[..n], x);
      assert multiset(ts) == multiset(ts[..n]) + multiset{ts[n]};
      assert forall u :: 0 <= u < n ==> ts[..n][u].uid < n;
    }
  }

  /**
   Every accepted task is in exactly one place, exactly once: with a thread, on the return
   list, on `Update`'s list, or deleted; nothing else is anywhere. It is deleted at most
   once, its coroutine is resumed at most once, and its reference is dropped exactly when
   it is deleted.
   */
  lemma {:induction false} ExactlyOnePlace(trace: seq<State>, acts: seq<Action>, k: nat, x: Task)
    requires IsRun(trace, acts) && k < |trace|
    ensures var s := trace[k];
            && Held(s.pools)[x] + multiset(s.ret)[x] + multiset(Todo(s.upd))[x] + s.deleted[x]
                 == (if x in s.accepted then 1 else 0)
            && s.deleted[x] <= 1 && s.resumed[x] <= 1
            && s.released[x] == (if x.co then s.deleted[x] else 0)
  {
    RunKeeps(trace, acts, k);
    var s := trace[k];
    AcceptedOnce(s.accepted, x);
    assert Everywhere(s)[x] == multiset(s.accepted)[x];
    assert Counted(s, x);
    if s.upd.Resumed? && |s.upd.todo| > 0 && s.upd.todo[0] == x {
      assert x in multiset(Todo(s.upd));
    }
  }

  /** A thread's worker takes its tasks in the order they were pushed. */
  lemma {:induction false} TakenInOrder(trace: seq<State>, acts: seq<Action>, k: nat, t: nat)
    requires IsRun(trace, acts) && k < |trace| && t < |trace[k].pools|
    ensures var th := trace[k].pools[t];
            && th.taken <= |th.pushed| && th.tasks == th.pushed[th.taken..]
            && (th.pc.Running? ==> th.taken > 0 && th.pc.task == th.pushed[th.taken - 1])
  {
    RunKeeps(trace, acts, k);
    assert ThreadOrder(trace[k], t);
  }

  /** A task held by some thread is in the queue or the hand of its own thread. */
  lemma {:induction false} HeldByOwner(s: State, pools: seq<Thread>, x: Task)
    requires forall t :: 0 <= t < |s.pools| ==> ThreadOrder(s, t)
    requires pools <= s.pools && Held(pools)[x] > 0
    ensures x.owner < |pools|
    ensures var th := s.pools[x.owner]; x in th.tasks || th.pc == Running(x)
  {
    var n := |pools| - 1;
    if Held(pools[..n])[x] > 0 {
      HeldByOwner(s, pools[..n], x);
    } else {
      var th := s.pools[n];
      assert pools[n] == th && InThread(th)[x] > 0;
      assert ThreadOrder(s, n);
      if x in th.tasks {
        var i :| 0 <= i < |th.tasks| && th.tasks[i] == x;
        assert th.tasks[i] == th.pushed[th.taken + i];
      }
    }
  }

  /**
   Coroutine tasks of one thread finish in the order they were accepted: once a later one is
   deleted, the earlier one is.
   */
  lemma {:induction false} FinishedInOrder(trace: seq<State>, acts: seq<Action>, k: nat, x: Task, y: Task)
    requires IsRun(trace, acts) && k < |trace|
    requires x in trace[k].accepted && x.co && y.co && x.owner == y.owner && x.uid < y.uid
    requires y in trace[k].deleted
    ensures x in trace[k].deleted
  {
    RunKeeps(trace, acts, k);
    ExactlyOnePlace(trace, acts, k, x);
    var s := trace[k];
    var l :| 0 <= l < s.done && s.returned[l] == y;
    assert Before(y, s.pools[y.owner]);
    if Held(s.pools)[x] > 0 {
      HeldByOwner(s, s.pools, x);
    }
    NotLeft(s, x, y, l);
  }

  /** What is still on the way to `Update` comes after what `Update` has finished. */
  lemma {:induction false} NotLeft(s: State, x: Task, y: Task, l: nat)
    requires ReturnOrder(s) && l < s.done && s.returned[l] == y
    requires x.owner == y.owner && x.uid < y.uid
    ensures x !in s.ret && x !in Todo(s.upd)
  {
    forall i | 0 <= i < |s.ret| ensures s.ret[i] != x {
      assert s.ret[i] == s.returned[s.swapped + i];
    }
    forall i | 0 <= i < |Todo(s.upd)| ensures Todo(s.upd)[i] != x {
      assert Todo(s.upd)[i] == s.returned[s.done + i];
    }
  }

  // ----- the queue bound is reached -----

  lemma {:induction false} OneMore(trace: seq<State>, acts: seq<Action>, a: Action)
    returns (trace': seq<State>, acts': seq<Action>, s: State)
    requires IsRun(trace, acts) && Enabled(trace[|acts|], a)
    ensures IsRun(trace', acts') && s == Next(trace[|acts|], a) == trace'[|acts'|]
  {
    hide Next, Enabled, Init;
    s := Next(trace[|acts|], a);
    trace', acts' := trace + [s], acts + [a];
  }

  /** One thread with id 0 whose worker has not run yet, and `m` tasks queued. */
  ghost predicate Queued(s: State, max: nat, posters: nat, m: nat)
  {
    && |s.pools| == 1 && s.pools[0].id == 0 && !s.pools[0].hasSem && |s.pools[0].tasks| == m
    && s.max == max && |s.posters| == posters
  }

  lemma {:induction false} FindNone()
    ensures Find([], 0) == 0
  {
  }

  lemma {:induction false} FindFirst(pools: seq<Thread>, id: nat)
    requires |pools| == 1 && pools[0].id == id
    ensures Find(pools, id) == 0
  {
  }

  /** Filling the queue to `m` tasks with one poster, before the worker starts. */
  lemma {:induction false} Fill(posters: nat, max: nat, m: nat) returns (trace: seq<State>, acts: seq<Action>)
    requires posters >= 1 && m < max
    ensures IsRun(trace, acts) && Queued(trace[|acts|], max, posters, m)
    ensures trace[|acts|].posters[0] == Has(0)
    ensures forall p :: 1 <= p < posters ==> trace[|acts|].posters[p] == Idle
  {
    hide Find;
    var s: State;
    if m == 0 {
      FindNone();
      var ps := seq(posters, _ => Idle);
      s := State([], ps, max, [], Away, [], [], 0, 0, multiset{}, multiset{}, multiset{});
      trace, acts := [s], [];
      trace, acts, s := OneMore(trace, acts, GetThread(0, 0));
      trace, acts, s := OneMore(trace, acts, StartThread(0));
    } else {
      trace, acts := Fill(posters, max, m - 1);
      trace, acts := FillOne(trace, acts, posters, max, m - 1);
    }
  }

  /** One more task by the first poster, who finds no semaphore and looks the thread up again. */
  lemma {:induction false} FillOne(trace0: seq<State>, acts0: seq<Action>, posters: nat, max: nat, m: nat)
    returns (trace: seq<State>, acts: seq<Action>)
    requires posters >= 1 && m < max && IsRun(trace0, acts0) && Queued(trace0[|acts0|], max, posters, m)
    requires trace0[|acts0|].posters[0] == Has(0)
    requires forall p :: 1 <= p < posters ==> trace0[|acts0|].posters[p] == Idle
    ensures IsRun(trace, acts) && Queued(trace[|acts|], max, posters, m + 1)
    ensures trace[|acts|].posters[0] == Has(0)
    ensures forall p :: 1 <= p < posters ==> trace[|acts|].posters[p] == Idle
  {
    hide Find, IsRun;
    var s: State;
    trace, acts := trace0, acts0;
    trace, acts, s := OneMore(trace, acts, CheckSize(0));
    trace, acts, s := OneMore(trace, acts, Push(0, false));
    trace, acts, s := OneMore(trace, acts, TestSem(0));
    FindFirst(s.pools, 0);
    trace, acts, s := OneMore(trace, acts, GetThread(0, 0));
  }

  /** All posters pass the size check while one place is left. */
  lemma {:induction false} AllPass(posters: nat, max: nat, n: nat) returns (trace: seq<State>, acts: seq<Action>)
    requires 1 <= n <= posters && max >= 1
    ensures IsRun(trace, acts) && Queued(trace[|acts|], max, posters, max - 1)
    ensures forall p :: 0 <= p < posters ==> trace[|acts|].posters[p] == if p < n then Checked(0) else Idle
  {
    var s: State;
    if n == 1 {
      trace, acts := Fill(posters, max, max - 1);
    } else {
      trace, acts := AllPass(posters, max, n - 1);
      assert Find(trace[|acts|].pools, 0) == 0;
      trace, acts, s := OneMore(trace, acts, GetThread(n - 1, 0));
    }
    trace, acts, s := OneMore(trace, acts, CheckSize(n - 1));
  }

  lemma {:induction false} AllPush(posters: nat, max: nat, n: nat) returns (trace: seq<State>, acts: seq<Action>)
    requires n <= posters && posters >= 1 && max >= 1
    ensures IsRun(trace, acts) && Queued(trace[|acts|], max, posters, max - 1 + n)
    ensures forall p :: n <= p < posters ==> trace[|acts|].posters[p] == Checked(0)
  {
    if n == 0 {
      trace, acts := AllPass(posters, max, posters);
    } else {
      trace, acts := AllPush(posters, max, n - 1);
      var s;
      trace, acts, s := OneMore(trace, acts, Push(n - 1, false));
    }
  }

  /** The bound of `QueueBound` is exact: some run reaches max + P - 1 queued tasks. */
  lemma {:induction false} BoundIsReached(posters: nat, max: nat) returns (trace: seq<State>, acts: seq<Action>)
    requires posters >= 1 && max >= 1
    ensures IsRun(trace, acts) && Queued(trace[|acts|], max, posters, max + posters - 1)
  {
    trace, acts := AllPush(posters, max, posters);
  }
}
