/** thread.cpp: workers take jobs from a queue that is shared under a mutex and a condition
    variable. One action is one step of one thread between two points where another may run. */
module ThreadPool {
  /** A Work: a function and its argument, as addresses. */
  datatype Job = Job(f: nat, arg: nat)

  datatype Worker =
    | Starting // before pthread_mutex_lock
    | Waiting // blocked in pthread_cond_wait
    | Woken // unblocked, before the mutex is its own again
    | Testing // holds the mutex, about to look at the queue
    | Leaving(job: Job) // holds the mutex, has popped job
    | Running(job: Job)

  datatype Producer =
    | Idle
    | Calling(job: Job) // in thread_pool_queue, before the mutex
    | Pushing(job: Job) // holds the mutex
    | Signalling // holds the mutex, has pushed
    | Unlocking // holds the mutex, has signalled

  datatype Owner = Free | ByWorker(w: nat) | ByProducer(p: nat)

  /** submitted, taken and done record what has happened. */
  datatype State = State(
    queue: seq<Job>, owner: Owner, workers: seq<Worker>, producers: seq<Producer>,
    submitted: seq<Job>, taken: seq<Job>, done: multiset<Job>)

  datatype Action =
    | Lock(w: nat)
    | Test(w: nat)
    | Leave(w: nat)
    | Finish(w: nat)
    | Wake(w: nat) // without a signal, as condition variables may
    | Call(p: nat, job: Job)
    | Enter(p: nat)
    | Push(p: nat)
    | Signal(p: nat, woken: set<nat>)
    | Unlock(p: nat)

  predicate Init(s: State) {
    && s.queue == [] && s.owner == Free && s.submitted == [] && s.taken == [] && s.done == multiset{}
    && |s.workers| > 0
    && (forall w :: 0 <= w < |s.workers| ==> s.workers[w] == Starting)
    && (forall p :: 0 <= p < |s.producers| ==> s.producers[p] == Idle)
  }

  predicate Blocked(s: State, w: nat) { w < |s.workers| && s.workers[w] == Waiting }

  predicate Enabled(s: State, a: Action) {
    match a
    case Lock(w) => w < |s.workers| && (s.workers[w].Starting? || s.workers[w].Woken?) && s.owner == Free
    case Test(w) => w < |s.workers| && s.workers[w] == Testing
    case Leave(w) => w < |s.workers| && s.workers[w].Leaving?
    case Finish(w) => w < |s.workers| && s.workers[w].Running?
    case Wake(w) => Blocked(s, w)
    case Call(p, _) => p < |s.producers| && s.producers[p] == Idle
    case Enter(p) => p < |s.producers| && s.producers[p].Calling? && s.owner == Free
    case Push(p) => p < |s.producers| && s.producers[p].Pushing?
    case Signal(p, woken) =>
      && p < |s.producers| && s.producers[p] == Signalling
      && (forall w :: w in woken ==> Blocked(s, w))
      && (woken == {} ==> forall w :: 0 <= w < |s.workers| ==> s.workers[w] != Waiting)
    case Unlock(p) => p < |s.producers| && s.producers[p] == Unlocking
  }

  function Step(s: State, a: Action): State
    requires Enabled(s, a)
  {
    match a
    case Lock(w) => s.(workers := s.workers[w := Testing], owner := ByWorker(w))
    case Test(w) =>
      if s.queue == [] then s.(workers := s.workers[w := Waiting], owner := Free)
      else s.(workers := s.workers[w := Leaving(s.queue[0])], queue := s.queue[1..], taken := s.taken + [s.queue[0]])
    case Leave(w) => s.(workers := s.workers[w := Running(s.workers[w].job)], owner := Free)
    case Finish(w) => s.(workers := s.workers[w := Starting], done := s.done + multiset{s.workers[w].job})
    case Wake(w) => s.(workers := s.workers[w := Woken])
    case Call(p, job) => s.(producers := s.producers[p := Calling(job)])
    case Enter(p) => s.(producers := s.producers[p := Pushing(s.producers[p].job)], owner := ByProducer(p))
    case Push(p) =>
      var job := s.producers[p].job;
      s.(producers := s.producers[p := Signalling], queue := s.queue + [job], submitted := s.submitted + [job])
    case Signal(p, woken) => s.(producers := s.producers[p := Unlocking], workers := Rouse(s.workers, woken))
    case Unlock(p) => s.(producers := s.producers[p := Idle], owner := Free)
  }

  function Rouse(ws: seq<Worker>, woken: set<nat>): (r: seq<Worker>)
    ensures |r| == |ws|
  {
    seq(|ws|, w requires 0 <= w < |ws| => if w in woken then Woken else ws[w])
  }

  /** The mutex has at most one holder, and its holder is where only holders are. */
  predicate Exclusive(s: State) {
    && (forall w :: 0 <= w < |s.workers| ==> (s.workers[w].Testing? || s.workers[w].Leaving? <==> s.owner == ByWorker(w)))
    && (forall p :: 0 <= p < |s.producers| ==>
          (s.producers[p].Pushing? || s.producers[p].Signalling? || s.producers[p].Unlocking? <==> s.owner == ByProducer(p)))
    && (s.owner.ByWorker? ==> s.owner.w < |s.workers|)
    && (s.owner.ByProducer? ==> s.owner.p < |s.producers|)
  }

  /** A worker that will look at the queue before it waits or works. */
  function AwakeOne(w: Worker): nat { if w.Starting? || w.Woken? || w.Testing? then 1 else 0 }

  function Awake(ws: seq<Worker>): nat {
    if ws == [] then 0 else AwakeOne(ws[0]) + Awake(ws[1..])
  }

  function JobOf(w: Worker): multiset<Job> {
    if w.Leaving? || w.Running? then multiset{w.job} else multiset{}
  }

  /** The jobs taken and not done. */
  function InFlight(ws: seq<Worker>): multiset<Job> {
    if ws == [] then multiset{} else JobOf(ws[0]) + InFlight(ws[1..])
  }

  lemma {:induction false} AwakeChanged(ws: seq<Worker>, i: nat, w: Worker)
    requires i < |ws|
    ensures Awake(ws[i := w]) + AwakeOne(ws[i]) == Awake(ws) + AwakeOne(w)
  {
    hide AwakeOne;
    if i > 0 {
      AwakeChanged(ws[1..], i - 1, w);
      assert ws[i := w][1..] == ws[1..][i - 1 := w];
    } else {
      assert ws[i := w][1..] == ws[1..];
    }
  }

  lemma {:induction false} InFlightChanged(ws: seq<Worker>, i: nat, w: Worker)
    requires i < |ws|
    ensures InFlight(ws[i := w]) + JobOf(ws[i]) == InFlight(ws) + JobOf(w)
  {
    hide JobOf;
    if i > 0 {
      InFlightChanged(ws[1..], i - 1, w);
      assert ws[i := w][1..] == ws[1..][i - 1 := w];
      var first, rest := JobOf(ws[0]), InFlight(ws[1..]);
      assert first + rest + JobOf(w) == first + (rest + JobOf(w));
    } else {
      assert ws[i := w][1..] == ws[1..];
    }
  }

  lemma {:induction false} JobMoved(ws: seq<Worker>, i: nat, w: Worker)
    requires i < |ws|
    ensures JobOf(w) == JobOf(ws[i]) ==> InFlight(ws[i := w]) == InFlight(ws)
    ensures JobOf(ws[i]) == multiset{} ==> InFlight(ws[i := w]) == InFlight(ws) + JobOf(w)
    ensures JobOf(w) == multiset{} ==> InFlight(ws) == InFlight(ws[i := w]) + JobOf(ws[i])
  {
    hide JobOf, InFlight;
    InFlightChanged(ws, i, w);
    var before, after := InFlight(ws), InFlight(ws[i := w]);
    assert after + JobOf(ws[i]) - JobOf(ws[i]) == after && before + JobOf(w) - JobOf(w) == before;
  }

  /** The workers about to look at the queue. */
  function AwakeSet(ws: seq<Worker>): set<nat> {
    set w | 0 <= w < |ws| && (ws[w].Starting? || ws[w].Woken? || ws[w].Testing?)
  }

  lemma {:induction false} AwakeCounts(ws: seq<Worker>)
    ensures Awake(ws) == |AwakeSet(ws)|
  {
    if ws != [] {
      var n := |ws| - 1;
      var init, last := ws[..n], ws[n];
      AwakeCounts(init);
      AwakeLast(init, last);
      assert ws == init + [last];
      assert AwakeSet(ws) == AwakeSet(init) + (if AwakeOne(last) == 1 then {n} else {});
    }
  }

  lemma {:induction false} AwakeLast(ws: seq<Worker>, w: Worker)
    ensures Awake(ws + [w]) == Awake(ws) + AwakeOne(w)
  {
    if ws != [] {
      AwakeLast(ws[1..], w);
      assert (ws + [w])[1..] == ws[1..] + [w];
    } else {
      assert (ws + [w])[1..] == [];
    }
  }

  /** The workers that hold a job. */
  function HoldersOf(ws: seq<Worker>, job: Job): set<nat> {
    set w | 0 <= w < |ws| && (ws[w].Leaving? || ws[w].Running?) && ws[w].job == job
  }

  lemma {:induction false} InFlightLast(ws: seq<Worker>, w: Worker)
    ensures InFlight(ws + [w]) == InFlight(ws) + JobOf(w)
  {
    hide JobOf;
    var first, last := if ws == [] then multiset{} else JobOf(ws[0]), JobOf(w);
    if ws != [] {
      InFlightLast(ws[1..], w);
      var rest := InFlight(ws[1..]);
      assert (ws + [w])[0] == ws[0] && (ws + [w])[1..] == ws[1..] + [w];
      assert first + (rest + last) == first + rest + last;
    } else {
      assert (ws + [w])[0] == w && (ws + [w])[1..] == [];
      assert last + multiset{} == multiset{} + last;
    }
  }

  lemma {:induction false} HoldersLast(ws: seq<Worker>, w: Worker, job: Job)
    ensures |HoldersOf(ws + [w], job)| == |HoldersOf(ws, job)| + JobOf(w)[job]
  {
    assert HoldersOf(ws + [w], job) == HoldersOf(ws, job) + (if JobOf(w)[job] == 1 then {|ws|} else {});
  }

  lemma {:induction false} InFlightCounts(ws: seq<Worker>, job: Job)
    ensures InFlight(ws)[job] == |HoldersOf(ws, job)|
  {
    if ws != [] {
      hide InFlight, HoldersOf, JobOf;
      var n := |ws| - 1;
      InFlightCounts(ws[..n], job);
      InFlightLast(ws[..n], ws[n]);
      HoldersLast(ws[..n], ws[n], job);
      assert ws == ws[..n] + [ws[n]];
    }
  }

  function ShiftDown(woken: set<nat>): set<nat> { set w | w in woken && w > 0 :: w - 1 }

  lemma {:induction false} RouseRest(ws: seq<Worker>, woken: set<nat>)
    requires ws != [] && forall w :: w in woken ==> w < |ws| && ws[w] == Waiting
    ensures var rest := ShiftDown(woken);
      && (forall w :: w in rest ==> w < |ws| - 1 && ws[1..][w] == Waiting)
      && Rouse(ws, woken)[1..] == Rouse(ws[1..], rest)
      && (woken != {} && rest == {} ==> 0 in woken)
  {
    var rest := ShiftDown(woken);
    assert forall w: nat :: w + 1 in woken ==> w in rest;
    if woken != {} && rest == {} {
      var w :| w in woken;
      assert w > 0 ==> w - 1 in rest;
    }
  }

  lemma {:induction false} Roused(ws: seq<Worker>, woken: set<nat>)
    requires forall w :: w in woken ==> w < |ws| && ws[w] == Waiting
    ensures Awake(Rouse(ws, woken)) >= Awake(ws) + if woken == {} then 0 else 1
    ensures InFlight(Rouse(ws, woken)) == InFlight(ws)
  {
    if ws != [] {
      RouseRest(ws, woken);
      var rest, roused := ShiftDown(woken), Rouse(ws, woken);
      hide Rouse, ShiftDown;
      Roused(ws[1..], rest);
      RousedOne(ws, woken);
    }
  }

  lemma RousedOne(ws: seq<Worker>, woken: set<nat>)
    requires ws != [] && forall w :: w in woken ==> w < |ws| && ws[w] == Waiting
    ensures var first := Rouse(ws, woken)[0];
      JobOf(first) == JobOf(ws[0]) && AwakeOne(first) == if 0 in woken then 1 else AwakeOne(ws[0])
    ensures 0 in woken ==> AwakeOne(ws[0]) == 0
  {
  }

  /** A producer has pushed and not signalled yet. */
  function Owed(s: State): nat {
    if s.owner.ByProducer? && s.owner.p < |s.producers| && s.producers[s.owner.p] == Signalling then 1 else 0
  }

  /** While some worker is blocked, there are enough others for the jobs in the queue. */
  predicate NoneForgotten(s: State) {
    (exists w :: 0 <= w < |s.workers| && Blocked(s, w)) ==> |s.queue| <= Awake(s.workers) + Owed(s)
  }

  /** Jobs are taken in the order they are submitted in; those taken are in flight or done. */
  predicate Conserved(s: State) {
    s.submitted == s.taken + s.queue && multiset(s.taken) == InFlight(s.workers) + s.done
  }

  predicate Inv(s: State) { Exclusive(s) && NoneForgotten(s) && Conserved(s) && |s.workers| > 0 }

  lemma {:induction false} AllStarting(ws: seq<Worker>)
    requires forall w :: 0 <= w < |ws| ==> ws[w] == Starting
    ensures InFlight(ws) == multiset{}
  {
    if ws != [] {
      AllStarting(ws[1..]);
    }
  }

  lemma {:induction false} InitInv(s: State)
    requires Init(s)
    ensures Inv(s)
  {
    AllStarting(s.workers);
  }

  lemma {:induction false} StepExclusive(s: State, a: Action)
    requires Inv(s) && Enabled(s, a)
    ensures Exclusive(Step(s, a))
  {
    hide NoneForgotten, Conserved;
  }

  lemma {:induction false} TakeSums(taken: seq<Job>, job: Job, flight: multiset<Job>, done: multiset<Job>)
    requires multiset(taken) == flight + done
    ensures multiset(taken + [job]) == flight + multiset{job} + done
  {
    assert flight + done + multiset{job} == flight + multiset{job} + done;
  }

  lemma DoneSums(job: Job, flight: multiset<Job>, done: multiset<Job>)
    ensures flight + multiset{job} + done == flight + (done + multiset{job})
  {
  }

  /** A worker changes without taking or finishing a job. */
  lemma {:induction false} PassConserved(s: State, t: State, w: nat)
    requires Conserved(s) && w < |s.workers| == |t.workers| && t.workers == s.workers[w := t.workers[w]]
    requires JobOf(t.workers[w]) == JobOf(s.workers[w])
    requires t.submitted == s.submitted && t.taken == s.taken && t.queue == s.queue && t.done == s.done
    ensures Conserved(t)
  {
    hide InFlight, JobOf;
    JobMoved(s.workers, w, t.workers[w]);
  }

  /** A worker takes the first job. */
  lemma {:induction false} TakeConserved(s: State, t: State, w: nat)
    requires Conserved(s) && s.queue != [] && w < |s.workers| && JobOf(s.workers[w]) == multiset{}
    requires t.workers == s.workers[w := Leaving(s.queue[0])] && t.submitted == s.submitted && t.done == s.done
    requires t.taken == s.taken + [s.queue[0]] && t.queue == s.queue[1..]
    ensures Conserved(t)
  {
    hide InFlight;
    JobMoved(s.workers, w, Leaving(s.queue[0]));
    TakeSums(s.taken, s.queue[0], InFlight(s.workers), s.done);
    assert s.queue == [s.queue[0]] + s.queue[1..];
  }

  /** A worker is done with its job. */
  lemma {:induction false} FinishConserved(s: State, t: State, w: nat)
    requires Conserved(s) && w < |s.workers| && s.workers[w].Running?
    requires t.workers == s.workers[w := Starting] && t.submitted == s.submitted && t.taken == s.taken && t.queue == s.queue
    requires t.done == s.done + multiset{s.workers[w].job}
    ensures Conserved(t)
  {
    hide InFlight;
    JobMoved(s.workers, w, Starting);
    DoneSums(s.workers[w].job, InFlight(t.workers), s.done);
  }

  lemma {:induction false} ProducerConserved(s: State, a: Action)
    requires Conserved(s) && Enabled(s, a) && (a.Call? || a.Enter? || a.Push? || a.Signal? || a.Unlock?)
    ensures Conserved(Step(s, a))
  {
    hide InFlight;
    if a.Signal? {
      Roused(s.workers, a.woken);
    }
  }

  lemma {:induction false} StepConserved(s: State, a: Action)
    requires Conserved(s) && Enabled(s, a)
    ensures Conserved(Step(s, a))
  {
    hide Conserved, InFlight;
    match a
    case Test(w) =>
      if s.queue == [] {
        PassConserved(s, Step(s, a), w);
      } else {
        TakeConserved(s, Step(s, a), w);
      }
    case Finish(w) => FinishConserved(s, Step(s, a), w);
    case Lock(w) => PassConserved(s, Step(s, a), w);
    case Leave(w) => PassConserved(s, Step(s, a), w);
    case Wake(w) => PassConserved(s, Step(s, a), w);
    case _ => ProducerConserved(s, a);
  }

  lemma {:induction false} StepForgetsNone(s: State, a: Action)
    requires Inv(s) && Enabled(s, a)
    ensures NoneForgotten(Step(s, a))
  {
    hide Conserved, Awake, InFlight;
    var t := Step(s, a);
    if w' :| 0 <= w' < |t.workers| && Blocked(t, w') {
      match a
      case Signal(_, woken) =>
        Roused(s.workers, woken);
        assert Blocked(s, w');
      case Call(_, _) | Enter(_) | Push(_) | Unlock(_) => assert Blocked(s, w');
      case _ =>
        AwakeChanged(s.workers, a.w, t.workers[a.w]);
        assert t.queue != [] ==> Blocked(s, w');
    }
  }

  lemma {:induction false} StepInv(s: State, a: Action)
    requires Inv(s) && Enabled(s, a)
    ensures Inv(Step(s, a))
  {
    hide Exclusive, NoneForgotten, Conserved;
    StepExclusive(s, a);
    StepConserved(s, a);
    StepForgetsNone(s, a);
  }

  // ---------- Runs ----------

  predicate EnabledAll(s: State, run: seq<Action>)
    decreases |run|
  {
    run == [] || (Enabled(s, run[0]) && EnabledAll(Step(s, run[0]), run[1..]))
  }

  function After(s: State, run: seq<Action>): State
    requires EnabledAll(s, run)
    decreases |run|
  {
    if run == [] then s else After(Step(s, run[0]), run[1..])
  }

  lemma {:induction false} RunInv(s: State, run: seq<Action>)
    requires Inv(s) && EnabledAll(s, run)
    ensures Inv(After(s, run)) && s.taken <= After(s, run).taken && s.submitted <= After(s, run).submitted
    decreases |run|
  {
    hide Inv;
    if run != [] {
      StepInv(s, run[0]);
      RunInv(Step(s, run[0]), run[1..]);
    }
  }

  /** After any run: every job submitted is queued, in flight or done, exactly once; jobs are taken
      first in, first out; and when the mutex is free, no worker is blocked or the queue is no
      longer than the number of workers about to look at it. */
  lemma {:induction false} EveryRun(s: State, run: seq<Action>)
    requires Init(s) && EnabledAll(s, run)
    ensures var t := After(s, run);
      && multiset(t.submitted) == multiset(t.queue) + InFlight(t.workers) + t.done
      && t.taken <= t.submitted && t.queue == t.submitted[|t.taken|..]
      && (t.owner == Free && (exists w :: 0 <= w < |t.workers| && Blocked(t, w)) ==> |t.queue| <= |AwakeSet(t.workers)|)
      && (forall job :: multiset(t.submitted)[job] == multiset(t.queue)[job] + |HoldersOf(t.workers, job)| + t.done[job])
  {
    InitInv(s);
    RunInv(s, run);
    var t := After(s, run);
    AwakeCounts(t.workers);
    forall job
      ensures InFlight(t.workers)[job] == |HoldersOf(t.workers, job)|
    {
      InFlightCounts(t.workers, job);
    }
  }

  /** Jobs in the queue never find all workers blocked, once a pending signal is given. */
  lemma {:induction false} NoDeadlock(s: State)
    requires Inv(s) && s.queue != []
    ensures Owed(s) == 1 || exists w :: 0 <= w < |s.workers| && s.workers[w] != Waiting
  {
    if forall w :: 0 <= w < |s.workers| ==> s.workers[w] == Waiting {
      AllWaiting(s.workers);
      assert Blocked(s, 0);
    }
  }

  lemma {:induction false} AllWaiting(ws: seq<Worker>)
    requires forall w :: 0 <= w < |ws| ==> ws[w] == Waiting
    ensures Awake(ws) == 0
  {
    if ws != [] {
      AllWaiting(ws[1..]);
    }
  }

  /** With the mutex free, every worker that is not blocked can do its next step. */
  lemma WorkerCanMove(s: State, w: nat)
    requires Inv(s) && s.owner == Free && w < |s.workers| && s.workers[w] != Waiting
    ensures Enabled(s, Lock(w)) || Enabled(s, Finish(w))
  {
  }

  lemma CallerCanMove(s: State, p: nat)
    requires Inv(s) && s.owner == Free && p < |s.producers| && s.producers[p] != Idle
    ensures Enabled(s, Enter(p))
  {
  }

  /** A step of some thread that is neither a wakeup without a signal nor a new call. */
  predicate Own(a: Action) { !a.Wake? && !a.Call? }

  /** What the holder of the mutex does next. */
  function Holds(s: State): Action
    requires Exclusive(s) && s.owner != Free
  {
    match s.owner
    case ByWorker(w) => if s.workers[w].Testing? then Test(w) else Leave(w)
    case ByProducer(p) =>
      match s.producers[p]
      case Pushing(_) => Push(p)
      case Unlocking => Unlock(p)
      case _ => Signal(p, set w | 0 <= w < |s.workers| && s.workers[w] == Waiting)
  }

  lemma HolderCanMove(s: State)
    requires Inv(s) && s.owner != Free
    ensures Enabled(s, Holds(s)) && Own(Holds(s))
  {
    var a := Holds(s);
    assert a.Signal? ==> forall w :: 0 <= w < |s.workers| && s.workers[w] == Waiting ==> w in a.woken;
  }

  /** While there are jobs in the queue, some thread can go on by itself. */
  lemma SomeoneCanMove(s: State)
    requires Inv(s) && s.queue != []
    ensures exists a :: Enabled(s, a) && Own(a)
  {
    if s.owner == Free {
      NoDeadlock(s);
      var w :| 0 <= w < |s.workers| && s.workers[w] != Waiting;
      WorkerCanMove(s, w);
      assert Own(Lock(w)) && Own(Finish(w));
    } else {
      HolderCanMove(s);
    }
  }

  predicate AllOwn(run: seq<Action>) { forall i :: 0 <= i < |run| ==> Own(run[i]) }

  /** Jobs are worked on outside the mutex: a job gets done only by the worker that has taken it,
      which does not hold the mutex then. */
  lemma DoneOutsideMutex(s: State, a: Action)
    requires Inv(s) && Enabled(s, a) && Step(s, a).done != s.done
    ensures a.Finish? && s.owner != ByWorker(a.w) && Step(s, a).owner == s.owner
    ensures Step(s, a).done == s.done + multiset{s.workers[a.w].job}
  {
  }

  // ---------- Coming to rest ----------

  function Sum(xs: seq<nat>): nat {
    if xs == [] then 0 else xs[0] + Sum(xs[1..])
  }

  lemma {:induction false} SumChanged(xs: seq<nat>, i: nat, x: nat)
    requires i < |xs|
    ensures Sum(xs[i := x]) + xs[i] == Sum(xs) + x
  {
    if i > 0 {
      SumChanged(xs[1..], i - 1, x);
      assert xs[i := x][1..] == xs[1..][i - 1 := x];
    } else {
      assert xs[i := x][1..] == xs[1..];
    }
  }

  lemma {:induction false} SumRaised(xs: seq<nat>, ys: seq<nat>)
    requires |xs| == |ys| && forall i :: 0 <= i < |xs| ==> ys[i] <= xs[i] + 2
    ensures Sum(ys) <= Sum(xs) + 2 * |xs|
  {
    if xs != [] {
      SumRaised(xs[1..], ys[1..]);
    }
  }

  /** The most steps that a worker still does on its own, not counting those for jobs it has not
      taken yet. */
  function WorkerSteps(w: Worker): nat {
    match w
    case Starting => 2
    case Waiting => 0
    case Woken => 2
    case Testing => 1
    case Leaving(_) => 4
    case Running(_) => 3
  }

  /** The most steps that a call still causes, with n workers. */
  function ProducerSteps(p: Producer, n: nat): nat {
    match p
    case Idle => 0
    case Calling(_) => 2 * n + 8
    case Pushing(_) => 2 * n + 7
    case Signalling => 2 * n + 2
    case Unlocking => 1
  }

  function WorkerList(ws: seq<Worker>): (r: seq<nat>)
    ensures |r| == |ws|
  {
    seq(|ws|, i requires 0 <= i < |ws| => WorkerSteps(ws[i]))
  }

  function ProducerList(ps: seq<Producer>, n: nat): (r: seq<nat>)
    ensures |r| == |ps|
  {
    seq(|ps|, i requires 0 <= i < |ps| => ProducerSteps(ps[i], n))
  }

  /** A bound on the steps that all threads do on their own. */
  function StepsLeft(s: State): nat {
    4 * |s.queue| + Sum(WorkerList(s.workers)) + Sum(ProducerList(s.producers, |s.workers|))
  }

  lemma {:induction false} WorkerListChanged(ws: seq<Worker>, i: nat, w: Worker)
    requires i < |ws|
    ensures Sum(WorkerList(ws[i := w])) + WorkerSteps(ws[i]) == Sum(WorkerList(ws)) + WorkerSteps(w)
  {
    SumChanged(WorkerList(ws), i, WorkerSteps(w));
    assert WorkerList(ws[i := w]) == WorkerList(ws)[i := WorkerSteps(w)];
  }

  lemma {:induction false} ProducerListChanged(ps: seq<Producer>, n: nat, i: nat, p: Producer)
    requires i < |ps|
    ensures Sum(ProducerList(ps[i := p], n)) + ProducerSteps(ps[i], n) == Sum(ProducerList(ps, n)) + ProducerSteps(p, n)
  {
    SumChanged(ProducerList(ps, n), i, ProducerSteps(p, n));
    assert ProducerList(ps[i := p], n) == ProducerList(ps, n)[i := ProducerSteps(p, n)];
  }

  lemma {:induction false} WorkerStepCounts(s: State, a: Action)
    requires Enabled(s, a) && (a.Lock? || a.Test? || a.Leave? || a.Finish?)
    ensures StepsLeft(Step(s, a)) < StepsLeft(s)
  {
    hide Sum, WorkerList, ProducerList;
    WorkerListChanged(s.workers, a.w, Step(s, a).workers[a.w]);
  }

  lemma {:induction false} ProducerStepCounts(s: State, a: Action)
    requires Enabled(s, a) && (a.Enter? || a.Push? || a.Signal? || a.Unlock?)
    ensures StepsLeft(Step(s, a)) < StepsLeft(s)
  {
    hide Sum, ProducerList;
    ProducerListChanged(s.producers, |s.workers|, a.p, Step(s, a).producers[a.p]);
    if a.Signal? {
      SumRaised(WorkerList(s.workers), WorkerList(Rouse(s.workers, a.woken)));
    }
  }

  /** The threads come to rest: without new calls and without wakeups from nowhere, no run is longer
      than the bound. */
  lemma {:induction false} RunsEnd(s: State, run: seq<Action>)
    requires EnabledAll(s, run) && AllOwn(run)
    ensures |run| + StepsLeft(After(s, run)) <= StepsLeft(s)
    decreases |run|
  {
    hide Enabled, Step, StepsLeft;
    if run != [] {
      var a := run[0];
      assert Own(a);
      if a.Lock? || a.Test? || a.Leave? || a.Finish? {
        WorkerStepCounts(s, a);
      } else {
        ProducerStepCounts(s, a);
      }
      RunsEnd(Step(s, a), run[1..]);
    }
  }

  /** No thread can go on by itself. */
  ghost predicate AtRest(s: State) { forall a :: Own(a) ==> !Enabled(s, a) }

  /** At rest every worker is blocked, every call has returned, and every job submitted is done. */
  lemma {:induction false} RestIsDone(s: State)
    requires Inv(s) && AtRest(s)
    ensures s.queue == [] && s.taken == s.submitted && s.done == multiset(s.submitted)
    ensures forall w :: 0 <= w < |s.workers| ==> s.workers[w] == Waiting
    ensures forall p :: 0 <= p < |s.producers| ==> s.producers[p] == Idle
  {
    hide Enabled;
    if s.queue != [] {
      SomeoneCanMove(s);
    }
    if s.owner != Free {
      HolderCanMove(s);
    }
    forall w | 0 <= w < |s.workers|
      ensures s.workers[w] == Waiting
    {
      assert Own(Lock(w)) && Own(Finish(w));
      if s.workers[w] != Waiting {
        WorkerCanMove(s, w);
      }
    }
    forall p | 0 <= p < |s.producers|
      ensures s.producers[p] == Idle
    {
      assert Own(Enter(p));
      if s.producers[p] != Idle {
        CallerCanMove(s, p);
      }
    }
    NoneInFlight(s.workers);
    assert multiset{} + s.done == s.done;
  }

  lemma {:induction false} NoneInFlight(ws: seq<Worker>)
    requires forall w :: 0 <= w < |ws| ==> ws[w] == Waiting
    ensures InFlight(ws) == multiset{}
  {
    if ws != [] {
      NoneInFlight(ws[1..]);
    }
  }

  /** From every state that runs reach, some run of the threads' own steps leads to rest, with every
      job done. By RunsEnd every other such run does so too when it is continued long enough. */
  lemma {:induction false} EveryJobGetsDone(s: State) returns (run: seq<Action>)
    requires Inv(s)
    ensures EnabledAll(s, run) && AllOwn(run)
    ensures var t := After(s, run); AtRest(t) && s.submitted <= t.submitted && t.done == multiset(t.submitted)
    decreases StepsLeft(s)
  {
    hide Inv, Enabled, Step, StepsLeft;
    if a :| Own(a) && Enabled(s, a) {
      StepInv(s, a);
      assert EnabledAll(Step(s, a), []);
      assert [a][1..] == [] && EnabledAll(s, [a]) && After(s, [a]) == Step(s, a);
      RunsEnd(s, [a]);
      RunInv(s, [a]);
      var more := EveryJobGetsDone(Step(s, a));
      run := [a] + more;
      assert run[1..] == more;
    } else {
      RestIsDone(s);
      run := [];
    }
  }
}
