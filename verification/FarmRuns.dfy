/**
 Runs of the build farm: any sequence of messages, timer ticks and restarts. A
 history counts how often each job entry was handed to a worker.
 */
module FarmRuns {
  import opened Bytes
  import opened Farm

  /** Memory, state file, and for each job entry the number of times it was handed out. */
  datatype Run = Run(mem: State, saved: State, dispatches: seq<nat>)

  datatype Event =
    | SubmitBuild(spec: Spec)
    | CancelJob(jobID: string)
    | RegisterWorker(name: Option<string>, architectures: Option<seq<string>>, now: real)
    | HeartbeatFrom(worker: string, now: real)
    | NextJob(worker: string, now: real)
    | FinishJobWith(jobID: string, result: BuildResult, now: real)
    | ReapWorkers(now: real)
    | Restart

  const START := Run(State([], map[]), State([], map[]), [])

  function Saved(r: Run): Run { r.(saved := r.mem) }

  /** One count per entry: new entries start at zero, entries lost by a restart are forgotten. */
  function Counts(d: seq<nat>, n: nat): (r: seq<nat>)
    ensures |r| == n && forall i :: 0 <= i < n ==> r[i] == if i < |d| then d[i] else 0
  {
    seq(n, i requires 0 <= i => if i < |d| then d[i] else 0)
  }

  function Step(r: Run, e: Event): Run {
    match e
    case SubmitBuild(spec) =>
      var mem := Submit(r.mem, spec);
      var next := r.(mem := mem, dispatches := Counts(r.dispatches, |mem.jobs|));
      if SubmitAccepts(spec) then Saved(next) else next
    case CancelJob(jobID) =>
      if FirstJob(r.mem.jobs, Cancellable(jobID), 0).None? then r else Saved(r.(mem := Cancel(r.mem, jobID)))
    case RegisterWorker(name, architectures, now) =>
      if RegisterAccepts(name, architectures) then Saved(r.(mem := Register(r.mem, name, architectures, now))) else r
    case HeartbeatFrom(worker, now) => r.(mem := Heartbeat(r.mem, worker, now))
    case NextJob(worker, now) =>
      (match NextIndex(r.mem, worker)
       case None => r
       case Some(i) =>
         Saved(Run(Next(r.mem, worker, now), r.saved,
                   if i < |r.dispatches| then r.dispatches[i := r.dispatches[i] + 1] else r.dispatches)))
    case FinishJobWith(jobID, result, now) =>
      if FirstJob(r.mem.jobs, HasID(jobID), 0).None? then r else Saved(r.(mem := Finish(r.mem, jobID, result, now)))
    case ReapWorkers(now) => Saved(r.(mem := Reap(r.mem, now)))
    case Restart => Run(r.saved, r.saved, Counts(r.dispatches, |r.saved.jobs|))
  }

  function After(r: Run, events: seq<Event>): Run
    decreases |events|
  {
    if |events| == 0 then r else After(Step(r, events[0]), events[1..])
  }

  /** How many times a run handed a job to a worker. */
  function HandedOut(r: Run, events: seq<Event>): nat
    decreases |events|
  {
    if |events| == 0 then 0
    else (if events[0].NextJob? && NextIndex(r.mem, events[0].worker).Some? then 1 else 0)
         + HandedOut(Step(r, events[0]), events[1..])
  }

  // ---- the invariant ----

  /** One job entry and its count. */
  predicate JobOK(j: Job, d: nat, names: set<string>) {
    && 0 <= j.retries
    && d <= 2 && d <= j.retries + 1
    && (j.state == Queued ==> d <= j.retries)
    && (j.state == Queued || j.state == Running ==> j.retries <= 1)
    && (j.state == Running ==> j.worker.Some? && j.worker.value in names)
  }

  predicate Fresh(j: Job) { j.state == Queued && j.retries == 0 }

  ghost predicate JobsOK(jobs: seq<Job>, d: seq<nat>, names: set<string>) {
    |d| == |jobs| && forall i :: 0 <= i < |jobs| ==> JobOK(jobs[i], d[i], names)
  }

  /** The file holds all jobs but for a tail of never-dispatched ones left by rejected submissions. */
  ghost predicate FileOK(r: Run) {
    && |r.saved.jobs| <= |r.mem.jobs| == |r.dispatches|
    && (forall i :: 0 <= i < |r.saved.jobs| ==> r.saved.jobs[i] == r.mem.jobs[i])
    && (forall i :: |r.saved.jobs| <= i < |r.mem.jobs| ==> Fresh(r.mem.jobs[i]) && r.dispatches[i] == 0)
    && r.saved.workers.Keys == r.mem.workers.Keys
  }

  ghost predicate Inv(r: Run) {
    && JobsOK(r.mem.jobs, r.dispatches, r.mem.workers.Keys)
    && FileOK(r)
    && WorkersNamed(r.mem.workers) && WorkersNamed(r.saved.workers)
  }

  lemma SlicesFresh(spec: Spec, architectures: seq<string>)
    requires WellFormed(spec)
    ensures forall i :: 0 <= i < |Slices(spec, architectures)| ==> Fresh(Slices(spec, architectures)[i])
  {
  }

  lemma SubmitKeepsInv(r: Run, spec: Spec)
    requires Inv(r)
    ensures Inv(Step(r, SubmitBuild(spec)))
  {
    if WellFormed(spec) {
      SlicesFresh(spec, spec.architectures.value);
    }
  }

  lemma CancelKeepsInv(r: Run, jobID: string)
    requires Inv(r)
    ensures Inv(Step(r, CancelJob(jobID)))
  {
  }

  lemma RegisterKeepsInv(r: Run, name: Option<string>, architectures: Option<seq<string>>, now: real)
    requires Inv(r)
    ensures Inv(Step(r, RegisterWorker(name, architectures, now)))
  {
  }

  lemma HeartbeatKeepsInv(r: Run, worker: string, now: real)
    requires Inv(r)
    ensures Inv(Step(r, HeartbeatFrom(worker, now)))
  {
    assert Heartbeat(r.mem, worker, now).workers.Keys == r.mem.workers.Keys;
  }

  lemma NextKeepsInv(r: Run, worker: string, now: real)
    requires Inv(r)
    ensures Inv(Step(r, NextJob(worker, now)))
  {
  }

  lemma FinishKeepsInv(r: Run, jobID: string, result: BuildResult, now: real)
    requires Inv(r)
    ensures Inv(Step(r, FinishJobWith(jobID, result, now)))
  {
  }

  lemma ReapKeepsInv(r: Run, now: real)
    requires Inv(r)
    ensures Inv(Step(r, ReapWorkers(now)))
  {
    assert Reap(r.mem, now).workers.Keys == r.mem.workers.Keys;
  }

  lemma RestartKeepsInv(r: Run)
    requires Inv(r)
    ensures Inv(Step(r, Restart))
  {
  }

  /** Every message, tick and restart keeps the invariant. */
  lemma StepKeepsInv(r: Run, e: Event)
    requires Inv(r)
    ensures Inv(Step(r, e))
  {
    hide Inv, Step;
    match e
    case SubmitBuild(spec) => SubmitKeepsInv(r, spec);
    case CancelJob(jobID) => CancelKeepsInv(r, jobID);
    case RegisterWorker(name, architectures, now) => RegisterKeepsInv(r, name, architectures, now);
    case HeartbeatFrom(worker, now) => HeartbeatKeepsInv(r, worker, now);
    case NextJob(worker, now) => NextKeepsInv(r, worker, now);
    case FinishJobWith(jobID, result, now) => FinishKeepsInv(r, jobID, result, now);
    case ReapWorkers(now) => ReapKeepsInv(r, now);
    case Restart => RestartKeepsInv(r);
  }

  // ---- counting over whole runs ----

  function Sum(d: seq<nat>): nat {
    if |d| == 0 then 0 else Sum(d[..|d| - 1]) + d[|d| - 1]
  }

  lemma {:induction false} SumUpdate(d: seq<nat>, i: nat)
    requires i < |d|
    ensures Sum(d[i := d[i] + 1]) == Sum(d) + 1
  {
    var e := d[i := d[i] + 1];
    if i == |d| - 1 {
      assert e[..|d| - 1] == d[..|d| - 1];
    } else {
      assert e[..|d| - 1] == d[..|d| - 1][i := d[i] + 1];
      SumUpdate(d[..|d| - 1], i);
    }
  }

  /** Adding or dropping entries with count zero does not change the total. */
  lemma {:induction false} SumCounts(d: seq<nat>, n: nat)
    requires forall i :: n <= i < |d| ==> d[i] == 0
    ensures Sum(Counts(d, n)) == Sum(d)
    decreases |d| + n
  {
    var c := Counts(d, n);
    if n < |d| {
      assert Counts(d[..|d| - 1], n) == c;
      SumCounts(d[..|d| - 1], n);
    } else if |d| < n {
      assert c[..n - 1] == Counts(d, n - 1);
      SumCounts(d, n - 1);
    } else {
      assert c == d;
    }
  }

  lemma {:induction false} SumBound(d: seq<nat>)
    requires forall i :: 0 <= i < |d| ==> d[i] <= 2
    ensures Sum(d) <= 2 * |d|
  {
    if |d| > 0 {
      SumBound(d[..|d| - 1]);
    }
  }

  lemma StepCounts(r: Run, e: Event)
    requires Inv(r)
    ensures Sum(Step(r, e).dispatches) ==
            Sum(r.dispatches) + if e.NextJob? && NextIndex(r.mem, e.worker).Some? then 1 else 0
  {
    hide JobsOK;
    match e
    case SubmitBuild(spec) => SumCounts(r.dispatches, |Submit(r.mem, spec).jobs|);
    case Restart => SumCounts(r.dispatches, |r.saved.jobs|);
    case NextJob(worker, now) =>
      if NextIndex(r.mem, worker).Some? {
        SumUpdate(r.dispatches, NextIndex(r.mem, worker).value);
      }
    case _ =>
  }

  lemma {:induction false} RunKeepsInv(r: Run, events: seq<Event>)
    requires Inv(r)
    ensures Inv(After(r, events))
    ensures Sum(After(r, events).dispatches) == Sum(r.dispatches) + HandedOut(r, events)
    decreases |events|
  {
    hide Inv, Step, Sum;
    if |events| > 0 {
      StepKeepsInv(r, events[0]);
      StepCounts(r, events[0]);
      RunKeepsInv(Step(r, events[0]), events[1..]);
    }
  }

  /**
   Over every run from an empty farm, no job entry is handed out more than twice
   or more than once beyond its retries, so all the hand-outs of the run together
   are at most two per entry; and every running job names a registered worker.
   */
  lemma AtMostTwice(events: seq<Event>)
    ensures var r := After(START, events);
            && |r.dispatches| == |r.mem.jobs|
            && (forall i :: 0 <= i < |r.mem.jobs| ==>
                  && r.dispatches[i] <= 2 && r.dispatches[i] <= r.mem.jobs[i].retries + 1
                  && (r.mem.jobs[i].state == Running ==>
                        r.mem.jobs[i].worker.Some? && r.mem.jobs[i].worker.value in r.mem.workers))
            && HandedOut(START, events) <= 2 * |r.mem.jobs|
  {
    assert Inv(START);
    RunKeepsInv(START, events);
    var r := After(START, events);
    hide After, HandedOut;
    assert forall i :: 0 <= i < |r.mem.jobs| ==> JobOK(r.mem.jobs[i], r.dispatches[i], r.mem.workers.Keys);
    SumBound(r.dispatches);
  }

  /** Restarting at any point of any run loses no dispatched job and no worker. */
  lemma RestartLosesOnlyFresh(events: seq<Event>)
    ensures var r := After(START, events);
            var s := Step(r, Restart);
            && |r.dispatches| == |r.mem.jobs|
            && s.mem.jobs <= r.mem.jobs && s.mem.workers.Keys == r.mem.workers.Keys
            && (forall i :: |s.mem.jobs| <= i < |r.mem.jobs| ==> Fresh(r.mem.jobs[i]) && r.dispatches[i] == 0)
            && (forall loaded :: Loads(r.saved.workers.Values, loaded) ==> loaded == s.mem.workers)
  {
    assert Inv(START);
    RunKeepsInv(START, events);
    var r := After(START, events);
    hide After;
    forall loaded | Loads(r.saved.workers.Values, loaded)
      ensures loaded == r.saved.workers
    {
      LoadRestores(r.saved.workers, loaded);
    }
  }

  // ---- what is final, and exactly when ----

  /** The message that reports a result for entry i: finishing goes by id, to the first entry with it. */
  predicate Finishes(r: Run, e: Event, i: nat) {
    e.FinishJobWith? && FirstJob(r.mem.jobs, HasID(e.jobID), 0) == Some(i)
  }

  predicate Retries(j: Job, result: BuildResult) { result.infrastructureFailure && j.retries < 1 }

  /** A complete entry stays complete unless a result for it asks for a retry or reports failure. */
  lemma CompleteStays(r: Run, e: Event, i: nat)
    requires Inv(r) && i < |r.mem.jobs| && r.mem.jobs[i].state == Complete
    ensures var jobs := Step(r, e).mem.jobs;
            (i < |jobs| && jobs[i].state == Complete) <==>
            !(Finishes(r, e, i) && (Retries(r.mem.jobs[i], e.result) || !e.result.success))
  {
  }

  /** A cancelled entry stays cancelled unless some result is reported for it. */
  lemma CancelledStays(r: Run, e: Event, i: nat)
    requires Inv(r) && i < |r.mem.jobs| && r.mem.jobs[i].state == Cancelled
    ensures var jobs := Step(r, e).mem.jobs;
            (i < |jobs| && jobs[i].state == Cancelled) <==> !Finishes(r, e, i)
  {
  }

  // ---- one uninterrupted turn of a worker ----

  /**
   A registered worker's turn (heartbeat, take a job, report its result) starts the
   first job it can build and retires the first entry with that job's id, which is
   the one that was handed out exactly if no earlier entry carries the id; nothing
   else in the job list changes.
   */
  lemma WorkerTurn(r: Run, name: string, t0: real, t1: real, t2: real, result: BuildResult)
    requires Inv(r) && name in r.mem.workers
    ensures var r1 := Step(r, HeartbeatFrom(name, t0));
            && r1.mem.jobs == r.mem.jobs
            && NextIndex(r1.mem, name) == FirstJob(r.mem.jobs, Runnable(r.mem.workers[name]), 0)
    ensures var r1 := Step(r, HeartbeatFrom(name, t0));
            var next := FirstJob(r.mem.jobs, Runnable(r.mem.workers[name]), 0);
            next.Some? ==>
              var i := next.value;
              var id := r.mem.jobs[i].jobID;
              var r2 := Step(r1, NextJob(name, t1));
              var r3 := Step(r2, FinishJobWith(id, result, t2));
              var running := r.mem.jobs[i].(state := Running, worker := Some(name), started := Some(t1));
              && r2.mem.jobs == r.mem.jobs[i := running]
              && exists k :: && 0 <= k <= i && r2.mem.jobs[k].jobID == id
                             && (k == i <==> forall j :: 0 <= j < i ==> r.mem.jobs[j].jobID != id)
                             && r3.mem.jobs == r2.mem.jobs[k := FinishJob(r2.mem.jobs[k], result, t2)]
  {
    hide Inv, FirstJob, Submit, Cancel, Register, Reap;
    var r1 := Step(r, HeartbeatFrom(name, t0));
    SameRunnable(r.mem.jobs, r.mem.workers[name], r1.mem.workers[name], 0);
    var next := FirstJob(r.mem.jobs, Runnable(r.mem.workers[name]), 0);
    if next.Some? {
      var i := next.value;
      var r2 := Step(r1, NextJob(name, t1));
      assert forall j :: 0 <= j < |r.mem.jobs| ==> r2.mem.jobs[j].jobID == r.mem.jobs[j].jobID;
      var k := FinishHits(r2.mem, i, result, t2);
      assert 0 <= k <= i && r2.mem.jobs[k].jobID == r.mem.jobs[i].jobID;
    }
  }

  /** A result by entry i's id retires the first entry with that id, and no other. */
  lemma FinishHits(s: State, i: nat, result: BuildResult, now: real) returns (k: nat)
    requires i < |s.jobs|
    ensures k <= i && s.jobs[k].jobID == s.jobs[i].jobID
    ensures forall j :: 0 <= j < k ==> s.jobs[j].jobID != s.jobs[i].jobID
    ensures k == i <==> forall j :: 0 <= j < i ==> s.jobs[j].jobID != s.jobs[i].jobID
    ensures FirstJob(s.jobs, HasID(s.jobs[i].jobID), 0) == Some(k)
    ensures Finish(s, s.jobs[i].jobID, result, now) == s.(jobs := s.jobs[k := FinishJob(s.jobs[k], result, now)])
  {
    hide FirstJob, FinishJob;
    var id := s.jobs[i].jobID;
    assert HasID(id)(s.jobs[i]);
    k := FirstJob(s.jobs, HasID(id), 0).value;
    assert HasID(id)(s.jobs[k]);
    assert forall j :: 0 <= j < k ==> !HasID(id)(s.jobs[j]);
    assert forall j :: 0 <= j < |s.jobs| ==> (HasID(id)(s.jobs[j]) <==> s.jobs[j].jobID == id);
  }

  lemma SameRunnable(jobs: seq<Job>, v: Worker, w: Worker, i: nat)
    requires v.architectures == w.architectures
    ensures FirstJob(jobs, Runnable(v), i) == FirstJob(jobs, Runnable(w), i)
    decreases |jobs| - i
  {
  }

  // ---- the farm while a worker builds ----

  /** What others can do while the worker builds the job: anything but speak for the worker or about the id. */
  predicate Bystander(e: Event, name: string, jobID: string) {
    match e
    case CancelJob(id) => id != jobID
    case RegisterWorker(n, _, _) => n != Some(name)
    case HeartbeatFrom(w, _) => w != name
    case NextJob(w, _) => w != name
    case FinishJobWith(id, _, _) => id != jobID
    case _ => true
  }

  /** Entry i is in the file too, and the worker was last heard from at t0, in memory and in the file. */
  ghost predicate Building(r: Run, i: nat, name: string, t0: real) {
    && Inv(r) && i < |r.saved.jobs|
    && name in r.mem.workers && r.mem.workers[name].lastHeartbeat == t0
    && name in r.saved.workers && r.saved.workers[name].lastHeartbeat == t0
  }

  predicate Late(e: Event, t0: real) { e.ReapWorkers? && e.now - t0 > HEARTBEAT_LIMIT }

  /** The entry as it was handed out is gone for good: it has a retry more. */
  predicate Lost(r: Run, i: nat, handed: Job) {
    i < |r.mem.jobs| && r.mem.jobs[i].jobID == handed.jobID && r.mem.jobs[i].retries > handed.retries
  }

  lemma BuildingStep(r: Run, e: Event, i: nat, name: string, t0: real, jobID: string)
    requires Building(r, i, name, t0) && Bystander(e, name, jobID)
    ensures Building(Step(r, e), i, name, t0)
  {
    StepKeepsInv(r, e);
    hide JobsOK, FirstJob, JobOK;
  }

  /** An event by others leaves the entry as it was handed out, unless it is a late tick of the reaper. */
  lemma HeldStep(r: Run, e: Event, i: nat, name: string, t0: real)
    requires Building(r, i, name, t0) && HeldBy(r.mem.jobs[i], name)
    requires Bystander(e, name, r.mem.jobs[i].jobID)
    ensures i < |Step(r, e).mem.jobs|
    ensures if Late(e, t0) then Lost(Step(r, e), i, r.mem.jobs[i]) else Step(r, e).mem.jobs[i] == r.mem.jobs[i]
  {
    hide JobsOK;
  }

  lemma LostStep(r: Run, e: Event, i: nat, name: string, t0: real, handed: Job)
    requires Building(r, i, name, t0) && Lost(r, i, handed) && Bystander(e, name, handed.jobID)
    ensures Lost(Step(r, e), i, handed)
  {
    hide JobsOK;
  }

  lemma {:induction false} LostForGood(r: Run, events: seq<Event>, i: nat, name: string, t0: real, handed: Job)
    requires Building(r, i, name, t0) && Lost(r, i, handed)
    requires forall e :: e in events ==> Bystander(e, name, handed.jobID)
    ensures Lost(After(r, events), i, handed)
    decreases |events|
  {
    hide Building, Lost, Step, Bystander;
    if |events| > 0 {
      BuildingStep(r, events[0], i, name, t0, handed.jobID);
      LostStep(r, events[0], i, name, t0, handed);
      LostForGood(Step(r, events[0]), events[1..], i, name, t0, handed);
    }
  }

  lemma {:induction false} HeldThrough(r: Run, events: seq<Event>, i: nat, name: string, t0: real)
    requires Building(r, i, name, t0) && i < |r.mem.jobs| && HeldBy(r.mem.jobs[i], name)
    requires forall e :: e in events ==> Bystander(e, name, r.mem.jobs[i].jobID)
    ensures i < |After(r, events).mem.jobs|
    ensures if exists e :: e in events && Late(e, t0) then Lost(After(r, events), i, r.mem.jobs[i])
            else After(r, events).mem.jobs[i] == r.mem.jobs[i]
    decreases |events|
  {
    hide Building, Step, Bystander, Late;
    if |events| > 0 {
      var e, rest := events[0], events[1..];
      assert events == [e] + rest;
      BuildingStep(r, e, i, name, t0, r.mem.jobs[i].jobID);
      HeldStep(r, e, i, name, t0);
      if Late(e, t0) {
        LostForGood(Step(r, e), rest, i, name, t0, r.mem.jobs[i]);
      } else {
        HeldThrough(Step(r, e), rest, i, name, t0);
      }
    }
  }

  /**
   A worker sends its heartbeat at t0, takes a job and builds it. Whatever others
   do meanwhile, restarts included, the entry is still running on it, exactly as
   handed out, if and only if no tick of the reaper came more than 45 seconds after t0.
   */
  lemma BuildKeepsJob(r: Run, name: string, t0: real, t1: real, events: seq<Event>)
    requires Inv(r) && name in r.mem.workers
    requires NextIndex(Step(r, HeartbeatFrom(name, t0)).mem, name).Some?
    requires var i := NextIndex(Step(r, HeartbeatFrom(name, t0)).mem, name).value;
             forall e :: e in events ==> Bystander(e, name, r.mem.jobs[i].jobID)
    ensures var i := NextIndex(Step(r, HeartbeatFrom(name, t0)).mem, name).value;
            var handed := Step(Step(r, HeartbeatFrom(name, t0)), NextJob(name, t1));
            var later := After(handed, events);
            && |handed.mem.jobs| == |r.mem.jobs| && i < |later.mem.jobs|
            && HeldBy(handed.mem.jobs[i], name)
            && (later.mem.jobs[i] == handed.mem.jobs[i] <==>
                forall e :: e in events && e.ReapWorkers? ==> e.now - t0 <= HEARTBEAT_LIMIT)
  {
    var r1 := Step(r, HeartbeatFrom(name, t0));
    StepKeepsInv(r, HeartbeatFrom(name, t0));
    var i := NextIndex(r1.mem, name).value;
    var r2 := Step(r1, NextJob(name, t1));
    StepKeepsInv(r1, NextJob(name, t1));
    assert Building(r2, i, name, t0);
    assert r2.mem.jobs[i].jobID == r.mem.jobs[i].jobID;
    hide Inv, Step, After;
    HeldThrough(r2, events, i, name, t0);
  }

  // ---- concrete runs ----

  const DEMO := Spec(Some("s"), Some("p"), Some("t"), Some("d"), Some(["i386"]), None)

  lemma DemoJob()
    ensures WellFormed(DEMO) && SubmitAccepts(DEMO)
    ensures Slices(DEMO, ["i386"]) == [NewJob(DEMO, "i386")]
    ensures var job := NewJob(DEMO, "i386");
            job.jobID == "s-t-i386" && job.state == Queued && job.architecture == "i386" && job.retries == 0
  {
    assert "s" + "-" + "t" + "-" + "i386" == "s-t-i386";
    assert Slices(DEMO, ["i386"][1..]) == [];
  }

  /** A reachable run in which a complete job later becomes failed. */
  lemma CompleteIsNotFinal()
    ensures var done := BuildResult(true, false);
            var failed := BuildResult(false, false);
            var r1 := After(START, [SubmitBuild(DEMO), FinishJobWith("s-t-i386", done, 1.0)]);
            var r2 := Step(r1, FinishJobWith("s-t-i386", failed, 2.0));
            && |r1.mem.jobs| == 1 && r1.mem.jobs[0].state == Complete
            && |r2.mem.jobs| == 1 && r2.mem.jobs[0].state == Failed
  {
    DemoJob();
    var s1 := Step(START, SubmitBuild(DEMO));
    assert s1.mem.jobs == [NewJob(DEMO, "i386")];
    var e := FinishJobWith("s-t-i386", BuildResult(true, false), 1.0);
    FirstJobIs(s1.mem.jobs, HasID("s-t-i386"), 0, 0);
    var s2 := Step(s1, e);
    assert [SubmitBuild(DEMO), e][1..] == [e] && [e][1..] == [];
    assert After(START, [SubmitBuild(DEMO), e]) == After(s1, [e]) == After(s2, []) == s2;
    FirstJobIs(s2.mem.jobs, HasID("s-t-i386"), 0, 0);
  }

  /** A reachable run in which a cancelled job is queued again. */
  lemma CancelledIsNotFinal()
    ensures var r1 := After(START, [SubmitBuild(DEMO), CancelJob("s-t-i386")]);
            var r2 := Step(r1, FinishJobWith("s-t-i386", BuildResult(false, true), 2.0));
            && |r1.mem.jobs| == 1 && r1.mem.jobs[0].state == Cancelled
            && |r2.mem.jobs| == 1 && r2.mem.jobs[0].state == Queued
  {
    DemoJob();
    var s1 := Step(START, SubmitBuild(DEMO));
    assert s1.mem.jobs == [NewJob(DEMO, "i386")];
    var e := CancelJob("s-t-i386");
    FirstJobIs(s1.mem.jobs, Cancellable("s-t-i386"), 0, 0);
    var s2 := Step(s1, e);
    assert [SubmitBuild(DEMO), e][1..] == [e] && [e][1..] == [];
    assert After(START, [SubmitBuild(DEMO), e]) == After(s1, [e]) == After(s2, []) == s2;
    FirstJobIs(s2.mem.jobs, HasID("s-t-i386"), 0, 0);
  }

  const BUILDER := Worker("w", ["i386"], 0.0, true)

  /** A farm with one worker that has just registered and one job submitted. */
  lemma DemoFarm()
    ensures var r := After(START, [RegisterWorker(Some("w"), Some(["i386"]), 0.0), SubmitBuild(DEMO)]);
            && Inv(r) && r.saved == r.mem && r.dispatches == [0]
            && r.mem == State([NewJob(DEMO, "i386")], map["w" := BUILDER])
  {
    DemoJob();
    var e, f := RegisterWorker(Some("w"), Some(["i386"]), 0.0), SubmitBuild(DEMO);
    assert SafeName(Some("w")) && "w"[0] == 'w';
    var s1 := Step(START, e);
    assert s1.mem == State([], map["w" := BUILDER]);
    assert [e, f][1..] == [f] && [f][1..] == [];
    assert After(START, [e, f]) == After(s1, [f]) == After(Step(s1, f), []) == Step(s1, f);
    assert Inv(START);
    RunKeepsInv(START, [e, f]);
  }

  /**
   A reachable run in which a builder loses its job to the reaper: nothing but a
   tick 46 seconds after its heartbeat, and the job is queued for someone else.
   */
  lemma LongBuildLosesJob()
    ensures var r := After(START, [RegisterWorker(Some("w"), Some(["i386"]), 0.0), SubmitBuild(DEMO)]);
            var handed := Step(Step(r, HeartbeatFrom("w", 0.0)), NextJob("w", 0.0));
            var later := Step(handed, ReapWorkers(46.0));
            && |handed.mem.jobs| == |later.mem.jobs| == 1
            && HeldBy(handed.mem.jobs[0], "w")
            && later.mem.jobs[0].state == Queued && later.mem.jobs[0].worker.None?
  {
    DemoFarm();
    DemoJob();
    hide NewJob, FirstJob, Inv, After, Slices, Cancel, Register;
    var r := After(START, [RegisterWorker(Some("w"), Some(["i386"]), 0.0), SubmitBuild(DEMO)]);
    var r1 := Step(r, HeartbeatFrom("w", 0.0));
    assert r1.mem.jobs == [NewJob(DEMO, "i386")] && r1.mem.workers["w"] == BUILDER;
    FirstJobIs(r1.mem.jobs, Runnable(BUILDER), 0, 0);
  }

  /**
   A reachable run of a build submitted twice: the worker's second turn reports to
   the first entry, and the second entry, built and finished, is left running.
   */
  lemma SecondBuildStaysRunning()
    ensures var done := FinishJobWith("s-t-i386", BuildResult(true, false), 1.0);
            var r := After(START, [RegisterWorker(Some("w"), Some(["i386"]), 0.0), SubmitBuild(DEMO)]);
            var twice := Step(r, SubmitBuild(DEMO));
            var first := Step(Step(twice, NextJob("w", 0.0)), done);
            var second := Step(Step(first, NextJob("w", 2.0)), done);
            && |first.mem.jobs| == |second.mem.jobs| == 2
            && first.mem.jobs[0].state == Complete && first.mem.jobs[1].state == Queued
            && second.mem.jobs[0].state == Complete && HeldBy(second.mem.jobs[1], "w")
  {
    DemoFarm();
    DemoJob();
    hide NewJob, FirstJob, Inv, After, Slices, Cancel, Register, Reap;
    var job := NewJob(DEMO, "i386");
    var done := FinishJobWith("s-t-i386", BuildResult(true, false), 1.0);
    var r := After(START, [RegisterWorker(Some("w"), Some(["i386"]), 0.0), SubmitBuild(DEMO)]);
    var twice := Step(r, SubmitBuild(DEMO));
    assert twice.mem.jobs == [job, job] && twice.mem.workers["w"] == BUILDER;
    FirstJobIs(twice.mem.jobs, Runnable(BUILDER), 0, 0);
    var s1 := Step(twice, NextJob("w", 0.0));
    FirstJobIs(s1.mem.jobs, HasID("s-t-i386"), 0, 0);
    var first := Step(s1, done);
    assert first.mem.jobs[1] == job && first.mem.workers["w"] == BUILDER;
    FirstJobIs(first.mem.jobs, Runnable(BUILDER), 0, 1);
    var s2 := Step(first, NextJob("w", 2.0));
    FirstJobIs(s2.mem.jobs, HasID("s-t-i386"), 0, 0);
  }
}
