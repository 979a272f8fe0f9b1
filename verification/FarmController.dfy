/**
 The farm controller object: the job array, the worker table and the state file,
 updated in place by its methods. Each method is proved to take the one step of
 the farm state machine that its message stands for.
 */
module FarmController {
  import opened Bytes
  import opened Farm
  import opened FarmRuns

  class RSController {
    var jobs: seq<Job>
    var workers: map<string, Worker>
    var file: State

    function Memory(): State
      reads this
    {
      State(jobs, workers)
    }

    /** This object, as a state of the farm whose hand-outs are counted elsewhere. */
    function Now(): Run
      reads this
    {
      Run(Memory(), file, [])
    }

    /**
     initWithStatePath: load the state file, keying each worker record by its name.
     A file that the controller saved is restored; in any other, one of the records
     of each name is kept.
     */
    constructor (saved: State)
      ensures jobs == saved.jobs && file == saved && Loads(saved.workers.Values, workers)
      ensures WorkersNamed(saved.workers) ==>
                Now() == Step(Run(State([], map[]), saved, []), Restart).(dispatches := [])
    {
      jobs := [];
      workers := map[];
      file := saved;
      new;
      var i := 0;
      while i < |saved.jobs|
        invariant i <= |saved.jobs| && jobs == saved.jobs[..i]
        invariant workers == map[] && file == saved
      {
        jobs := jobs + [saved.jobs[i]];
        i := i + 1;
      }
      var records := saved.workers.Values;
      var rest := records;
      while rest != {}
        invariant rest <= records
        invariant forall w :: w in records && w !in rest ==> w.name in workers
        invariant forall name :: name in workers ==> workers[name] in records && workers[name].name == name
        invariant jobs == saved.jobs && file == saved
        decreases |rest|
      {
        var w :| w in rest;
        workers := workers[w.name := w];
        rest := rest - {w};
      }
      assert jobs == saved.jobs;
      if WorkersNamed(saved.workers) {
        LoadRestores(saved.workers, workers);
      }
    }

    method Save()
      modifies this`file
      ensures file == Memory()
    {
      file := Memory();
    }

    /** submitBuild: the ids of the queued slices, or None for a rejected specification. */
    method SubmitBuild(spec: Spec) returns (ids: Option<seq<string>>)
      modifies this
      ensures Now() == Step(old(Now()), FarmRuns.SubmitBuild(spec)).(dispatches := [])
      ensures ids.Some? <==> SubmitAccepts(spec)
      ensures ids.Some? ==>
                && |jobs| == |old(jobs)| + |ids.value| && |ids.value| == |spec.architectures.value|
                && forall i :: 0 <= i < |ids.value| ==> ids.value[i] == jobs[|old(jobs)| + i].jobID
    {
      if !SafeName(spec.snapshot) || !SafeName(spec.project) || !SafeName(spec.target) || !SafeName(spec.profile) {
        return None;
      }
      if spec.architectures.None? || |spec.architectures.value| == 0 {
        return None;
      }
      var architectures := spec.architectures.value;
      var names: seq<string> := [];
      var i := 0;
      while i < |architectures|
        invariant i <= |architectures| && |names| == i
        invariant forall j :: 0 <= j < i ==> Supported(architectures[j])
        invariant jobs + Slices(spec, architectures[i..]) == old(jobs) + Slices(spec, architectures)
        invariant |jobs| == |old(jobs)| + i
        invariant forall j :: 0 <= j < i ==> names[j] == jobs[|old(jobs)| + j].jobID
        invariant workers == old(workers) && file == old(file)
      {
        if !Supported(architectures[i]) {
          assert Slices(spec, architectures[i..]) == [];
          return None;
        }
        var job := NewJob(spec, architectures[i]);
        assert architectures[i..][1..] == architectures[i + 1..];
        jobs := jobs + [job];
        names := names + [job.jobID];
        i := i + 1;
      }
      Save();
      return Some(names);
    }

    method CancelJob(jobID: string) returns (done: bool)
      modifies this
      ensures Now() == Step(old(Now()), FarmRuns.CancelJob(jobID)).(dispatches := [])
      ensures done <==> exists j :: j in old(jobs) && Cancellable(jobID)(j)
    {
      var i := 0;
      while i < |jobs|
        invariant i <= |jobs| && Now() == old(Now())
        invariant forall j :: 0 <= j < i ==> !Cancellable(jobID)(jobs[j])
      {
        if jobs[i].jobID == jobID && jobs[i].state != Complete {
          FirstJobIs(jobs, Cancellable(jobID), 0, i);
          jobs := jobs[i := jobs[i].(state := Cancelled)];
          Save();
          return true;
        }
        i := i + 1;
      }
      return false;
    }

    method RegisterWorker(name: Option<string>, architectures: Option<seq<string>>, now: real) returns (done: bool)
      modifies this
      ensures Now() == Step(old(Now()), FarmRuns.RegisterWorker(name, architectures, now)).(dispatches := [])
      ensures done <==> RegisterAccepts(name, architectures)
    {
      if !SafeName(name) || architectures.None? {
        return false;
      }
      workers := workers[name.value := Worker(name.value, architectures.value, now, true)];
      Save();
      return true;
    }

    method Heartbeat(name: string, now: real) returns (done: bool)
      modifies this`workers
      ensures Now() == Step(old(Now()), HeartbeatFrom(name, now)).(dispatches := [])
      ensures done <==> name in old(workers)
    {
      if name !in workers {
        return false;
      }
      workers := workers[name := workers[name].(lastHeartbeat := now, online := true)];
      return true;
    }

    /** nextJobForWorker: the first queued job the worker can build, now running on it. */
    method NextJobForWorker(name: string, now: real) returns (job: Option<Job>)
      modifies this
      ensures Now() == Step(old(Now()), NextJob(name, now)).(dispatches := [])
      ensures job == match NextIndex(old(Memory()), name)
                     case None => None
                     case Some(i) => Some(jobs[i])
    {
      if name !in workers || !workers[name].online {
        return None;
      }
      var worker := workers[name];
      var i := 0;
      while i < |jobs|
        invariant i <= |jobs| && Now() == old(Now())
        invariant forall j :: 0 <= j < i ==> !Runnable(worker)(jobs[j])
      {
        if jobs[i].state == Queued && jobs[i].architecture in worker.architectures {
          FirstJobIs(jobs, Runnable(worker), 0, i);
          jobs := jobs[i := jobs[i].(state := Running, worker := Some(name), started := Some(now))];
          Save();
          return Some(jobs[i]);
        }
        i := i + 1;
      }
      return None;
    }

    /** finishJob: the first entry with the id takes the result, whatever its state and owner. */
    method FinishJob(jobID: string, result: BuildResult, now: real) returns (done: bool)
      modifies this
      ensures Now() == Step(old(Now()), FinishJobWith(jobID, result, now)).(dispatches := [])
      ensures done <==> exists j :: j in old(jobs) && HasID(jobID)(j)
    {
      var i := 0;
      while i < |jobs|
        invariant i <= |jobs| && Now() == old(Now())
        invariant forall j :: 0 <= j < i ==> !HasID(jobID)(jobs[j])
      {
        if jobs[i].jobID == jobID {
          FirstJobIs(jobs, HasID(jobID), 0, i);
          var job := jobs[i].(result := Some(result), finished := Some(now));
          if result.infrastructureFailure && job.retries < 1 {
            job := job.(retries := job.retries + 1, state := Queued, worker := None);
          } else {
            job := job.(state := if result.success then Complete else Failed);
          }
          jobs := jobs[i := job];
          Save();
          return true;
        }
        i := i + 1;
      }
      return false;
    }

    /** reapWorkers: in whatever order the table is enumerated, every stale worker loses its jobs. */
    method ReapWorkers(now: real)
      modifies this
      ensures Now() == Step(old(Now()), FarmRuns.ReapWorkers(now)).(dispatches := [])
    {
      hide ReapSome;
      ghost var orig := Memory();
      var rest := workers.Keys;
      ghost var seen: set<string> := {};
      ReapNone(orig, now);
      while rest != {}
        invariant seen + rest == orig.workers.Keys == workers.Keys && seen !! rest
        invariant Memory() == ReapSome(orig, now, seen) && file == old(file)
        decreases |rest|
      {
        var name :| name in rest;
        ReapOne(name, now, orig, seen);
        rest := rest - {name};
        seen := seen + {name};
      }
      assert seen == orig.workers.Keys;
      ReapEveryone(orig, now);
      Save();
    }

    /** The outer loop's body: a stale worker goes offline and releases its jobs. */
    method ReapOne(name: string, now: real, ghost orig: State, ghost seen: set<string>)
      requires Memory() == ReapSome(orig, now, seen)
      requires name in workers && workers.Keys == orig.workers.Keys && name !in seen
      modifies this`jobs, this`workers
      ensures Memory() == ReapSome(orig, now, seen + {name})
      ensures workers.Keys == orig.workers.Keys
    {
      ghost var stale := StaleNames(orig.workers, now);
      if Stale(workers[name], now) {
        workers := workers[name := workers[name].(online := false)];
        ReleaseJobs(name, orig.jobs, stale * seen);
        assert stale * (seen + {name}) == stale * seen + {name};
      } else {
        assert stale * (seen + {name}) == stale * seen;
      }
    }

    /** The inner loop of reapWorkers: queue again, or fail, every job the worker was running. */
    method ReleaseJobs(name: string, ghost orig: seq<Job>, ghost reaped: set<string>)
      requires jobs == ReapJobs(orig, reaped)
      modifies this`jobs
      ensures jobs == ReapJobs(orig, reaped + {name})
    {
      var i := 0;
      while i < |jobs|
        invariant i <= |jobs| == |orig|
        invariant forall j :: 0 <= j < i ==> jobs[j] == ReapJobs(orig, reaped + {name})[j]
        invariant forall j :: i <= j < |jobs| ==> jobs[j] == ReapJobs(orig, reaped)[j]
      {
        var job := jobs[i];
        if job.state == Running && job.worker == Some(name) {
          jobs := jobs[i := job.(state := if job.retries < 1 then Queued else Failed,
                                 retries := job.retries + 1, worker := None)];
        }
        i := i + 1;
      }
    }
  }
}
