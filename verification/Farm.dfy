/**
 The build farm as a state machine: jobs and workers as the controller keeps
 them, the copy it last saved, and one step per protocol message, timer tick or
 restart. The invariants hold over every run, in any order and from any caller.
 */
module Farm {
  import opened Bytes

  const HEARTBEAT_LIMIT := 45.0

  datatype JobState = Queued | Running | Complete | Failed | Cancelled

  datatype BuildResult = BuildResult(success: bool, infrastructureFailure: bool)

  /** A submitted specification. None stands for a missing or ill-typed field. */
  datatype Spec = Spec(
    snapshot: Option<string>, project: Option<string>, target: Option<string>, profile: Option<string>,
    architectures: Option<seq<string>>, worker: Option<string>)

  datatype Job = Job(
    jobID: string, architecture: string, state: JobState, retries: int,
    worker: Option<string>, started: Option<real>, finished: Option<real>,
    result: Option<BuildResult>, spec: Spec)

  datatype Worker = Worker(name: string, architectures: seq<string>, lastHeartbeat: real, online: bool)

  /** What the controller holds in memory, and what it writes to its state file. */
  datatype State = State(jobs: seq<Job>, workers: map<string, Worker>)

  // ---- searching the job list ----

  /** The first job from position i on that satisfies p. */
  function FirstJob(jobs: seq<Job>, p: Job -> bool, i: nat): (r: Option<nat>)
    ensures r.Some? ==> i <= r.value < |jobs| && p(jobs[r.value])
    ensures r.Some? ==> forall j :: i <= j < r.value ==> !p(jobs[j])
    ensures r.None? ==> forall j :: i <= j < |jobs| ==> !p(jobs[j])
    decreases |jobs| - i
  {
    if i >= |jobs| then None
    else if p(jobs[i]) then Some(i)
    else FirstJob(jobs, p, i + 1)
  }

  lemma FirstJobIs(jobs: seq<Job>, p: Job -> bool, i: nat, m: nat)
    requires i <= m < |jobs| && p(jobs[m])
    requires forall j :: i <= j < m ==> !p(jobs[j])
    ensures FirstJob(jobs, p, i) == Some(m)
  {
  }

  function HasID(jobID: string): Job -> bool { (j: Job) => j.jobID == jobID }

  function Cancellable(jobID: string): Job -> bool { (j: Job) => j.jobID == jobID && j.state != Complete }

  function Runnable(w: Worker): Job -> bool { (j: Job) => j.state == Queued && j.architecture in w.architectures }

  // ---- submitting ----

  predicate SafeChar(c: char) {
    'a' <= c <= 'z' || 'A' <= c <= 'Z' || '0' <= c <= '9' || c == '_' || c == '.' || c == '+' || c == '-'
  }

  predicate SafeName(name: Option<string>) {
    name.Some? && |name.value| > 0 && forall i :: 0 <= i < |name.value| ==> SafeChar(name.value[i])
  }

  predicate Supported(architecture: string) {
    architecture == "m68k" || architecture == "i386" || architecture == "hppa" || architecture == "sparc"
  }

  predicate WellFormed(spec: Spec) {
    && SafeName(spec.snapshot) && SafeName(spec.project) && SafeName(spec.target) && SafeName(spec.profile)
    && spec.architectures.Some? && |spec.architectures.value| > 0
  }

  function NewJob(spec: Spec, architecture: string): Job
    requires WellFormed(spec)
  {
    Job(spec.snapshot.value + "-" + spec.target.value + "-" + architecture, architecture, Queued, 0,
        spec.worker, None, None, None, spec)
  }

  /** One job per architecture, up to the first unsupported one. */
  function Slices(spec: Spec, architectures: seq<string>): seq<Job>
    requires WellFormed(spec)
  {
    if |architectures| == 0 || !Supported(architectures[0]) then []
    else [NewJob(spec, architectures[0])] + Slices(spec, architectures[1..])
  }

  predicate AllSupported(architectures: seq<string>) {
    forall i :: 0 <= i < |architectures| ==> Supported(architectures[i])
  }

  predicate SubmitAccepts(spec: Spec) {
    WellFormed(spec) && AllSupported(spec.architectures.value)
  }

  /** A rejected submission can leave the slices before the bad architecture in memory. */
  function Submit(s: State, spec: Spec): State {
    if WellFormed(spec) then s.(jobs := s.jobs + Slices(spec, spec.architectures.value)) else s
  }

  // ---- the other messages ----

  function Cancel(s: State, jobID: string): State {
    match FirstJob(s.jobs, Cancellable(jobID), 0)
    case None => s
    case Some(i) => s.(jobs := s.jobs[i := s.jobs[i].(state := Cancelled)])
  }

  predicate RegisterAccepts(name: Option<string>, architectures: Option<seq<string>>) {
    SafeName(name) && architectures.Some?
  }

  function Register(s: State, name: Option<string>, architectures: Option<seq<string>>, now: real): State {
    if RegisterAccepts(name, architectures)
    then s.(workers := s.workers[name.value := Worker(name.value, architectures.value, now, true)])
    else s
  }

  function Heartbeat(s: State, name: string, now: real): State {
    if name in s.workers
    then s.(workers := s.workers[name := s.workers[name].(lastHeartbeat := now, online := true)])
    else s
  }

  /** The job a worker would be handed now. */
  function NextIndex(s: State, name: string): (r: Option<nat>)
    ensures r.Some? ==> r.value < |s.jobs| && name in s.workers
  {
    if name in s.workers && s.workers[name].online then FirstJob(s.jobs, Runnable(s.workers[name]), 0) else None
  }

  function Next(s: State, name: string, now: real): State {
    match NextIndex(s, name)
    case None => s
    case Some(i) =>
      s.(jobs := s.jobs[i := s.jobs[i].(state := Running, worker := Some(name), started := Some(now))])
  }

  /** A result retires a job, except that a first infrastructure failure queues it again. */
  function FinishJob(j: Job, result: BuildResult, now: real): Job {
    var f := j.(result := Some(result), finished := Some(now));
    if result.infrastructureFailure && j.retries < 1
    then f.(retries := j.retries + 1, state := Queued, worker := None)
    else f.(state := if result.success then Complete else Failed)
  }

  function Finish(s: State, jobID: string, result: BuildResult, now: real): State {
    match FirstJob(s.jobs, HasID(jobID), 0)
    case None => s
    case Some(i) => s.(jobs := s.jobs[i := FinishJob(s.jobs[i], result, now)])
  }

  // ---- reaping ----

  predicate Stale(w: Worker, now: real) { now - w.lastHeartbeat > HEARTBEAT_LIMIT }

  predicate HeldBy(j: Job, name: string) { j.state == Running && j.worker == Some(name) }

  function ReapJob(j: Job): Job {
    j.(state := if j.retries < 1 then Queued else Failed, retries := j.retries + 1, worker := None)
  }

  /** The jobs after reaping those held by a worker in the set. */
  function ReapJobs(jobs: seq<Job>, stale: set<string>): (r: seq<Job>)
    ensures |r| == |jobs|
    ensures forall i :: 0 <= i < |jobs| ==>
              r[i] == if jobs[i].state == Running && jobs[i].worker.Some? && jobs[i].worker.value in stale
                      then ReapJob(jobs[i]) else jobs[i]
  {
    seq(|jobs|, i requires 0 <= i < |jobs| =>
      if jobs[i].state == Running && jobs[i].worker.Some? && jobs[i].worker.value in stale
      then ReapJob(jobs[i]) else jobs[i])
  }

  function StaleNames(workers: map<string, Worker>, now: real): set<string> {
    set name | name in workers && Stale(workers[name], now)
  }

  function Reap(s: State, now: real): State {
    State(ReapJobs(s.jobs, StaleNames(s.workers, now)),
          map name | name in s.workers ::
            if Stale(s.workers[name], now) then s.workers[name].(online := false) else s.workers[name])
  }

  /** Reaping when only the workers in seen have been looked at. */
  function ReapSome(s: State, now: real, seen: set<string>): State {
    State(ReapJobs(s.jobs, StaleNames(s.workers, now) * seen),
          map name | name in s.workers ::
            if name in seen && Stale(s.workers[name], now) then s.workers[name].(online := false) else s.workers[name])
  }

  lemma ReapNone(s: State, now: real)
    ensures ReapSome(s, now, {}) == s
  {
  }

  lemma ReapEveryone(s: State, now: real)
    ensures ReapSome(s, now, s.workers.Keys) == Reap(s, now)
  {
    assert StaleNames(s.workers, now) * s.workers.Keys == StaleNames(s.workers, now);
  }

  /**
   After reaping no running job belongs to a worker that is over the limit, and
   every job that no such worker was running is unchanged.
   */
  lemma ReapMeaning(s: State, now: real, i: nat)
    requires i < |s.jobs|
    ensures var j, r := s.jobs[i], Reap(s, now).jobs[i];
            var held := exists name :: name in s.workers && Stale(s.workers[name], now) && HeldBy(j, name);
            && (r.state == Running ==>
                  forall name :: name in s.workers && r.worker == Some(name) ==> !Stale(s.workers[name], now))
            && r == (if held then ReapJob(j) else j)
  {
    var j := s.jobs[i];
    if j.state == Running && j.worker.Some? && j.worker.value in StaleNames(s.workers, now) {
      assert HeldBy(j, j.worker.value);
    }
  }

  // ---- saving and loading ----

  ghost predicate WorkersNamed(workers: map<string, Worker>) {
    forall key :: key in workers ==> workers[key].name == key
  }

  /** Loading enumerates the saved records in some order and keys each one by its own name. */
  ghost predicate Loads(records: set<Worker>, loaded: map<string, Worker>) {
    && (forall w :: w in records ==> w.name in loaded)
    && (forall name :: name in loaded ==> loaded[name] in records && loaded[name].name == name)
  }

  /** Whatever the order, a table whose records carry their own keys comes back as it was. */
  lemma LoadRestores(saved: map<string, Worker>, loaded: map<string, Worker>)
    requires WorkersNamed(saved) && Loads(saved.Values, loaded)
    ensures loaded == saved
  {
    forall key | key in saved
      ensures key in loaded
    {
      assert saved[key] in saved.Values;
    }
  }
}
