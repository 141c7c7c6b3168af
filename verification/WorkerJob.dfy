/** workers/sbom/runner.py: `SBOMWorker.handle`. The manifest is read first and written last;
    the worker may die between any two effects and while writing, and is then redelivered. */
module WorkerJob {
  import opened Optional
  import opened Text

  datatype Status = Succeeded | Partial | Failed | Timeout | Skipped | Unavailable

  predicate Accepted(s: Status) {
    s == Succeeded || s == Partial
  }

  /** What an engine measured; a dimension it does not measure is absent. */
  type Counts = map<string, nat>

  datatype Diagnostic = Diagnostic(severity: string, code: string, message: string)

  datatype Times = Times(startedAt: Option<int>, finishedAt: Option<int>, durationMs: int)

  /** The worker's own stamps around the engine run. */
  datatype Clock = Clock(startedAt: int, finishedAt: int, durationMs: int)

  datatype Generated = Generated(
    status: Status, counts: Counts, diagnostics: seq<Diagnostic>, times: Times, output: Option<string>)

  datatype Failure = Failure(code: string, message: string, retryable: bool)

  datatype Envelope = Envelope(
    jobId: string, engine: string, status: Status, startedAt: Option<int>, finishedAt: Option<int>, durationMs: int,
    counts: Counts, diagnostics: seq<Diagnostic>, error: Option<Failure>)

  datatype Job = Job(id: string, engine: string, needsSbom: bool, offersOutput: bool)

  // ---- the envelope -------------------------------------------------------------

  function FirstCode(ds: seq<Diagnostic>): string {
    if ds == [] then ""
    else if ds[0].severity == "error" && ds[0].code != "" then ds[0].code
    else FirstCode(ds[1..])
  }

  function FirstMessage(ds: seq<Diagnostic>): string {
    if ds == [] then ""
    else if ds[0].severity == "error" && ds[0].message != "" then ds[0].message
    else FirstMessage(ds[1..])
  }

  /** `_result`. */
  function EnvelopeOf(job: Job, g: Generated): Envelope {
    var dated := g.times.startedAt.Some? && g.times.finishedAt.Some?;
    Envelope(
      job.id, job.engine, g.status,
      if dated then g.times.startedAt else None, if dated then g.times.finishedAt else None, g.times.durationMs,
      if Accepted(g.status) then g.counts else map[], g.diagnostics,
      if g.status == Failed || g.status == Timeout
      then Some(Failure(Or(FirstCode(g.diagnostics), "ENGINE_FAILED"), Or(FirstMessage(g.diagnostics), job.engine + " failed"), g.status == Timeout))
      else None)
  }

  /** What every consumer of an envelope may rely on. */
  ghost predicate Sound(e: Envelope) {
    && (e.counts != map[] ==> Accepted(e.status))
    && (e.error.Some? <==> e.status == Failed || e.status == Timeout)
    && (e.error.Some? ==> e.error.value.code != "" && e.error.value.message != "")
    && (e.error.Some? ==> (e.error.value.retryable <==> e.status == Timeout))
    && (e.startedAt.Some? <==> e.finishedAt.Some?)
  }

  function Refused(status: Status, severity: string, code: string, message: string): Generated {
    Generated(status, map[], [Diagnostic(severity, code, message)], Times(None, None, 0), None)
  }

  // ---- effects --------------------------------------------------------------------

  /** A manifest file that was cut off while being written does not parse. */
  datatype Manifest = Absent | Torn | Complete(envelope: Envelope)

  datatype Act =
    | NativeStaged
    | SourceReady
    | EngineRan(g: Generated)
    | OutputOffered(output: Option<string>)
    | EnvelopeBuilt(e: Envelope)
    | Truncated
    | Written(e: Envelope)

  /** The job's output directory, the scan's shared workspace, and all effects so far. */
  datatype Disk = Disk(manifest: Manifest, sbom: Option<string>, trace: seq<Act>)

  function Apply(d: Disk, act: Act): Disk {
    var t := d.trace + [act];
    match act
    case OutputOffered(Some(o)) => Disk(d.manifest, Some(o), t)
    case Truncated => Disk(Torn, d.sbom, t)
    case Written(e) => Disk(Complete(e), d.sbom, t)
    case _ => d.(trace := t)
  }

  function ApplyAll(d: Disk, acts: seq<Act>): Disk {
    if acts == [] then d else Apply(ApplyAll(d, acts[..|acts| - 1]), acts[|acts| - 1])
  }

  datatype SourceRead = Ready | NotAvailable(why: string)
  datatype EngineRun = Finished(g: Generated) | AdapterRaised(kind: string, text: string)

  /** The statements of `handle` that an exception can escape from. RunEngine escapes only with
      one that is no `Exception`; the source only with one that is not EngineUnavailableError. */
  datatype Statement =
    | FromJob | ReadManifest | StageNative | BuildTarget | Materialize | BuildAdapter | RunEngine
    | PublishOutput | BuildEnvelope | OpenManifest | WriteOut

  /** Everything one delivery meets: whether the manifest's bytes can be read (an OSError there is
      caught), what the calls do, which statements raise if it comes to them, the worker's clock,
      and after how many effects it dies. */
  datatype Attempt = Attempt(
    readWorks: bool, known: bool, source: SourceRead, engine: EngineRun, publishWorks: bool,
    raises: set<Statement>, clock: Clock, life: nat)

  datatype Reply = Returned(e: Envelope) | Raised | Died

  /** The three timing fields fall back together. */
  function Timed(g: Generated, clock: Clock): Generated {
    if g.times.startedAt.None? || g.times.finishedAt.None?
    then g.(times := Times(Some(clock.startedAt), Some(clock.finishedAt), clock.durationMs)) else g
  }

  function FromEngine(job: Job, a: Attempt): Generated {
    match a.engine
    case Finished(g) => g
    case AdapterRaised(kind, text) => Refused(Failed, "error", "ADAPTER_EXCEPTION", job.engine + " adapter raised: " + kind)
  }

  /** What `_publish_to_workspace` leaves for the consuming engine. */
  function Offer(job: Job, g: Generated, a: Attempt): Option<string> {
    if job.offersOutput && Accepted(g.status) && a.publishWorks then g.output else None
  }

  /** A statement on the way through `handle`, and the effect it has if it does not raise. */
  datatype Step = Step(at: Statement, act: Option<Act>)

  function Build(job: Job, g: Generated): Step {
    Step(BuildEnvelope, Some(EnvelopeBuilt(EnvelopeOf(job, g))))
  }

  const BEGIN: seq<Step> := [Step(FromJob, None), Step(ReadManifest, None)]
  const TARGET: seq<Step> := [Step(StageNative, Some(NativeStaged)), Step(BuildTarget, None)]

  function NotImplemented(job: Job): Generated {
    Refused(Skipped, "warn", "ENGINE_NOT_IMPLEMENTED", job.engine)
  }

  function InputMissing(job: Job): Generated {
    Refused(Skipped, "warn", "ENGINE_INPUT_MISSING", job.engine)
  }

  /** What the engine's part of the job comes to. */
  function Outcome(job: Job, a: Attempt): Generated {
    Timed(FromEngine(job, a), a.clock)
  }

  function EnginePath(job: Job, a: Attempt): (path: seq<Step>)
    ensures |path| == 7
  {
    var g := Outcome(job, a);
    [Step(Materialize, Some(SourceReady)), Step(BuildAdapter, None), Step(RunEngine, Some(EngineRan(g))),
     Step(PublishOutput, Some(OutputOffered(Offer(job, g, a)))), Build(job, g),
     Step(OpenManifest, Some(Truncated)), Step(WriteOut, Some(Written(EnvelopeOf(job, g))))]
  }

  /** What `_read_manifest` returns is not None. */
  predicate Seen(d: Disk, a: Attempt) {
    d.manifest.Complete? && a.readWorks
  }

  predicate Starved(d: Disk, job: Job) {
    job.needsSbom && d.sbom.None?
  }

  /** The statements a delivery goes through if none raises, and what it then returns. */
  function Path(d: Disk, job: Job, a: Attempt): (seq<Step>, Envelope) {
    if Seen(d, a) then (BEGIN, d.manifest.envelope)
    else if !a.known then (BEGIN + [Build(job, NotImplemented(job))], EnvelopeOf(job, NotImplemented(job)))
    else if Starved(d, job) then (BEGIN + TARGET + [Build(job, InputMissing(job))], EnvelopeOf(job, InputMissing(job)))
    else
      match a.source
      case NotAvailable(why) =>
        var g := Refused(Unavailable, "error", "SOURCE_UNAVAILABLE", why);
        (BEGIN + TARGET + [Step(Materialize, None), Build(job, g)], EnvelopeOf(job, g))
      case Ready => (BEGIN + TARGET + EnginePath(job, a), EnvelopeOf(job, Outcome(job, a)))
  }

  /** How far it gets: to the first statement that raises, or to the end. */
  function Reach(path: seq<Step>, raises: set<Statement>): (k: nat)
    ensures k <= |path| && (forall i :: 0 <= i < k ==> path[i].at !in raises) && (k < |path| ==> path[k].at in raises)
    decreases |path|
  {
    if path == [] || path[0].at in raises then 0
    else
      var k := Reach(path[1..], raises);
      assert forall i :: 1 <= i < k + 1 ==> path[i] == path[1..][i - 1];
      1 + k
  }

  function Acts(path: seq<Step>): (acts: seq<Act>) {
    if path == [] then []
    else
      var last := path[|path| - 1].act;
      Acts(path[..|path| - 1]) + if last.Some? then [last.value] else []
  }

  /** The effects of a delivery that lives, and how it ends. */
  function Plan(d: Disk, job: Job, a: Attempt): (seq<Act>, Reply) {
    var (path, e) := Path(d, job, a);
    var k := Reach(path, a.raises);
    (Acts(path[..k]), if k < |path| then Raised else Returned(e))
  }

  /** One delivery: the plan, cut off where the worker dies. */
  function Handle(d: Disk, job: Job, a: Attempt): (Disk, Reply) {
    var (acts, reply) := Plan(d, job, a);
    if a.life > |acts| then (ApplyAll(d, acts), reply)
    else (ApplyAll(d, acts[..a.life]), Died)
  }

  lemma {:induction false} ActsGrow(path: seq<Step>, j: nat, k: nat)
    requires j <= k <= |path|
    ensures Acts(path[..j]) <= Acts(path[..k])
    ensures j < k ==> Acts(path[..j + 1]) == Acts(path[..j]) + if path[j].act.Some? then [path[j].act.value] else []
    decreases k - j
  {
    if j < k {
      assert path[..j + 1][..j] == path[..j];
      ActsGrow(path, j + 1, k);
    }
  }

  // ---- handle, statement by statement ------------------------------------------------

  /** The object an adapter returns; the worker overwrites its timing fields. */
  class GenerateResult {
    var status: Status
    var counts: Counts
    var diagnostics: seq<Diagnostic>
    var startedAt: Option<int>
    var finishedAt: Option<int>
    var durationMs: int
    var output: Option<string>

    constructor (g: Generated)
      ensures Value() == g
    {
      status, counts, diagnostics, output := g.status, g.counts, g.diagnostics, g.output;
      startedAt, finishedAt, durationMs := g.times.startedAt, g.times.finishedAt, g.times.durationMs;
    }

    function Value(): Generated
      reads this
    {
      Generated(status, counts, diagnostics, Times(startedAt, finishedAt, durationMs), output)
    }

    method FillTimes(clock: Clock)
      modifies this`startedAt, this`finishedAt, this`durationMs
      ensures Value() == Timed(old(Value()), clock)
    {
      if startedAt.None? || finishedAt.None? {
        startedAt := Some(clock.startedAt);
        finishedAt := Some(clock.finishedAt);
        durationMs := clock.durationMs;
      }
    }
  }

  datatype Try = Went | Raising | Dead

  class Host {
    var disk: Disk
    var life: nat

    constructor (disk: Disk, life: nat)
      ensures this.disk == disk && this.life == life
    {
      this.disk, this.life := disk, life;
    }

    /** The first k statements of the path went through. */
    ghost predicate Reached(d: Disk, path: seq<Step>, a: Attempt, k: nat)
      reads this
    {
      && k <= |path| && (forall i :: 0 <= i < k ==> path[i].at !in a.raises)
      && |Acts(path[..k])| <= a.life && life == a.life - |Acts(path[..k])| && disk == ApplyAll(d, Acts(path[..k]))
    }

    /** One statement: it may raise, and the worker may be dead by the time of its effect. */
    method Do(step: Step, a: Attempt, ghost d: Disk, ghost path: seq<Step>, ghost k: nat) returns (r: Try)
      requires k < |path| && path[k] == step && Reached(d, path, a, k)
      modifies this
      ensures r.Went? ==> Reached(d, path, a, k + 1)
      ensures !r.Went? ==> disk == old(disk) && life == old(life)
      ensures r.Raising? <==> step.at in a.raises
      ensures r.Dead? <==> step.at !in a.raises && step.act.Some? && old(life) == 0
    {
      ActsGrow(path, k, k + 1);
      if step.at in a.raises {
        return Raising;
      }
      match step.act {
        case None =>
          assert Acts(path[..k]) + [] == Acts(path[..k]);
        case Some(act) =>
          if life == 0 {
            return Dead;
          }
          life := life - 1;
          SnocApply(d, Acts(path[..k]), act);
          disk := Apply(disk, act);
      }
      r := Went;
    }

    /** What the caller gets: nothing from a dead worker. */
    method Answer(r: Try, e: Envelope) returns (reply: Reply)
      ensures reply == if life == 0 then Died else if r.Raising? then Raised else Returned(e)
    {
      reply := if life == 0 then Died else if r.Raising? then Raised else Returned(e);
    }

    /** Statements k, k + 1, ... of a straight stretch. */
    method DoAll(steps: seq<Step>, a: Attempt, ghost d: Disk, ghost path: seq<Step>, ghost k: nat) returns (r: Try, ghost at: nat)
      requires k + |steps| <= |path| && path[k..k + |steps|] == steps && Reached(d, path, a, k)
      modifies this
      ensures r.Went? ==> at == k + |steps| && Reached(d, path, a, at)
      ensures !r.Went? ==> Stopped(d, path, a, at, r)
    {
      r, at := Went, k;
      for i := 0 to |steps|
        invariant r.Went? && at == k + i && Reached(d, path, a, at)
      {
        assert path[k + i] == path[k..k + |steps|][i] == steps[i];
        r := Do(steps[i], a, d, path, at);
        if !r.Went? {
          return;
        }
        at := at + 1;
      }
    }

    /** It got to statement k, which raised or whose effect came too late. */
    ghost predicate Stopped(d: Disk, path: seq<Step>, a: Attempt, k: nat, r: Try)
      reads this
    {
      && k < |path| && Reached(d, path, a, k)
      && (r.Raising? ==> path[k].at in a.raises)
      && (r.Dead? ==> path[k].at !in a.raises && path[k].act.Some? && life == 0)
    }

    /** `handle`. */
    method HandleJob(job: Job, a: Attempt) returns (reply: Reply)
      requires life == a.life
      modifies this
      ensures (disk, reply) == Handle(old(disk), job, a)
    {
      ghost var d := disk;
      ghost var (path, _) := Path(d, job, a);
      assert Acts(path[..0]) == [];
      var r;
      ghost var at;
      PathParts(d, job, a);
      hide Acts, ApplyAll, Handle, EnvelopeOf;
      r, at := DoAll(BEGIN, a, d, path, 0);
      if !r.Went? {
        reply := Answer(r, EnvelopeOf(job, NotImplemented(job)));
        StoppedIsHandled(d, job, a, at, r, reply);
        return;
      }
      NothingYet(d, path);
      if disk.manifest.Complete? && a.readWorks {
        reply := Answer(r, disk.manifest.envelope);
        EndedIsHandled(d, job, a, reply);
        return;
      }
      if !a.known {
        reply := FinishWith(job, a, NotImplemented(job), [Build(job, NotImplemented(job))], d, path, 2);
        return;
      }
      r, at := DoAll(TARGET, a, d, path, 2);
      if !r.Went? {
        reply := Answer(r, EnvelopeOf(job, NotImplemented(job)));
        StoppedIsHandled(d, job, a, at, r, reply);
        return;
      }
      SbomKept(d, path, 4);
      if job.needsSbom && disk.sbom.None? {
        reply := FinishWith(job, a, InputMissing(job), [Build(job, InputMissing(job))], d, path, 4);
        return;
      }
      match a.source {
        case NotAvailable(why) =>
          var g := Refused(Unavailable, "error", "SOURCE_UNAVAILABLE", why);
          reply := FinishWith(job, a, g, [Step(Materialize, None), Build(job, g)], d, path, 4);
        case Ready =>
          reply := RunJob(job, a, d, path);
      }
    }

    /** The last stretch of a path: its statements, then the reply. */
    method FinishWith(job: Job, a: Attempt, g: Generated, steps: seq<Step>, ghost d: Disk, ghost path: seq<Step>, ghost k: nat) returns (reply: Reply)
      requires (path, EnvelopeOf(job, g)) == Path(d, job, a) && |path| == k + |steps| && path[k..] == steps
      requires Reached(d, path, a, k)
      modifies this
      ensures (disk, reply) == Handle(d, job, a)
    {
      hide Path, Acts, ApplyAll, Handle, EnvelopeOf;
      assert path[k..k + |steps|] == steps;
      var r;
      ghost var at;
      r, at := DoAll(steps, a, d, path, k);
      reply := Answer(r, EnvelopeOf(job, g));
      if r.Went? {
        EndedIsHandled(d, job, a, reply);
      } else {
        StoppedIsHandled(d, job, a, at, r, reply);
      }
    }

    /** Source, adapter, engine, output, envelope, manifest: in this order, the manifest last. */
    method RunJob(job: Job, a: Attempt, ghost d: Disk, ghost path: seq<Step>) returns (reply: Reply)
      requires (path, EnvelopeOf(job, Outcome(job, a))) == Path(d, job, a) && |path| == 11 && path[4..] == EnginePath(job, a)
      requires Reached(d, path, a, 4)
      modifies this
      ensures (disk, reply) == Handle(d, job, a)
    {
      var prepare := [Step(Materialize, Some(SourceReady)), Step(BuildAdapter, None)];
      assert path[4..4 + |prepare|] == path[4..][..2] == prepare;
      var r;
      ghost var at;
      r, at := DoAll(prepare, a, d, path, 4);
      if !r.Went? {
        reply := Answer(r, EnvelopeOf(job, NotImplemented(job)));
        StoppedIsHandled(d, job, a, at, r, reply);
        return;
      }
      var generated := new GenerateResult(FromEngine(job, a));
      generated.FillTimes(a.clock);
      var g := generated.Value();
      var result := EnvelopeOf(job, g);
      var steps :=
        [Step(RunEngine, Some(EngineRan(g))), Step(PublishOutput, Some(OutputOffered(Offer(job, g, a)))),
         Step(BuildEnvelope, Some(EnvelopeBuilt(result))), Step(OpenManifest, Some(Truncated)), Step(WriteOut, Some(Written(result)))];
      assert path[6..] == path[4..][2..] == steps;
      reply := FinishWith(job, a, g, steps, d, path, 6);
    }

    lemma StoppedIsHandled(d: Disk, job: Job, a: Attempt, k: nat, r: Try, reply: Reply)
      requires var path := Path(d, job, a).0; Stopped(d, path, a, k, r) && !r.Went?
      requires if life == 0 then reply == Died else r.Raising? && reply == Raised
      ensures (disk, reply) == Handle(d, job, a)
    {
      var path := Path(d, job, a).0;
      var n := Reach(path, a.raises);
      hide Path, ApplyAll;
      if r.Raising? {
        assert n == k;
        assert Acts(path[..k])[..|Acts(path[..k])|] == Acts(path[..k]);
      } else {
        assert k < n;
        ActsGrow(path, k, n);
        ActsGrow(path, k + 1, n);
        assert Acts(path[..n])[..a.life] == Acts(path[..k]);
      }
    }

    lemma EndedIsHandled(d: Disk, job: Job, a: Attempt, reply: Reply)
      requires var (path, e) := Path(d, job, a);
        Reached(d, path, a, |path|) && reply == if life == 0 then Died else Returned(e)
      ensures (disk, reply) == Handle(d, job, a)
    {
      var (path, e) := Path(d, job, a);
      hide Path, ApplyAll;
      assert Reach(path, a.raises) == |path|;
      assert path[..|path|] == path;
      assert Acts(path)[..|Acts(path)|] == Acts(path);
    }
  }

  lemma SnocApply(d: Disk, acts: seq<Act>, act: Act)
    ensures ApplyAll(d, acts + [act]) == Apply(ApplyAll(d, acts), act)
  {
    assert (acts + [act])[..|acts|] == acts;
  }

  /** The stretches every path is put together from. */
  lemma PathParts(d: Disk, job: Job, a: Attempt)
    ensures
      var (path, e) := Path(d, job, a);
      && |path| >= 2 && path[0..2] == BEGIN
      && (Seen(d, a) ==> |path| == 2)
      && (!Seen(d, a) && !a.known ==> |path| == 3 && path[2..] == [Build(job, NotImplemented(job))])
      && (!Seen(d, a) && a.known ==> |path| >= 5 && path[2..4] == TARGET)
      && (!Seen(d, a) && a.known && Starved(d, job) ==> |path| == 5 && path[4..] == [Build(job, InputMissing(job))])
      && (!Seen(d, a) && a.known && !Starved(d, job) && a.source.Ready? ==> |path| == 11 && path[4..] == EnginePath(job, a))
      && (!Seen(d, a) && a.known && !Starved(d, job) && a.source.NotAvailable? ==>
            |path| == 6 && path[4..] == [Step(Materialize, None), Build(job, Refused(Unavailable, "error", "SOURCE_UNAVAILABLE", a.source.why))])
  {
    hide EnginePath;
  }

  lemma NothingYet(d: Disk, path: seq<Step>)
    requires |path| >= 2 && path[0..2] == BEGIN
    ensures Acts(path[..2]) == [] && ApplyAll(d, Acts(path[..2])) == d
  {
    assert path[..2] == BEGIN && BEGIN[..1][..0] == [];
    assert Acts(BEGIN[..1]) == [];
  }

  lemma SbomKept(d: Disk, path: seq<Step>, k: nat)
    requires k == 4 <= |path| && path[0..2] == BEGIN && path[2..4] == TARGET
    ensures ApplyAll(d, Acts(path[..4])).sbom == d.sbom
    ensures Acts(path[..4]) == [NativeStaged]
  {
    assert path[..4] == BEGIN + TARGET;
    ActsGrow(path, 3, 4);
    ActsGrow(path, 2, 4);
    NothingYet(d, path);
    assert path[2] == TARGET[0] && path[3] == TARGET[1];
    assert Acts(path[..4]) == [] + [NativeStaged] + [];
    SnocApply(d, [], NativeStaged);
    assert [] + [NativeStaged] == [NativeStaged];
  }

  // ---- whole runs: any number of deliveries, one after the other ------------------------

  function DiskAfter(d: Disk, job: Job, attempts: seq<Attempt>): Disk {
    if attempts == [] then d
    else Handle(DiskAfter(d, job, attempts[..|attempts| - 1]), job, attempts[|attempts| - 1]).0
  }

  /** The reply of delivery k. */
  function ReplyTo(d: Disk, job: Job, attempts: seq<Attempt>, k: nat): Reply
    requires k < |attempts|
  {
    Handle(DiskAfter(d, job, attempts[..k]), job, attempts[k]).1
  }

  /** One whole run of the engine, in order, closed by the manifest. */
  function WholeRun(g: Generated, o: Option<string>, e: Envelope): (acts: seq<Act>)
    ensures |acts| == 7
  {
    [NativeStaged, SourceReady, EngineRan(g), OutputOffered(o), EnvelopeBuilt(e), Truncated, Written(e)]
  }

  /** Such a run stands in the trace from place n on, and nothing has touched the manifest since. */
  ghost predicate ClosedAt(trace: seq<Act>, job: Job, e: Envelope, n: nat) {
    && n + 7 <= |trace|
    && (exists g, o :: trace[n..n + 7] == WholeRun(g, o, e) && e == EnvelopeOf(job, g))
    && Untouched(trace[n + 7..])
  }

  ghost predicate Untouched(acts: seq<Act>) {
    forall k :: 0 <= k < |acts| ==> !acts[k].Truncated? && !acts[k].Written?
  }

  /** What holds between deliveries. */
  ghost predicate Inv(d: Disk, job: Job) {
    d.manifest.Complete? ==> Sound(d.manifest.envelope) && exists n :: ClosedAt(d.trace, job, d.manifest.envelope, n)
  }

  lemma {:induction false} ApplyTrace(d: Disk, acts: seq<Act>)
    ensures ApplyAll(d, acts).trace == d.trace + acts
    ensures Untouched(acts) ==> ApplyAll(d, acts).manifest == d.manifest
    decreases |acts|
  {
    if acts != [] {
      var init := acts[..|acts| - 1];
      ApplyTrace(d, init);
      assert acts == init + [acts[|acts| - 1]];
    }
  }

  /** The delivery comes to the engine's part of the job. */
  predicate ComesToEngine(d: Disk, job: Job, a: Attempt) {
    !Seen(d, a) && a.known && !Starved(d, job) && a.source.Ready?
  }

  /** The delivery opens the manifest for writing, whatever was in it. */
  predicate Opens(d: Disk, job: Job, a: Attempt) {
    ComesToEngine(d, job, a) && a.raises <= {WriteOut} && a.life >= 6
  }

  /** What makes a delivery complete the manifest. */
  predicate Completes(d: Disk, job: Job, a: Attempt) {
    ComesToEngine(d, job, a) && a.raises == {} && a.life >= 7
  }

  lemma {:induction false} ActsConcat(a: seq<Step>, b: seq<Step>)
    ensures Acts(a + b) == Acts(a) + Acts(b)
    decreases |b|
  {
    if b == [] {
      assert a + b == a && Acts(a) + [] == Acts(a);
    } else {
      var init, last := b[..|b| - 1], b[|b| - 1];
      assert (a + b)[..|a + b| - 1] == a + init;
      ActsConcat(a, init);
      var act := if last.act.Some? then [last.act.value] else [];
      assert Acts(a) + Acts(init) + act == Acts(a) + (Acts(init) + act);
    }
  }

  lemma OneStep(step: Step)
    ensures Acts([step]) == if step.act.Some? then [step.act.value] else []
  {
    assert [step][..0] == [];
  }

  /** The effects of a path that runs to its end with the engine. */
  function FullActs(job: Job, a: Attempt): (acts: seq<Act>)
    ensures |acts| == 7
  {
    var g := Outcome(job, a);
    WholeRun(g, Offer(job, g, a), EnvelopeOf(job, g))
  }

  lemma {:induction false} PairActs(x: Step, y: Step, acts: seq<Act>)
    requires acts == (if x.act.Some? then [x.act.value] else []) + (if y.act.Some? then [y.act.value] else [])
    ensures Acts([x, y]) == acts
  {
    OneStep(x);
    OneStep(y);
    ActsConcat([x], [y]);
    assert [x] + [y] == [x, y];
  }

  lemma {:induction false} EngineActs(job: Job, a: Attempt)
    ensures Acts(EnginePath(job, a)) == FullActs(job, a)[1..]
  {
    var p := EnginePath(job, a);
    hide Acts, EnginePath, EnvelopeOf, Offer, Timed;
    assert p == [p[0], p[1]] + ([p[2], p[3]] + ([p[4], p[5]] + [p[6]]));
    EngineSteps(job, a);
    PairActs(p[0], p[1], [p[0].act.value]);
    PairActs(p[2], p[3], [p[2].act.value, p[3].act.value]);
    PairActs(p[4], p[5], [p[4].act.value, p[5].act.value]);
    OneStep(p[6]);
    ActsConcat([p[4], p[5]], [p[6]]);
    ActsConcat([p[2], p[3]], [p[4], p[5]] + [p[6]]);
    ActsConcat([p[0], p[1]], [p[2], p[3]] + ([p[4], p[5]] + [p[6]]));
  }

  lemma EngineSteps(job: Job, a: Attempt)
    ensures
      var p, acts := EnginePath(job, a), FullActs(job, a);
      && p[0].act == Some(acts[1]) && p[1].act == None && p[2].act == Some(acts[2]) && p[3].act == Some(acts[3])
      && p[4].act == Some(acts[4]) && p[5].act == Some(acts[5]) && p[6].act == Some(acts[6])
  {
  }

  lemma {:induction false} ActsOfFullPath(d: Disk, job: Job, a: Attempt)
    requires ComesToEngine(d, job, a)
    ensures Acts(Path(d, job, a).0) == FullActs(job, a)
  {
    EngineActs(job, a);
    PairActs(BEGIN[0], BEGIN[1], []);
    PairActs(TARGET[0], TARGET[1], [NativeStaged]);
    assert BEGIN == [BEGIN[0], BEGIN[1]] && TARGET == [TARGET[0], TARGET[1]];
    hide Acts, EnginePath, FullActs;
    ActsConcat(BEGIN, TARGET);
    ActsConcat(BEGIN + TARGET, EnginePath(job, a));
    assert Acts(BEGIN + TARGET) == [NativeStaged];
    StartsStaged(job, a);
  }

  lemma StartsStaged(job: Job, a: Attempt)
    ensures FullActs(job, a) == [NativeStaged] + FullActs(job, a)[1..]
  {
  }

  /** The manifest is touched by nothing but the last two statements of the whole path. */
  lemma {:induction false} TouchedLast(d: Disk, job: Job, a: Attempt, k: nat)
    requires k <= |Path(d, job, a).0| && k < 10
    ensures Untouched(Acts(Path(d, job, a).0[..k]))
  {
    var path := Path(d, job, a).0;
    NothingElseTouches(path[..k]);
  }

  lemma {:induction false} NothingElseTouches(path: seq<Step>)
    requires forall i :: 0 <= i < |path| ==> path[i].act.Some? ==> !path[i].act.value.Written? && !path[i].act.value.Truncated?
    ensures Untouched(Acts(path))
    decreases |path|
  {
    if path != [] {
      NothingElseTouches(path[..|path| - 1]);
    }
  }

  /** The first n effects of the whole path. */
  lemma {:induction false} CutRun(d: Disk, job: Job, a: Attempt, n: nat)
    requires n <= 7
    ensures ApplyAll(d, FullActs(job, a)[..n]).trace == d.trace + FullActs(job, a)[..n]
    ensures ApplyAll(d, FullActs(job, a)[..n]).manifest ==
      if n < 6 then d.manifest else if n == 6 then Torn else Complete(EnvelopeOf(job, Outcome(job, a)))
  {
    var acts := FullActs(job, a);
    ApplyTrace(d, acts[..n]);
    if n == 7 {
      assert acts[..7] == acts[..6] + [acts[6]];
      SnocApply(d, acts[..6], acts[6]);
    } else if n == 6 {
      assert acts[..6] == acts[..5] + [acts[5]];
      SnocApply(d, acts[..5], acts[5]);
    }
  }

  /** Which effects a delivery that comes to the engine has, and what it then replies. */
  lemma {:induction false} EffectsOfEngineRun(d: Disk, job: Job, a: Attempt)
    requires ComesToEngine(d, job, a) && a.raises <= {WriteOut}
    ensures
      var most := if a.raises == {} then 7 else 6;
      Handle(d, job, a) ==
        if a.life > most then (ApplyAll(d, FullActs(job, a)[..most]), if a.raises == {} then Returned(EnvelopeOf(job, Outcome(job, a))) else Raised)
        else (ApplyAll(d, FullActs(job, a)[..a.life]), Died)
  {
    var path, acts := Path(d, job, a).0, FullActs(job, a);
    PathParts(d, job, a);
    ActsOfFullPath(d, job, a);
    ActsGrow(path, 10, 11);
    assert path[..11] == path && path[10].at == WriteOut && acts[..7] == acts;
    assert Acts(path[..10]) == acts[..6];
    if a.raises == {} {
      assert Reach(path, a.raises) == 11;
    } else {
      assert a.raises == {WriteOut};
      assert Reach(path, a.raises) == 10;
      if a.life <= 6 {
        assert acts[..6][..a.life] == acts[..a.life];
      }
    }
  }

  /** What a delivery that opens the manifest leaves in it. */
  function LeftBy(d: Disk, job: Job, a: Attempt): Manifest {
    if Completes(d, job, a) then Complete(EnvelopeOf(job, Outcome(job, a))) else Torn
  }

  /** What one delivery makes of the manifest: it keeps it unless it opens it for writing; then
      it leaves its own envelope, or a torn file if the write fails or the worker dies in it. A
      manifest that can be read is never opened. */
  lemma {:induction false} ManifestAfterExactly(d: Disk, job: Job, a: Attempt)
    ensures Handle(d, job, a).0.manifest == if Opens(d, job, a) then LeftBy(d, job, a) else d.manifest
    ensures Completes(d, job, a) ==> Handle(d, job, a).0.trace == d.trace + FullActs(job, a)
    ensures !Opens(d, job, a) ==> exists acts :: Untouched(acts) && Handle(d, job, a).0.trace == d.trace + acts
  {
    if ComesToEngine(d, job, a) && a.raises <= {WriteOut} {
      EffectsOfEngineRun(d, job, a);
      var most := if a.raises == {} then 7 else 6;
      var n := if a.life > most then most else a.life;
      CutRun(d, job, a, n);
      assert FullActs(job, a)[..7] == FullActs(job, a);
      if !Opens(d, job, a) {
        assert Untouched(FullActs(job, a)[..n]);
      }
    } else {
      NotOpening(d, job, a);
    }
  }

  lemma {:induction false} NotOpening(d: Disk, job: Job, a: Attempt)
    requires !(ComesToEngine(d, job, a) && a.raises <= {WriteOut})
    ensures Handle(d, job, a).0.manifest == d.manifest
    ensures exists acts :: Untouched(acts) && Handle(d, job, a).0.trace == d.trace + acts
  {
    var path := Path(d, job, a).0;
    var k := Reach(path, a.raises);
    var acts := Acts(path[..k]);
    StopsEarly(d, job, a);
    TouchedLast(d, job, a, k);
    var cut := if a.life > |acts| then acts else acts[..a.life];
    assert Untouched(cut);
    hide Acts, Path, ApplyAll;
    ApplyTrace(d, cut);
  }

  lemma {:induction false} StopsEarly(d: Disk, job: Job, a: Attempt)
    requires !(ComesToEngine(d, job, a) && a.raises <= {WriteOut})
    ensures Reach(Path(d, job, a).0, a.raises) < 10
  {
    var path := Path(d, job, a).0;
    PathParts(d, job, a);
    if ComesToEngine(d, job, a) && Reach(path, a.raises) >= 10 {
      OnlyTheWriteRaises(d, job, a);
    }
  }

  /** The whole path comes to every statement. */
  lemma {:induction false} OnlyTheWriteRaises(d: Disk, job: Job, a: Attempt)
    requires ComesToEngine(d, job, a)
    ensures Reach(Path(d, job, a).0, a.raises) >= 10 ==> a.raises <= {WriteOut}
    ensures Reach(Path(d, job, a).0, a.raises) == 11 ==> a.raises == {}
  {
    var path := Path(d, job, a).0;
    PathParts(d, job, a);
    forall st: Statement | Reach(path, a.raises) > Place(st) ensures st !in a.raises {
      assert path[Place(st)].at == st;
    }
  }

  /** Where a statement stands in the whole path. */
  function Place(st: Statement): (i: nat)
    ensures i <= 10 && (st != WriteOut ==> i <= 9)
  {
    match st
    case FromJob => 0 case ReadManifest => 1 case StageNative => 2 case BuildTarget => 3 case Materialize => 4
    case BuildAdapter => 5 case RunEngine => 6 case PublishOutput => 7 case BuildEnvelope => 8 case OpenManifest => 9 case WriteOut => 10
  }

  /** A delivery leaves a readable manifest exactly when it left the one before alone and that was
      readable, or no statement raised and it lived to run the engine, offer the output, build the
      envelope and write it. One that reads the manifest has no effect. */
  lemma {:induction false} CompletesExactly(d: Disk, job: Job, a: Attempt)
    ensures Handle(d, job, a).0.manifest.Complete? <==> Completes(d, job, a) || (d.manifest.Complete? && !Opens(d, job, a))
    ensures Seen(d, a) ==> Handle(d, job, a).0 == d
  {
    ManifestAfterExactly(d, job, a);
    if Seen(d, a) {
      StoredIsKept(d, job, a);
    }
  }

  /** With a manifest that can be read: no effect, and the stored envelope. */
  lemma {:induction false} StoredIsKept(d: Disk, job: Job, a: Attempt)
    requires Seen(d, a)
    ensures Handle(d, job, a) == (d, StoredReply(a, d.manifest.envelope))
  {
    var path := Path(d, job, a).0;
    var k := Reach(path, a.raises);
    assert path == BEGIN;
    NothingElse(k);
    assert Acts(path[..k]) == [];
  }

  lemma NothingElse(k: nat)
    requires k <= 2
    ensures Acts(BEGIN[..k]) == []
  {
    assert BEGIN[..0] == [] && BEGIN[..1][..0] == [] && BEGIN[..2][..1] == BEGIN[..1];
    assert Acts(BEGIN[..1]) == [];
  }

  lemma EnvelopeIsSound(job: Job, g: Generated)
    ensures Sound(EnvelopeOf(job, g))
  {
  }

  lemma {:induction false} HandleKeepsInv(d: Disk, job: Job, a: Attempt)
    requires Inv(d, job)
    ensures Inv(Handle(d, job, a).0, job)
    ensures Handle(d, job, a).1.Returned? ==> Sound(Handle(d, job, a).1.e)
  {
    ManifestAfterExactly(d, job, a);
    PlannedReplyIsSound(d, job, a);
    var t := Handle(d, job, a).0;
    if Completes(d, job, a) {
      EnvelopeIsSound(job, Outcome(job, a));
      RunCloses(d.trace, job, a);
    } else if t.manifest.Complete? {
      var acts :| Untouched(acts) && t.trace == d.trace + acts;
      var n :| ClosedAt(d.trace, job, d.manifest.envelope, n);
      ClosedStays(d.trace, acts, job, d.manifest.envelope, n);
    }
  }

  lemma RunCloses(trace: seq<Act>, job: Job, a: Attempt)
    ensures ClosedAt(trace + FullActs(job, a), job, EnvelopeOf(job, Outcome(job, a)), |trace|)
  {
    var t := trace + FullActs(job, a);
    assert t[|trace|..|trace| + 7] == FullActs(job, a) && t[|trace| + 7..] == [];
  }

  lemma ClosedStays(trace: seq<Act>, acts: seq<Act>, job: Job, e: Envelope, n: nat)
    requires ClosedAt(trace, job, e, n) && Untouched(acts)
    ensures ClosedAt(trace + acts, job, e, n)
  {
    assert (trace + acts)[n..n + 7] == trace[n..n + 7];
    assert (trace + acts)[n + 7..] == trace[n + 7..] + acts;
  }

  lemma PlannedReplyIsSound(d: Disk, job: Job, a: Attempt)
    requires Inv(d, job)
    ensures Plan(d, job, a).1.Returned? ==> Sound(Plan(d, job, a).1.e)
  {
    hide Reach, Acts;
  }

  /** After any deliveries, with deaths anywhere: a readable manifest was written at the end of a
      whole engine run, in order, and nobody has touched it since; every returned envelope is sound. */
  lemma {:induction false} ManifestMeansDone(d: Disk, job: Job, attempts: seq<Attempt>)
    requires Inv(d, job)
    ensures Inv(DiskAfter(d, job, attempts), job)
    ensures forall k :: 0 <= k < |attempts| && ReplyTo(d, job, attempts, k).Returned? ==> Sound(ReplyTo(d, job, attempts, k).e)
    decreases |attempts|
  {
    if attempts != [] {
      var init, last := attempts[..|attempts| - 1], attempts[|attempts| - 1];
      ManifestMeansDone(d, job, init);
      HandleKeepsInv(DiskAfter(d, job, init), job, last);
      forall k | 0 <= k < |attempts| && ReplyTo(d, job, attempts, k).Returned?
        ensures Sound(ReplyTo(d, job, attempts, k).e)
      {
        if k < |init| {
          assert init[..k] == attempts[..k] && ReplyTo(d, job, init, k) == ReplyTo(d, job, attempts, k);
        }
      }
    }
  }

  /** What a delivery that finds the stored envelope replies. */
  function StoredReply(a: Attempt, e: Envelope): Reply {
    if a.life == 0 then Died
    else if FromJob in a.raises || ReadManifest in a.raises then Raised
    else Returned(e)
  }

  /** Nobody opens the manifest in deliveries n, n + 1, ... */
  ghost predicate NobodyOpens(d: Disk, job: Job, attempts: seq<Attempt>, n: nat) {
    forall k :: n <= k < |attempts| ==> !Opens(DiskAfter(d, job, attempts[..k]), job, attempts[k])
  }

  lemma {:induction false} KeptSince(d: Disk, job: Job, attempts: seq<Attempt>, n: nat)
    requires n <= |attempts| && NobodyOpens(d, job, attempts, n)
    ensures DiskAfter(d, job, attempts).manifest == DiskAfter(d, job, attempts[..n]).manifest
    decreases |attempts|
  {
    hide Opens, Completes, Handle;
    if n == |attempts| {
      assert attempts[..n] == attempts;
    } else {
      var init := attempts[..|attempts| - 1];
      forall k | n <= k < |init| ensures !Opens(DiskAfter(d, job, init[..k]), job, init[k]) {
        assert init[..k] == attempts[..k];
      }
      KeptSince(d, job, init, n);
      assert init[..n] == attempts[..n];
      ManifestAfterExactly(DiskAfter(d, job, init), job, attempts[|attempts| - 1]);
    }
  }

  /** After any deliveries the manifest is what the last one that opened it made of it. */
  lemma {:induction false} LastOpenerDecides(d: Disk, job: Job, attempts: seq<Attempt>, k: nat)
    requires k < |attempts| && Opens(DiskAfter(d, job, attempts[..k]), job, attempts[k])
    requires NobodyOpens(d, job, attempts, k + 1)
    ensures DiskAfter(d, job, attempts).manifest == LeftBy(DiskAfter(d, job, attempts[..k]), job, attempts[k])
  {
    hide Opens, Completes, Handle;
    KeptSince(d, job, attempts, k + 1);
    assert attempts[..k + 1][..k] == attempts[..k];
    ManifestAfterExactly(DiskAfter(d, job, attempts[..k]), job, attempts[k]);
  }

  /** What is stored after the first n deliveries stays as long as nobody opens the manifest, and
      only a delivery that could not read it can; whoever can read it has no effect and returns it. */
  lemma {:induction false} StoredResultIsFinal(d: Disk, job: Job, attempts: seq<Attempt>, n: nat, k: nat)
    requires n <= k < |attempts| && DiskAfter(d, job, attempts[..n]).manifest.Complete?
    requires NobodyOpens(d, job, attempts[..k], n)
    ensures
      var s := DiskAfter(d, job, attempts[..k]);
      && s.manifest == DiskAfter(d, job, attempts[..n]).manifest
      && (Opens(s, job, attempts[k]) ==> !attempts[k].readWorks)
      && (attempts[k].readWorks ==>
            DiskAfter(d, job, attempts[..k + 1]) == s && ReplyTo(d, job, attempts, k) == StoredReply(attempts[k], s.manifest.envelope))
  {
    var s := DiskAfter(d, job, attempts[..k]);
    hide Handle, StoredReply, Opens, NobodyOpens, DiskAfter;
    KeptSince(d, job, attempts[..k], n);
    assert attempts[..k][..n] == attempts[..n];
    assert Opens(s, job, attempts[k]) ==> !attempts[k].readWorks by {
      OnlyTheUnreadIsOpened(s, job, attempts[k]);
    }
    if attempts[k].readWorks {
      StoredIsKept(s, job, attempts[k]);
      OneMore(d, job, attempts, k);
    }
  }

  lemma OneMore(d: Disk, job: Job, attempts: seq<Attempt>, k: nat)
    requires k < |attempts|
    ensures DiskAfter(d, job, attempts[..k + 1]) == Handle(DiskAfter(d, job, attempts[..k]), job, attempts[k]).0
  {
    hide Handle;
    assert attempts[..k + 1][..k] == attempts[..k];
  }

  lemma OnlyTheUnreadIsOpened(s: Disk, job: Job, a: Attempt)
    requires s.manifest.Complete?
    ensures Opens(s, job, a) ==> !a.readWorks
  {
  }

  /** A stored result is replaced exactly by a delivery that cannot read it, raises nowhere before
      the write and lives to open the file: while there is none it stays; otherwise the first one
      that opens the file is such a delivery, and the last one decides what is there. */
  lemma {:induction false} ReplacedExactly(d: Disk, job: Job, attempts: seq<Attempt>, n: nat)
    requires n <= |attempts| && DiskAfter(d, job, attempts[..n]).manifest.Complete?
    ensures
      if NobodyOpens(d, job, attempts, n) then DiskAfter(d, job, attempts).manifest == DiskAfter(d, job, attempts[..n]).manifest
      else exists j, k :: (n <= j <= k < |attempts| &&
        Opens(DiskAfter(d, job, attempts[..j]), job, attempts[j]) && NobodyOpens(d, job, attempts[..j], n) && !attempts[j].readWorks &&
        Opens(DiskAfter(d, job, attempts[..k]), job, attempts[k]) && NobodyOpens(d, job, attempts, k + 1) &&
        DiskAfter(d, job, attempts).manifest == LeftBy(DiskAfter(d, job, attempts[..k]), job, attempts[k]))
  {
    hide Opens, Completes, Handle;
    if NobodyOpens(d, job, attempts, n) {
      KeptSince(d, job, attempts, n);
    } else {
      var j := FirstOpener(d, job, attempts, n);
      var k := LastOpener(d, job, attempts, n);
      LastOpenerDecides(d, job, attempts, k);
      StoredResultIsFinal(d, job, attempts, n, j);
    }
  }

  lemma {:induction false} FirstOpener(d: Disk, job: Job, attempts: seq<Attempt>, n: nat) returns (j: nat)
    requires n <= |attempts| && !NobodyOpens(d, job, attempts, n)
    ensures n <= j < |attempts| && Opens(DiskAfter(d, job, attempts[..j]), job, attempts[j])
    ensures NobodyOpens(d, job, attempts[..j], n)
    decreases |attempts|
  {
    hide Opens, Completes, Handle;
    var init := attempts[..|attempts| - 1];
    if n < |attempts| && !NobodyOpens(d, job, init, n) {
      j := FirstOpener(d, job, init, n);
      assert init[..j] == attempts[..j];
    } else {
      j := |attempts| - 1;
      assert forall k :: 0 <= k < j ==> init[..k] == attempts[..k] && init[k] == attempts[k];
      assert attempts[..j] == init;
    }
  }

  lemma {:induction false} LastOpener(d: Disk, job: Job, attempts: seq<Attempt>, n: nat) returns (k: nat)
    requires n <= |attempts| && !NobodyOpens(d, job, attempts, n)
    ensures n <= k < |attempts| && Opens(DiskAfter(d, job, attempts[..k]), job, attempts[k])
    ensures NobodyOpens(d, job, attempts, k + 1)
    decreases |attempts| - n
  {
    hide Opens, Completes, Handle;
    if NobodyOpens(d, job, attempts, n + 1) {
      k := n;
    } else {
      k := LastOpener(d, job, attempts, n + 1);
    }
  }

  /** The statements of the branch a delivery takes. */
  function Branch(d: Disk, job: Job, a: Attempt): seq<Statement> {
    if Seen(d, a) then [FromJob, ReadManifest]
    else if !a.known then [FromJob, ReadManifest, BuildEnvelope]
    else if Starved(d, job) then [FromJob, ReadManifest, StageNative, BuildTarget, BuildEnvelope]
    else if a.source.NotAvailable? then [FromJob, ReadManifest, StageNative, BuildTarget, Materialize, BuildEnvelope]
    else [FromJob, ReadManifest, StageNative, BuildTarget, Materialize, BuildAdapter, RunEngine,
          PublishOutput, BuildEnvelope, OpenManifest, WriteOut]
  }

  /** How many effects the worker must survive to come to a statement of its branch. */
  function EffectsBefore(d: Disk, job: Job, a: Attempt, st: Statement): nat {
    match st
    case FromJob => 0
    case ReadManifest => 0
    case StageNative => 0
    case BuildTarget => 1
    case Materialize => 1
    case BuildAdapter => 2
    case RunEngine => 2
    case PublishOutput => 3
    case BuildEnvelope => if !a.known then 0 else if Starved(d, job) || a.source.NotAvailable? then 1 else 4
    case OpenManifest => 5
    case WriteOut => 6
  }

  lemma {:induction false} BranchIsPath(d: Disk, job: Job, a: Attempt)
    ensures
      var path, branch := Path(d, job, a).0, Branch(d, job, a);
      |path| == |branch| && forall i :: 0 <= i < |path| ==> path[i].at == branch[i]
  {
    PathParts(d, job, a);
    var path := Path(d, job, a).0;
    assert path[0] == path[0..2][0] && path[1] == path[0..2][1];
    if |path| >= 5 {
      assert path[2] == path[2..4][0] && path[3] == path[2..4][1];
    }
    if |path| == 11 {
      hide Path;
      assert forall i :: 4 <= i < 11 ==> path[i] == path[4..][i - 4] == EnginePath(job, a)[i - 4];
    } else if |path| == 6 {
      assert path[4] == path[4..][0] && path[5] == path[4..][1];
    }
  }

  lemma {:induction false} EffectsStep(d: Disk, job: Job, a: Attempt, i: nat)
    requires i < |Path(d, job, a).0| - 1
    ensures
      var path := Path(d, job, a).0;
      EffectsBefore(d, job, a, path[i + 1].at) == EffectsBefore(d, job, a, path[i].at) + if path[i].act.Some? then 1 else 0
  {
    PathParts(d, job, a);
  }

  lemma {:induction false} EffectsOnTheWay(d: Disk, job: Job, a: Attempt, i: nat)
    requires i < |Path(d, job, a).0|
    ensures |Acts(Path(d, job, a).0[..i])| == EffectsBefore(d, job, a, Path(d, job, a).0[i].at)
    decreases i
  {
    var path := Path(d, job, a).0;
    if i == 0 {
      PathParts(d, job, a);
      assert path[0] == path[0..2][0];
    } else {
      EffectsOnTheWay(d, job, a, i - 1);
      EffectsStep(d, job, a, i - 1);
      ActsGrow(path, i - 1, i);
    }
  }

  /** `handle` raises exactly when some statement of its branch raises that the worker lives to
      come to. */
  lemma {:induction false} RaisesExactly(d: Disk, job: Job, a: Attempt)
    ensures Handle(d, job, a).1 == Raised <==>
      exists st :: st in a.raises && st in Branch(d, job, a) && a.life > EffectsBefore(d, job, a, st)
  {
    BranchIsPath(d, job, a);
    hide Acts, Path, ApplyAll, Branch, EffectsBefore;
    var path := Path(d, job, a).0;
    var k := Reach(path, a.raises);
    if k < |path| {
      EffectsOnTheWay(d, job, a, k);
      assert path[k].at in a.raises;
    }
    forall st | st in a.raises && st in Branch(d, job, a) && a.life > EffectsBefore(d, job, a, st)
      ensures k < |path| && a.life > |Acts(path[..k])|
    {
      var i :| 0 <= i < |Branch(d, job, a)| && Branch(d, job, a)[i] == st;
      assert path[i].at == st;
      EffectsOnTheWay(d, job, a, i);
      ActsGrow(path, k, i);
    }
  }

  // ---- what the reply says ------------------------------------------------------------------

  /** How many effects the whole branch has. */
  function EffectsOf(d: Disk, job: Job, a: Attempt): nat {
    if Seen(d, a) then 0
    else if !a.known then 1
    else if Starved(d, job) || a.source.NotAvailable? then 2
    else 7
  }

  /** A delivery is answered exactly when no statement of its branch raises and the worker lives
      through all its effects. */
  lemma {:induction false} ReturnsExactly(d: Disk, job: Job, a: Attempt)
    ensures Handle(d, job, a).1.Returned? <==>
      (forall st :: st in Branch(d, job, a) ==> st !in a.raises) && a.life > EffectsOf(d, job, a)
    ensures Handle(d, job, a).1.Returned? ==> Handle(d, job, a) == (ApplyAll(d, Acts(Path(d, job, a).0)), Returned(Path(d, job, a).1))
  {
    var path := Path(d, job, a).0;
    var last := |path| - 1;
    var k := Reach(path, a.raises);
    BranchIsPath(d, job, a);
    PathParts(d, job, a);
    EffectsOnTheWay(d, job, a, last);
    ActsGrow(path, last, |path|);
    LastEffect(d, job, a);
    hide Acts, Path, ApplyAll;
    assert path[..|path|] == path;
    if forall st :: st in Branch(d, job, a) ==> st !in a.raises {
      assert forall i :: 0 <= i < |path| ==> path[i].at in Branch(d, job, a);
    } else {
      var st :| st in Branch(d, job, a) && st in a.raises;
      var i :| 0 <= i < |path| && Branch(d, job, a)[i] == st;
      assert path[i].at == st;
    }
  }

  lemma {:induction false} LastEffect(d: Disk, job: Job, a: Attempt)
    ensures
      var path := Path(d, job, a).0;
      && |path| > 0
      && EffectsOf(d, job, a) == EffectsBefore(d, job, a, path[|path| - 1].at) + if path[|path| - 1].act.Some? then 1 else 0
  {
    PathParts(d, job, a);
    var path := Path(d, job, a).0;
    if |path| == 11 {
      assert path[10] == path[4..][6];
    }
  }

  predicate Coded(t: Diagnostic) {
    t.severity == "error" && t.code != ""
  }

  predicate Explained(t: Diagnostic) {
    t.severity == "error" && t.message != ""
  }

  /** The first of `ds` that p holds of, by f; or the default. */
  ghost predicate FirstOr(x: string, ds: seq<Diagnostic>, p: Diagnostic -> bool, f: Diagnostic -> string, default: string) {
    if exists k :: 0 <= k < |ds| && p(ds[k])
    then exists k :: 0 <= k < |ds| && p(ds[k]) && x == f(ds[k]) && forall j :: 0 <= j < k ==> !p(ds[j])
    else x == default
  }

  /** The envelope reports g: its status, its counts if it was accepted and else none, its
      diagnostics, its three times or else the clock's, and for a failure or a timeout what the
      first error diagnostics say. */
  ghost predicate Reports(job: Job, g: Generated, clock: Clock, e: Envelope) {
    && e.jobId == job.id && e.engine == job.engine && e.status == g.status && e.diagnostics == g.diagnostics
    && e.counts == (if g.status == Succeeded || g.status == Partial then g.counts else map[])
    && (if g.times.startedAt.Some? && g.times.finishedAt.Some?
        then (e.startedAt, e.finishedAt, e.durationMs) == (g.times.startedAt, g.times.finishedAt, g.times.durationMs)
        else (e.startedAt, e.finishedAt, e.durationMs) == (Some(clock.startedAt), Some(clock.finishedAt), clock.durationMs))
    && match e.error
       case None => g.status != Failed && g.status != Timeout
       case Some(error) =>
         && (g.status == Failed || g.status == Timeout) && (error.retryable <==> g.status == Timeout)
         && FirstOr(error.code, g.diagnostics, Coded, (t: Diagnostic) => t.code, "ENGINE_FAILED")
         && FirstOr(error.message, g.diagnostics, Explained, (t: Diagnostic) => t.message, job.engine + " failed")
  }

  lemma {:induction false} FirstCodeIs(ds: seq<Diagnostic>, default: string)
    requires default != ""
    ensures FirstOr(Or(FirstCode(ds), default), ds, Coded, (t: Diagnostic) => t.code, default)
    decreases |ds|
  {
    if ds != [] && !Coded(ds[0]) {
      FirstCodeIs(ds[1..], default);
      ShiftFirst(Or(FirstCode(ds), default), ds, Coded, (t: Diagnostic) => t.code, default);
    }
  }

  lemma {:induction false} FirstMessageIs(ds: seq<Diagnostic>, default: string)
    requires default != ""
    ensures FirstOr(Or(FirstMessage(ds), default), ds, Explained, (t: Diagnostic) => t.message, default)
    decreases |ds|
  {
    if ds != [] && !Explained(ds[0]) {
      FirstMessageIs(ds[1..], default);
      ShiftFirst(Or(FirstMessage(ds), default), ds, Explained, (t: Diagnostic) => t.message, default);
    }
  }

  lemma ShiftFirst(x: string, ds: seq<Diagnostic>, p: Diagnostic -> bool, f: Diagnostic -> string, default: string)
    requires ds != [] && !p(ds[0]) && FirstOr(x, ds[1..], p, f, default)
    ensures FirstOr(x, ds, p, f, default)
  {
    assert forall k :: 1 <= k < |ds| ==> ds[k] == ds[1..][k - 1];
    if exists k :: 0 <= k < |ds| && p(ds[k]) {
      var k :| 0 <= k < |ds| && p(ds[k]);
      assert p(ds[1..][k - 1]);
      var m :| 0 <= m < |ds[1..]| && p(ds[1..][m]) && x == f(ds[1..][m]) && forall j :: 0 <= j < m ==> !p(ds[1..][j]);
      assert p(ds[m + 1]);
    } else {
      assert forall k :: 0 <= k < |ds[1..]| ==> !p(ds[1..][k]);
    }
  }

  /** A delivery that runs the engine and is answered reports what the engine said, or that its
      adapter raised, stores that very envelope, and leaves for the consuming engine the output
      of an accepted run of an engine that offers it, if the copy works. */
  lemma {:induction false} EngineRunIsReported(d: Disk, job: Job, a: Attempt)
    requires ComesToEngine(d, job, a) && Handle(d, job, a).1.Returned?
    ensures
      var (t, e) := (Handle(d, job, a).0, Handle(d, job, a).1.e);
      && t.manifest == Complete(e)
      && (match a.engine
          case Finished(g) =>
            && Reports(job, g, a.clock, e)
            && t.sbom == if job.offersOutput && (g.status == Succeeded || g.status == Partial) && g.output.Some? && a.publishWorks
                         then g.output else d.sbom
          case AdapterRaised(kind, _) =>
            && e.status == Failed && e.counts == map[] && t.sbom == d.sbom
            && e.diagnostics == [Diagnostic("error", "ADAPTER_EXCEPTION", job.engine + " adapter raised: " + kind)]
            && e.error == Some(Failure("ADAPTER_EXCEPTION", job.engine + " adapter raised: " + kind, false))
            && (e.startedAt, e.finishedAt, e.durationMs) == (Some(a.clock.startedAt), Some(a.clock.finishedAt), a.clock.durationMs))
  {
    ReturnsExactly(d, job, a);
    ManifestAfterExactly(d, job, a);
    EarlyRepliesAreNotStored(d, job, a);
    ActsOfFullPath(d, job, a);
    FullSbom(d, job, a);
    var g := FromEngine(job, a);
    FirstCodeIs(g.diagnostics, "ENGINE_FAILED");
    assert job.engine + " failed" != "" && (job.engine + " adapter raised: ")[|job.engine|] == ' ';
    FirstMessageIs(g.diagnostics, job.engine + " failed");
    PathEnvelope(d, job, a);
    hide Handle, Acts, Path, FullActs, ApplyAll;
  }

  lemma PathEnvelope(d: Disk, job: Job, a: Attempt)
    requires ComesToEngine(d, job, a)
    ensures Path(d, job, a).1 == EnvelopeOf(job, Outcome(job, a))
  {
  }

  lemma {:induction false} FullSbom(d: Disk, job: Job, a: Attempt)
    ensures ApplyAll(d, FullActs(job, a)).sbom == if Offer(job, Outcome(job, a), a).Some? then Offer(job, Outcome(job, a), a) else d.sbom
  {
    var acts := FullActs(job, a);
    hide FullActs, EnvelopeOf, Timed, FromEngine;
    assert acts[..7] == acts && acts[..0] == [];
    ApplyStep(d, acts, 0);
    ApplyStep(d, acts, 1);
    ApplyStep(d, acts, 2);
    ApplyStep(d, acts, 3);
    ApplyStep(d, acts, 4);
    ApplyStep(d, acts, 5);
    ApplyStep(d, acts, 6);
    FullActsAre(job, a);
  }

  lemma FullActsAre(job: Job, a: Attempt)
    ensures
      var acts := FullActs(job, a);
      && acts[0].NativeStaged? && acts[1].SourceReady? && acts[2].EngineRan? && acts[3] == OutputOffered(Offer(job, Outcome(job, a), a))
      && acts[4].EnvelopeBuilt? && acts[5].Truncated? && acts[6].Written?
  {
  }

  lemma ApplyStep(d: Disk, acts: seq<Act>, k: nat)
    requires k < |acts|
    ensures ApplyAll(d, acts[..k + 1]) == Apply(ApplyAll(d, acts[..k]), acts[k])
  {
    assert acts[..k + 1] == acts[..k] + [acts[k]];
    SnocApply(d, acts[..k], acts[k]);
  }

  /** What is answered without running the engine: no counts, no error, no times, one diagnostic. */
  ghost predicate Declines(e: Envelope, job: Job, status: Status, severity: string, code: string) {
    && e.jobId == job.id && e.engine == job.engine && e.status == status
    && e.counts == map[] && e.error.None? && e.startedAt.None? && e.finishedAt.None? && e.durationMs == 0
    && |e.diagnostics| == 1 && e.diagnostics[0].severity == severity && e.diagnostics[0].code == code
  }

  /** An engine this worker does not have and one whose input is missing are skipped; a source that
      is not there is unavailable, with its reason. */
  lemma {:induction false} EarlyRepliesDecline(d: Disk, job: Job, a: Attempt)
    requires !Seen(d, a) && !ComesToEngine(d, job, a) && Handle(d, job, a).1.Returned?
    ensures
      var e := Handle(d, job, a).1.e;
      if !a.known then Declines(e, job, Skipped, "warn", "ENGINE_NOT_IMPLEMENTED")
      else if job.needsSbom && d.sbom.None? then Declines(e, job, Skipped, "warn", "ENGINE_INPUT_MISSING")
      else Declines(e, job, Unavailable, "error", "SOURCE_UNAVAILABLE") && a.source.NotAvailable? && e.diagnostics[0].message == a.source.why
  {
    ReturnsExactly(d, job, a);
    hide Handle, Acts, ApplyAll;
  }

  /** A reply that is no stored one is stored exactly when the engine could be run. Any other leaves
      the manifest alone: a later delivery decides again. */
  lemma {:induction false} EarlyRepliesAreNotStored(d: Disk, job: Job, a: Attempt)
    requires !Seen(d, a) && Handle(d, job, a).1.Returned?
    ensures Handle(d, job, a).0.manifest ==
      if a.known && !Starved(d, job) && a.source.Ready? then Complete(Handle(d, job, a).1.e) else d.manifest
  {
    ManifestAfterExactly(d, job, a);
    if ComesToEngine(d, job, a) {
      PathParts(d, job, a);
      OnlyTheWriteRaises(d, job, a);
      EffectsOfEngineRun(d, job, a);
    }
  }

  /** A manifest write that fails, on a full disk say, raises after the engine has run, and
      leaves a manifest that does not parse, even where a result was stored. */
  lemma {:induction false} FullDiskRaises(d: Disk, job: Job, a: Attempt)
    requires ComesToEngine(d, job, a) && a.raises == {WriteOut} && a.life >= 7
    ensures Handle(d, job, a).1 == Raised && Handle(d, job, a).0.manifest == Torn
  {
    EffectsOfEngineRun(d, job, a);
    ManifestAfterExactly(d, job, a);
  }
}
