/** workers/sbom/dbsync.py: `provision` downloads an engine database and stamps it last. The
    provisioner may die before any of its effects, the ones inside a download included. */
module DbSync {

  /** A file other than the stamp, in the order `find` lists them. */
  datatype File = File(size: nat, readable: bool)

  /** A stamp cut off while being written resolves to no database, like none. */
  datatype Stamp = Absent | Torn | Stamped

  datatype Disk = Disk(files: seq<File>, stamp: Stamp)

  datatype Spec = Spec(okExitCodes: set<int>, needsCredential: bool, staged: bool)

  /** What one run meets. `leftover`: what a wipe whose errors are ignored leaves behind.
      `chmods`: which files the chmod pass really opens up. `life`: effects before it dies. */
  datatype Run = Run(
    pinned: bool, leftover: seq<File>, credentialSet: bool, ran: bool, exit: int, written: seq<File>, copied: bool,
    chmods: nat -> bool, life: nat)

  datatype Act = RemoveStamp | RemoveTree(leftover: seq<File>) | Fetch(f: File) | OpenUp | StampOpened | StampWritten

  /** `_downloaded_bytes`: everything except the stamp. */
  function Payload(files: seq<File>): nat {
    if files == [] then 0 else Payload(files[..|files| - 1]) + files[|files| - 1].size
  }

  method DownloadedBytes(files: seq<File>) returns (total: nat)
    ensures total == Payload(files)
    ensures total > 0 <==> exists i :: 0 <= i < |files| && files[i].size > 0
  {
    total := 0;
    for i := 0 to |files|
      invariant total == Payload(files[..i])
      invariant total > 0 <==> exists j :: 0 <= j < i && files[j].size > 0
    {
      assert files[..i + 1][..i] == files[..i];
      total := total + files[i].size;
    }
    assert files[..|files|] == files;
  }

  function Opened(files: seq<File>, chmods: nat -> bool): (r: seq<File>)
    ensures |r| == |files|
    ensures forall i :: 0 <= i < |files| ==> r[i] == files[i].(readable := files[i].readable || chmods(i))
  {
    seq(|files|, i requires 0 <= i < |files| => files[i].(readable := files[i].readable || chmods(i)))
  }

  /** `_readable_as_scan_user`: a byte of the first file is read as the scan uid. */
  predicate FirstReadable(files: seq<File>) {
    files != [] && files[0].readable
  }

  function Apply(d: Disk, act: Act, run: Run): Disk {
    match act
    case RemoveStamp => d.(stamp := Absent)
    case RemoveTree(leftover) => d.(files := leftover)
    case Fetch(f) => d.(files := d.files + [f])
    case OpenUp => d.(files := Opened(d.files, run.chmods))
    case StampOpened => d.(stamp := Torn)
    case StampWritten => d.(stamp := Stamped)
  }

  function ApplyAll(d: Disk, acts: seq<Act>, run: Run): Disk {
    if acts == [] then d else Apply(ApplyAll(d, acts[..|acts| - 1], run), acts[|acts| - 1], run)
  }

  function Fetches(files: seq<File>): (acts: seq<Act>)
    ensures |acts| == |files| && forall i :: 0 <= i < |files| ==> acts[i] == Fetch(files[i])
  {
    seq(|files|, i requires 0 <= i < |files| => Fetch(files[i]))
  }

  function Wipe(run: Run, force: bool): seq<Act> {
    if force then [RemoveStamp, RemoveTree(run.leftover)] else []
  }

  /** The files that were there when the download began. */
  function Base(d: Disk, run: Run, force: bool): seq<File> {
    if force then run.leftover else d.files
  }

  predicate ExitOk(spec: Spec, run: Run) {
    run.ran && run.exit in spec.okExitCodes
  }

  /** A bind-mounted download writes as it goes; a staged one is copied out at the end, if at all. */
  function Arriving(spec: Spec, run: Run): seq<File> {
    if spec.needsCredential && !run.credentialSet && !spec.staged then []
    else if spec.staged && !(ExitOk(spec, run) && run.copied) then []
    else run.written
  }

  predicate Downloaded(spec: Spec, run: Run) {
    && !(spec.needsCredential && !run.credentialSet && !spec.staged)
    && ExitOk(spec, run) && (spec.staged ==> run.copied)
  }

  /** All effects of a run that lives, and whether it reports success. */
  function Plan(d: Disk, spec: Spec, run: Run, force: bool): (seq<Act>, bool) {
    if !run.pinned then ([], false)
    else
      var arrived := Wipe(run, force) + Fetches(Arriving(spec, run));
      var files := Base(d, run, force) + Arriving(spec, run);
      if !Downloaded(spec, run) || Payload(files) == 0 then (arrived, false)
      else if !FirstReadable(Opened(files, run.chmods)) then (arrived + [OpenUp], false)
      else (arrived + [OpenUp, StampOpened, StampWritten], true)
  }

  /** Where a run that dies after `life` effects leaves the directory. */
  function Provisioned(d: Disk, spec: Spec, run: Run, force: bool): Disk {
    var acts := Plan(d, spec, run, force).0;
    ApplyAll(d, if run.life < |acts| then acts[..run.life] else acts, run)
  }

  lemma ApplySnoc(d: Disk, acts: seq<Act>, act: Act, run: Run)
    ensures ApplyAll(d, acts + [act], run) == Apply(ApplyAll(d, acts, run), act, run)
  {
    assert (acts + [act])[..|acts|] == acts;
  }

  lemma {:induction false} FetchAll(d: Disk, pre: seq<Act>, files: seq<File>, run: Run)
    ensures ApplyAll(d, pre + Fetches(files), run)
         == Disk(ApplyAll(d, pre, run).files + files, ApplyAll(d, pre, run).stamp)
    decreases |files|
  {
    if files == [] {
      assert pre + Fetches(files) == pre;
      assert ApplyAll(d, pre, run).files + [] == ApplyAll(d, pre, run).files;
    } else {
      var init, last := files[..|files| - 1], files[|files| - 1];
      FetchAll(d, pre, init, run);
      ApplySnoc(d, pre + Fetches(init), Fetch(last), run);
      assert pre + Fetches(files) == pre + Fetches(init) + [Fetch(last)];
      assert ApplyAll(d, pre, run).files + init + [last] == ApplyAll(d, pre, run).files + files;
    }
  }

  lemma {:induction false} AfterWipe(d: Disk, run: Run, force: bool)
    ensures ApplyAll(d, Wipe(run, force), run) == Disk(Base(d, run, force), if force then Absent else d.stamp)
  {
    if force {
      ApplySnoc(d, [], RemoveStamp, run);
      ApplySnoc(d, [RemoveStamp], RemoveTree(run.leftover), run);
      assert [] + [RemoveStamp] == [RemoveStamp];
      assert [RemoveStamp] + [RemoveTree(run.leftover)] == Wipe(run, force);
    }
  }

  /** Everything short of the stamp leaves the directory unstamped, if it starts so or is forced. */
  lemma {:induction false} UnstampedBefore(d: Disk, acts: seq<Act>, run: Run)
    requires forall i :: 0 <= i < |acts| ==> !acts[i].StampWritten?
    ensures ApplyAll(d, acts, run).stamp == Stamped ==> d.stamp == Stamped
    ensures acts != [] && acts[0].RemoveStamp? ==> ApplyAll(d, acts, run).stamp != Stamped
    decreases |acts|
  {
    if acts != [] {
      var init := acts[..|acts| - 1];
      UnstampedBefore(d, init, run);
      assert |init| > 0 ==> init[0] == acts[0];
    }
  }

  /** The evidence a stamp stands for. */
  predicate Evidence(d: Disk, spec: Spec, run: Run, force: bool) {
    var files := Base(d, run, force) + Arriving(spec, run);
    run.pinned && Downloaded(spec, run) && Payload(files) > 0 && FirstReadable(Opened(files, run.chmods))
  }

  /** A run that starts unstamped or forced, and may die anywhere, leaves a stamp exactly when it
      had all the evidence and lived to write it, or when a forced run never came to removing
      the old one; with the evidence, the directory holds what was checked. */
  lemma {:induction false} StampedExactly(d: Disk, spec: Spec, run: Run, force: bool)
    requires d.stamp != Stamped || force
    ensures
      var acts := Plan(d, spec, run, force).0;
      Provisioned(d, spec, run, force).stamp == Stamped <==>
        (Evidence(d, spec, run, force) && run.life >= |acts|) || (d.stamp == Stamped && (!run.pinned || run.life == 0))
    ensures Evidence(d, spec, run, force) && run.life >= |Plan(d, spec, run, force).0| ==>
      var files := Provisioned(d, spec, run, force).files;
      Payload(files) > 0 && FirstReadable(files)
  {
    var (acts, ok) := Plan(d, spec, run, force);
    if Evidence(d, spec, run, force) && run.life >= |acts| {
      EvidenceRun(d, spec, run, force);
    } else {
      var cut := if run.life < |acts| then acts[..run.life] else acts;
      assert |cut| > 0 && force ==> cut[0].RemoveStamp?;
      UnstampedBefore(d, cut, run);
    }
  }

  lemma {:induction false} EvidenceRun(d: Disk, spec: Spec, run: Run, force: bool)
    requires Evidence(d, spec, run, force)
    ensures
      var files := Base(d, run, force) + Arriving(spec, run);
      ApplyAll(d, Plan(d, spec, run, force).0, run) == Disk(Opened(files, run.chmods), Stamped)
      && Payload(Opened(files, run.chmods)) == Payload(files)
  {
    var arrived := Wipe(run, force) + Fetches(Arriving(spec, run));
    var files := Base(d, run, force) + Arriving(spec, run);
    AfterWipe(d, run, force);
    FetchAll(d, Wipe(run, force), Arriving(spec, run), run);
    assert Plan(d, spec, run, force).0 == arrived + [OpenUp, StampOpened, StampWritten];
    SameSizes(files, Opened(files, run.chmods));
    hide Plan, Arriving, Wipe, Evidence, Payload, Fetches;
    LastThree(d, arrived, run);
  }

  lemma {:induction false} LastThree(d: Disk, arrived: seq<Act>, run: Run)
    ensures ApplyAll(d, arrived + [OpenUp, StampOpened, StampWritten], run)
         == Disk(Opened(ApplyAll(d, arrived, run).files, run.chmods), Stamped)
  {
    ApplySnoc(d, arrived, OpenUp, run);
    ApplySnoc(d, arrived + [OpenUp], StampOpened, run);
    ApplySnoc(d, arrived + [OpenUp] + [StampOpened], StampWritten, run);
    assert arrived + [OpenUp, StampOpened, StampWritten] == arrived + [OpenUp] + [StampOpened] + [StampWritten];
  }

  lemma {:induction false} SameSizes(a: seq<File>, b: seq<File>)
    requires |a| == |b| && forall i :: 0 <= i < |a| ==> a[i].size == b[i].size
    ensures Payload(a) == Payload(b)
    decreases |a|
  {
    if a != [] {
      SameSizes(a[..|a| - 1], b[..|b| - 1]);
    }
  }

  // ---- what a stamp does not say ------------------------------------------------------------

  lemma {:induction false} PayloadConcat(a: seq<File>, b: seq<File>)
    ensures Payload(a + b) == Payload(a) + Payload(b)
    decreases |b|
  {
    if b == [] {
      assert a + b == a;
    } else {
      assert (a + b)[..|a + b| - 1] == a + b[..|b| - 1];
      PayloadConcat(a, b[..|b| - 1]);
    }
  }

  /** Whether every stamped run over this base downloaded something itself. */
  ghost predicate StampMeansDownloaded(base: seq<File>) {
    forall d: Disk, spec, run, force :: Base(d, run, force) == base && Evidence(d, spec, run, force) ==> Payload(Arriving(spec, run)) > 0
  }

  /** The evidence, written out: the image is pinned, the container ran and exited well, the
      credential was there unless the download is staged, a staged one was copied out, some file is
      not empty, and the first file can be read after the chmod pass. */
  lemma {:induction false} EvidenceExactly(d: Disk, spec: Spec, run: Run, force: bool)
    ensures Evidence(d, spec, run, force) <==>
      var files := (if force then run.leftover else d.files) + run.written;
      && run.pinned && run.ran && run.exit in spec.okExitCodes
      && (spec.staged || !spec.needsCredential || run.credentialSet) && (spec.staged ==> run.copied)
      && (exists i :: 0 <= i < |files| && files[i].size > 0) && files != [] && (files[0].readable || run.chmods(0))
  {
    var files := Base(d, run, force) + Arriving(spec, run);
    HasBytes(files);
    assert run.pinned && Downloaded(spec, run) ==> Arriving(spec, run) == run.written;
  }

  lemma {:induction false} HasBytes(files: seq<File>)
    ensures Payload(files) > 0 <==> exists i :: 0 <= i < |files| && files[i].size > 0
    decreases |files|
  {
    if files != [] {
      var init := files[..|files| - 1];
      HasBytes(init);
      assert forall i :: 0 <= i < |init| ==> init[i] == files[i];
    }
  }

  /** Success is reported exactly by a run that has the evidence and lives to write the stamp. */
  lemma SucceededExactly(d: Disk, spec: Spec, run: Run, force: bool)
    ensures
      var reply := ReplyOf(d, spec, run, force);
      && (reply == Succeeded ==> Evidence(d, spec, run, force) && Provisioned(d, spec, run, force).stamp == Stamped)
      && (Evidence(d, spec, run, force) ==>
           (reply == Succeeded <==> run.life >= (if force then 2 else 0) + |run.written| + 3))
      && (reply == Refused ==> !Evidence(d, spec, run, force))
  {
    if Evidence(d, spec, run, force) {
      EvidenceRun(d, spec, run, force);
    }
  }

  /** What a run that is alive at the end and has failed leaves: nothing of a staged download that
      failed or was not copied, or that lacks its credential; else all that was written. */
  lemma {:induction false} LeftByFailure(d: Disk, spec: Spec, run: Run, force: bool)
    requires run.pinned && !Downloaded(spec, run) && run.life >= |Plan(d, spec, run, force).0|
    ensures Provisioned(d, spec, run, force).files == (if force then run.leftover else d.files) +
      (if spec.staged || (spec.needsCredential && !run.credentialSet) then [] else run.written)
    ensures Provisioned(d, spec, run, force).stamp == if force then Absent else d.stamp
  {
    AfterWipe(d, run, force);
    FetchAll(d, Wipe(run, force), Arriving(spec, run), run);
    assert Fetches([]) == [];
  }

  /** The size check counts what is there, not what came. Evidence implies a non-empty download
      exactly when the directory held no bytes before it: a wipe that silently left files, or
      the remains of a failed run, can pass for a database. */
  lemma {:induction false} DownloadedExactly(base: seq<File>)
    ensures StampMeansDownloaded(base) <==> Payload(base) == 0
  {
    forall d: Disk, spec, run, force | Base(d, run, force) == base && Evidence(d, spec, run, force) && Payload(base) == 0
      ensures Payload(Arriving(spec, run)) > 0
    {
      PayloadConcat(base, Arriving(spec, run));
    }
    if Payload(base) > 0 {
      var spec := Spec({0}, false, false);
      var run := Run(true, [], true, true, 0, [], true, (i: nat) => true, 9);
      var d := Disk(base, Absent);
      assert base + [] == base;
      assert Base(d, run, false) == base && Arriving(spec, run) == [];
      assert base != [];
      assert Evidence(d, spec, run, false);
    }
  }

  /** Without force, a directory that was stamped stays stamped through any failed download. */
  lemma {:induction false} OldStampOutlivesFailure(d: Disk, spec: Spec, run: Run)
    requires d.stamp == Stamped && !Evidence(d, spec, run, false)
    ensures Provisioned(d, spec, run, false).stamp == Stamped
  {
    var acts := Plan(d, spec, run, false).0;
    StampUntouched(d, if run.life < |acts| then acts[..run.life] else acts, run);
  }

  lemma {:induction false} StampUntouched(d: Disk, acts: seq<Act>, run: Run)
    requires forall i :: 0 <= i < |acts| ==> acts[i].Fetch? || acts[i].OpenUp?
    ensures ApplyAll(d, acts, run).stamp == d.stamp
    decreases |acts|
  {
    if acts != [] {
      StampUntouched(d, acts[..|acts| - 1], run);
    }
  }

  /** The directory of a run that stamped is readable as a whole exactly when every file in it
      was readable or really opened up by the chmod pass; the check itself sees to the first only. */
  lemma {:induction false} AllReadableExactly(d: Disk, spec: Spec, run: Run, force: bool)
    requires Evidence(d, spec, run, force) && run.life >= |Plan(d, spec, run, force).0|
    ensures
      var after, before := Provisioned(d, spec, run, force).files, Base(d, run, force) + Arriving(spec, run);
      && (AllReadable(after) <==> forall i :: 0 <= i < |before| ==> before[i].readable || run.chmods(i))
      && FirstReadable(after)
  {
    EvidenceRun(d, spec, run, force);
  }

  /** Whatever the chmod pass does in it, a run that lives and stamps leaves a readable directory. */
  ghost predicate StampMeansReadable(d: Disk, spec: Spec, run: Run, force: bool) {
    forall r: Run :: r == run.(chmods := r.chmods) && Evidence(d, spec, r, force) ==>
      AllReadable(Provisioned(d, spec, r, force).files)
  }

  /** Of a download that passes the checks before the chmod pass, the stamp says that all can be
      read exactly when every file but the first could be read anyway. */
  lemma {:induction false} StampMeansReadableExactly(d: Disk, spec: Spec, run: Run, force: bool)
    requires run.pinned && Downloaded(spec, run) && Payload(Base(d, run, force) + Arriving(spec, run)) > 0
    requires run.life >= |Wipe(run, force)| + |Arriving(spec, run)| + 3
    ensures
      var before := Base(d, run, force) + Arriving(spec, run);
      StampMeansReadable(d, spec, run, force) <==> forall i :: 1 <= i < |before| ==> before[i].readable
  {
    var before := Base(d, run, force) + Arriving(spec, run);
    ChmodDecides(d, spec, run, run.(chmods := (i: nat) => i == 0), force);
    hide Evidence, Provisioned, AllReadable, Arriving, Downloaded, Payload, Base, Wipe;
    forall r: Run | r == run.(chmods := r.chmods) && Evidence(d, spec, r, force)
      ensures AllReadable(Provisioned(d, spec, r, force).files)
         <==> forall i :: 0 <= i < |before| ==> before[i].readable || r.chmods(i)
      ensures before[0].readable || r.chmods(0)
    {
      ChmodDecides(d, spec, run, r, force);
    }
  }

  lemma {:induction false} ChmodDecides(d: Disk, spec: Spec, run: Run, r: Run, force: bool)
    requires run.pinned && Downloaded(spec, run) && Payload(Base(d, run, force) + Arriving(spec, run)) > 0
    requires run.life >= |Wipe(run, force)| + |Arriving(spec, run)| + 3 && r == run.(chmods := r.chmods)
    ensures
      var before := Base(d, run, force) + Arriving(spec, run);
      && before != []
      && (Evidence(d, spec, r, force) <==> before[0].readable || r.chmods(0))
      && (Evidence(d, spec, r, force) ==>
            (AllReadable(Provisioned(d, spec, r, force).files) <==> forall i :: 0 <= i < |before| ==> before[i].readable || r.chmods(i)))
  {
    if Evidence(d, spec, r, force) {
      assert Base(d, r, force) == Base(d, run, force) && Arriving(spec, r) == Arriving(spec, run);
      AllReadableExactly(d, spec, r, force);
    }
    hide AllReadable, Provisioned, Plan, Wipe;
  }

  ghost predicate AllReadable(files: seq<File>) {
    forall i :: 0 <= i < |files| ==> files[i].readable
  }

  /** One file is looked at: a stamped directory may hold files the scan uid cannot read. */
  lemma {:induction false} OnlyFirstFileChecked()
    ensures
      var run := Run(true, [], true, true, 0, [File(1, true), File(1, false)], true, (i: nat) => false, 9);
      var d := Provisioned(Disk([], Absent), Spec({0}, false, false), run, false);
      d.stamp == Stamped && |d.files| == 2 && !d.files[1].readable
  {
    var written := [File(1, true), File(1, false)];
    var run := Run(true, [], true, true, 0, written, true, (i: nat) => false, 9);
    var d, spec := Disk([], Absent), Spec({0}, false, false);
    assert [] + written == written && Payload(written[..1]) == 1;
    assert Evidence(d, spec, run, false);
    EvidenceRun(d, spec, run, false);
  }

  // ---- provision, statement by statement -------------------------------------------------------

  datatype Reply = Succeeded | Refused | Died

  function ReplyOf(d: Disk, spec: Spec, run: Run, force: bool): Reply {
    if run.life < |Plan(d, spec, run, force).0| then Died
    else if Evidence(d, spec, run, force) then Succeeded else Refused
  }

  class Directory {
    var disk: Disk
    var life: nat

    constructor (disk: Disk, life: nat)
      ensures this.disk == disk && this.life == life
    {
      this.disk, this.life := disk, life;
    }

    /** k effects happened and the provisioner is alive. */
    ghost predicate Reached(d: Disk, acts: seq<Act>, run: Run, k: nat)
      reads this
    {
      k <= |acts| && k <= run.life && life == run.life - k && disk == ApplyAll(d, acts[..k], run)
    }

    /** One effect, unless it is dead by then. */
    method Do(act: Act, run: Run, ghost d: Disk, ghost acts: seq<Act>, ghost k: nat) returns (alive: bool)
      requires k < |acts| && acts[k] == act && Reached(d, acts, run, k)
      modifies this
      ensures alive == (run.life > k)
      ensures alive ==> Reached(d, acts, run, k + 1)
      ensures !alive ==> disk == ApplyAll(d, acts[..run.life], run)
    {
      assert acts[..k + 1] == acts[..k] + [act];
      ApplySnoc(d, acts[..k], act, run);
      alive := life > 0;
      if alive {
        life := life - 1;
        disk := Apply(disk, act, run);
      }
    }

    /** All effects happened, or it died before one of them. */
    ghost predicate Over(d: Disk, acts: seq<Act>, run: Run, reply: Reply)
      reads this
    {
      if reply.Died? then run.life < |acts| && disk == ApplyAll(d, acts[..run.life], run)
      else Reached(d, acts, run, |acts|)
    }

    /** The wipe and the download. */
    method WipeAndFetch(spec: Spec, run: Run, force: bool, ghost d: Disk, ghost acts: seq<Act>) returns (alive: bool)
      requires run.pinned && acts == Plan(d, spec, run, force).0 && Reached(d, acts, run, 0)
      modifies this
      ensures alive ==> Reached(d, acts, run, |Wipe(run, force)| + |Arriving(spec, run)|)
      ensures !alive ==> Over(d, acts, run, Died)
    {
      PlanStart(d, spec, run, force);
      hide Plan, Arriving, ApplyAll, Apply;
      if force {
        alive := Do(RemoveStamp, run, d, acts, 0);
        if !alive {
          return;
        }
        alive := Do(RemoveTree(run.leftover), run, d, acts, 1);
        if !alive {
          return;
        }
      }
      var arriving := Arriving(spec, run);
      for i := 0 to |arriving|
        invariant Reached(d, acts, run, |Wipe(run, force)| + i)
      {
        alive := Do(Fetch(arriving[i]), run, d, acts, |Wipe(run, force)| + i);
        if !alive {
          return;
        }
      }
      alive := true;
    }

    /** `provision`. */
    method Provision(spec: Spec, run: Run, force: bool) returns (reply: Reply)
      requires life == run.life
      modifies this
      ensures disk == Provisioned(old(disk), spec, run, force) && reply == ReplyOf(old(disk), spec, run, force)
    {
      ghost var d := disk;
      ghost var acts := Plan(d, spec, run, force).0;
      if !run.pinned {
        return Refused;
      }
      var alive := WipeAndFetch(spec, run, force, d, acts);
      if !alive {
        return Died;
      }
      assert acts[..|acts|] == acts;
      if !Downloaded(spec, run) {
        return Refused;
      }
      reply := CheckAndStamp(spec, run, force, d, acts);
    }

    /** What follows a download that worked. */
    method CheckAndStamp(spec: Spec, run: Run, force: bool, ghost d: Disk, ghost acts: seq<Act>) returns (reply: Reply)
      requires run.pinned && Downloaded(spec, run) && acts == Plan(d, spec, run, force).0
      requires Reached(d, acts, run, |Wipe(run, force)| + |Arriving(spec, run)|)
      modifies this
      ensures Over(d, acts, run, reply)
      ensures !reply.Died? ==> (reply.Succeeded? <==> Evidence(d, spec, run, force))
    {
      ghost var k := |Wipe(run, force)| + |Arriving(spec, run)|;
      ghost var files := Base(d, run, force) + Arriving(spec, run);
      PlanEnd(d, spec, run, force);
      FilesArrived(d, spec, run, force, acts);
      hide Plan, Arriving, ApplyAll, Wipe, Base, Opened, Payload, Downloaded;
      var payload := DownloadedBytes(disk.files);
      if payload == 0 {
        return Refused;
      }
      var alive := Do(OpenUp, run, d, acts, k);
      if !alive {
        return Died;
      }
      FilesOpened(d, acts, k, run);
      if !FirstReadable(disk.files) {
        return Refused;
      }
      alive := Do(StampOpened, run, d, acts, k + 1);
      if !alive {
        return Died;
      }
      alive := Do(StampWritten, run, d, acts, k + 2);
      reply := if alive then Succeeded else Died;
    }
  }

  /** The plan of a pinned run begins with the wipe and the fetches. */
  lemma {:induction false} PlanStart(d: Disk, spec: Spec, run: Run, force: bool)
    requires run.pinned
    ensures
      var acts, n := Plan(d, spec, run, force).0, |Wipe(run, force)|;
      && |acts| >= n + |Arriving(spec, run)|
      && (force ==> n == 2 && acts[0] == RemoveStamp && acts[1] == RemoveTree(run.leftover))
      && (!force ==> n == 0)
    ensures forall i :: 0 <= i < |Arriving(spec, run)| ==>
      Plan(d, spec, run, force).0[|Wipe(run, force)| + i] == Fetch(Arriving(spec, run)[i])
  {
    hide Arriving;
    var arrived := Wipe(run, force) + Fetches(Arriving(spec, run));
    assert arrived <= Plan(d, spec, run, force).0;
    forall i | 0 <= i < |Arriving(spec, run)|
      ensures Plan(d, spec, run, force).0[|Wipe(run, force)| + i] == Fetch(Arriving(spec, run)[i])
    {
      assert arrived[|Wipe(run, force)| + i] == Fetches(Arriving(spec, run))[i];
    }
  }

  /** How the plan goes on once the download worked. */
  lemma {:induction false} PlanEnd(d: Disk, spec: Spec, run: Run, force: bool)
    requires run.pinned && Downloaded(spec, run)
    ensures
      var acts, k := Plan(d, spec, run, force).0, |Wipe(run, force)| + |Arriving(spec, run)|;
      var files := Base(d, run, force) + Arriving(spec, run);
      if Payload(files) == 0 then |acts| == k
      else if !FirstReadable(Opened(files, run.chmods)) then |acts| == k + 1 && acts[k] == OpenUp
      else |acts| == k + 3 && acts[k] == OpenUp && acts[k + 1] == StampOpened && acts[k + 2] == StampWritten
  {
    hide Arriving, Payload;
    var arrived := Wipe(run, force) + Fetches(Arriving(spec, run));
    assert arrived <= Plan(d, spec, run, force).0;
  }

  lemma {:induction false} FilesOpened(d: Disk, acts: seq<Act>, k: nat, run: Run)
    requires k < |acts| && acts[k] == OpenUp
    ensures ApplyAll(d, acts[..k + 1], run).files == Opened(ApplyAll(d, acts[..k], run).files, run.chmods)
  {
    assert acts[..k + 1] == acts[..k] + [OpenUp];
    ApplySnoc(d, acts[..k], OpenUp, run);
  }

  lemma {:induction false} FilesArrived(d: Disk, spec: Spec, run: Run, force: bool, acts: seq<Act>)
    requires run.pinned && Downloaded(spec, run) && acts == Plan(d, spec, run, force).0
    ensures
      var k := |Wipe(run, force)| + |Arriving(spec, run)|;
      k <= |acts| && ApplyAll(d, acts[..k], run).files == Base(d, run, force) + Arriving(spec, run)
  {
    var k := |Wipe(run, force)| + |Arriving(spec, run)|;
    AfterWipe(d, run, force);
    FetchAll(d, Wipe(run, force), Arriving(spec, run), run);
    assert acts[..k] == Wipe(run, force) + Fetches(Arriving(spec, run));
  }
}
