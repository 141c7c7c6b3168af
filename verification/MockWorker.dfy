/** workers/_mock/main.go: a second worker behind the same contract. It also publishes the
    result itself, and says by its return value what the dispatcher does with the job. */
module MockWorker {
  import opened Optional

  datatype Behaviour = Succeed | PartialResult | Fail | Flaky | Hang | Crash

  datatype Status = Succeeded | Partial | Failed

  datatype Failure = Failure(code: string, retryable: bool)

  datatype Result = Result(jobId: string, status: Status, components: Option<nat>, licenses: Option<nat>, error: Option<Failure>)

  /** `buildResult`. */
  function BuildResult(jobId: string, b: Behaviour, attempt: nat): Result {
    var ok := Result(jobId, Succeeded, Some(42), Some(7), None);
    match b
    case PartialResult => ok.(status := Partial, components := Some(21))
    case Fail => Result(jobId, Failed, None, None, Some(Failure("ENGINE_MOCK_FAILURE", false)))
    case Flaky => if attempt <= 1 then Result(jobId, Failed, None, None, Some(Failure("ENGINE_MOCK_TRANSIENT", true))) else ok
    case _ => ok
  }

  class Builder {
    var status: Status
    var components: Option<nat>
    var licenses: Option<nat>
    var error: Option<Failure>

    constructor ()
      ensures status == Succeeded && components == Some(42) && licenses == Some(7) && error == None
    {
      status, components, licenses, error := Succeeded, Some(42), Some(7), None;
    }

    /** The switch of `buildResult`, field by field. */
    method Adjust(jobId: string, b: Behaviour, attempt: nat)
      requires status == Succeeded && components == Some(42) && licenses == Some(7) && error == None
      modifies this
      ensures Result(jobId, status, components, licenses, error) == BuildResult(jobId, b, attempt)
    {
      match b {
        case PartialResult =>
          status := Partial;
          components := Some(21);
        case Fail =>
          status := Failed;
          components, licenses := None, None;
          error := Some(Failure("ENGINE_MOCK_FAILURE", false));
        case Flaky =>
          if attempt <= 1 {
            status := Failed;
            components, licenses := None, None;
            error := Some(Failure("ENGINE_MOCK_TRANSIENT", true));
          }
        case _ =>
      }
    }
  }

  /** The envelope rules of the worker contract, of which this worker breaks one. */
  lemma EnvelopeRules(jobId: string, b: Behaviour, attempt: nat)
    ensures
      var r := BuildResult(jobId, b, attempt);
      && (r.components.Some? || r.licenses.Some? ==> r.status == Succeeded || r.status == Partial)
      && (r.error.Some? <==> r.status == Failed)
  {
  }

  /** No result is a timeout, so `retryable` marks one exactly when it is never set: it is set
      for the first attempt of a flaky run and for nothing else. */
  lemma RetryableExactly(jobId: string, b: Behaviour, attempt: nat)
    ensures
      var r := BuildResult(jobId, b, attempt);
      r.error.Some? && r.error.value.retryable <==> b.Flaky? && attempt <= 1
  {
  }

  // ---- handle ------------------------------------------------------------------------

  datatype Manifest = Absent | Torn | Complete(result: Result)

  /** `published`: every result handed to the result stream, in order. */
  datatype World = World(manifest: Manifest, published: seq<Result>)

  /** What the handler returns: nil acks the job, ErrRetry redelivers it, any other error
      terminates it. */
  datatype Reply = Acked | Redeliver | Terminated | Died

  /** What becomes of the manifest write: `writeManifest` may fail before it opens the file. */
  datatype Write = Whole | NotOpened | CutOff

  /** A delivery of a decodable job for this engine: its number, what works (a manifest that
      cannot be read counts as none), and the effect it dies before: 0 before the check, 1 before
      the manifest write, 2 in it, 3 before the publish, 4 before returning, more never. */
  datatype Attempt = Attempt(number: nat, readWorks: bool, write: Write, publishWorks: bool, life: nat)

  function Publish(w: World, r: Result, a: Attempt): (World, Reply) {
    if a.life <= 3 then (w, Died)
    else if !a.publishWorks then (w, if a.life == 4 then Died else Redeliver)
    else (w.(published := w.published + [r]), if a.life == 4 then Died else Acked)
  }

  function Handle(w: World, jobId: string, b: Behaviour, a: Attempt): (World, Reply) {
    if a.life == 0 then (w, Died)
    else if w.manifest.Complete? && a.readWorks then Publish(w, w.manifest.result, a)
    else if b == Crash then (w, Died)
    else if b == Hang then (w, Terminated)
    else if a.life == 1 then (w, Died)
    else
      var r := BuildResult(jobId, b, a.number);
      if a.write == NotOpened then (w, if a.life == 2 then Died else Redeliver)
      else if a.life == 2 then (w.(manifest := Torn), Died)
      else if a.write == CutOff then (w.(manifest := Torn), Redeliver)
      else Publish(w.(manifest := Complete(r)), r, a)
  }

  function After(jobId: string, b: Behaviour, attempts: seq<Attempt>): World {
    if attempts == [] then World(Absent, [])
    else Handle(After(jobId, b, attempts[..|attempts| - 1]), jobId, b, attempts[|attempts| - 1]).0
  }

  // ---- which result is stored, and which are published ----------------------------------

  /** The delivery finds a stored result it can read. */
  predicate Reads(w: World, a: Attempt) {
    w.manifest.Complete? && a.readWorks
  }

  /** It opens the manifest for writing, whatever was in it. */
  predicate Opens(w: World, b: Behaviour, a: Attempt) {
    !Reads(w, a) && b != Crash && b != Hang && a.life >= 2 && a.write != NotOpened
  }

  predicate Completes(w: World, b: Behaviour, a: Attempt) {
    Opens(w, b, a) && a.life >= 3 && a.write == Whole
  }

  predicate Publishes(w: World, b: Behaviour, a: Attempt) {
    (Reads(w, a) || Completes(w, b, a)) && a.life >= 4 && a.publishWorks
  }

  /** The number of the delivery that wrote what the manifest now holds. */
  function Author(jobId: string, b: Behaviour, attempts: seq<Attempt>): Option<nat> {
    if attempts == [] then None
    else
      var init, last := attempts[..|attempts| - 1], attempts[|attempts| - 1];
      if !Opens(After(jobId, b, init), b, last) then Author(jobId, b, init)
      else if Completes(After(jobId, b, init), b, last) then Some(last.number)
      else None
  }

  /** For every publish, in order, the delivery that wrote what is published. */
  function Authors(jobId: string, b: Behaviour, attempts: seq<Attempt>): seq<nat> {
    if attempts == [] then []
    else
      var init, last := attempts[..|attempts| - 1], attempts[|attempts| - 1];
      Authors(jobId, b, init) + if Publishes(After(jobId, b, init), b, last)
        then [Or0(Author(jobId, b, attempts))] else []
  }

  function Or0(n: Option<nat>): nat {
    if n.Some? then n.value else 0
  }

  /** The manifest holds what its last writer built, and everything published is what was stored at
      the time: the result its author built. */
  lemma {:induction false} PublishedIsStored(jobId: string, b: Behaviour, attempts: seq<Attempt>)
    ensures
      var w, author, authors := After(jobId, b, attempts), Author(jobId, b, attempts), Authors(jobId, b, attempts);
      && (w.manifest.Complete? <==> author.Some?)
      && (author.Some? ==> w.manifest.result == BuildResult(jobId, b, author.value))
      && |w.published| == |authors|
      && forall i :: 0 <= i < |authors| ==> w.published[i] == BuildResult(jobId, b, authors[i])
    decreases |attempts|
  {
    if attempts != [] {
      PublishedIsStored(jobId, b, attempts[..|attempts| - 1]);
    }
  }

  /** A delivery that cannot read the stored result and opens the manifest over it. */
  ghost predicate Overwritten(jobId: string, b: Behaviour, attempts: seq<Attempt>) {
    exists k :: 0 <= k < |attempts| && After(jobId, b, attempts[..k]).manifest.Complete?
      && Opens(After(jobId, b, attempts[..k]), b, attempts[k])
  }

  lemma {:induction false} OverwrittenLast(jobId: string, b: Behaviour, attempts: seq<Attempt>)
    requires attempts != [] && !Overwritten(jobId, b, attempts)
    ensures
      var init := attempts[..|attempts| - 1];
      !Overwritten(jobId, b, init) && !(After(jobId, b, init).manifest.Complete? && Opens(After(jobId, b, init), b, attempts[|attempts| - 1]))
  {
    var init := attempts[..|attempts| - 1];
    forall k | 0 <= k < |init|
      ensures !(After(jobId, b, init[..k]).manifest.Complete? && Opens(After(jobId, b, init[..k]), b, init[k]))
    {
      assert init[..k] == attempts[..k];
    }
  }

  /** Unless a stored result is written over, all publishes have the author of the stored one. */
  lemma {:induction false} OneAuthor(jobId: string, b: Behaviour, attempts: seq<Attempt>)
    requires !Overwritten(jobId, b, attempts)
    ensures Author(jobId, b, attempts).None? ==> Authors(jobId, b, attempts) == []
    ensures forall i :: 0 <= i < |Authors(jobId, b, attempts)| ==> Some(Authors(jobId, b, attempts)[i]) == Author(jobId, b, attempts)
    decreases |attempts|
  {
    if attempts != [] {
      var init := attempts[..|attempts| - 1];
      OverwrittenLast(jobId, b, attempts);
      OneAuthor(jobId, b, init);
      PublishedIsStored(jobId, b, init);
      hide Overwritten;
    }
  }

  /** All results a job ever publishes are the same exactly when it is not flaky or what was
      published was written by first attempts only or by later ones only. So they are, and are the
      stored one, unless a stored result that could not be read was written over. */
  lemma {:induction false} OneResultPerJob(jobId: string, b: Behaviour, attempts: seq<Attempt>)
    ensures
      var w, authors := After(jobId, b, attempts), Authors(jobId, b, attempts);
      && ((forall i, j :: 0 <= i < |w.published| && 0 <= j < |w.published| ==> w.published[i] == w.published[j])
          <==> b != Flaky || forall i, j :: 0 <= i < |authors| && 0 <= j < |authors| ==> (authors[i] <= 1 <==> authors[j] <= 1))
      && (!Overwritten(jobId, b, attempts) ==>
            forall i :: 0 <= i < |w.published| ==> w.manifest.Complete? && w.published[i] == w.manifest.result)
  {
    PublishedIsStored(jobId, b, attempts);
    if !Overwritten(jobId, b, attempts) {
      OneAuthor(jobId, b, attempts);
    }
    hide Overwritten, After, Author, Authors;
    var w, authors := After(jobId, b, attempts), Authors(jobId, b, attempts);
    forall i, j | 0 <= i < |authors| && 0 <= j < |authors|
      ensures w.published[i] == w.published[j] <==> b != Flaky || (authors[i] <= 1 <==> authors[j] <= 1)
    {
      SameResult(jobId, b, authors[i], authors[j]);
    }
  }

  lemma SameResult(jobId: string, b: Behaviour, m: nat, n: nat)
    ensures BuildResult(jobId, b, m) == BuildResult(jobId, b, n) <==> b != Flaky || (m <= 1 <==> n <= 1)
  {
  }

  /** One failed read is enough: a flaky job publishes its failure and then a success. */
  lemma TwoResults(jobId: string)
    ensures
      var w := After(jobId, Flaky, [Attempt(1, true, Whole, true, 4), Attempt(2, false, Whole, true, 5)]);
      |w.published| == 2 && w.published[0].status == Failed && w.published[1].status == Succeeded
  {
    var one, two := Attempt(1, true, Whole, true, 4), Attempt(2, false, Whole, true, 5);
    assert [one, two][..1] == [one] && [one][..0] == [];
    var w := Handle(World(Absent, []), jobId, Flaky, one).0;
    assert After(jobId, Flaky, [one]) == w;
  }

  /** A job is acked only after its result was accepted by the result stream. */
  lemma AckedMeansPublished(jobId: string, b: Behaviour, attempts: seq<Attempt>, a: Attempt)
    requires Handle(After(jobId, b, attempts), jobId, b, a).1 == Acked
    ensures
      var w := After(jobId, b, attempts + [a]);
      && w.manifest.Complete? && w.published != []
      && w.published[|w.published| - 1] == w.manifest.result
  {
    assert (attempts + [a])[..|attempts|] == attempts;
  }

  /** What the dispatcher is told. Nothing from a worker that died or crashed on purpose; an ack for
      a result that the stream took; a redelivery if the manifest or the result could not be
      written; a termination for a job that hangs. */
  lemma ReplyExactly(w: World, jobId: string, b: Behaviour, a: Attempt)
    ensures
      var reply := Handle(w, jobId, b, a).1;
      && (reply == Acked <==> Publishes(w, b, a) && a.life >= 5)
      && (reply == Terminated <==> !Reads(w, a) && b == Hang && a.life >= 1)
      && (reply == Redeliver <==>
           || (!Reads(w, a) && b != Crash && b != Hang && a.write != Whole && a.life >= 3)
           || ((Reads(w, a) || Completes(w, b, a)) && !a.publishWorks && a.life >= 5))
  {
  }

  /** What each behaviour reports: components, licenses and the error's code. */
  lemma BehavioursReport(jobId: string, b: Behaviour, attempts: seq<Attempt>, i: nat)
    requires i < |After(jobId, b, attempts).published|
    ensures
      var r, authors := After(jobId, b, attempts).published[i], Authors(jobId, b, attempts);
      && i < |authors| && r.jobId == jobId
      && match b
         case PartialResult => r.status == Partial && r.components == Some(21) && r.licenses == Some(7) && r.error == None
         case Fail => r.status == Failed && r.components == r.licenses == None && r.error == Some(Failure("ENGINE_MOCK_FAILURE", false))
         case Flaky =>
           if authors[i] <= 1
           then r.status == Failed && r.components == r.licenses == None && r.error == Some(Failure("ENGINE_MOCK_TRANSIENT", true))
           else r.status == Succeeded && r.components == Some(42) && r.licenses == Some(7) && r.error == None
         case _ => r.status == Succeeded && r.components == Some(42) && r.licenses == Some(7) && r.error == None
  {
    PublishedIsStored(jobId, b, attempts);
  }

  /** Every published result keeps the envelope rules but one: no result is a timeout, yet the
      one that a flaky job's first attempt stored says it can be retried. */
  lemma PublishedRules(jobId: string, b: Behaviour, attempts: seq<Attempt>, i: nat)
    requires i < |After(jobId, b, attempts).published|
    ensures
      var r, authors := After(jobId, b, attempts).published[i], Authors(jobId, b, attempts);
      && (r.components.Some? || r.licenses.Some? ==> r.status == Succeeded || r.status == Partial)
      && (r.error.Some? <==> r.status == Failed)
      && i < |authors| && (r.error.Some? && r.error.value.retryable <==> b.Flaky? && authors[i] <= 1)
  {
    PublishedIsStored(jobId, b, attempts);
    var number := Authors(jobId, b, attempts)[i];
    EnvelopeRules(jobId, b, number);
    RetryableExactly(jobId, b, number);
  }

  /** A flaky job publishes a success exactly where no first attempt stored what it publishes. If
      nothing is written over, that is decided by the first result stored: once it is the failure,
      every redelivery publishes the failure again. */
  lemma {:induction false} FlakyOutcome(jobId: string, attempts: seq<Attempt>, i: nat)
    requires i < |After(jobId, Flaky, attempts).published|
    ensures
      var w, authors := After(jobId, Flaky, attempts), Authors(jobId, Flaky, attempts);
      && i < |authors| && (w.published[i].status == Succeeded <==> authors[i] > 1)
      && (!Overwritten(jobId, Flaky, attempts) ==> FirstStored(jobId, Flaky, attempts) == Some(authors[i]))
  {
    PublishedIsStored(jobId, Flaky, attempts);
    if !Overwritten(jobId, Flaky, attempts) {
      OneAuthor(jobId, Flaky, attempts);
      AuthorIsFirst(jobId, Flaky, attempts);
    }
  }

  /** The delivery whose manifest write was the first to complete. */
  function FirstStored(jobId: string, b: Behaviour, attempts: seq<Attempt>): Option<nat> {
    if attempts == [] then None
    else
      var init, last := attempts[..|attempts| - 1], attempts[|attempts| - 1];
      var earlier := FirstStored(jobId, b, init);
      if earlier.Some? then earlier
      else if b != Crash && b != Hang && last.life >= 3 && last.write == Whole then Some(last.number)
      else None
  }

  lemma {:induction false} AuthorIsFirst(jobId: string, b: Behaviour, attempts: seq<Attempt>)
    requires !Overwritten(jobId, b, attempts)
    ensures Author(jobId, b, attempts) == FirstStored(jobId, b, attempts)
    decreases |attempts|
  {
    if attempts != [] {
      var init := attempts[..|attempts| - 1];
      OverwrittenLast(jobId, b, attempts);
      AuthorIsFirst(jobId, b, init);
      PublishedIsStored(jobId, b, init);
      hide Overwritten;
    }
  }
}
