/** libs/go-shared/bus/bus.go and workers/sbom/normalize_consumer.py: what becomes of one
    message. A dispatcher decides; the broker redelivers what nobody settled. */
module Delivery {

  const MAX_DELIVER: nat := 4

  /** Seconds before the next attempt, in bus.go and in normalize_consumer.py. */
  const GO_BACKOFF: seq<nat> := [30, 120, 480]
  const PY_BACKOFF: seq<nat> := [10, 30, 90]

  /** What the handler did. `Raised` is a failure the dispatcher does not catch. */
  datatype Outcome = Success | Transient | Permanent | Raised

  /** The delivery count, if the message metadata can be read; uint64 in Go. */
  datatype Meta = Unreadable | Delivered(n: nat)

  datatype Op = DeadLetter | Ack | Term | Nak(step: nat)

  // ---- backoff ---------------------------------------------------------------

  const UINT64_MAX: nat := 0xFFFF_FFFF_FFFF_FFFF

  /** `backoffFor`: an index into the schedule. */
  function GoStep(m: Meta): (i: nat)
    requires m.Delivered? ==> m.n <= UINT64_MAX
    ensures i < |GO_BACKOFF|
  {
    if m.Unreadable? then 0
    else if m.n > |GO_BACKOFF| then |GO_BACKOFF| - 1
    else if m.n == 0 then 0
    else m.n - 1
  }

  /** `_delivery_count`: unreadable metadata counts as the first delivery. */
  function PyCount(m: Meta): int {
    if m.Unreadable? then 1 else m.n
  }

  /** `_backoff_for`, for any Python int. */
  function PyStep(delivered: int): (i: nat)
    ensures i < |PY_BACKOFF|
  {
    if delivered < 1 then 0
    else if delivered > |PY_BACKOFF| then |PY_BACKOFF| - 1
    else delivered - 1
  }

  /** Waits never shrink as the count grows, in both schedules, up to the largest uint64. */
  lemma BackoffIsMonotone(a: nat, b: nat)
    requires a <= b <= UINT64_MAX
    ensures GO_BACKOFF[GoStep(Delivered(a))] <= GO_BACKOFF[GoStep(Delivered(b))]
    ensures PY_BACKOFF[PyStep(a)] <= PY_BACKOFF[PyStep(b)]
    ensures 30 <= GO_BACKOFF[GoStep(Delivered(a))] <= 480
  {
    assert GoStep(Delivered(a)) <= GoStep(Delivered(b)) && PyStep(a) <= PyStep(b);
  }

  /** The schedule, delivery by delivery; metadata that cannot be read count as the first. */
  lemma WaitsExactly(n: nat)
    requires n <= UINT64_MAX
    ensures GO_BACKOFF[GoStep(Delivered(n))] == if n <= 1 then 30 else if n == 2 then 120 else 480
    ensures PY_BACKOFF[PyStep(PyCount(Delivered(n)))] == if n <= 1 then 10 else if n == 2 then 30 else 90
    ensures GO_BACKOFF[GoStep(Unreadable)] == 30 && PY_BACKOFF[PyStep(PyCount(Unreadable))] == 10
  {
  }

  // ---- the two dispatchers ---------------------------------------------------------

  /** Bus.dispatch: the calls it makes on the message if none of them fails. */
  function GoProgram(r: Outcome, m: Meta, hasDlq: bool): seq<Op>
    requires m.Delivered? ==> m.n <= UINT64_MAX
  {
    var dead := if hasDlq then [DeadLetter] else [];
    match r
    case Success => [Ack]
    case Transient => if m.Delivered? && m.n >= MAX_DELIVER then dead + [Ack] else [Nak(GoStep(m))]
    case Permanent => dead + [Term]
    case Raised => []
  }

  /** What `json.loads` and the first `trigger.get` make of the bytes. Nesting and the digits of a
      number are limited by the interpreter. */
  datatype Body = Object | NotJson | NotUtf8 | TooDeep | LongNumber | OtherJson

  /** `_dispatch` of the normalize consumer; only NotJson is caught outside the handler. */
  function PyProgram(body: Body, r: Outcome, m: Meta): seq<Op> {
    var delivered := PyCount(m);
    match body
    case NotJson => [DeadLetter, Term]
    case Object =>
      (match r
       case Success => [Ack]
       case Transient => if delivered >= MAX_DELIVER then [DeadLetter, Ack] else [Nak(PyStep(delivered))]
       case Permanent => [DeadLetter, Term]
       case Raised => [])
    case _ => []
  }

  function SeenAs(body: Body, r: Outcome): Outcome {
    match body
    case Object => r
    case NotJson => Permanent
    case _ => Raised
  }

  /** Both dispatchers decide alike and pick the same place in their schedules, for every
      body, every outcome and every count. */
  lemma DispatchersAgree(body: Body, r: Outcome, m: Meta)
    requires m.Delivered? ==> m.n <= UINT64_MAX
    ensures PyProgram(body, r, m) == GoProgram(SeenAs(body, r), m, true)
  {
  }

  /** The Python dispatcher does nothing at all with a body exactly when it is not UTF-8, is beyond
      the interpreter's limits or is JSON but no object (or the handler's own failure escapes). */
  lemma UnsettledExactly(body: Body, r: Outcome, m: Meta)
    ensures PyProgram(body, r, m) == [] <==> (!body.Object? && !body.NotJson?) || (body.Object? && r.Raised?)
  {
  }

  // ---- dispatch on a message object -----------------------------------------------------

  class Message {
    const meta: Meta
    const ackWorks: bool
    const termWorks: bool
    const publishWorks: bool
    var calls: seq<Op>
    var settled: bool
    var landed: bool

    constructor (meta: Meta, ackWorks: bool, termWorks: bool, publishWorks: bool)
      ensures this.meta == meta && this.ackWorks == ackWorks && this.termWorks == termWorks
      ensures this.publishWorks == publishWorks && calls == [] && !settled && !landed
    {
      this.meta, this.ackWorks, this.termWorks, this.publishWorks := meta, ackWorks, termWorks, publishWorks;
      calls, settled, landed := [], false, false;
    }

    method DoAck()
      modifies `calls, `settled
      ensures calls == old(calls) + [Ack] && settled == (old(settled) || ackWorks)
    {
      calls, settled := calls + [Ack], settled || ackWorks;
    }

    method DoTerm() returns (ok: bool)
      modifies `calls, `settled
      ensures calls == old(calls) + [Term] && settled == (old(settled) || termWorks) && ok == termWorks
    {
      calls, settled, ok := calls + [Term], settled || termWorks, termWorks;
    }

    method DoNak(step: nat)
      modifies `calls
      ensures calls == old(calls) + [Nak(step)]
    {
      calls := calls + [Nak(step)];
    }

    /** A publish that fails is swallowed. */
    method ToDlq(hasDlq: bool)
      modifies `calls, `landed
      ensures calls == old(calls) + (if hasDlq then [DeadLetter] else [])
      ensures landed == (old(landed) || (hasDlq && publishWorks))
    {
      if hasDlq {
        calls, landed := calls + [DeadLetter], landed || publishWorks;
      }
    }

    /** `_dispatch`: the branches in the order the consumer takes them. */
    method PyDispatch(body: Body, r: Outcome)
      modifies this
      ensures calls == old(calls) + PyProgram(body, r, meta)
      ensures settled == (old(settled) || PySettles(body, r, meta, ackWorks, termWorks))
      ensures landed == (old(landed) || (publishWorks && DeadLetter in PyProgram(body, r, meta)))
    {
      var delivered := PyCount(meta);
      if body == NotJson {
        ToDlq(true);
        var _ := DoTerm();
        return;
      }
      if body != Object || r == Raised {
        return;
      }
      if r == Transient {
        if delivered >= MAX_DELIVER {
          ToDlq(true);
          DoAck();
        } else {
          DoNak(PyStep(delivered));
        }
        return;
      }
      if r == Permanent {
        ToDlq(true);
        var _ := DoTerm();
        return;
      }
      DoAck();
    }

    /** The program, and an Ack after a Term that failed. */
    method Dispatch(r: Outcome, hasDlq: bool)
      requires meta.Delivered? ==> meta.n <= UINT64_MAX
      requires !r.Raised?
      modifies this
      ensures calls == old(calls) + GoProgram(r, meta, hasDlq) + (if r == Permanent && !termWorks then [Ack] else [])
      ensures settled == (old(settled) || Settles(r, meta, ackWorks, termWorks))
      ensures landed == (old(landed) || (publishWorks && DeadLetter in GoProgram(r, meta, hasDlq)))
    {
      match r {
        case Success => DoAck();
        case Transient =>
          if meta.Delivered? && meta.n >= MAX_DELIVER {
            ToDlq(hasDlq);
            DoAck();
          } else {
            DoNak(GoStep(meta));
          }
        case Permanent =>
          ToDlq(hasDlq);
          var ok := DoTerm();
          if !ok {
            DoAck();
          }
      }
    }
  }

  /** The Python dispatcher has no second try after a Term that failed. */
  predicate PySettles(body: Body, r: Outcome, m: Meta, ackWorks: bool, termWorks: bool) {
    match SeenAs(body, r)
    case Success => ackWorks
    case Transient => PyCount(m) >= MAX_DELIVER && ackWorks
    case Permanent => termWorks
    case Raised => false
  }

  /** Whatever the Python dispatcher settles the Go one settles too; the converse fails exactly
      for a permanent failure whose Term does not get through while an Ack would. */
  lemma SettleDifference(body: Body, r: Outcome, m: Meta, ackWorks: bool, termWorks: bool)
    requires m.Delivered? ==> m.n <= UINT64_MAX
    ensures PySettles(body, r, m, ackWorks, termWorks) ==> Settles(SeenAs(body, r), m, ackWorks, termWorks)
    ensures PySettles(body, r, m, ackWorks, termWorks) != Settles(SeenAs(body, r), m, ackWorks, termWorks)
       <==> SeenAs(body, r).Permanent? && !termWorks && ackWorks
  {
  }

  predicate Settles(r: Outcome, m: Meta, ackWorks: bool, termWorks: bool) {
    match r
    case Success => ackWorks
    case Transient => m.Delivered? && m.n >= MAX_DELIVER && ackWorks
    case Permanent => termWorks || ackWorks
    case Raised => false
  }

  // ---- whole runs -----------------------------------------------------------------------

  /** Which dispatcher runs: Go's, with or without a dead-letter subject, or Python's. */
  datatype Dispatcher = Go(hasDlq: bool) | Python

  predicate HasDlq(disp: Dispatcher) {
    disp.Python? || disp.hasDlq
  }

  /** The calls it plans. What a body does to the Python dispatcher is in the outcome (`SeenAs`). */
  function Program(disp: Dispatcher, r: Outcome, m: Meta): seq<Op>
    requires m.Delivered? ==> m.n <= UINT64_MAX
  {
    match disp
    case Go(hasDlq) => GoProgram(r, m, hasDlq)
    case Python => PyProgram(Object, r, m)
  }

  function Schedule(disp: Dispatcher): seq<nat> {
    if disp.Go? then GO_BACKOFF else PY_BACKOFF
  }

  /** One delivery: the calls its dispatcher still has to make and has made, and which of these
      got through (`got`). A worker that died has nothing left to do. `settled` and `landed`:
      it took the message out of the queue, or into the dead-letter subject. `clean` until it
      dies or a call of its fails. */
  datatype Worker = Worker(outcome: Outcome, readable: bool, todo: seq<Op>, done: seq<Op>, got: seq<bool>,
                           settled: bool, landed: bool, clean: bool)

  function Starting(r: Outcome, readable: bool, program: seq<Op>): Worker {
    Worker(r, readable, program, [], [], false, false, true)
  }

  /** The n-th delivery is workers[n - 1]; several may be in progress at once. */
  datatype System = System(workers: seq<Worker>, gone: bool)

  datatype Event =
    | Deliver(outcome: Outcome, readable: bool)
    | Perform(worker: nat, works: bool)
    | Die(worker: nat)

  function MetaOf(readable: bool, n: nat): Meta {
    if readable then Delivered(n) else Unreadable
  }

  function Perform1(w: Worker, works: bool, disp: Dispatcher): Worker
    requires w.todo != []
  {
    var op := w.todo[0];
    w.(todo := if op == Term && !works && disp.Go? then [Ack] else w.todo[1..],
       done := w.done + [op],
       got := w.got + [works],
       settled := w.settled || (works && SettlingOp(op)),
       landed := w.landed || (works && op == DeadLetter),
       clean := w.clean && works)
  }

  /** An event that is not possible changes nothing. A settled message is not delivered
      again, nor one delivered MAX_DELIVER times. */
  function Next(s: System, e: Event, disp: Dispatcher): System
    requires |s.workers| <= MAX_DELIVER
  {
    match e
    case Deliver(r, readable) =>
      if s.gone || |s.workers| == MAX_DELIVER then s
      else
        var n := |s.workers| + 1;
        s.(workers := s.workers + [Starting(r, readable, Program(disp, r, MetaOf(readable, n)))])
    case Perform(i, works) =>
      if i >= |s.workers| || s.workers[i].todo == [] then s
      else
        var w := Perform1(s.workers[i], works, disp);
        System(s.workers[i := w], s.gone || w.settled)
    case Die(i) =>
      if i >= |s.workers| || s.workers[i].todo == [] then s
      else s.(workers := s.workers[i := s.workers[i].(todo := [], clean := false)])
  }

  const START := System([], false)

  function After(events: seq<Event>, disp: Dispatcher): (s: System)
    ensures |s.workers| <= MAX_DELIVER
  {
    if events == [] then START
    else Next(After(events[..|events| - 1], disp), events[|events| - 1], disp)
  }

  function ProgramOf(w: Worker, n: nat, disp: Dispatcher): seq<Op>
    requires n <= UINT64_MAX
  {
    Program(disp, w.outcome, MetaOf(w.readable, n))
  }

  predicate SettlingOp(op: Op) {
    op == Ack || op == Term
  }

  /** Whether a call gets through on a message that answers alike each time. */
  predicate Works(op: Op, ackWorks: bool, termWorks: bool, publishWorks: bool) {
    match op
    case Ack => ackWorks
    case Term => termWorks
    case DeadLetter => publishWorks
    case Nak(_) => true
  }

  /** A delivery left to itself until it has nothing to do. */
  function Finish(w: Worker, disp: Dispatcher, ackWorks: bool, termWorks: bool, publishWorks: bool): Worker
    decreases |w.todo|, if w.todo != [] && w.todo[0] == Term then 1 else 0
  {
    if w.todo == [] then w
    else Finish(Perform1(w, Works(w.todo[0], ackWorks, termWorks, publishWorks), disp), disp, ackWorks, termWorks, publishWorks)
  }

  /** A worker of the runs does what the dispatch methods above do. */
  lemma {:induction false} WorkersDispatch(r: Outcome, readable: bool, n: nat, disp: Dispatcher,
                                           ackWorks: bool, termWorks: bool, publishWorks: bool)
    requires n <= UINT64_MAX
    ensures
      var m := MetaOf(readable, n);
      var w := Finish(Starting(r, readable, Program(disp, r, m)), disp, ackWorks, termWorks, publishWorks);
      && w.done == Program(disp, r, m) + (if disp.Go? && r == Permanent && !termWorks then [Ack] else [])
      && (w.settled <==> if disp.Go? then Settles(r, m, ackWorks, termWorks) else PySettles(Object, r, m, ackWorks, termWorks))
      && (w.landed <==> publishWorks && DeadLetter in Program(disp, r, m))
  {
    FinishAll(Starting(r, readable, Program(disp, r, MetaOf(readable, n))), disp, ackWorks, termWorks, publishWorks);
    hide Finish;
  }

  /** At most one dead-letter copy, then at most one other call. */
  lemma FinishAll(w: Worker, disp: Dispatcher, ackWorks: bool, termWorks: bool, publishWorks: bool)
    requires |w.todo| <= 2 && w == Starting(w.outcome, w.readable, w.todo)
    requires |w.todo| > 0 ==> w.todo[|w.todo| - 1] != DeadLetter
    requires |w.todo| == 2 ==> w.todo[0] == DeadLetter
    ensures
      var v := Finish(w, disp, ackWorks, termWorks, publishWorks);
      && v.done == w.todo + (if disp.Go? && Term in w.todo && !termWorks then [Ack] else [])
      && (v.settled <==> (Ack in w.todo && ackWorks) || (Term in w.todo && (termWorks || (disp.Go? && ackWorks))))
      && (v.landed <==> publishWorks && DeadLetter in w.todo)
  {
    hide Finish;
    FinishStep(w, disp, ackWorks, termWorks, publishWorks);
    if |w.todo| == 2 {
      var v := Perform1(w, publishWorks, disp);
      assert v.todo == [w.todo[1]] && v.done == [DeadLetter] && w.todo == [DeadLetter, w.todo[1]];
      LastCall(v, disp, ackWorks, termWorks, publishWorks);
    } else if |w.todo| == 1 {
      LastCall(w, disp, ackWorks, termWorks, publishWorks);
    }
  }

  lemma FinishStep(w: Worker, disp: Dispatcher, ackWorks: bool, termWorks: bool, publishWorks: bool)
    ensures w.todo == [] ==> Finish(w, disp, ackWorks, termWorks, publishWorks) == w
    ensures w.todo != [] ==>
      Finish(w, disp, ackWorks, termWorks, publishWorks)
      == Finish(Perform1(w, Works(w.todo[0], ackWorks, termWorks, publishWorks), disp), disp, ackWorks, termWorks, publishWorks)
  {
  }

  lemma LastCall(w: Worker, disp: Dispatcher, ackWorks: bool, termWorks: bool, publishWorks: bool)
    requires |w.todo| == 1 && !w.settled && w.todo[0] != DeadLetter
    ensures
      var v, retry := Finish(w, disp, ackWorks, termWorks, publishWorks), disp.Go? && w.todo[0] == Term && !termWorks;
      && v.done == w.done + w.todo + (if retry then [Ack] else [])
      && (v.settled <==> (w.todo[0] == Ack && ackWorks) || (w.todo[0] == Term && termWorks) || (retry && ackWorks))
      && (v.landed <==> w.landed)
  {
    hide Finish;
    var v := Perform1(w, Works(w.todo[0], ackWorks, termWorks, publishWorks), disp);
    FinishStep(w, disp, ackWorks, termWorks, publishWorks);
    FinishStep(v, disp, ackWorks, termWorks, publishWorks);
    if v.todo != [] {
      FinishStep(Perform1(v, ackWorks, disp), disp, ackWorks, termWorks, publishWorks);
    }
  }

  /** Every call a delivery may come to make: a Go worker also tries an Ack after a Term that failed. */
  function Longest(w: Worker, n: nat, disp: Dispatcher): seq<Op>
    requires n <= UINT64_MAX
  {
    ProgramOf(w, n, disp) + if disp.Go? && w.outcome.Permanent? then [Ack] else []
  }

  /** Done and left to do are a beginning of those calls, and all of the program while the worker
      is undisturbed; it has settled the message, or copied it, exactly if such a call got through. */
  ghost predicate OnCourse(w: Worker, n: nat, disp: Dispatcher)
    requires n <= UINT64_MAX
  {
    && w.done + w.todo <= Longest(w, n, disp)
    && (w.clean ==> w.done + w.todo == ProgramOf(w, n, disp))
    && Recorded(w)
  }

  ghost predicate Recorded(w: Worker) {
    && |w.got| == |w.done|
    && (w.clean ==> forall k :: 0 <= k < |w.got| ==> w.got[k])
    && (w.settled <==> exists k :: 0 <= k < |w.done| && SettlingOp(w.done[k]) && w.got[k])
    && (w.landed <==> exists k :: 0 <= k < |w.done| && w.done[k] == DeadLetter && w.got[k])
  }

  /** A message is delivered again as long as it is in the queue and was delivered fewer than four
      times, and never else; every delivery starts with its dispatcher's whole program. */
  lemma {:induction false} DeliveredExactly(events: seq<Event>, r: Outcome, readable: bool, disp: Dispatcher)
    ensures
      var s, t := After(events, disp), After(events + [Deliver(r, readable)], disp);
      if s.gone || |s.workers| >= 4 then t == s
      else t.gone == s.gone && |t.workers| == |s.workers| + 1 && t.workers[..|s.workers|] == s.workers
           && t.workers[|s.workers|] == Starting(r, readable, Program(disp, r, MetaOf(readable, |t.workers|)))
  {
    assert (events + [Deliver(r, readable)])[..|events|] == events;
  }

  /** A message that is gone stays gone, and nobody is given it any more. */
  lemma {:induction false} GoneIsFinal(events: seq<Event>, later: seq<Event>, disp: Dispatcher)
    requires After(events, disp).gone
    ensures After(events + later, disp).gone && |After(events + later, disp).workers| == |After(events, disp).workers|
    decreases |later|
  {
    if later == [] {
      assert events + later == events;
    } else {
      var init := later[..|later| - 1];
      assert (events + later)[..|events + later| - 1] == events + init;
      GoneIsFinal(events, init, disp);
    }
  }

  ghost predicate Inv(s: System, disp: Dispatcher) {
    && |s.workers| <= MAX_DELIVER
    && (forall i :: 0 <= i < |s.workers| ==> OnCourse(s.workers[i], i + 1, disp))
    && (s.gone <==> exists i :: 0 <= i < |s.workers| && s.workers[i].settled)
  }

  /** Every program ends with its only settling call, if it has one. */
  lemma ProgramShape(r: Outcome, m: Meta, disp: Dispatcher)
    requires m.Delivered? ==> m.n <= UINT64_MAX
    ensures
      var p := Program(disp, r, m);
      && |p| <= 2 && (forall k :: 0 <= k < |p| - 1 ==> p[k] == DeadLetter)
      && (Term in p ==> r.Permanent?)
      && (p != [] ==> (SettlingOp(p[|p| - 1]) <==> r.Success? || r.Permanent? || (r.Transient? && m.Delivered? && m.n >= MAX_DELIVER)))
      && (p != [] && SettlingOp(p[|p| - 1]) && !r.Success? && HasDlq(disp) ==> |p| == 2 && p[0] == DeadLetter)
  {
  }

  lemma PerformKeepsCourse(w: Worker, n: nat, disp: Dispatcher, works: bool)
    requires n <= UINT64_MAX && w.todo != [] && OnCourse(w, n, disp)
    ensures OnCourse(Perform1(w, works, disp), n, disp)
  {
    hide Program, Recorded;
    PerformKeepsRecord(w, disp, works);
    var longest, v, d := Longest(w, n, disp), Perform1(w, works, disp), |w.done|;
    ProgramShape(w.outcome, MetaOf(w.readable, n), disp);
    assert w.todo[0] == (w.done + w.todo)[d] == longest[d];
    assert v.done + w.todo[1..] == w.done + w.todo;
    if w.todo[0] == Term && !works && disp.Go? {
      assert d == |ProgramOf(w, n, disp)| - 1;
      assert v.done + v.todo <= longest;
    }
  }

  lemma PerformKeepsRecord(w: Worker, disp: Dispatcher, works: bool)
    requires w.todo != [] && Recorded(w)
    ensures Recorded(Perform1(w, works, disp))
  {
    var v, d := Perform1(w, works, disp), |w.done|;
    assert forall k :: 0 <= k < d ==> v.done[k] == w.done[k] && v.got[k] == w.got[k];
    assert v.done[d] == w.todo[0] && v.got[d] == works;
  }

  lemma DeliverKeepsInv(s: System, r: Outcome, readable: bool, disp: Dispatcher)
    requires Inv(s, disp)
    ensures Inv(Next(s, Deliver(r, readable), disp), disp)
  {
    hide Program;
    var t := Next(s, Deliver(r, readable), disp);
    if |t.workers| > |s.workers| {
      var w := t.workers[|s.workers|];
      assert w.done + w.todo == ProgramOf(w, |t.workers|, disp);
      assert forall i :: 0 <= i < |s.workers| ==> t.workers[i] == s.workers[i];
    }
  }

  /** Replacing one worker by one that is on course and still settled if it was. */
  lemma ReplaceKeepsInv(s: System, i: nat, w: Worker, disp: Dispatcher)
    requires Inv(s, disp) && i < |s.workers| && OnCourse(w, i + 1, disp)
    requires s.workers[i].settled ==> w.settled
    ensures Inv(System(s.workers[i := w], s.gone || w.settled), disp)
  {
    hide OnCourse;
    var t := System(s.workers[i := w], s.gone || w.settled);
    assert forall k :: 0 <= k < |s.workers| && k != i ==> t.workers[k] == s.workers[k];
    if s.gone {
      var k :| 0 <= k < |s.workers| && s.workers[k].settled;
      assert t.workers[k].settled;
    }
    assert w.settled ==> t.workers[i].settled;
  }

  lemma NextKeepsInv(s: System, e: Event, disp: Dispatcher)
    requires Inv(s, disp)
    ensures Inv(Next(s, e, disp), disp)
  {
    hide Program;
    match e {
      case Deliver(r, readable) =>
        DeliverKeepsInv(s, r, readable, disp);
      case Perform(i, works) =>
        if i < |s.workers| && s.workers[i].todo != [] {
          PerformKeepsCourse(s.workers[i], i + 1, disp, works);
          ReplaceKeepsInv(s, i, Perform1(s.workers[i], works, disp), disp);
        }
      case Die(i) =>
        if i < |s.workers| && s.workers[i].todo != [] {
          var w := s.workers[i].(todo := [], clean := false);
          DeadStaysOnCourse(s.workers[i], i + 1, disp);
          ReplaceKeepsInv(s, i, w, disp);
        }
    }
  }

  lemma DeadStaysOnCourse(w: Worker, n: nat, disp: Dispatcher)
    requires n <= UINT64_MAX && OnCourse(w, n, disp)
    ensures OnCourse(w.(todo := [], clean := false), n, disp)
  {
    hide Program;
    assert w.done + [] <= w.done + w.todo;
  }

  lemma {:induction false} AlwaysInv(events: seq<Event>, disp: Dispatcher)
    ensures Inv(After(events, disp), disp)
    decreases |events|
  {
    if events != [] {
      AlwaysInv(events[..|events| - 1], disp);
      NextKeepsInv(After(events[..|events| - 1], disp), events[|events| - 1], disp);
    }
  }

  /** Whichever dispatcher runs and whatever is delivered, dies, overlaps or fails: a message
      leaves the queue only after a handler succeeded or, where there is a dead-letter subject,
      after a dead-letter attempt. */
  lemma LeavesOnlyHandledOrDeadLettered(events: seq<Event>, disp: Dispatcher)
    requires HasDlq(disp) && After(events, disp).gone
    ensures exists i :: (0 <= i < |After(events, disp).workers| &&
      (After(events, disp).workers[i].outcome.Success? || DeadLetter in After(events, disp).workers[i].done))
  {
    AlwaysInv(events, disp);
    var s := After(events, disp);
    var i :| 0 <= i < |s.workers| && s.workers[i].settled;
    var w := s.workers[i];
    assert OnCourse(w, i + 1, disp);
    SettledProgram(w, i + 1, disp);
  }

  lemma DoneIsBeginning(w: Worker, n: nat, disp: Dispatcher)
    requires n <= UINT64_MAX && OnCourse(w, n, disp)
    ensures w.done <= Longest(w, n, disp) && |Longest(w, n, disp)| <= 3
    ensures forall k :: 0 <= k < |w.done| ==> w.done[k] == Longest(w, n, disp)[k]
  {
    ProgramShape(w.outcome, MetaOf(w.readable, n), disp);
    hide Program;
    assert forall k :: 0 <= k < |w.done| ==> w.done[k] == (w.done + w.todo)[k] == Longest(w, n, disp)[k];
  }

  lemma SettledProgram(w: Worker, n: nat, disp: Dispatcher)
    requires n <= UINT64_MAX && HasDlq(disp) && OnCourse(w, n, disp) && w.settled
    ensures w.outcome.Success? || DeadLetter in w.done
  {
    var p := ProgramOf(w, n, disp);
    hide Program;
    ProgramShape(w.outcome, MetaOf(w.readable, n), disp);
    var last := |w.done| - 1;
    DoneIsBeginning(w, n, disp);
    if !w.outcome.Success? && last == 0 {
      assert w.done[0] == (p + [Ack])[0];
    }
    assert !w.outcome.Success? ==> w.done[0] == (p + [Ack])[0] == DeadLetter;
  }

  /** Seconds of nak delay one worker asked for. */
  function NakSeconds(done: seq<Op>, schedule: seq<nat>): nat {
    if done == [] then 0
    else NakSeconds(done[..|done| - 1], schedule) + match done[|done| - 1]
      case Nak(step) => if step < |schedule| then schedule[step] else 0
      case _ => 0
  }

  function Naks(done: seq<Op>): nat {
    if done == [] then 0 else Naks(done[..|done| - 1]) + if done[|done| - 1].Nak? then 1 else 0
  }

  function TotalNaks(ws: seq<Worker>): nat {
    if ws == [] then 0 else TotalNaks(ws[..|ws| - 1]) + Naks(ws[|ws| - 1].done)
  }

  function TotalNakSeconds(ws: seq<Worker>, schedule: seq<nat>): nat {
    if ws == [] then 0 else TotalNakSeconds(ws[..|ws| - 1], schedule) + NakSeconds(ws[|ws| - 1].done, schedule)
  }

  /** One delivery naks at most once, for its own step, and not on a readable last delivery. */
  lemma OneNak(w: Worker, n: nat, disp: Dispatcher)
    requires 0 < n <= MAX_DELIVER && OnCourse(w, n, disp) && w.readable
    ensures Naks(w.done) <= 1 && NakSeconds(w.done, Schedule(disp)) <= Schedule(disp)[if n <= 3 then n - 1 else 2]
    ensures n == MAX_DELIVER ==> Naks(w.done) == NakSeconds(w.done, Schedule(disp)) == 0
  {
    var d, schedule := w.done, Schedule(disp);
    DoneIsBeginning(w, n, disp);
    if |d| >= 1 {
      assert Naks(d) == Naks(d[..|d| - 1]) + if d[|d| - 1].Nak? then 1 else 0;
      if |d| >= 2 {
        var e := d[..|d| - 1];
        assert Naks(e) == Naks(e[..|e| - 1]) + if e[|e| - 1].Nak? then 1 else 0;
        assert NakSeconds(e, schedule) == NakSeconds(e[..|e| - 1], schedule);
        if |d| == 3 {
          assert e[..1][..0] == [] && e[..1][0] == d[0];
        }
      }
    }
  }

  ghost predicate AllReadable(ws: seq<Worker>) {
    forall i :: 0 <= i < |ws| ==> ws[i].readable
  }

  /** The most the first n deliveries can wait for: their steps of the schedule. */
  function Budget(n: nat, disp: Dispatcher): nat {
    if n == 0 then 0 else Budget(n - 1, disp) + if n <= 3 then Schedule(disp)[n - 1] else 0
  }

  lemma {:induction false} NakBudgetUpTo(ws: seq<Worker>, disp: Dispatcher)
    requires |ws| <= MAX_DELIVER && AllReadable(ws)
    requires forall i :: 0 <= i < |ws| ==> OnCourse(ws[i], i + 1, disp)
    ensures TotalNaks(ws) <= (if |ws| < 3 then |ws| else 3) && TotalNakSeconds(ws, Schedule(disp)) <= Budget(|ws|, disp)
    decreases |ws|
  {
    if ws != [] {
      NakBudgetUpTo(ws[..|ws| - 1], disp);
      OneNak(ws[|ws| - 1], |ws|, disp);
    }
  }

  /** With readable metadata: at most four deliveries and three naks; 630 seconds of delay in
      Go, 130 in Python. */
  lemma NakBudget(events: seq<Event>, disp: Dispatcher)
    requires AllReadable(After(events, disp).workers)
    ensures
      var ws := After(events, disp).workers;
      |ws| <= MAX_DELIVER && TotalNaks(ws) <= 3 && TotalNakSeconds(ws, Schedule(disp)) <= if disp.Go? then 630 else 130
  {
    AlwaysInv(events, disp);
    var ws := After(events, disp).workers;
    NakBudgetUpTo(ws, disp);
    BudgetUpToFour(disp);
    assert |ws| == 0 || |ws| == 1 || |ws| == 2 || |ws| == 3 || |ws| == 4;
  }

  lemma BudgetUpToFour(disp: Dispatcher)
    ensures Budget(0, disp) <= Budget(1, disp) <= Budget(2, disp) <= Budget(3, disp) == Budget(4, disp)
    ensures Budget(3, disp) == if disp.Go? then 630 else 130
  {
    assert Budget(1, disp) == Schedule(disp)[0];
    assert Budget(2, disp) == Schedule(disp)[0] + Schedule(disp)[1];
  }

  // ---- messages that stay, messages that are lost --------------------------------------------

  /** Delivered for the last time and nobody has anything left to do. */
  predicate Spent(s: System) {
    |s.workers| == MAX_DELIVER && forall i :: 0 <= i < |s.workers| ==> s.workers[i].todo == []
  }

  /** The worker lived to make its call number k, and the call got through. */
  predicate Got(w: Worker, k: nat) {
    k < |w.got| && w.got[k]
  }

  /** The outcome asks for another delivery, or raises. */
  predicate AsksForMore(w: Worker, n: nat) {
    w.outcome.Raised? || (w.outcome.Transient? && !(w.readable && n >= MAX_DELIVER))
  }

  /** One delivery leaves the message in the queue: its outcome asks for another, or its settling
      call, the Ack of a success or what follows the dead-letter copy of a failure, did not get
      through, and in Go neither did the Ack after a Term. */
  predicate Stays(w: Worker, n: nat, disp: Dispatcher) {
    var after := if HasDlq(disp) then 1 else 0;
    match w.outcome
    case Success => !Got(w, 0)
    case Permanent => !Got(w, after) && (disp.Go? ==> !Got(w, after + 1))
    case _ => AsksForMore(w, n) || !Got(w, after)
  }

  /** One delivery leaves nothing behind: a success whose Ack did not get through; a failure to
      be dead-lettered, if there is no subject, the worker died first or the publish failed; or
      an outcome that asks for another delivery. */
  predicate NoArtifact(w: Worker, n: nat, disp: Dispatcher) {
    if w.outcome.Success? then !Got(w, 0)
    else AsksForMore(w, n) || !HasDlq(disp) || !Got(w, 0)
  }

  /** No delivery settled a success and none copied the message to the dead-letter subject. */
  ghost predicate NothingLeft(s: System) {
    forall i :: 0 <= i < |s.workers| ==> !(s.workers[i].outcome.Success? && s.workers[i].settled) && !s.workers[i].landed
  }

  /** The message will not be delivered again and there is nothing to show for it. */
  ghost predicate Vanished(s: System) {
    (s.gone || Spent(s)) && NothingLeft(s)
  }

  /** The calls of a delivery, outcome by outcome. */
  lemma LongestIs(w: Worker, n: nat, disp: Dispatcher)
    requires n <= UINT64_MAX
    ensures
      var dead, p := if HasDlq(disp) then [DeadLetter] else [], Longest(w, n, disp);
      && (w.outcome.Success? ==> p == [Ack])
      && (AsksForMore(w, n) ==> |p| <= 1 && forall k :: 0 <= k < |p| ==> p[k].Nak?)
      && (w.outcome.Transient? && !AsksForMore(w, n) ==> p == dead + [Ack])
      && (w.outcome.Permanent? ==> p == dead + [Term] + if disp.Go? then [Ack] else [])
  {
  }

  /** What a delivery did to the message, call by call. */
  lemma {:induction false} CallsMade(w: Worker, n: nat, disp: Dispatcher)
    requires n <= UINT64_MAX && OnCourse(w, n, disp)
    ensures w.settled <==> MadeA(w, n, disp, 0, true) || MadeA(w, n, disp, 1, true) || MadeA(w, n, disp, 2, true)
    ensures w.landed <==> MadeA(w, n, disp, 0, false) || MadeA(w, n, disp, 1, false) || MadeA(w, n, disp, 2, false)
  {
    DoneIsBeginning(w, n, disp);
    hide Longest;
    assert forall k, settling :: 0 <= k < |w.done| ==>
      (MadeA(w, n, disp, k, settling) <==> (if settling then SettlingOp(w.done[k]) else w.done[k] == DeadLetter) && w.got[k]);
  }

  /** Its call number k got through and was a settling one, or was the dead-letter copy. */
  predicate MadeA(w: Worker, n: nat, disp: Dispatcher, k: nat, settling: bool)
    requires n <= UINT64_MAX
  {
    var calls := Longest(w, n, disp);
    Got(w, k) && k < |calls| && if settling then SettlingOp(calls[k]) else calls[k] == DeadLetter
  }

  lemma {:induction false} CallsDecide(w: Worker, n: nat, disp: Dispatcher)
    requires n <= UINT64_MAX && OnCourse(w, n, disp)
    ensures !w.settled <==> Stays(w, n, disp)
    ensures !(w.outcome.Success? && w.settled) && !w.landed <==> NoArtifact(w, n, disp)
  {
    LongestIs(w, n, disp);
    CallsMade(w, n, disp);
    hide Longest, OnCourse, Got;
  }

  /** What an undisturbed delivery does follows from its outcome alone. */
  lemma {:induction false} CleanDecides(w: Worker, n: nat, disp: Dispatcher)
    requires n <= UINT64_MAX && OnCourse(w, n, disp) && w.clean && w.todo == []
    ensures Stays(w, n, disp) <==> AsksForMore(w, n)
  {
    assert w.done + w.todo == w.done == ProgramOf(w, n, disp);
    assert forall k :: 0 <= k < |w.got| ==> Got(w, k);
  }

  /** After any run, a spent message is still in the queue exactly when every delivery left it
      there, and an undisturbed delivery does exactly when its outcome asks for another. */
  lemma SpentStaysExactly(events: seq<Event>, disp: Dispatcher)
    requires Spent(After(events, disp))
    ensures
      var s := After(events, disp);
      && (!s.gone <==> forall i :: 0 <= i < |s.workers| ==> Stays(s.workers[i], i + 1, disp))
      && (forall i :: 0 <= i < |s.workers| && s.workers[i].clean ==>
            (Stays(s.workers[i], i + 1, disp) <==> AsksForMore(s.workers[i], i + 1)))
  {
    AlwaysInv(events, disp);
    var s := After(events, disp);
    hide OnCourse, Stays;
    forall i | 0 <= i < |s.workers|
      ensures Stays(s.workers[i], i + 1, disp) <==> !s.workers[i].settled
      ensures s.workers[i].clean ==> (Stays(s.workers[i], i + 1, disp) <==> AsksForMore(s.workers[i], i + 1))
    {
      CallsDecide(s.workers[i], i + 1, disp);
      if s.workers[i].clean {
        CleanDecides(s.workers[i], i + 1, disp);
      }
    }
  }

  /** Whichever dispatcher runs, with or without a dead-letter subject: a message that is gone or
      spent has vanished exactly when no delivery left anything behind. */
  lemma VanishesExactly(events: seq<Event>, disp: Dispatcher)
    ensures
      var s := After(events, disp);
      Vanished(s) <==> (s.gone || Spent(s)) && forall i :: 0 <= i < |s.workers| ==> NoArtifact(s.workers[i], i + 1, disp)
  {
    AlwaysInv(events, disp);
    var s := After(events, disp);
    hide OnCourse, NoArtifact;
    forall i | 0 <= i < |s.workers|
      ensures NoArtifact(s.workers[i], i + 1, disp)
         <==> !(s.workers[i].outcome.Success? && s.workers[i].settled) && !s.workers[i].landed
    {
      CallsDecide(s.workers[i], i + 1, disp);
    }
  }

  /** n deliveries that each end in a nak. */
  function Retries(n: nat): seq<Event> {
    if n == 0 then [] else Retries(n - 1) + [Deliver(Transient, true), Perform(n - 1, true)]
  }

  function Nakked(step: nat): Worker {
    Worker(Transient, true, [], [Nak(step)], [true], false, false, true)
  }

  function Retried(n: nat): (ws: seq<Worker>)
    requires n < MAX_DELIVER
    ensures |ws| == n && forall i :: 0 <= i < n ==> ws[i] == Nakked(i)
  {
    if n == 0 then [] else Retried(n - 1) + [Nakked(n - 1)]
  }

  lemma {:induction false} AfterRetries(n: nat, disp: Dispatcher)
    requires n < MAX_DELIVER
    ensures After(Retries(n), disp) == System(Retried(n), false)
    decreases n
  {
    if n > 0 {
      AfterRetries(n - 1, disp);
      AfterTwo(Retries(n - 1), Deliver(Transient, true), Perform(n - 1, true), disp);
      RetriedOnce(Retried(n - 1), n, disp);
    }
  }

  lemma RetriedOnce(was: seq<Worker>, n: nat, disp: Dispatcher)
    requires |was| == n - 1 && 1 <= n < MAX_DELIVER
    ensures Next(Next(System(was, false), Deliver(Transient, true), disp), Perform(n - 1, true), disp)
         == System(was + [Nakked(n - 1)], false)
  {
    assert Program(disp, Transient, MetaOf(true, n)) == [Nak(n - 1)];
    hide Program;
    var d, e := Starting(Transient, true, [Nak(n - 1)]), Nakked(n - 1);
    assert Next(System(was, false), Deliver(Transient, true), disp) == System(was + [d], false);
    assert (was + [d])[n - 1] == d && Perform1(d, true, disp) == e;
    assert (was + [d])[n - 1 := e] == was + [e];
  }

  /** Runs that lose the message. On the last delivery the worker dies before any call: it is
      stuck. The copy to the dead-letter subject fails: it is gone if the Ack gets through, and
      stuck if not. In Go and in Python. */
  lemma SilentLoss(disp: Dispatcher, works: bool)
    requires HasDlq(disp)
    ensures
      var s := After(Retries(3) + [Deliver(Transient, true), Die(3)], disp);
      Vanished(s) && !s.gone
    ensures
      var s := After((Retries(3) + [Deliver(Transient, true), Perform(3, false)]) + [Perform(3, works)], disp);
      Vanished(s) && s.gone == works
  {
    AfterRetries(3, disp);
    AfterTwo(Retries(3), Deliver(Transient, true), Die(3), disp);
    AfterTwo(Retries(3), Deliver(Transient, true), Perform(3, false), disp);
    var most := Retries(3) + [Deliver(Transient, true), Perform(3, false)];
    assert (most + [Perform(3, works)])[..|most|] == most;
    LastDelivery(Retried(3), disp, works);
  }

  lemma LastDelivery(ws: seq<Worker>, disp: Dispatcher, works: bool)
    requires HasDlq(disp) && |ws| == 3 && forall i :: 0 <= i < 3 ==> ws[i] == Nakked(i)
    ensures
      var s := Next(System(ws, false), Deliver(Transient, true), disp);
      && Vanished(Next(s, Die(3), disp)) && !Next(s, Die(3), disp).gone
      && Vanished(Next(Next(s, Perform(3, false), disp), Perform(3, works), disp))
      && Next(Next(s, Perform(3, false), disp), Perform(3, works), disp).gone == works
  {
    var s := Next(System(ws, false), Deliver(Transient, true), disp);
    assert s.workers[3] == Starting(Transient, true, [DeadLetter, Ack]);
    var t := Next(s, Perform(3, false), disp);
    assert t.workers[3].todo == [Ack] && !t.workers[3].settled && !t.workers[3].landed;
    var u := Next(t, Perform(3, works), disp);
    assert u.workers[3].todo == [] && u.workers[3].settled == works && !u.workers[3].landed;
  }

  lemma AfterTwo(events: seq<Event>, a: Event, b: Event, disp: Dispatcher)
    ensures After(events + [a, b], disp) == Next(Next(After(events, disp), a, disp), b, disp)
  {
    var all := events + [a, b];
    assert all[..|all| - 1] == events + [a];
    assert (events + [a])[..|events|] == events;
  }

  /** A trigger the Python dispatcher raises on never leaves the queue and never reaches the
      dead-letter subject, whatever happens. */
  lemma {:induction false} RaisingMessageVanishes(events: seq<Event>, disp: Dispatcher)
    requires forall k :: 0 <= k < |events| && events[k].Deliver? ==> events[k].outcome.Raised?
    ensures
      var s := After(events, disp);
      !s.gone && forall i :: 0 <= i < |s.workers| ==> s.workers[i].done == [] && s.workers[i].todo == []
    decreases |events|
  {
    if events != [] {
      var init := events[..|events| - 1];
      assert forall k :: 0 <= k < |init| ==> init[k] == events[k];
      RaisingMessageVanishes(init, disp);
    }
  }
}
