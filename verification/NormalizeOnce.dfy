/** workers/sbom/normalize_consumer.py: `handle_trigger` under overlapping redeliveries. The
    pre-check is a courtesy; the unique insert of the header row is what decides. */
module NormalizeOnce {
  import opened Optional
  import opened Text
  import Delivery

  // ---- load_artifacts -------------------------------------------------------------------

  /** What reading and parsing an artifact file meets: nesting and the digits of a number are
      limited by the interpreter, and a path cannot hold a NUL. */
  datatype FileRead = Parsed(payload: string) | NotReadable | NotJson | NotUtf8 | TooDeep | LongNumber | BadPath

  /** A failure that is neither an OSError nor a JSONDecodeError. */
  predicate Uncaught(r: FileRead) {
    r.NotUtf8? || r.TooDeep? || r.LongNumber? || r.BadPath?
  }

  /** One engine of a trigger, with its native output if it has one. */
  datatype Engine = Engine(id: string, status: string, native: Option<FileRead>)

  datatype Artifact = Artifact(engine: string, payload: Option<string>, status: string)

  /** An engine's artifact; a failure of any other kind raises. */
  function ArtifactOf(e: Engine): Option<Artifact> {
    match e.native
    case None => Some(Artifact(e.id, None, Or(e.status, "unavailable")))
    case Some(NotReadable) => Some(Artifact(e.id, None, "failed"))
    case Some(NotJson) => Some(Artifact(e.id, None, "failed"))
    case Some(Parsed(p)) => Some(Artifact(e.id, Some(p), Or(e.status, "succeeded")))
    case Some(_) => None
  }

  /** `load_artifacts`: one artifact for every engine, in order, unless a file raises. */
  method LoadArtifacts(engines: seq<Engine>) returns (out: Option<seq<Artifact>>)
    ensures out.None? <==> exists i :: 0 <= i < |engines| && engines[i].native.Some? && Uncaught(engines[i].native.value)
    ensures out.Some? ==> |out.value| == |engines|
    ensures out.Some? ==> forall i :: 0 <= i < |engines| ==> ArtifactOf(engines[i]) == Some(out.value[i]) && Honest(engines[i], out.value[i])
  {
    var all: seq<Artifact> := [];
    for i := 0 to |engines|
      invariant |all| == i && forall j :: 0 <= j < i ==> ArtifactOf(engines[j]) == Some(all[j])
    {
      var a := ArtifactOf(engines[i]);
      if a.None? {
        return None;
      }
      all := all + [a.value];
    }
    forall i | 0 <= i < |engines| ensures !(engines[i].native.Some? && Uncaught(engines[i].native.value)) {
      assert ArtifactOf(engines[i]).Some?;
    }
    forall i | 0 <= i < |engines| ensures Honest(engines[i], all[i]) {
      ArtifactIsHonest(engines[i]);
    }
    out := Some(all);
  }

  /** The artifact is that engine's. What could be parsed comes through, with the engine's own status
      if it has one; what could not is a failure whatever the engine claimed; and an engine without
      an output keeps its status or is unavailable. So nothing unread is a success not claimed. */
  predicate Honest(e: Engine, a: Artifact) {
    && a.engine == e.id
    && (a.payload.Some? <==> e.native.Some? && e.native.value.Parsed?)
    && (a.payload.Some? ==> e.native == Some(Parsed(a.payload.value)) && a.status == (if e.status != "" then e.status else "succeeded"))
    && (a.payload.None? && e.native.Some? ==> a.status == "failed")
    && (e.native.None? ==> a.status == (if e.status != "" then e.status else "unavailable"))
    && (a.payload.None? && e.status != "succeeded" ==> a.status != "succeeded")
  }

  lemma ArtifactIsHonest(e: Engine)
    requires ArtifactOf(e).Some?
    ensures Honest(e, ArtifactOf(e).value)
  {
    assert |"unavailable"| == 11 && |"succeeded"| == 9 && |"failed"| == 6;
  }

  // ---- consumers racing for a row ------------------------------------------------------------

  /** The unique key of normalize.bom_documents; the type is always SBOM here. */
  datatype Key = Key(scan: string, version: int)

  datatype Why = AlreadyThere | Wrote | RefusedByCap | Raised | Died

  datatype Pc = Idle | Missing | Ready | Writing | Ended(why: Why)

  /** Rows committed per key, who is inserting one in an open transaction, and where each
      delivery stands. */
  datatype State = State(rows: map<Key, nat>, inserting: map<Key, nat>, pcs: seq<Pc>)

  datatype Finish = Commit | CommitUnseen | Refuse | Fail

  datatype Event =
    | Check(i: nat, works: bool)
    | Prepare(i: nat, works: bool)
    | InsertHeader(i: nat)
    | End(i: nat, how: Finish)
    | Die(i: nat)

  function Rows(s: State, k: Key): nat {
    if k in s.rows then s.rows[k] else 0
  }

  function At(s: State, i: nat, pc: Pc): State
    requires i < |s.pcs|
  {
    s.(pcs := s.pcs[i := pc])
  }

  function Without(m: map<Key, nat>, k: Key): map<Key, nat> {
    m - {k}
  }

  /** One step of delivery i of the trigger for keys[i]. The check fails if it, or reading the
      trigger before it, raises. An insert waits while another
      transaction holds the key; what cannot happen changes nothing. */
  function Next(keys: seq<Key>, s: State, e: Event): (t: State)
    requires |s.pcs| == |keys|
    ensures |t.pcs| == |keys|
  {
    if e.i >= |keys| then s
    else
      var i, k := e.i, keys[e.i];
      var pc := s.pcs[i];
      match e
      case Check(_, works) =>
        if !pc.Idle? then s
        else At(s, i, if !works then Ended(Raised) else if Rows(s, k) > 0 then Ended(AlreadyThere) else Missing)
      case Prepare(_, works) => if !pc.Missing? then s else At(s, i, if works then Ready else Ended(Raised))
      case InsertHeader(_) =>
        if !pc.Ready? then s
        else if Rows(s, k) > 0 then At(s, i, Ended(Raised))
        else if k in s.inserting then s
        else At(s, i, Writing).(inserting := s.inserting[k := i])
      case End(_, how) =>
        if !pc.Writing? then s
        else
          var freed := s.(inserting := Without(s.inserting, k));
          (match how
           case Commit => At(freed, i, Ended(Wrote)).(rows := s.rows[k := Rows(s, k) + 1])
           case CommitUnseen => At(freed, i, Ended(Raised)).(rows := s.rows[k := Rows(s, k) + 1])
           case Refuse => At(freed, i, Ended(RefusedByCap))
           case Fail => At(freed, i, Ended(Raised)))
      case Die(_) =>
        if pc.Ended? then s
        else At(s, i, Ended(Died)).(inserting := if pc.Writing? then Without(s.inserting, k) else s.inserting)
  }

  function Run(keys: seq<Key>, s: State, events: seq<Event>): (t: State)
    requires |s.pcs| == |keys|
    ensures |t.pcs| == |keys|
    decreases |events|
  {
    if events == [] then s else Run(keys, Next(keys, s, events[0]), events[1..])
  }

  function Start(n: nat): (s: State)
    ensures |s.pcs| == n && s.rows == map[] && s.inserting == map[] && forall i :: 0 <= i < n ==> s.pcs[i] == Idle
  {
    State(map[], map[], seq(n, i => Idle))
  }

  /** A key has at most one row, and none while its inserter is still writing. */
  ghost predicate KeyOk(keys: seq<Key>, s: State, k: Key) {
    && Rows(s, k) <= 1
    && (k in s.inserting ==> s.inserting[k] < |keys| == |s.pcs| && keys[s.inserting[k]] == k
                             && s.pcs[s.inserting[k]].Writing? && Rows(s, k) == 0)
  }

  /** A writer holds its key; whoever found or wrote a row can rely on it. */
  ghost predicate DeliveryOk(keys: seq<Key>, s: State, i: nat)
    requires i < |keys| == |s.pcs|
  {
    && (s.pcs[i].Writing? ==> keys[i] in s.inserting && s.inserting[keys[i]] == i)
    && (s.pcs[i] == Ended(AlreadyThere) || s.pcs[i] == Ended(Wrote) ==> Rows(s, keys[i]) == 1)
  }

  ghost predicate Inv(keys: seq<Key>, s: State) {
    && |s.pcs| == |keys|
    && (forall k {:trigger KeyOk(keys, s, k)} :: KeyOk(keys, s, k))
    && (forall i {:trigger DeliveryOk(keys, s, i)} :: 0 <= i < |keys| ==> DeliveryOk(keys, s, i))
  }

  lemma {:induction false} NextKeepsKey(keys: seq<Key>, s: State, e: Event, k: Key)
    requires Inv(keys, s)
    ensures KeyOk(keys, Next(keys, s, e), k) && Rows(s, k) <= Rows(Next(keys, s, e), k)
  {
    assert KeyOk(keys, s, k);
    if e.i < |keys| {
      assert DeliveryOk(keys, s, e.i) && KeyOk(keys, s, keys[e.i]);
    }
  }

  lemma {:induction false} NextKeepsDelivery(keys: seq<Key>, s: State, e: Event, i: nat)
    requires Inv(keys, s) && i < |keys|
    ensures DeliveryOk(keys, Next(keys, s, e), i)
  {
    assert DeliveryOk(keys, s, i) && KeyOk(keys, s, keys[i]);
    if e.i < |keys| {
      assert DeliveryOk(keys, s, e.i) && KeyOk(keys, s, keys[e.i]);
    }
  }

  lemma {:induction false} NextKeepsInv(keys: seq<Key>, s: State, e: Event)
    requires Inv(keys, s)
    ensures Inv(keys, Next(keys, s, e))
  {
    hide Next, KeyOk, DeliveryOk;
    var t := Next(keys, s, e);
    forall k ensures KeyOk(keys, t, k) {
      NextKeepsKey(keys, s, e, k);
    }
    forall i | 0 <= i < |keys| ensures DeliveryOk(keys, t, i) {
      NextKeepsDelivery(keys, s, e, i);
    }
  }

  lemma {:induction false} RunKeepsInv(keys: seq<Key>, s: State, events: seq<Event>)
    requires Inv(keys, s)
    ensures Inv(keys, Run(keys, s, events))
    decreases |events|
  {
    if events != [] {
      NextKeepsInv(keys, s, events[0]);
      RunKeepsInv(keys, Next(keys, s, events[0]), events[1..]);
    }
  }

  // ---- what the dispatcher then does ------------------------------------------------------------

  /** How a finished delivery looks to `_dispatch`. Nothing here asks for a retry. */
  function OutcomeOf(why: Why): Delivery.Outcome {
    match why
    case AlreadyThere => Delivery.Success
    case Wrote => Delivery.Success
    case RefusedByCap => Delivery.Success
    case Raised => Delivery.Permanent
    case Died => Delivery.Raised
  }

  function Calls(why: Why, m: Delivery.Meta): seq<Delivery.Op> {
    Delivery.PyProgram(Delivery.Object, OutcomeOf(why), m)
  }

  // ---- dead-lettered although the row is there ---------------------------------------------------

  /** Where everybody stands before event a. */
  function Before(keys: seq<Key>, events: seq<Event>, a: nat): (s: State)
    requires a <= |events|
    ensures |s.pcs| == |keys|
  {
    Run(keys, Start(|keys|), events[..a])
  }

  /** Event a ends delivery i in this way: its check finds a row; it commits, and hears of it; a cap
      refuses it while it is writing; it dies; or in an exception: its check or its preparation
      fails, its insert meets a row, or its transaction fails or commits unseen. */
  predicate EndsAt(keys: seq<Key>, events: seq<Event>, a: nat, i: nat, why: Why)
    requires a < |events| && i < |keys|
  {
    EndsBy(keys, Before(keys, events, a), events[a], i, why)
  }

  predicate EndsBy(keys: seq<Key>, s: State, e: Event, i: nat, why: Why)
    requires |s.pcs| == |keys| && i < |keys|
  {
    var pc := s.pcs[i];
    && e.i == i
    && match why
       case AlreadyThere => e.Check? && e.works && pc.Idle? && Rows(s, keys[i]) > 0
       case Wrote => e.End? && e.how.Commit? && pc.Writing?
       case RefusedByCap => e.End? && e.how.Refuse? && pc.Writing?
       case Died => e.Die? && !pc.Ended?
       case Raised =>
         || (e.Check? && !e.works && pc.Idle?) || (e.Prepare? && !e.works && pc.Missing?)
         || (e.InsertHeader? && pc.Ready? && Rows(s, keys[i]) > 0)
         || (e.End? && (e.how.CommitUnseen? || e.how.Fail?) && pc.Writing?)
  }

  /** Event a ends delivery i in an exception. */
  predicate RaisesAt(keys: seq<Key>, events: seq<Event>, a: nat, i: nat)
    requires a < |events| && i < |keys|
  {
    EndsAt(keys, events, a, i, Raised)
  }

  /** Event b commits a row for k. */
  predicate CommitsAt(keys: seq<Key>, events: seq<Event>, b: nat, k: Key)
    requires b < |events|
  {
    var e := events[b];
    e.End? && e.i < |keys| && keys[e.i] == k && Before(keys, events, b).pcs[e.i].Writing? && (e.how.Commit? || e.how.CommitUnseen?)
  }

  /** Event c is delivery i's check, and finds nothing. */
  predicate MissesAt(keys: seq<Key>, events: seq<Event>, c: nat, i: nat)
    requires c < |events| && i < |keys|
  {
    events[c] == Check(i, true) && Before(keys, events, c).pcs[i].Idle? && Rows(Before(keys, events, c), keys[i]) == 0
  }

  lemma {:induction false} BeforeNext(keys: seq<Key>, events: seq<Event>, a: nat)
    requires a < |events|
    ensures Before(keys, events, a + 1) == Next(keys, Before(keys, events, a), events[a])
  {
    assert events[..a + 1] == events[..a] + [events[a]];
    RunConcat(keys, Start(|keys|), events[..a], [events[a]]);
    var s := Before(keys, events, a);
    assert [events[a]][1..] == [];
    assert Run(keys, s, [events[a]]) == Run(keys, Next(keys, s, events[a]), []);
  }

  ghost predicate EndedInException(keys: seq<Key>, events: seq<Event>, n: nat, i: nat)
    requires n <= |events| && i < |keys|
  {
    exists a :: 0 <= a < n && RaisesAt(keys, events, a, i)
  }

  ghost predicate EndedBy(keys: seq<Key>, events: seq<Event>, n: nat, i: nat, why: Why)
    requires n <= |events| && i < |keys|
  {
    exists a :: 0 <= a < n && EndsAt(keys, events, a, i, why)
  }

  ghost predicate Committed(keys: seq<Key>, events: seq<Event>, n: nat, k: Key)
    requires n <= |events|
  {
    exists b :: 0 <= b < n && CommitsAt(keys, events, b, k)
  }

  /** One more event: the status of a delivery, the rows of a key, and what they go back to. */
  lemma {:induction false} OneEvent(keys: seq<Key>, events: seq<Event>, n: nat, i: nat)
    requires n < |events| && i < |keys|
    ensures
      var s, t := Before(keys, events, n), Before(keys, events, n + 1);
      && (t.pcs[i] == Ended(Raised) <==> s.pcs[i] == Ended(Raised) || RaisesAt(keys, events, n, i))
      && (Rows(t, keys[i]) > 0 <==> Rows(s, keys[i]) > 0 || CommitsAt(keys, events, n, keys[i]))
      && (t.pcs[i].Missing? || t.pcs[i].Ready? || t.pcs[i].Writing? ==>
            s.pcs[i].Missing? || s.pcs[i].Ready? || s.pcs[i].Writing? || MissesAt(keys, events, n, i))
  {
    BeforeNext(keys, events, n);
  }

  lemma {:induction false} HistoryOf(keys: seq<Key>, events: seq<Event>, n: nat, i: nat)
    requires n <= |events| && i < |keys|
    ensures Before(keys, events, n).pcs[i] == Ended(Raised) <==> EndedInException(keys, events, n, i)
    ensures Rows(Before(keys, events, n), keys[i]) > 0 <==> Committed(keys, events, n, keys[i])
    decreases n
  {
    if n > 0 {
      HistoryOf(keys, events, n - 1, i);
      OneEvent(keys, events, n - 1, i);
      hide Before, RaisesAt, CommitsAt;
      assert EndedInException(keys, events, n, i) <==> EndedInException(keys, events, n - 1, i) || RaisesAt(keys, events, n - 1, i);
      assert Committed(keys, events, n, keys[i]) <==> Committed(keys, events, n - 1, keys[i]) || CommitsAt(keys, events, n - 1, keys[i]);
    }
  }

  lemma {:induction false} OneEnd(keys: seq<Key>, s: State, e: Event, i: nat, why: Why)
    requires |s.pcs| == |keys| && i < |keys|
    ensures Next(keys, s, e).pcs[i] == Ended(why) <==> s.pcs[i] == Ended(why) || EndsBy(keys, s, e, i, why)
  {
  }

  lemma {:induction false} EndedUpTo(keys: seq<Key>, events: seq<Event>, n: nat, i: nat, why: Why)
    requires n <= |events| && i < |keys|
    ensures Before(keys, events, n).pcs[i] == Ended(why) <==> EndedBy(keys, events, n, i, why)
    decreases n
  {
    if n > 0 {
      EndedUpTo(keys, events, n - 1, i, why);
      BeforeNext(keys, events, n - 1);
      OneEnd(keys, Before(keys, events, n - 1), events[n - 1], i, why);
      assert EndsAt(keys, events, n - 1, i, why) <==> EndsBy(keys, Before(keys, events, n - 1), events[n - 1], i, why);
      hide Before, EndsAt, Next;
      assert EndedBy(keys, events, n, i, why) <==> EndedBy(keys, events, n - 1, i, why) || EndsAt(keys, events, n - 1, i, why);
    }
  }

  /** In every run, how a delivery ended is what one of its own events made of it. */
  lemma {:induction false} EndedExactly(keys: seq<Key>, events: seq<Event>, i: nat, why: Why)
    requires i < |keys|
    ensures Run(keys, Start(|keys|), events).pcs[i] == Ended(why) <==> EndedBy(keys, events, |events|, i, why)
  {
    EndedUpTo(keys, events, |events|, i, why);
    assert events[..|events|] == events;
  }

  /** How far a delivery has come, and which step takes it there. */
  function Phase(pc: Pc): Option<nat> {
    match pc
    case Missing => Some(0)
    case Ready => Some(1)
    case Writing => Some(2)
    case _ => None
  }

  predicate Takes(e: Event, phase: nat) {
    match e
    case Check(_, works) => works && phase == 0
    case Prepare(_, works) => works && phase == 1
    case InsertHeader(_) => phase == 2
    case _ => false
  }

  /** Steps of i that take it to phase 0, 1, ..., `phase` stand among the first n events, in this order. */
  ghost predicate Came(events: seq<Event>, n: nat, i: nat, phase: nat)
    requires n <= |events|
    decreases phase
  {
    exists a :: 0 <= a < n && events[a].i == i && Takes(events[a], phase) && (phase > 0 ==> Came(events, a, i, phase - 1))
  }

  lemma {:induction false} CameStays(events: seq<Event>, n: nat, i: nat, phase: nat)
    requires n < |events| && Came(events, n, i, phase)
    ensures Came(events, n + 1, i, phase)
  {
  }

  lemma {:induction false} CameNow(events: seq<Event>, n: nat, i: nat, phase: nat)
    requires n < |events| && events[n].i == i && Takes(events[n], phase) && (phase > 0 ==> Came(events, n, i, phase - 1))
    ensures Came(events, n + 1, i, phase)
  {
  }

  lemma {:induction false} PhaseStep(keys: seq<Key>, s: State, e: Event, i: nat)
    requires |s.pcs| == |keys| && i < |keys|
    ensures
      var t := Next(keys, s, e);
      t.pcs[i] == s.pcs[i] || Phase(t.pcs[i]).None?
      || (e.i == i && Takes(e, Phase(t.pcs[i]).value) && Phase(s.pcs[i]) == if Phase(t.pcs[i]).value == 0 then None else Some(Phase(t.pcs[i]).value - 1))
  {
  }

  /** No step is skipped: a delivery that is writing its row found none, then prepared, then inserted. */
  lemma {:induction false} NoStepSkipped(keys: seq<Key>, events: seq<Event>, n: nat, i: nat)
    requires n <= |events| && i < |keys| && Phase(Before(keys, events, n).pcs[i]).Some?
    ensures Came(events, n, i, Phase(Before(keys, events, n).pcs[i]).value)
    decreases n
  {
    if n > 0 {
      var s, t := Before(keys, events, n - 1), Before(keys, events, n);
      BeforeNext(keys, events, n - 1);
      PhaseStep(keys, s, events[n - 1], i);
      hide Before, Next, Takes, Came, Phase;
      if Phase(s.pcs[i]).Some? {
        NoStepSkipped(keys, events, n - 1, i);
      }
      if t.pcs[i] == s.pcs[i] {
        CameStays(events, n - 1, i, Phase(t.pcs[i]).value);
      } else {
        CameNow(events, n - 1, i, Phase(t.pcs[i]).value);
      }
    }
  }

  predicate NobodyWrites(keys: seq<Key>, s: State, k: Key)
    requires |s.pcs| == |keys|
  {
    forall j :: 0 <= j < |keys| && keys[j] == k ==> !s.pcs[j].Writing?
  }

  /** An insert that comes while another delivery is writing its key waits, as if it had not come;
      once that delivery has ended without a row, it goes through. */
  lemma {:induction false} InsertWaits(keys: seq<Key>, events: seq<Event>, a: nat, i: nat, j: nat)
    requires a < |events| && i < |keys| && j < |keys| && i != j && keys[i] == keys[j]
    requires events[a] == InsertHeader(i) && Before(keys, events, a).pcs[i].Ready?
    ensures Before(keys, events, a).pcs[j].Writing? ==> Before(keys, events, a + 1) == Before(keys, events, a)
    ensures Rows(Before(keys, events, a), keys[i]) == 0 && NobodyWrites(keys, Before(keys, events, a), keys[i]) ==>
      Before(keys, events, a + 1).pcs[i].Writing?
  {
    RunKeepsInv(keys, Start(|keys|), events[..a]);
    BeforeNext(keys, events, a);
    var s := Before(keys, events, a);
    assert DeliveryOk(keys, s, j) && KeyOk(keys, s, keys[i]);
    hide Before;
  }

  /** For any number of consumers and redeliveries in any interleaving with deaths: never two
      rows for one key; a trigger is acked only where the row is there or a cap refused the
      delivery in its own transaction, and terminated only after a dead-letter attempt. */
  lemma {:induction false} NormalizedAtMostOnce(keys: seq<Key>, events: seq<Event>, m: Delivery.Meta)
    ensures
      var s := Run(keys, Start(|keys|), events);
      && (forall k :: Rows(s, k) <= 1)
      && forall i :: 0 <= i < |keys| && s.pcs[i].Ended? ==>
        && (Delivery.Ack in Calls(s.pcs[i].why, m) ==>
              Rows(s, keys[i]) == 1 || EndedBy(keys, events, |events|, i, RefusedByCap))
        && (Delivery.Term in Calls(s.pcs[i].why, m) ==> Calls(s.pcs[i].why, m) == [Delivery.DeadLetter, Delivery.Term])
        && (Calls(s.pcs[i].why, m) == [] ==> EndedBy(keys, events, |events|, i, Died))
  {
    RunKeepsInv(keys, Start(|keys|), events);
    var s := Run(keys, Start(|keys|), events);
    forall k ensures Rows(s, k) <= 1 {
      assert KeyOk(keys, s, k);
    }
    forall i | 0 <= i < |keys| && s.pcs[i].Ended?
      ensures Delivery.Ack in Calls(s.pcs[i].why, m) ==> Rows(s, keys[i]) == 1 || EndedBy(keys, events, |events|, i, RefusedByCap)
      ensures Calls(s.pcs[i].why, m) == [] ==> EndedBy(keys, events, |events|, i, Died)
    {
      assert DeliveryOk(keys, s, i);
      EndedExactly(keys, events, i, s.pcs[i].why);
      hide Run, EndedBy;
    }
  }

  /** A delivery dead-letters a trigger whose row is there exactly when one of its own events
      ended it in an exception and, before or after that, somebody's commit went through. */
  lemma {:induction false} DeadLetteredThoughWritten(keys: seq<Key>, events: seq<Event>, i: nat, m: Delivery.Meta)
    requires i < |keys|
    ensures
      var s := Run(keys, Start(|keys|), events);
      s.pcs[i].Ended? && Delivery.DeadLetter in Calls(s.pcs[i].why, m) && Rows(s, keys[i]) == 1
      <==> EndedInException(keys, events, |events|, i) && Committed(keys, events, |events|, keys[i])
  {
    HistoryOf(keys, events, |events|, i);
    NormalizedAtMostOnce(keys, events, m);
    assert events[..|events|] == events;
  }

  lemma {:induction false} CameFromMissing(keys: seq<Key>, events: seq<Event>, n: nat, i: nat) returns (c: nat)
    requires n <= |events| && i < |keys|
    requires var pc := Before(keys, events, n).pcs[i]; pc.Missing? || pc.Ready? || pc.Writing?
    ensures c < n && MissesAt(keys, events, c, i)
    decreases n
  {
    c := n - 1;
    OneEvent(keys, events, n - 1, i);
    if !MissesAt(keys, events, n - 1, i) {
      c := CameFromMissing(keys, events, n - 1, i);
    }
  }

  lemma {:induction false} CommitsStay(keys: seq<Key>, events: seq<Event>, b: nat, n: nat, k: Key)
    requires b < n <= |events| && CommitsAt(keys, events, b, k)
    ensures Rows(Before(keys, events, n), k) > 0
    decreases n
  {
    BeforeNext(keys, events, n - 1);
    if b < n - 1 {
      CommitsStay(keys, events, b, n - 1, k);
    }
  }

  /** An insert loses the race exactly when a commit for its key fell between its delivery's
      check and itself. */
  lemma {:induction false} RaceLostExactly(keys: seq<Key>, events: seq<Event>, a: nat, i: nat)
    requires a < |events| && i < |keys| && events[a] == InsertHeader(i) && Before(keys, events, a).pcs[i].Ready?
    ensures RaisesAt(keys, events, a, i) <==>
      exists c, b :: 0 <= c < b < a && MissesAt(keys, events, c, i) && CommitsAt(keys, events, b, keys[i])
  {
    HistoryOf(keys, events, a, i);
    var c := CameFromMissing(keys, events, a, i);
    if b :| 0 <= b < a && CommitsAt(keys, events, b, keys[i]) {
      if b < c {
        CommitsStay(keys, events, b, c, keys[i]);
      }
      assert b != c;
      assert c < b;
    }
  }

  /** Such a run: the second consumer dead-letters a trigger whose row the first has written. */
  lemma {:induction false} LoserDeadLetters(k: Key, m: Delivery.Meta)
    ensures
      var s := Run([k, k], Start(2), [Check(0, true), Check(1, true), Prepare(0, true), Prepare(1, true), InsertHeader(0), End(0, Commit), InsertHeader(1)]);
      Rows(s, k) == 1 && s.pcs[1] == Ended(Raised) && Delivery.DeadLetter in Calls(Raised, m)
  {
    var keys, s0 := [k, k], Start(2);
    var s1 := Next(keys, Next(keys, s0, Check(0, true)), Check(1, true));
    var s2 := Next(keys, Next(keys, s1, Prepare(0, true)), Prepare(1, true));
    var s3 := Next(keys, Next(keys, s2, InsertHeader(0)), End(0, Commit));
    var all := [Check(0, true), Check(1, true), Prepare(0, true), Prepare(1, true), InsertHeader(0), End(0, Commit), InsertHeader(1)];
    RunTwo(keys, s0, all);
    RunTwo(keys, s1, all[2..]);
    RunTwo(keys, s2, all[4..]);
    assert all[6..] == [InsertHeader(1)] && all[6..][1..] == [];
    assert Run(keys, s3, all[6..]) == Next(keys, s3, InsertHeader(1));
  }

  lemma {:induction false} RunTwo(keys: seq<Key>, s: State, es: seq<Event>)
    requires |s.pcs| == |keys| && |es| >= 2
    ensures Run(keys, s, es) == Run(keys, Next(keys, Next(keys, s, es[0]), es[1]), es[2..])
  {
    assert es[1..][0] == es[1] && es[1..][1..] == es[2..];
  }

  // ---- the function itself, with the other consumers in between -----------------------------------

  ghost predicate NotBy(i: nat, events: seq<Event>) {
    forall k :: 0 <= k < |events| ==> events[k].i != i
  }

  lemma {:induction false} OthersLeaveMe(keys: seq<Key>, s: State, i: nat, events: seq<Event>)
    requires |s.pcs| == |keys| && i < |keys| && NotBy(i, events)
    ensures Run(keys, s, events).pcs[i] == s.pcs[i]
    decreases |events|
  {
    if events != [] {
      assert Next(keys, s, events[0]).pcs[i] == s.pcs[i];
      OthersLeaveMe(keys, Next(keys, s, events[0]), i, events[1..]);
    }
  }

  lemma {:induction false} RunConcat(keys: seq<Key>, s: State, a: seq<Event>, b: seq<Event>)
    requires |s.pcs| == |keys|
    ensures Run(keys, s, a + b) == Run(keys, Run(keys, s, a), b)
    decreases |a|
  {
    if a == [] {
      assert a + b == b;
    } else {
      assert (a + b)[0] == a[0] && (a + b)[1..] == a[1..] + b;
      RunConcat(keys, Next(keys, s, a[0]), a[1..], b);
    }
  }

  class Database {
    const keys: seq<Key>
    var state: State
    ghost var history: seq<Event>

    constructor (keys: seq<Key>)
      ensures this.keys == keys && Valid() && state == Start(|keys|) && history == []
    {
      this.keys := keys;
      state, history := Start(|keys|), [];
    }

    /** The state is what the history of steps makes of the start. */
    ghost predicate Valid()
      reads this
    {
      |state.pcs| == |keys| && state == Run(keys, Start(|keys|), history)
    }

    method Do(e: Event)
      requires Valid()
      modifies this`state, this`history
      ensures Valid() && state == Next(keys, old(state), e) && history == old(history) + [e]
    {
      RunConcat(keys, Start(|keys|), history, [e]);
      assert [e][1..] == [];
      assert Run(keys, state, [e]) == Run(keys, Next(keys, state, e), []);
      state, history := Next(keys, state, e), history + [e];
    }

    method Others(i: nat, events: seq<Event>)
      requires Valid() && i < |keys| && NotBy(i, events)
      modifies this`state, this`history
      ensures Valid() && history == old(history) + events && state.pcs[i] == old(state.pcs[i])
    {
      OthersLeaveMe(keys, state, i, events);
      RunConcat(keys, Start(|keys|), history, events);
      state, history := Run(keys, state, events), history + events;
    }

    /** `handle_trigger` for delivery i, with any steps of the others in between. It may be kept
        waiting for the key; if it returns, it says how its delivery ended. */
    method HandleTrigger(i: nat, checked: bool, prepared: bool, how: Finish, others: nat -> seq<Event>) returns (why: Option<Why>)
      requires Valid() && i < |keys| && state.pcs[i] == Idle
      requires forall k :: NotBy(i, others(k))
      modifies this`state, this`history
      ensures Valid() && old(history) <= history
      ensures why.Some? ==> state.pcs[i] == Ended(why.value)
      ensures why.None? ==> state.pcs[i] == Ready && keys[i] in state.inserting
      ensures !checked ==> why == Some(Raised)
      ensures checked && !prepared ==> why == Some(AlreadyThere) || why == Some(Raised)
      ensures why == Some(Wrote) ==> how == Commit
      ensures why == Some(RefusedByCap) ==> how == Refuse
    {
      hide Run, NotBy;
      Others(i, others(0));
      Do(Check(i, checked));
      if !checked {
        return Some(Raised);
      }
      if state.pcs[i] == Ended(AlreadyThere) {
        return Some(AlreadyThere);
      }
      Others(i, others(1));
      Do(Prepare(i, prepared));
      if !prepared {
        return Some(Raised);
      }
      why := Insert(i, how, others);
    }

    /** The transaction: the header row first, then everything under it. */
    method Insert(i: nat, how: Finish, others: nat -> seq<Event>) returns (why: Option<Why>)
      requires Valid() && i < |keys| && state.pcs[i] == Ready
      requires forall k :: NotBy(i, others(k))
      modifies this`state, this`history
      ensures Valid() && old(history) <= history
      ensures why.Some? ==> state.pcs[i] == Ended(why.value)
      ensures why.None? ==> state.pcs[i] == Ready && keys[i] in state.inserting
      ensures why == Some(Wrote) ==> how == Commit
      ensures why == Some(RefusedByCap) ==> how == Refuse
      ensures why != Some(AlreadyThere) && why != Some(Died)
    {
      hide Run, NotBy;
      Others(i, others(2));
      Do(InsertHeader(i));
      if state.pcs[i] != Writing {
        return if state.pcs[i] == Ready then None else Some(Raised);
      }
      Others(i, others(3));
      Do(End(i, how));
      why := Some(match how case Commit => Wrote case CommitUnseen => Raised case Refuse => RefusedByCap case Fail => Raised);
    }
  }
}
